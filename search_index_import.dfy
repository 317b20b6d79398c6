/** The search-index import of `reconng_import`: every row of a recon-ng
    `hosts` table is indexed as a `host` document unless it repeats its host
    name's first recorded IP. Dedup state is the per-run dictionary `host_dict`
    (host name to list of IPs), which starts empty on every run. The index is a
    ghost sequence of the documents sent to it, without their timestamps. */
module SearchIndexImport {
  import opened ReconData

  /** The body `add_host` indexes, without its wall-clock timestamp. */
  datatype HostDoc = HostDoc(ipAddress: string, hostname: string, source: string, workspace: string)

  /** The state of one run of the loop: `host_dict`, the documents emitted by
      this run, and the two counters. */
  datatype RunState = RunState(hostDict: map<string, seq<string>>, docs: seq<HostDoc>, newHosts: nat, duplicateHosts: nat)

  function Doc(row: Row, workspace: string): HostDoc {
    HostDoc(row.ipAddress, row.host, row.source, workspace)
  }

  // ---------------------------------------------------------------------------
  // Reference: the first IP seen for a host name
  // ---------------------------------------------------------------------------

  /** The IP of the first row whose host name is `h`, if any. */
  function FirstIp(rows: seq<Row>, h: string): (r: Option<string>)
    ensures r.None? <==> forall k :: 0 <= k < |rows| ==> rows[k].host != h
    ensures r.Some? ==> exists k :: 0 <= k < |rows| && rows[k].host == h && rows[k].ipAddress == r.value &&
                                  forall j :: 0 <= j < k ==> rows[j].host != h
  {
    if rows == [] then None
    else if rows[0].host == h then Some(rows[0].ipAddress)
    else
      var r := FirstIp(rows[1..], h);
      assert r.Some? ==> exists k :: 1 <= k < |rows| && rows[k].host == h && rows[k].ipAddress == r.value &&
                                     forall j :: 0 <= j < k ==> rows[j].host != h by {
        if r.Some? {
          var k :| 0 <= k < |rows[1..]| && rows[1..][k].host == h && rows[1..][k].ipAddress == r.value &&
                   forall j :: 0 <= j < k ==> rows[1..][j].host != h;
          assert forall j :: 1 <= j < k + 1 ==> rows[j] == rows[1..][j - 1];
        }
      }
      r
  }

  /** Appending a row changes the first IP only of a host name not seen before. */
  lemma {:induction false} FirstIpSnoc(rows: seq<Row>, r: Row, h: string)
    ensures FirstIp(rows + [r], h) ==
      if FirstIp(rows, h).Some? then FirstIp(rows, h)
      else if r.host == h then Some(r.ipAddress)
      else None
  {
    if rows != [] {
      assert (rows + [r])[1..] == rows[1..] + [r];
      FirstIpSnoc(rows[1..], r, h);
    }
  }

  // ---------------------------------------------------------------------------
  // The loop as written
  // ---------------------------------------------------------------------------

  /** One iteration of the loop of `reconng_import`. The second branch indexes
      the row but leaves `host_dict` as it is. */
  function Step(st: RunState, row: Row, workspace: string): RunState {
    if row.host !in st.hostDict then
      RunState(st.hostDict[row.host := [row.ipAddress]], st.docs + [Doc(row, workspace)], st.newHosts + 1, st.duplicateHosts)
    else if row.ipAddress !in st.hostDict[row.host] then
      st.(docs := st.docs + [Doc(row, workspace)], newHosts := st.newHosts + 1)
    else
      st.(duplicateHosts := st.duplicateHosts + 1)
  }

  /** A whole run over `rows`, from an empty `host_dict`. */
  function Run(rows: seq<Row>, workspace: string): RunState
    decreases |rows|
  {
    if rows == [] then RunState(map[], [], 0, 0)
    else Step(Run(rows[..|rows| - 1], workspace), rows[|rows| - 1], workspace)
  }

  /** Every row is counted once, `new_hosts` is the number of documents emitted,
      and every document is one of the rows under the run's workspace. */
  lemma {:induction false} RunCounts(rows: seq<Row>, workspace: string)
    ensures var st := Run(rows, workspace);
      st.newHosts + st.duplicateHosts == |rows| && st.newHosts == |st.docs|
    ensures var st := Run(rows, workspace);
      forall i :: 0 <= i < |st.docs| ==> exists k :: 0 <= k < |rows| && st.docs[i] == Doc(rows[k], workspace)
    decreases |rows|
  {
    if rows != [] {
      var before := rows[..|rows| - 1];
      RunCounts(before, workspace);
      var p := Run(before, workspace);
      var st := Run(rows, workspace);
      forall i | 0 <= i < |st.docs| ensures exists k :: 0 <= k < |rows| && st.docs[i] == Doc(rows[k], workspace) {
        if i < |p.docs| {
          var k :| 0 <= k < |before| && p.docs[i] == Doc(before[k], workspace);
          assert st.docs[i] == p.docs[i] && before[k] == rows[k];
        } else {
          assert st.docs[i] == Doc(rows[|rows| - 1], workspace);
        }
      }
    }
  }

  /** `host_dict` holds exactly the host names seen so far, each with exactly
      one IP: the first one seen for it. */
  lemma {:induction false} DictHoldsFirstIp(rows: seq<Row>, workspace: string)
    ensures var d := Run(rows, workspace).hostDict;
      forall h :: (h in d <==> FirstIp(rows, h).Some?) && (h in d ==> d[h] == [FirstIp(rows, h).value])
    decreases |rows|
  {
    if rows != [] {
      var before := rows[..|rows| - 1];
      var last := rows[|rows| - 1];
      assert rows == before + [last];
      DictHoldsFirstIp(before, workspace);
      forall h ensures FirstIp(rows, h) == if FirstIp(before, h).Some? then FirstIp(before, h)
                                           else if last.host == h then Some(last.ipAddress) else None {
        FirstIpSnoc(before, last, h);
      }
    }
  }

  /** What the next row does, stated through the first IP of its host name:
      an unseen name is indexed and recorded with this IP; a name seen with a
      different first IP is indexed again, however often the same row occurred
      before; a row repeating its name's first IP emits nothing and only counts
      as a duplicate. */
  lemma NextRow(rows: seq<Row>, row: Row, workspace: string)
    ensures var p, st := Run(rows, workspace), Run(rows + [row], workspace);
      (FirstIp(rows, row.host).None? ==>
         st.docs == p.docs + [Doc(row, workspace)] && st.newHosts == p.newHosts + 1 &&
         st.duplicateHosts == p.duplicateHosts && st.hostDict[row.host] == [row.ipAddress]) &&
      (FirstIp(rows, row.host).Some? && FirstIp(rows, row.host).value != row.ipAddress ==>
         st.docs == p.docs + [Doc(row, workspace)] && st.newHosts == p.newHosts + 1 &&
         st.duplicateHosts == p.duplicateHosts && st.hostDict == p.hostDict) &&
      (FirstIp(rows, row.host) == Some(row.ipAddress) ==>
         st.docs == p.docs && st.newHosts == p.newHosts &&
         st.duplicateHosts == p.duplicateHosts + 1 && st.hostDict == p.hostDict)
  {
    assert (rows + [row])[..|rows|] == rows;
    DictHoldsFirstIp(rows, workspace);
  }

  // ---------------------------------------------------------------------------
  // Finding: the second branch never records the new IP
  // ---------------------------------------------------------------------------

  /** As written, a row pairing a known host name with a second IP is indexed
      each time it occurs: three rows `a/1, a/2, a/2` give three documents, two
      of them for the same pair `a/2`, and no duplicate. */
  lemma RepeatedPairIndexedTwice()
    ensures var a1, a2 := Row("a", "1", "s"), Row("a", "2", "s");
      var st := Run([a1, a2, a2], "w");
      st.docs == [Doc(a1, "w"), Doc(a2, "w"), Doc(a2, "w")] &&
      st.newHosts == 3 && st.duplicateHosts == 0
  {
    var a1, a2 := Row("a", "1", "s"), Row("a", "2", "s");
    assert [a1, a2, a2][..2] == [a1, a2] && [a1, a2][..1] == [a1] && [a1][..0] == [];
    assert Run([a1], "w").hostDict == map["a" := ["1"]];
    assert Run([a1, a2], "w").hostDict == map["a" := ["1"]];
  }

  /** The evident intent of the second branch ("the host has been seen, but
      the IP has not"): record the new IP as well. */
  function IntendedStep(st: RunState, row: Row, workspace: string): RunState {
    if row.host !in st.hostDict then
      RunState(st.hostDict[row.host := [row.ipAddress]], st.docs + [Doc(row, workspace)], st.newHosts + 1, st.duplicateHosts)
    else if row.ipAddress !in st.hostDict[row.host] then
      RunState(st.hostDict[row.host := st.hostDict[row.host] + [row.ipAddress]], st.docs + [Doc(row, workspace)],
               st.newHosts + 1, st.duplicateHosts)
    else
      st.(duplicateHosts := st.duplicateHosts + 1)
  }

  function IntendedRun(rows: seq<Row>, workspace: string): RunState
    decreases |rows|
  {
    if rows == [] then RunState(map[], [], 0, 0)
    else IntendedStep(IntendedRun(rows[..|rows| - 1], workspace), rows[|rows| - 1], workspace)
  }

  /** Some document of `docs` is for host name `h` and IP `ip`. */
  ghost predicate Indexed(docs: seq<HostDoc>, h: string, ip: string) {
    exists i :: 0 <= i < |docs| && docs[i].hostname == h && docs[i].ipAddress == ip
  }

  /** Some row of `rows` has host name `h` and IP `ip`. */
  ghost predicate Observed(rows: seq<Row>, h: string, ip: string) {
    exists k :: 0 <= k < |rows| && rows[k].host == h && rows[k].ipAddress == ip
  }

  /** With the corrected branch, each distinct host-name/IP pair of the rows is
      indexed exactly once, `host_dict` lists exactly the indexed pairs, and the
      counters still add up. */
  lemma {:induction false} IntendedIndexesEachPairOnce(rows: seq<Row>, workspace: string)
    ensures var st := IntendedRun(rows, workspace);
      forall i, j :: 0 <= i < j < |st.docs| ==>
        (st.docs[i].hostname, st.docs[i].ipAddress) != (st.docs[j].hostname, st.docs[j].ipAddress)
    ensures var st := IntendedRun(rows, workspace);
      forall h, ip :: Indexed(st.docs, h, ip) <==> Observed(rows, h, ip)
    ensures var st := IntendedRun(rows, workspace);
      forall h, ip :: (h in st.hostDict && ip in st.hostDict[h]) <==> Indexed(st.docs, h, ip)
    ensures var st := IntendedRun(rows, workspace);
      st.newHosts == |st.docs| && st.newHosts + st.duplicateHosts == |rows|
    decreases |rows|
  {
    if rows != [] {
      var before := rows[..|rows| - 1];
      var row := rows[|rows| - 1];
      IntendedIndexesEachPairOnce(before, workspace);
      var p := IntendedRun(before, workspace);
      var st := IntendedRun(rows, workspace);
      var unseen := !(row.host in p.hostDict && row.ipAddress in p.hostDict[row.host]);
      assert unseen <==> !Indexed(p.docs, row.host, row.ipAddress);
      if unseen {
        assert st.docs == p.docs + [Doc(row, workspace)];
        forall h, ip ensures Indexed(st.docs, h, ip) <==> Indexed(p.docs, h, ip) || (h == row.host && ip == row.ipAddress) {
          if Indexed(p.docs, h, ip) {
            var i :| 0 <= i < |p.docs| && p.docs[i].hostname == h && p.docs[i].ipAddress == ip;
            assert st.docs[i] == p.docs[i];
          }
          if Indexed(st.docs, h, ip) && !(h == row.host && ip == row.ipAddress) {
            var i :| 0 <= i < |st.docs| && st.docs[i].hostname == h && st.docs[i].ipAddress == ip;
            assert i < |p.docs| && st.docs[i] == p.docs[i];
          }
          if h == row.host && ip == row.ipAddress {
            assert st.docs[|p.docs|].hostname == h && st.docs[|p.docs|].ipAddress == ip;
          }
        }
      } else {
        assert st.docs == p.docs;
      }
      forall h, ip ensures Observed(rows, h, ip) <==> Observed(before, h, ip) || (h == row.host && ip == row.ipAddress) {
        if Observed(before, h, ip) {
          var k :| 0 <= k < |before| && before[k].host == h && before[k].ipAddress == ip;
          assert rows[k] == before[k];
        }
        if Observed(rows, h, ip) && !(h == row.host && ip == row.ipAddress) {
          var k :| 0 <= k < |rows| && rows[k].host == h && rows[k].ipAddress == ip;
          assert k < |before| && rows[k] == before[k];
        }
      }
    }
  }

  // ---------------------------------------------------------------------------
  // The index and the import as the program runs them
  // ---------------------------------------------------------------------------

  /** The Elasticsearch index `bug_bounty`, seen as the `host` documents sent to it. */
  class SearchIndex {
    ghost var documents: seq<HostDoc>

    constructor ()
      ensures documents == []
    {
      documents := [];
    }

    /** `add_host`: index one `host` document. */
    method AddHost(ipAddress: string, hostname: string, source: string, workspace: string)
      modifies this
      ensures documents == old(documents) + [HostDoc(ipAddress, hostname, source, workspace)]
    {
      documents := documents + [HostDoc(ipAddress, hostname, source, workspace)];
    }
  }

  /** `reconng_import` once the workspace database is local: one pass over the
      rows with a fresh `host_dict`, indexing through `add_host`. */
  method ReconngImport(index: SearchIndex, rows: seq<Row>, workspace: string) returns (newHosts: nat, duplicateHosts: nat)
    modifies index
    ensures index.documents == old(index.documents) + Run(rows, workspace).docs
    ensures newHosts == Run(rows, workspace).newHosts && duplicateHosts == Run(rows, workspace).duplicateHosts
    ensures newHosts + duplicateHosts == |rows| && newHosts == |index.documents| - |old(index.documents)|
  {
    ghost var before := index.documents;
    var hostDict: map<string, seq<string>> := map[];
    newHosts, duplicateHosts := 0, 0;
    for i := 0 to |rows|
      invariant |before| <= |index.documents| && index.documents[..|before|] == before
      invariant RunState(hostDict, index.documents[|before|..], newHosts, duplicateHosts) == Run(rows[..i], workspace)
    {
      assert rows[..i + 1][..i] == rows[..i];
      var row := rows[i];
      ghost var docs := index.documents;
      if row.host !in hostDict {
        hostDict := hostDict[row.host := [row.ipAddress]];
        index.AddHost(row.ipAddress, row.host, row.source, workspace);
        newHosts := newHosts + 1;
      } else if row.ipAddress !in hostDict[row.host] {
        index.AddHost(row.ipAddress, row.host, row.source, workspace);
        newHosts := newHosts + 1;
      } else {
        duplicateHosts := duplicateHosts + 1;
      }
      assert index.documents[|before|..] == docs[|before|..] + (index.documents[|docs|..]);
    }
    assert rows[..|rows|] == rows;
    assert index.documents == before + index.documents[|before|..];
    RunCounts(rows, workspace);
  }
}
