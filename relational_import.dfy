/** The relational import of `import_to_db`: every row of a recon-ng `hosts`
    table is merged into the local `Host` / `Althosts` tables and classified as
    a new host, a new alternate host of the first host with the row's IP, or a
    duplicate. The store is an in-memory pair of sequences; a host's id is its
    position in `hosts` (hosts are only ever appended). */
module RelationalImport {
  import opened ReconData

  /** A `Host` record: host name, IP address, source module and workspace. */
  datatype Host = Host(host: string, ipAddress: string, source: string, workspace: string)

  /** An `Althosts` record: a further name for the host at position `hostId`. */
  datatype AltHost = AltHost(hostname: string, source: string, hostId: nat)

  /** The local database: the two tables, in insertion order. */
  datatype Store = Store(hosts: seq<Host>, altHosts: seq<AltHost>)

  /** What happens to one row. */
  datatype Outcome = NewHost | NewAltHost(hostId: nat) | Duplicate

  /** The three counters `import_to_db` reports. */
  datatype Stats = Stats(newHosts: nat, newAltHosts: nat, duplicates: nat)

  // ---------------------------------------------------------------------------
  // Queries
  // ---------------------------------------------------------------------------

  /** `f` is the position of the first host whose IP is `ip`. */
  ghost predicate IsFirstWithIp(hosts: seq<Host>, f: nat, ip: string) {
    f < |hosts| && hosts[f].ipAddress == ip &&
    forall j :: 0 <= j < f ==> hosts[j].ipAddress != ip
  }

  /** No host has the IP `ip`. */
  ghost predicate IpAbsent(hosts: seq<Host>, ip: string) {
    forall i :: 0 <= i < |hosts| ==> hosts[i].ipAddress != ip
  }

  /** The query `Host.ip_address == ip` followed by `.first()`. */
  function FirstWithIp(hosts: seq<Host>, ip: string): (r: Option<nat>)
    ensures r.None? <==> IpAbsent(hosts, ip)
    ensures r.Some? ==> IsFirstWithIp(hosts, r.value, ip)
  {
    if |hosts| == 0 then None
    else if hosts[0].ipAddress == ip then Some(0)
    else match FirstWithIp(hosts[1..], ip)
      case None => None
      case Some(k) => Some(k + 1)
  }

  /** Some alternate host of host `hostId` is called `hostname`. */
  predicate HasAlt(altHosts: seq<AltHost>, hostId: nat, hostname: string) {
    exists k :: 0 <= k < |altHosts| && altHosts[k].hostId == hostId && altHosts[k].hostname == hostname
  }

  /** Every alternate host refers to a host that exists. */
  ghost predicate WellLinked(s: Store) {
    forall k :: 0 <= k < |s.altHosts| ==> s.altHosts[k].hostId < |s.hosts|
  }

  /** No two hosts share an IP address. */
  ghost predicate UniqueIps(hosts: seq<Host>) {
    forall i, j :: 0 <= i < j < |hosts| ==> hosts[i].ipAddress != hosts[j].ipAddress
  }

  /** `s` is `t` with rows appended to either table. */
  ghost predicate Extends(t: Store, s: Store) {
    |t.hosts| <= |s.hosts| && s.hosts[..|t.hosts|] == t.hosts &&
    |t.altHosts| <= |s.altHosts| && s.altHosts[..|t.altHosts|] == t.altHosts
  }

  // ---------------------------------------------------------------------------
  // One row
  // ---------------------------------------------------------------------------

  /** The branch `import_to_db` takes for `row`. */
  function Classify(s: Store, row: Row): (o: Outcome)
    ensures o.NewHost? <==> IpAbsent(s.hosts, row.ipAddress)
    ensures o.NewAltHost? ==>
      IsFirstWithIp(s.hosts, o.hostId, row.ipAddress) &&
      s.hosts[o.hostId].host != row.host && !HasAlt(s.altHosts, o.hostId, row.host)
    ensures o.Duplicate? <==>
      exists f: nat :: IsFirstWithIp(s.hosts, f, row.ipAddress) &&
        (s.hosts[f].host == row.host || HasAlt(s.altHosts, f, row.host))
  {
    match FirstWithIp(s.hosts, row.ipAddress)
    case None => NewHost
    case Some(f) =>
      FirstIsUnique(s.hosts, row.ipAddress, f);
      if !HasAlt(s.altHosts, f, row.host) && s.hosts[f].host != row.host then NewAltHost(f)
      else Duplicate
  }

  /** The store after `row` has been imported into `s` under `workspace`. */
  function ApplyRow(s: Store, row: Row, workspace: string): (r: Store)
    ensures IpAbsent(s.hosts, row.ipAddress) ==>
      r == Store(s.hosts + [Host(row.host, row.ipAddress, row.source, workspace)], s.altHosts)
    ensures forall f: nat {:trigger IsFirstWithIp(s.hosts, f, row.ipAddress)} ::
      IsFirstWithIp(s.hosts, f, row.ipAddress) && s.hosts[f].host != row.host && !HasAlt(s.altHosts, f, row.host) ==>
        r == Store(s.hosts, s.altHosts + [AltHost(row.host, row.source, f)])
    ensures forall f: nat {:trigger IsFirstWithIp(s.hosts, f, row.ipAddress)} ::
      IsFirstWithIp(s.hosts, f, row.ipAddress) && (s.hosts[f].host == row.host || HasAlt(s.altHosts, f, row.host)) ==>
        r == s
    ensures WellLinked(s) ==> WellLinked(r)
  {
    var o := Classify(s, row);
    if o.Duplicate? then
      FirstIsUniqueAll(s.hosts, row.ipAddress);
      s
    else if o.NewHost? then
      Store(s.hosts + [Host(row.host, row.ipAddress, row.source, workspace)], s.altHosts)
    else
      FirstIsUniqueAll(s.hosts, row.ipAddress);
      Store(s.hosts, s.altHosts + [AltHost(row.host, row.source, o.hostId)])
  }

  /** Adds one outcome to the counters. */
  function Tally(st: Stats, o: Outcome): Stats {
    match o
    case NewHost => st.(newHosts := st.newHosts + 1)
    case NewAltHost(_) => st.(newAltHosts := st.newAltHosts + 1)
    case Duplicate => st.(duplicates := st.duplicates + 1)
  }

  // ---------------------------------------------------------------------------
  // A whole table of rows, in cursor order
  // ---------------------------------------------------------------------------

  /** The store after importing `rows` in order into `s`. */
  function ApplyRows(s: Store, rows: seq<Row>, workspace: string): Store
    decreases |rows|
  {
    if rows == [] then s
    else ApplyRow(ApplyRows(s, rows[..|rows| - 1], workspace), rows[|rows| - 1], workspace)
  }

  /** The counters after importing `rows` in order into `s`. */
  function RowStats(s: Store, rows: seq<Row>, workspace: string): Stats
    decreases |rows|
  {
    if rows == [] then Stats(0, 0, 0)
    else
      var before := rows[..|rows| - 1];
      Tally(RowStats(s, before, workspace), Classify(ApplyRows(s, before, workspace), rows[|rows| - 1]))
  }

  // ---------------------------------------------------------------------------
  // Lemmas
  // ---------------------------------------------------------------------------

  /** At most one position is the first with a given IP. */
  lemma FirstIsUnique(hosts: seq<Host>, ip: string, f: nat)
    requires IsFirstWithIp(hosts, f, ip)
    ensures forall g: nat :: IsFirstWithIp(hosts, g, ip) ==> g == f
  {
    forall g: nat | IsFirstWithIp(hosts, g, ip) ensures g == f {
      assert hosts[g].ipAddress == ip && hosts[f].ipAddress == ip;
    }
  }

  lemma FirstIsUniqueAll(hosts: seq<Host>, ip: string)
    ensures forall f: nat, g: nat :: IsFirstWithIp(hosts, f, ip) && IsFirstWithIp(hosts, g, ip) ==> f == g
  {
    forall f: nat, g: nat | IsFirstWithIp(hosts, f, ip) && IsFirstWithIp(hosts, g, ip) ensures f == g {
      FirstIsUnique(hosts, ip, f);
    }
  }

  /** Every row is counted exactly once; the new-host and new-alt-host counters
      are the numbers of records appended to the two tables, the new records are
      appended after the old ones, every new host carries the workspace, and
      zero rows leave the store untouched with all counters at zero. */
  lemma {:induction false} ImportCounts(s: Store, rows: seq<Row>, workspace: string)
    ensures var st := RowStats(s, rows, workspace);
      st.newHosts + st.newAltHosts + st.duplicates == |rows|
    ensures var st, r := RowStats(s, rows, workspace), ApplyRows(s, rows, workspace);
      Extends(s, r) &&
      |r.hosts| == |s.hosts| + st.newHosts &&
      |r.altHosts| == |s.altHosts| + st.newAltHosts
    ensures var r := ApplyRows(s, rows, workspace);
      forall i :: |s.hosts| <= i < |r.hosts| ==> r.hosts[i].workspace == workspace
    ensures rows == [] ==> ApplyRows(s, rows, workspace) == s && RowStats(s, rows, workspace) == Stats(0, 0, 0)
    decreases |rows|
  {
    if rows != [] {
      var before := rows[..|rows| - 1];
      var last := rows[|rows| - 1];
      ImportCounts(s, before, workspace);
      var p := ApplyRows(s, before, workspace);
      var o := Classify(p, last);
      var r := ApplyRow(p, last, workspace);
      match o {
        case NewHost =>
          assert r.hosts == p.hosts + [Host(last.host, last.ipAddress, last.source, workspace)];
          assert r.hosts[..|s.hosts|] == p.hosts[..|s.hosts|];
        case NewAltHost(f) =>
          assert r.altHosts == p.altHosts + [AltHost(last.host, last.source, f)];
          assert r.altHosts[..|s.altHosts|] == p.altHosts[..|s.altHosts|];
        case Duplicate =>
      }
    }
  }

  /** Importing never gives an IP to a second host, so a store whose hosts have
      distinct IPs keeps that property. */
  lemma {:induction false} ImportKeepsIpsUnique(s: Store, rows: seq<Row>, workspace: string)
    requires UniqueIps(s.hosts)
    ensures UniqueIps(ApplyRows(s, rows, workspace).hosts)
    decreases |rows|
  {
    if rows != [] {
      var before := rows[..|rows| - 1];
      var last := rows[|rows| - 1];
      ImportKeepsIpsUnique(s, before, workspace);
      var p := ApplyRows(s, before, workspace);
      if Classify(p, last).NewHost? {
        var h := p.hosts + [Host(last.host, last.ipAddress, last.source, workspace)];
        forall i, j | 0 <= i < j < |h| ensures h[i].ipAddress != h[j].ipAddress {
          if j < |p.hosts| {
            assert h[i] == p.hosts[i] && h[j] == p.hosts[j];
          } else {
            assert h[i] == p.hosts[i];
          }
        }
      }
    }
  }

  /** The record `row` is `Covered` in `s` when importing it again is a duplicate. */
  ghost predicate Covered(s: Store, row: Row) {
    Classify(s, row).Duplicate?
  }

  /** Importing any row keeps every covered row covered. */
  lemma ApplyRowKeepsCovered(s: Store, row: Row, other: Row, workspace: string)
    requires Covered(s, row)
    ensures Covered(ApplyRow(s, other, workspace), row)
  {
    var f: nat :| IsFirstWithIp(s.hosts, f, row.ipAddress) &&
      (s.hosts[f].host == row.host || HasAlt(s.altHosts, f, row.host));
    var r := ApplyRow(s, other, workspace);
    assert r.hosts[..|s.hosts|] == s.hosts by { ImportCounts(s, [other], workspace); assert [other][..0] == []; }
    assert IsFirstWithIp(r.hosts, f, row.ipAddress) by {
      forall j | 0 <= j < f ensures r.hosts[j].ipAddress != row.ipAddress {
        assert r.hosts[j] == s.hosts[j];
      }
      assert r.hosts[f] == s.hosts[f];
    }
    if HasAlt(s.altHosts, f, row.host) {
      var k :| 0 <= k < |s.altHosts| && s.altHosts[k].hostId == f && s.altHosts[k].hostname == row.host;
      assert r.altHosts[..|s.altHosts|] == s.altHosts by { ImportCounts(s, [other], workspace); assert [other][..0] == []; }
      assert r.altHosts[k] == s.altHosts[k];
      assert HasAlt(r.altHosts, f, row.host);
    }
  }

  /** Once a row has been imported, importing it again is a duplicate. */
  lemma ApplyRowCovers(s: Store, row: Row, workspace: string)
    ensures Covered(ApplyRow(s, row, workspace), row)
  {
    var r := ApplyRow(s, row, workspace);
    match Classify(s, row) {
      case NewHost =>
        var f := |s.hosts|;
        assert r.hosts[f] == Host(row.host, row.ipAddress, row.source, workspace);
        assert IsFirstWithIp(r.hosts, f, row.ipAddress) by {
          forall j | 0 <= j < f ensures r.hosts[j].ipAddress != row.ipAddress {
            assert r.hosts[j] == s.hosts[j];
          }
        }
      case NewAltHost(f) =>
        assert IsFirstWithIp(r.hosts, f, row.ipAddress);
        assert r.altHosts[|s.altHosts|] == AltHost(row.host, row.source, f);
        assert HasAlt(r.altHosts, f, row.host);
      case Duplicate =>
    }
  }

  /** After an import, every imported row is covered. */
  lemma {:induction false} ImportCoversRows(s: Store, rows: seq<Row>, workspace: string)
    ensures forall k :: 0 <= k < |rows| ==> Covered(ApplyRows(s, rows, workspace), rows[k])
    decreases |rows|
  {
    if rows != [] {
      var before := rows[..|rows| - 1];
      var last := rows[|rows| - 1];
      ImportCoversRows(s, before, workspace);
      var p := ApplyRows(s, before, workspace);
      forall k | 0 <= k < |rows| ensures Covered(ApplyRow(p, last, workspace), rows[k]) {
        if k < |rows| - 1 {
          assert rows[k] == before[k];
          ApplyRowKeepsCovered(p, rows[k], last, workspace);
        } else {
          ApplyRowCovers(p, last, workspace);
        }
      }
    }
  }

  /** Rows that are all covered change nothing and are all duplicates. */
  lemma {:induction false} CoveredRowsAreDuplicates(s: Store, rows: seq<Row>, workspace: string)
    requires forall k :: 0 <= k < |rows| ==> Covered(s, rows[k])
    ensures ApplyRows(s, rows, workspace) == s
    ensures RowStats(s, rows, workspace) == Stats(0, 0, |rows|)
    decreases |rows|
  {
    if rows != [] {
      var before := rows[..|rows| - 1];
      forall k | 0 <= k < |before| ensures Covered(s, before[k]) {
        assert before[k] == rows[k];
      }
      CoveredRowsAreDuplicates(s, before, workspace);
      assert Covered(s, rows[|rows| - 1]);
    }
  }

  /** Re-running an import with the same rows adds nothing: the store stays as
      it is and every row is counted as a duplicate. */
  lemma ReimportAddsNothing(s: Store, rows: seq<Row>, workspace: string)
    ensures var once := ApplyRows(s, rows, workspace);
      ApplyRows(once, rows, workspace) == once &&
      RowStats(once, rows, workspace) == Stats(0, 0, |rows|)
  {
    ImportCoversRows(s, rows, workspace);
    CoveredRowsAreDuplicates(ApplyRows(s, rows, workspace), rows, workspace);
  }

  /** Importing keeps every alternate host linked to an existing host. */
  lemma {:induction false} ImportKeepsLinks(s: Store, rows: seq<Row>, workspace: string)
    requires WellLinked(s)
    ensures WellLinked(ApplyRows(s, rows, workspace))
    decreases |rows|
  {
    if rows != [] {
      ImportKeepsLinks(s, rows[..|rows| - 1], workspace);
    }
  }

  /** Two names for one IP, then the first name again, into an empty store:
      one new host, one new alternate host, one duplicate. */
  lemma ThreeRowScenario()
    ensures var rows := [Row("a.example.com", "1.2.3.4", "src1"),
                         Row("b.example.com", "1.2.3.4", "src1"),
                         Row("a.example.com", "1.2.3.4", "src1")];
      RowStats(Store([], []), rows, "w") == Stats(1, 1, 1) &&
      ApplyRows(Store([], []), rows, "w") ==
        Store([Host("a.example.com", "1.2.3.4", "src1", "w")], [AltHost("b.example.com", "src1", 0)])
  {
    var a := Row("a.example.com", "1.2.3.4", "src1");
    var b := Row("b.example.com", "1.2.3.4", "src1");
    var rows := [a, b, a];
    var e := Store([], []);
    var s1 := Store([Host("a.example.com", "1.2.3.4", "src1", "w")], []);
    var s2 := Store(s1.hosts, [AltHost("b.example.com", "src1", 0)]);
    assert rows[..2] == [a, b] && [a, b][..1] == [a] && [a][..0] == [];
    assert Classify(e, a) == NewHost;
    assert ApplyRows(e, [a], "w") == s1;
    assert RowStats(e, [a], "w") == Stats(1, 0, 0);
    assert IsFirstWithIp(s1.hosts, 0, "1.2.3.4");
    assert !HasAlt(s1.altHosts, 0, "b.example.com");
    assert Classify(s1, b) == NewAltHost(0);
    assert ApplyRows(e, [a, b], "w") == s2;
    assert RowStats(e, [a, b], "w") == Stats(1, 1, 0);
    assert IsFirstWithIp(s2.hosts, 0, "1.2.3.4");
    assert Classify(s2, a) == Duplicate;
    assert RowStats(e, rows, "w") == Stats(1, 1, 1);
  }

  // ---------------------------------------------------------------------------
  // The local database as the program sees it: two tables updated in place
  // ---------------------------------------------------------------------------

  class LocalDb {
    var hosts: seq<Host>
    var altHosts: seq<AltHost>

    /** The tables as a value. */
    function Contents(): Store
      reads this
    {
      Store(hosts, altHosts)
    }

    /** `database.init_db()` on a fresh database file: both tables empty. */
    constructor ()
      ensures hosts == [] && altHosts == []
    {
      hosts := [];
      altHosts := [];
    }

    /** `session.query(Host).filter(Host.ip_address == ip)` then `.first()`. */
    method QueryFirstHost(ip: string) returns (found: Option<nat>)
      ensures found == FirstWithIp(hosts, ip)
    {
      var i := 0;
      while i < |hosts|
        invariant 0 <= i <= |hosts|
        invariant forall j :: 0 <= j < i ==> hosts[j].ipAddress != ip
      {
        if hosts[i].ipAddress == ip {
          FirstIsUnique(hosts, ip, i);
          return Some(i);
        }
        i := i + 1;
      }
      return None;
    }

    /** `session.query(Althosts)` filtered by host id and host name, then `.count()`. */
    method CountAlts(hostId: nat, hostname: string) returns (n: nat)
      ensures n == 0 <==> !HasAlt(altHosts, hostId, hostname)
      ensures n <= |altHosts|
    {
      n := 0;
      var k := 0;
      while k < |altHosts|
        invariant 0 <= k <= |altHosts|
        invariant n <= k
        invariant n == 0 <==> forall m :: 0 <= m < k ==> !(altHosts[m].hostId == hostId && altHosts[m].hostname == hostname)
      {
        if altHosts[k].hostId == hostId && altHosts[k].hostname == hostname {
          n := n + 1;
        }
        k := k + 1;
      }
    }

    /** The body of the loop of `import_to_db` for one row. */
    method ImportRow(row: Row, workspace: string) returns (o: Outcome)
      modifies this
      ensures o == Classify(old(Contents()), row)
      ensures Contents() == ApplyRow(old(Contents()), row, workspace)
    {
      var first := QueryFirstHost(row.ipAddress);
      if first.Some? {
        var f := first.value;
        var alts := CountAlts(f, row.host);
        if alts == 0 && hosts[f].host != row.host {
          altHosts := altHosts + [AltHost(row.host, row.source, f)];
          o := NewAltHost(f);
        } else {
          o := Duplicate;
        }
      } else {
        hosts := hosts + [Host(row.host, row.ipAddress, row.source, workspace)];
        o := NewHost;
      }
    }

    /** `import_to_db` after the download: every row of the recon-ng `hosts`
        table, in cursor order, merged into the tables, with the three counters. */
    method ImportToDb(rows: seq<Row>, workspace: string) returns (newHosts: nat, newAltHosts: nat, duplicates: nat)
      modifies this
      ensures Contents() == ApplyRows(old(Contents()), rows, workspace)
      ensures Stats(newHosts, newAltHosts, duplicates) == RowStats(old(Contents()), rows, workspace)
      ensures newHosts + newAltHosts + duplicates == |rows|
      ensures |hosts| == |old(hosts)| + newHosts && |altHosts| == |old(altHosts)| + newAltHosts
    {
      ghost var s0 := Contents();
      newHosts, newAltHosts, duplicates := 0, 0, 0;
      for i := 0 to |rows|
        invariant Contents() == ApplyRows(s0, rows[..i], workspace)
        invariant Stats(newHosts, newAltHosts, duplicates) == RowStats(s0, rows[..i], workspace)
      {
        assert rows[..i + 1][..i] == rows[..i];
        var o := ImportRow(rows[i], workspace);
        match o {
          case NewHost => newHosts := newHosts + 1;
          case NewAltHost(_) => newAltHosts := newAltHosts + 1;
          case Duplicate => duplicates := duplicates + 1;
        }
      }
      assert rows[..|rows|] == rows;
      ImportCounts(s0, rows, workspace);
    }
  }
}
