# bounty_tools: recon-ng result import, command list and dispatch

bounty_tools drives the recon-ng reconnaissance tool on a disposable
DigitalOcean droplet and pulls its findings home. This project models the
deterministic parts of that workflow and proves properties of them:

- **Relational import** (`import_to_db`): each row of recon-ng's `hosts`
  table becomes a new `Host`, a new `Althosts` entry linked to the first host
  with the same IP, or a duplicate. Each outcome has its own counter
  (`relational_import.dfy`, module `RelationalImport`). The local database is
  the class `LocalDb`, whose two tables are sequences updated in place. Its
  methods run the source's query-and-insert loop and are proved against the
  pure functions `Classify`, `ApplyRow`, `ApplyRows` and `RowStats`.
- **Search-index import** (`reconng_import`, `add_host`): rows are indexed as
  `host` documents. The dedup state is a per-run dictionary `host_dict` from
  host name to a list of IPs (`search_index_import.dfy`, module
  `SearchIndexImport`). The Elasticsearch index is the class `SearchIndex`,
  which holds a ghost sequence of the documents sent to it.
- **Recon command list** (`run_recon`): the recon-ng CLI commands sent to the
  droplet, in order (`recon_commands.dfy`, module `ReconCommands`).
- **CLI dispatch** (`parse_args`): which droplet is used and which of
  import, recon run and destroy happen, in which order (`dispatch.dfy`,
  module `Dispatch`).

`recon_data.dfy` (module `ReconData`) holds `Option` and the row type shared by
both importers. A row keeps the three columns both importers read: column 0
(host name), column 1 (IP address) and column 6 (source module).

The search-index path dedups only on the first IP recorded for each host name
(database/elastic_bounty_tools.py:65-77): a row that repeats that IP is counted
as a duplicate and not indexed, and every other row is indexed.

## Model

| member | source | states |
|---|---|---|
| RelationalImport.FirstWithIp | recon/reconng.py:78-80 | the result is absent exactly when no host has the IP, and otherwise it is the position of the first host with that IP |
| RelationalImport.LocalDb.QueryFirstHost | recon/reconng.py:78-80 | the scan over the `Host` table returns the first host with the IP, or nothing when there is none |
| RelationalImport.LocalDb.CountAlts | recon/reconng.py:83-84 | the count of `Althosts` under the host with that host name is zero exactly when no such alternate host exists |
| RelationalImport.Classify | recon/reconng.py:78-93 | a row is a new host exactly when no host has its IP. It is a new alternate host of the first host with that IP when its name differs from that host's and from all of that host's alternate names. Otherwise it is a duplicate exactly when the first host or one of its alternates already has the name |
| RelationalImport.ApplyRow | recon/reconng.py:78-97 | with an unseen IP, exactly one `Host(row[0], row[1], row[6], workspace)` is appended. With a new name for a known IP, exactly one `Althosts(row[0], row[6], first host)` is appended. A duplicate leaves the store unchanged. Alternate hosts keep pointing at existing hosts |
| RelationalImport.ImportCounts | recon/reconng.py:73-98 | every row increments exactly one counter, so the counters sum to the row count. `new_hosts` and `new_alt_hosts` equal the numbers of records appended. Old records are kept as a prefix. New hosts carry the workspace. Zero rows give zero counters and an unchanged store |
| RelationalImport.ImportKeepsIpsUnique | recon/reconng.py:78-97 | the import never gives a second host an IP already present, so distinct IPs stay distinct |
| RelationalImport.ImportCoversRows | recon/reconng.py:78-97 | after an import, re-importing any of its rows would be classified as a duplicate |
| RelationalImport.ReimportAddsNothing | recon/reconng.py:73-98 | running the same rows a second time leaves the store unchanged and yields `new_hosts = new_alt_hosts = 0` and `duplicates = rows` |
| RelationalImport.ImportKeepsLinks | recon/reconng.py:80-86 | every alternate host created references an existing host |
| RelationalImport.ThreeRowScenario | recon/reconng.py:76-98 | rows a/1.2.3.4, b/1.2.3.4, a/1.2.3.4 into an empty store give 1 new host, 1 new alternate host and 1 duplicate, and the resulting tables are given |
| RelationalImport.LocalDb.ImportRow | recon/reconng.py:77-97 | one loop iteration changes the tables exactly as `ApplyRow` does and reports the `Classify` outcome |
| RelationalImport.LocalDb.ImportToDb | recon/reconng.py:73-98 | the loop leaves the tables equal to `ApplyRows` of the old tables, its counters equal `RowStats`, the counters sum to the row count, and the table growth equals the new-host and new-alt-host counters |
| SearchIndexImport.FirstIp | database/elastic_bounty_tools.py:65-67 | the first IP seen for a host name: absent exactly when no row has the name, otherwise the IP of the earliest row with it |
| SearchIndexImport.RunCounts | database/elastic_bounty_tools.py:56-77 | `new_hosts + duplicate_hosts` equals the number of rows, `new_hosts` equals the number of documents emitted, and each document is some row under the run's workspace |
| SearchIndexImport.DictHoldsFirstIp | database/elastic_bounty_tools.py:65-74 | starting from an empty dictionary, `host_dict` holds exactly the host names seen, each with exactly one IP, the first one seen for that name |
| SearchIndexImport.NextRow | database/elastic_bounty_tools.py:64-77 | an unseen name is indexed and recorded with its IP. A name whose first IP differs from the row's is indexed again each time, even when the same row appeared before. A row repeating its name's first IP emits nothing and only counts as a duplicate |
| SearchIndexImport.RepeatedPairIndexedTwice | database/elastic_bounty_tools.py:71-74 | rows a/1, a/2, a/2 give three documents, two of them for the pair a/2, and zero duplicates |
| SearchIndexImport.IntendedIndexesEachPairOnce | database/elastic_bounty_tools.py:71-74 | when the second branch records the new IP, no two documents share a host-name/IP pair. The indexed pairs are exactly the pairs in the rows, `host_dict` lists exactly the indexed pairs, and the counters still add up |
| SearchIndexImport.SearchIndex.AddHost | database/elastic_bounty_tools.py:22-25 | exactly one document `{ip_address, hostname, source, workspace}` is appended to the index |
| SearchIndexImport.ReconngImport | database/elastic_bounty_tools.py:56-80 | the loop over a fresh `host_dict` appends exactly the documents of `Run` to the index, with the same counters. `new_hosts + duplicate_hosts` equals the row count and `new_hosts` equals the number of documents added |
| ReconCommands.CommandLine | recon/reconng.py:124-144 | each shell line invokes `./recon-ng/recon-cli -w <workspace>` on its command's workspace |
| ReconCommands.AddDomainCommands | recon/reconng.py:124-126 | one `add domains` command per domain, in list order |
| ReconCommands.ModuleCommands | recon/reconng.py:133-135 | one module command per module, in list order |
| ReconCommands.RunReconCommands | recon/reconng.py:113-144 | the commands are the domains in list order, then the seven modules in their fixed order, then the null-IP delete. There are \|domains\| + 8 commands, all on the same workspace |
| ReconCommands.RunReconLines | recon/reconng.py:124-144 | the lines sent are, in order: `./recon-ng/recon-cli -w <workspace> -C "add domains <d>"` for each domain in list order, `./recon-ng/recon-cli -w <workspace> -m "<module>" -x` for each of the seven modules in order, and `./recon-ng/recon-cli -w <workspace> -C "query delete from hosts where ip_address is null"`. There are \|domains\| + 8 lines in all |
| ReconCommands.EachDomainAddedPerOccurrence | recon/reconng.py:124-126 | each domain gets as many `add domains` commands as it has occurrences in the list, so a domain listed once is submitted exactly once |
| ReconCommands.AddDomainLineDeterminesCommand | recon/reconng.py:126-144 | on one workspace, the `add domains <d>` line is produced by the command adding `d` and by no module, cleanup or other-domain command |
| ReconCommands.EachDomainLinePerOccurrence | recon/reconng.py:124-126 | the `add domains <d>` shell line is sent once for each occurrence of `d` in the domain list |
| Dispatch.ParseArgs | recon/reconng.py:18-48 | with `--droplet` and `--workspace`, `--dbimport` gives exactly get-droplet then import. Without `--dbimport`, `--runrecon` with `--domains` gives exactly get-droplet then recon run. Any other combination with `--droplet` does nothing. With `--createvm --runrecon --workspace --domains` and no `--droplet`, the plan is exactly create-VM then recon run, followed by import then destroy if and only if `--autocleanup` is given (4 actions with it, 2 without), so the recon runs once and before the import. A recon run uses exactly the given workspace and domains and requires `--runrecon`. An existing droplet is never created or destroyed. Remote work first obtains exactly one droplet. Destroy happens only with `--autocleanup`, last, right after the import. A fresh VM runs the recon before importing. Without `--droplet`, `--runrecon` missing `--createvm`, `--workspace` or `--domains` only reports the missing arguments. With no request, nothing happens |

## Findings

| source | as written | input that shows it | evidently intended | confidence | as-written member | corrected member |
|---|---|---|---|---|---|---|
| database/elastic_bounty_tools.py:71-74 | the branch for "host seen, IP not seen" indexes the row but does not add the IP to `host_dict[hostname]`, so the list keeps only the first IP | rows a/1, a/2, a/2 give three documents, including a/2 twice, and no duplicate | the IP is appended to `host_dict[hostname]`, so each host-name/IP pair is indexed once (two documents and one duplicate for that input) | medium, not executed | SearchIndexImport.RepeatedPairIndexedTwice | SearchIndexImport.IntendedIndexesEachPairOnce |

`SearchIndexImport.ReconngImport` and `SearchIndexImport.Run` keep the
behaviour as written. `SearchIndexImport.IntendedRun` is the corrected
definition.

## Left out

- SSH and SFTP (connecting, `exec_command`, reading command output, `sftp.get` of the workspace database) are network I/O. So is the progress printing. The model starts from the downloaded rows and ends with the tables, the index and the counters.
- Reading the downloaded SQLite file, the SQLAlchemy session and its per-row commits are left out. Rows are a sequence in cursor order and the local database is two in-memory tables. Commit atomicity and a crash mid-import are not modelled.
- Database ids: a host's id is its position in the `Host` table, and `.first()` is the earliest inserted host. Hosts are never deleted, so positions are stable.
- NULL columns are not modelled: every column value is a string. The relational path would compare a NULL IP with `IS NULL`, and the search path would index `str(None)`.
- `database.init_db()` may open an existing database. `LocalDb.ImportToDb` therefore starts from any tables, and the constructor gives the empty case.
- The Elasticsearch client is left out. This covers the module-level `elastic` connection, the `datetime.utcnow()` timestamp in each document and `create_index` with its three mappings. They are a foreign service and wall-clock time, so documents are kept without timestamps.
- In `reconng_import`, the optional download from a droplet when `--droplet` is given is left out; it is the same SSH/SFTP I/O as above.
- The `parse_args` of the search-index component only calls `reconng_import` when `--esimport` and `--workspace` are both set. This two-flag guard is not modelled separately.
- `add_args` is not modelled; the `Args` datatype stands for the parsed flags. `--createvm` is read by `parse_args` at recon/reconng.py:30, but no `add_args` in these files declares it. The model assumes that some other `add_args` declares it as a `store_true` flag. If nothing declared it, `args.createvm` would raise `AttributeError` whenever `--runrecon` is given without `--droplet`, and the message at recon/reconng.py:46-48 could never be printed.
- `do_wrapper.get_droplet`, `create_vm` and `droplet.destroy()` are abstract actions in the dispatch plan. `connectivity.do_wrapper` and `database.models` are not part of this model.
- `run_recon` never inspects exit status or output. The model sends every command unconditionally and has no notion of a failed command.
- bounty.py is left out. Its `setup_vm` is cloud provisioning with an unbounded polling loop and a remote bootstrap script. Its `run_recon` duplicates the recon component's, and its `import_to_db` is empty.
- ReconCommands.CommandLine: its own contract states only that each line invokes the recon-ng client on the command's workspace. The complete lines are stated by `RunReconLines`.
