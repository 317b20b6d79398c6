/** The commands `run_recon` sends over SSH to the recon-ng command-line
    client on the droplet: one `add domains` per target domain, then the seven
    reconnaissance modules, then a query deleting hosts without an IP. Every
    command runs whatever the previous one printed or returned. */
module ReconCommands {

  const ReconCli := "./recon-ng/recon-cli"

  /** The modules `run_recon` executes, in order. */
  const ReconModules: seq<string> := [
    "recon/domains-hosts/google_site_web",
    "recon/domains-hosts/brute_hosts",
    "recon/domains-hosts/bing_domain_web",
    "recon/domains-hosts/hackertarget",
    "recon/domains-hosts/ssl_san",
    "recon/domains-hosts/threatcrowd",
    "recon/hosts-hosts/resolve"
  ]

  datatype Command =
    | AddDomain(workspace: string, domain: string)
    | RunModule(workspace: string, reconModule: string)
    | DeleteHostsWithoutIp(workspace: string)

  /** The option text after `-w <workspace>` for each kind of command:
      `add domains <d>` (recon/reconng.py:126), `-m "<module>" -x`
      (recon/reconng.py:135) and the query deleting hosts without an IP
      (recon/reconng.py:144). */
  const AddDomainsOption := " -C \"add domains "
  const ModuleOption := " -m \""
  const ExecuteSuffix := "\" -x"
  const DeleteNullIpOption := " -C \"query" + " delete from hosts where ip_address is null\""

  /** The characters that tell the three kinds of line apart. */
  lemma OptionShapes()
    ensures |AddDomainsOption| == 17 && AddDomainsOption[0] == ' ' && AddDomainsOption[2] == 'C' && AddDomainsOption[5] == 'a'
    ensures |ModuleOption| == 5 && ModuleOption[0] == ' ' && ModuleOption[2] == 'm'
    ensures |DeleteNullIpOption| > 5 && DeleteNullIpOption[0] == ' ' && DeleteNullIpOption[5] == 'q'
  {
  }

  /** The shell line passed to `exec_command`. Every line invokes the recon-ng
      client on the command's workspace. */
  function CommandLine(c: Command): (line: string)
    ensures |ReconCli + " -w " + c.workspace + " "| <= |line|
    ensures line[..|ReconCli + " -w " + c.workspace + " "|] == ReconCli + " -w " + c.workspace + " "
  {
    var prefix := ReconCli + " -w " + c.workspace;
    var args := match c
      case AddDomain(_, d) => AddDomainsOption + d + "\""
      case RunModule(_, m) => ModuleOption + m + ExecuteSuffix
      case DeleteHostsWithoutIp(_) => DeleteNullIpOption;
    OptionShapes();
    assert args[0] == ' ';
    assert (prefix + args)[..|prefix| + 1] == prefix + args[..1];
    prefix + args
  }

  /** The first loop of `run_recon`: one `add domains` per entry of `domains`. */
  function AddDomainCommands(workspace: string, domains: seq<string>): (cmds: seq<Command>)
    ensures |cmds| == |domains|
    ensures forall i :: 0 <= i < |domains| ==> cmds[i] == AddDomain(workspace, domains[i])
  {
    if domains == [] then []
    else [AddDomain(workspace, domains[0])] + AddDomainCommands(workspace, domains[1..])
  }

  /** The second loop of `run_recon`: one command per module, in order. */
  function ModuleCommands(workspace: string, modules: seq<string>): (cmds: seq<Command>)
    ensures |cmds| == |modules|
    ensures forall i :: 0 <= i < |modules| ==> cmds[i] == RunModule(workspace, modules[i])
  {
    if modules == [] then []
    else [RunModule(workspace, modules[0])] + ModuleCommands(workspace, modules[1..])
  }

  /** Everything `run_recon` sends, in order: the domains in list order, the
      seven modules in their fixed order, then the cleanup query; |domains| + 8
      commands, all on the same workspace. */
  function RunReconCommands(workspace: string, domains: seq<string>): (cmds: seq<Command>)
    ensures |cmds| == |domains| + 8
    ensures forall i :: 0 <= i < |domains| ==> cmds[i] == AddDomain(workspace, domains[i])
    ensures forall j :: 0 <= j < 7 ==> cmds[|domains| + j] == RunModule(workspace, ReconModules[j])
    ensures cmds[|domains| + 7] == DeleteHostsWithoutIp(workspace)
    ensures forall c :: c in cmds ==> c.workspace == workspace
  {
    AddDomainCommands(workspace, domains) + ModuleCommands(workspace, ReconModules) + [DeleteHostsWithoutIp(workspace)]
  }

  /** The shell lines of a sequence of commands, one per command, in order. */
  function Lines(cmds: seq<Command>): seq<string> {
    seq(|cmds|, i requires 0 <= i < |cmds| => CommandLine(cmds[i]))
  }

  /** The shell lines `run_recon` passes to `exec_command`, in order. */
  function RunReconLines(workspace: string, domains: seq<string>): (lines: seq<string>)
    ensures |lines| == |domains| + 8
    ensures forall i :: 0 <= i < |domains| ==>
      lines[i] == ReconCli + " -w " + workspace + AddDomainsOption + domains[i] + "\""
    ensures forall j :: 0 <= j < 7 ==>
      lines[|domains| + j] == ReconCli + " -w " + workspace + ModuleOption + ReconModules[j] + ExecuteSuffix
    ensures lines[|domains| + 7] == ReconCli + " -w " + workspace + DeleteNullIpOption
  {
    Lines(RunReconCommands(workspace, domains))
  }

  /** Each domain is submitted to the workspace exactly as many times as it
      occurs in the domain list: once per listed occurrence. */
  lemma {:induction false} EachDomainAddedPerOccurrence(workspace: string, domains: seq<string>, d: string)
    ensures multiset(RunReconCommands(workspace, domains))[AddDomain(workspace, d)] == multiset(domains)[d]
  {
    var rest := ModuleCommands(workspace, ReconModules) + [DeleteHostsWithoutIp(workspace)];
    assert RunReconCommands(workspace, domains) == AddDomainCommands(workspace, domains) + rest;
    assert AddDomain(workspace, d) !in rest;
    assert multiset(rest)[AddDomain(workspace, d)] == 0;
    AddDomainsCount(workspace, domains, d);
  }

  lemma {:induction false} AddDomainsCount(workspace: string, domains: seq<string>, d: string)
    ensures multiset(AddDomainCommands(workspace, domains))[AddDomain(workspace, d)] == multiset(domains)[d]
  {
    if domains != [] {
      AddDomainsCount(workspace, domains[1..], d);
      assert domains == [domains[0]] + domains[1..];
    }
  }

  /** On one workspace, the line that adds domain `d` is sent by that command
      and by no other: module lines differ at the option letter, the cleanup
      line at the first word of the quoted command, and add lines for other
      domains in the domain itself. */
  lemma AddDomainLineDeterminesCommand(c: Command, workspace: string, d: string)
    requires c.workspace == workspace
    requires CommandLine(c) == CommandLine(AddDomain(workspace, d))
    ensures c == AddDomain(workspace, d)
  {
    var prefix := ReconCli + " -w " + workspace;
    var line := CommandLine(AddDomain(workspace, d));
    OptionShapes();
    assert line == prefix + AddDomainsOption + d + "\"";
    assert line[|prefix| + 2] == 'C' && line[|prefix| + 5] == 'a';
    match c {
      case AddDomain(_, d') =>
        assert line[|prefix| + 17..|line| - 1] == d;
        assert CommandLine(c)[|prefix| + 17..|line| - 1] == d';
      case RunModule(_, _) =>
      case DeleteHostsWithoutIp(_) =>
    }
  }

  /** Among commands on one workspace, a domain's add line occurs as often as
      its add command. */
  lemma {:induction false} AddDomainLineCount(cmds: seq<Command>, workspace: string, d: string)
    requires forall c :: c in cmds ==> c.workspace == workspace
    ensures multiset(Lines(cmds))[CommandLine(AddDomain(workspace, d))] == multiset(cmds)[AddDomain(workspace, d)]
  {
    if cmds != [] {
      AddDomainLineCount(cmds[1..], workspace, d);
      assert cmds == [cmds[0]] + cmds[1..];
      assert Lines(cmds) == [CommandLine(cmds[0])] + Lines(cmds[1..]);
      if CommandLine(cmds[0]) == CommandLine(AddDomain(workspace, d)) {
        AddDomainLineDeterminesCommand(cmds[0], workspace, d);
      }
    }
  }

  /** At the level of shell lines, each domain's `add domains` line is sent
      once per occurrence of the domain in the list. */
  lemma EachDomainLinePerOccurrence(workspace: string, domains: seq<string>, d: string)
    ensures multiset(RunReconLines(workspace, domains))[ReconCli + " -w " + workspace + AddDomainsOption + d + "\""]
            == multiset(domains)[d]
  {
    assert CommandLine(AddDomain(workspace, d)) == ReconCli + " -w " + workspace + AddDomainsOption + d + "\"";
    AddDomainLineCount(RunReconCommands(workspace, domains), workspace, d);
    EachDomainAddedPerOccurrence(workspace, domains, d);
  }
}
