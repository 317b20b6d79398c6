/** The decision table of `parse_args` in the recon-ng component: which
    droplet to use and which of `import_to_db`, `run_recon` and `destroy` to
    run, from the parsed command-line flags. The cloud calls are actions in a
    plan; the plan is the order in which they happen. */
module Dispatch {
  import opened ReconData

  /** The flags `parse_args` reads. `None` is an option that was not given. */
  datatype Args = Args(
    droplet: Option<string>,
    workspace: Option<string>,
    domains: Option<seq<string>>,
    runrecon: bool,
    dbimport: bool,
    autocleanup: bool,
    createvm: bool)

  datatype Action =
    | GetDroplet(dropletId: string)
    | CreateVm
    | RunRecon(workspace: string, domains: seq<string>)
    | ImportToDb(workspace: string)
    | DestroyVm
    | ReportMissingArguments

  /** The pipeline a fresh VM runs when every required flag is present. */
  predicate FullPipelineRequested(a: Args) {
    a.droplet.None? && a.runrecon && a.createvm && a.workspace.Some? && a.domains.Some?
  }

  /** The actions `parse_args` performs, in order. */
  function ParseArgs(a: Args): (plan: seq<Action>)
    // With --droplet and --workspace, --dbimport wins over --runrecon.
    ensures a.droplet.Some? && a.workspace.Some? && a.dbimport ==>
      ImportToDb(a.workspace.value) in plan && forall x :: x in plan ==> !x.RunRecon?
    ensures a.droplet.Some? && a.workspace.Some? && a.dbimport ==>
      plan == [GetDroplet(a.droplet.value), ImportToDb(a.workspace.value)]
    // Otherwise --runrecon with --domains runs the recon on that droplet.
    ensures a.droplet.Some? && a.workspace.Some? && !a.dbimport && a.runrecon && a.domains.Some? ==>
      plan == [GetDroplet(a.droplet.value), RunRecon(a.workspace.value, a.domains.value)]
    // With --droplet, anything short of those two does nothing.
    ensures a.droplet.Some? && !(a.workspace.Some? && (a.dbimport || (a.runrecon && a.domains.Some?))) ==>
      plan == []
    // A fresh VM is created first; it is imported from and destroyed exactly
    // when --autocleanup is given, and each step happens once.
    ensures FullPipelineRequested(a) ==> |plan| == if a.autocleanup then 4 else 2
    ensures FullPipelineRequested(a) ==>
      |plan| >= 2 && plan[0] == CreateVm &&
      (ImportToDb(a.workspace.value) in plan <==> a.autocleanup) &&
      (DestroyVm in plan <==> a.autocleanup)
    // run_recon only ever runs with --runrecon, on the given workspace and domains.
    ensures forall w, ds :: RunRecon(w, ds) in plan ==>
      a.runrecon && a.workspace == Some(w) && a.domains == Some(ds)
    // An import always targets the given workspace.
    ensures forall w :: ImportToDb(w) in plan ==> a.workspace == Some(w)
    // An existing droplet is never created or destroyed.
    ensures a.droplet.Some? ==> CreateVm !in plan && DestroyVm !in plan
    // Remote work starts by obtaining exactly one droplet.
    ensures (exists x :: x in plan && (x.RunRecon? || x.ImportToDb?)) ==>
      (plan[0] == CreateVm || (a.droplet.Some? && plan[0] == GetDroplet(a.droplet.value))) &&
      forall i :: 1 <= i < |plan| ==> !plan[i].GetDroplet? && plan[i] != CreateVm
    // The droplet is destroyed only with --autocleanup, last, right after the import.
    ensures DestroyVm in plan ==>
      a.autocleanup && |plan| >= 2 && plan[|plan| - 1] == DestroyVm && plan[|plan| - 2].ImportToDb?
    // A fresh VM runs the recon before anything is imported.
    ensures FullPipelineRequested(a) ==>
      |plan| >= 2 && plan[1] == RunRecon(a.workspace.value, a.domains.value)
    // Without --droplet, --runrecon lacking any of --createvm, --workspace and
    // --domains only reports what is missing.
    ensures ReportMissingArguments in plan <==>
      a.droplet.None? && a.runrecon && !FullPipelineRequested(a)
    ensures ReportMissingArguments in plan ==> plan == [ReportMissingArguments]
    // Nothing is requested: nothing happens.
    ensures !a.runrecon && !(a.droplet.Some? && a.workspace.Some? && a.dbimport) ==> plan == []
  {
    if a.droplet.Some? then
      if a.workspace.Some? then
        if a.dbimport then [GetDroplet(a.droplet.value), ImportToDb(a.workspace.value)]
        else if a.runrecon && a.domains.Some? then
          [GetDroplet(a.droplet.value), RunRecon(a.workspace.value, a.domains.value)]
        else []
      else []
    else if FullPipelineRequested(a) then
      var recon := [CreateVm, RunRecon(a.workspace.value, a.domains.value)];
      if a.autocleanup then recon + [ImportToDb(a.workspace.value), DestroyVm] else recon
    else if a.runrecon then [ReportMissingArguments]
    else []
  }
}
