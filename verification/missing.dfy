/** The "missing variables" errors of the `run`, `sh` and `export` commands
    (`handleMissingVariables` in cmd/run.go, `handleMissingVariablesShell`
    in cmd/sh.go, `handleMissingVariablesExport` in cmd/export.go). The
    three differ only in their prose. Each reports the number of missing
    variables, lists them grouped by provider (each group in the original
    order), and prints a workflow snippet naming every missing variable in
    the original order. The wording itself is not modelled. */
module Missing {
  import opened Outcome
  import opened Providers

  datatype Command = RunCommand | ShellCommand | ExportCommand

  datatype MissingError = MissingError(
    command: Command,
    count: nat,
    groups: map<string, seq<MissingVariable>>,
    workflowVars: seq<string>)

  /** The records of one provider, in their original order. */
  function OfProvider(mvs: seq<MissingVariable>, p: string): seq<MissingVariable> {
    if |mvs| == 0 then []
    else OfProvider(mvs[..|mvs| - 1], p) + (if mvs[|mvs| - 1].provider == p then [mvs[|mvs| - 1]] else [])
  }

  /** A record is in a provider's group exactly when it is missing and
      belongs to that provider. */
  lemma {:induction false} OfProviderMember(mvs: seq<MissingVariable>, p: string, m: MissingVariable)
    ensures m in OfProvider(mvs, p) <==> m in mvs && m.provider == p
  {
    if |mvs| > 0 {
      OfProviderMember(mvs[..|mvs| - 1], p, m);
      assert mvs == mvs[..|mvs| - 1] + [mvs[|mvs| - 1]];
    }
  }

  /** The providers the records name. */
  function ProvidersOf(mvs: seq<MissingVariable>): set<string> {
    set i | 0 <= i < |mvs| :: mvs[i].provider
  }

  /** The shared body of the three builders: no error for an empty list;
      otherwise the count, the per-provider groups, and the variables for
      the workflow snippet. */
  function Report(cmd: Command, mvs: seq<MissingVariable>): (r: Option<MissingError>)
    ensures r.None? <==> |mvs| == 0
    ensures r.Some? ==> r.value.command == cmd && r.value.count == |mvs|
    ensures r.Some? ==> |r.value.workflowVars| == |mvs|
                        && forall i :: 0 <= i < |mvs| ==> r.value.workflowVars[i] == mvs[i].variableName
  {
    if |mvs| == 0 then None
    else
      var groups := map p | p in ProvidersOf(mvs) :: OfProvider(mvs, p);
      Some(MissingError(cmd, |mvs|, groups, seq(|mvs|, i requires 0 <= i < |mvs| => mvs[i].variableName)))
  }

  /** The groups partition the records: there is a group for exactly the
      providers named, and each record is in its provider's group. */
  lemma ReportGroups(cmd: Command, mvs: seq<MissingVariable>, p: string, m: MissingVariable)
    requires |mvs| > 0
    ensures var g := Report(cmd, mvs).value.groups;
            && (p in g <==> exists i :: 0 <= i < |mvs| && mvs[i].provider == p)
            && (p in g ==> (m in g[p] <==> m in mvs && m.provider == p))
  {
    OfProviderMember(mvs, p, m);
  }

  /** `handleMissingVariables` (cmd/run.go). */
  function HandleMissingVariables(mvs: seq<MissingVariable>): (r: Option<MissingError>)
    ensures r.None? <==> |mvs| == 0
    ensures r.Some? ==> r.value.command == RunCommand && r.value.count == |mvs|
  {
    Report(RunCommand, mvs)
  }

  /** `handleMissingVariablesShell` (cmd/sh.go). */
  function HandleMissingVariablesShell(mvs: seq<MissingVariable>): (r: Option<MissingError>)
    ensures r.None? <==> |mvs| == 0
    ensures r.Some? ==> r.value.command == ShellCommand && r.value.count == |mvs|
  {
    Report(ShellCommand, mvs)
  }

  /** `handleMissingVariablesExport` (cmd/export.go). */
  function HandleMissingVariablesExport(mvs: seq<MissingVariable>): (r: Option<MissingError>)
    ensures r.None? <==> |mvs| == 0
    ensures r.Some? ==> r.value.command == ExportCommand && r.value.count == |mvs|
  {
    Report(ExportCommand, mvs)
  }

  /** What the commands do with a collection result before rendering: with
      missing variables and `--silent` off they stop with the error. The
      result is one `CollectSecretsWithResult` returned, so its flag agrees
      with its list. */
  function Gate(cmd: Command, c: CollectionResult, silent: bool): (r: Option<MissingError>)
    requires c.hasMissingVars <==> |c.missingVars| > 0
    ensures r.Some? <==> |c.missingVars| > 0 && !silent
    ensures r.Some? ==> r.value.count == |c.missingVars| && r.value.command == cmd
  {
    if c.hasMissingVars && !silent then Report(cmd, c.missingVars) else None
  }
}
