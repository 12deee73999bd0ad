/** GitHub secret synchronisation (cmd/github_secret_add.go): the overwrite
    flags, the per-key and per-scope decision `setGitHubSecretIfNeeded`,
    the statistics, the loop `setGitHubSecrets`, and the summary. The
    remote is the two sets of secret names listed before the run; whether
    a real `gh secret set` fails is an oracle, the set of (key, scope)
    pairs whose call fails. A dry run never makes the call and never
    fails. */
module Sync {
  import opened Outcome
  import opened Text
  import opened Prompt

  datatype Scope = Repository | Dependabot

  /** The three overwrite strategies. */
  datatype Flags = Flags(force: bool, skipExisting: bool, confirmOverwrite: bool)

  datatype Options = Options(flags: Flags, dryRun: bool, dependabot: bool)

  /** `validateOverwriteFlags`: valid unless more than one strategy is set. */
  function ValidateOverwriteFlags(f: Flags): (ok: bool)
    ensures !ok <==> (f.force && f.skipExisting) || (f.force && f.confirmOverwrite)
                     || (f.skipExisting && f.confirmOverwrite)
  {
    var count := (if f.force then 1 else 0) + (if f.skipExisting then 1 else 0)
                 + (if f.confirmOverwrite then 1 else 0);
    count <= 1
  }

  // ---------------------------------------------------------------------
  // Statistics
  // ---------------------------------------------------------------------

  datatype Stats = Stats(created: nat, updated: nat, skipped: nat, failed: nat)

  /** The operations that succeeded, whatever their kind. */
  function Processed(s: Stats): nat {
    s.created + s.updated + s.skipped
  }

  const NoStats := Stats(0, 0, 0, 0)

  /** `updateStats`: the counter named by the result goes up by one; any
      other result changes nothing, and `failed` is never touched. */
  function UpdateStats(s: Stats, result: string): (r: Stats)
    ensures r.failed == s.failed
    ensures r.created == s.created + (if result == "created" then 1 else 0)
    ensures r.updated == s.updated + (if result == "updated" then 1 else 0)
    ensures r.skipped == s.skipped + (if result == "skipped" then 1 else 0)
  {
    if result == "created" then s.(created := s.created + 1)
    else if result == "updated" then s.(updated := s.updated + 1)
    else if result == "skipped" then s.(skipped := s.skipped + 1)
    else s
  }

  predicate KnownResult(result: string) {
    result == "created" || result == "updated" || result == "skipped"
  }

  lemma UpdateStatsProcessed(s: Stats, result: string)
    ensures Processed(UpdateStats(s, result)) == Processed(s) + (if KnownResult(result) then 1 else 0)
    ensures !KnownResult(result) ==> UpdateStats(s, result) == s
  {
  }

  // ---------------------------------------------------------------------
  // One key in one scope
  // ---------------------------------------------------------------------

  /** The secret names each scope held when the run started. */
  datatype Existing = Existing(repository: set<string>, dependabot: set<string>)

  predicate ExistsIn(e: Existing, key: string, scope: Scope) {
    if scope == Repository then key in e.repository else key in e.dependabot
  }

  /** The outcome of `setGitHubSecretIfNeeded`, with the confirmation state
      and unread input after it. `mutated` says whether `setGitHubSecret`
      was called. */
  datatype Step =
    | Done(result: string, mutated: bool, state: ConfirmState, rest: seq<string>)
    | Failed(state: ConfirmState, rest: seq<string>)

  /** `setGitHubSecret`: a dry run only prints; a real call fails when the
      oracle says so. */
  function Mutate(key: string, scope: Scope, opts: Options, failing: set<(string, Scope)>,
                  result: string, st: ConfirmState, rest: seq<string>): (r: Step)
    ensures r.Failed? <==> !opts.dryRun && (key, scope) in failing
    ensures r.Done? ==> r == Done(result, true, st, rest)
    ensures r.Failed? ==> r == Failed(st, rest)
  {
    if !opts.dryRun && (key, scope) in failing then Failed(st, rest) else Done(result, true, st, rest)
  }

  /** `setGitHubSecretIfNeeded`. For an existing secret the cases are
      tried in the order skip-existing, confirm-overwrite, force, default;
      force and the default behave alike. */
  function SetIfNeeded(key: string, scope: Scope, existing: Existing, opts: Options,
                       failing: set<(string, Scope)>, st: ConfirmState, input: seq<string>): (r: Step)
    ensures r.Done? ==> KnownResult(r.result) && (r.mutated <==> r.result != "skipped")
    ensures !ExistsIn(existing, key, scope) ==> Mutate(key, scope, opts, failing, "created", st, input) == r
    ensures ExistsIn(existing, key, scope) && opts.flags.skipExisting ==> r == Done("skipped", false, st, input)
    ensures ExistsIn(existing, key, scope) && !opts.flags.skipExisting && opts.flags.confirmOverwrite ==>
              var p := PromptForOverwrite(st, opts.dryRun, input);
              r == if p.overwrite then Mutate(key, scope, opts, failing, "updated", p.state, p.rest)
                   else Done("skipped", false, p.state, p.rest)
    ensures ExistsIn(existing, key, scope) && !opts.flags.skipExisting && !opts.flags.confirmOverwrite ==>
              r == Mutate(key, scope, opts, failing, "updated", st, input)
  {
    if ExistsIn(existing, key, scope) then
      if opts.flags.skipExisting then Done("skipped", false, st, input)
      else if opts.flags.confirmOverwrite then
        var p := PromptForOverwrite(st, opts.dryRun, input);
        if !p.overwrite then Done("skipped", false, p.state, p.rest)
        else Mutate(key, scope, opts, failing, "updated", p.state, p.rest)
      else Mutate(key, scope, opts, failing, "updated", st, input)
    else Mutate(key, scope, opts, failing, "created", st, input)
  }

  // ---------------------------------------------------------------------
  // The loop over all secrets
  // ---------------------------------------------------------------------

  datatype Task = Task(key: string, scope: Scope)

  /** The work of `setGitHubSecrets`: for each key in map order, the
      repository scope and then, if requested, the Dependabot scope. */
  function Tasks(order: seq<string>, dependabot: bool): (r: seq<Task>)
    ensures |r| == if dependabot then 2 * |order| else |order|
  {
    if |order| == 0 then []
    else
      var init := Tasks(order[..|order| - 1], dependabot);
      var k := order[|order| - 1];
      init + (if dependabot then [Task(k, Repository), Task(k, Dependabot)] else [Task(k, Repository)])
  }

  /** Where each key's tasks sit: without Dependabot task `i` is key `i`
      in the repository; with it, tasks `2i` and `2i + 1` are key `i` in
      the repository and then in Dependabot. */
  lemma {:induction false} TasksOrder(order: seq<string>, dependabot: bool, i: int)
    requires 0 <= i < |order|
    ensures var r := Tasks(order, dependabot);
            && (!dependabot ==> r[i] == Task(order[i], Repository))
            && (dependabot ==> r[2 * i] == Task(order[i], Repository) && r[2 * i + 1] == Task(order[i], Dependabot))
  {
    var init := order[..|order| - 1];
    if i < |order| - 1 {
      TasksOrder(init, dependabot, i);
      assert init[i] == order[i];
    }
  }

  /** Every task is for a key of `order`, and every key and scope that the
      run covers has a task. */
  lemma TasksCover(order: seq<string>, dependabot: bool, t: Task)
    ensures t in Tasks(order, dependabot) <==> t.key in order && (t.scope == Repository || dependabot)
  {
    var r := Tasks(order, dependabot);
    if t in r {
      var j :| 0 <= j < |r| && r[j] == t;
      var i := if dependabot then j / 2 else j;
      TasksOrder(order, dependabot, i);
    }
    if t.key in order && (t.scope == Repository || dependabot) {
      var i :| 0 <= i < |order| && order[i] == t.key;
      TasksOrder(order, dependabot, i);
    }
  }

  /** The state of the loop: the statistics, the position of the failed
      call if there was one, the confirmation state, the unread input, and
      the real calls that succeeded. */
  datatype Progress = Progress(stats: Stats, failedAt: Option<nat>, state: ConfirmState, rest: seq<string>, written: seq<Task>)

  /** The loop of `setGitHubSecrets` from task `i` on: it stops at the
      first failed call, which counts one failure; every task before it
      is counted by `UpdateStats`, and real calls that succeed are
      recorded as written. */
  function SyncFrom(tasks: seq<Task>, i: nat, p: Progress, existing: Existing, opts: Options,
                    failing: set<(string, Scope)>): (r: Progress)
    requires i <= |tasks|
    ensures p.failedAt.None? && r.failedAt.None? ==>
              r.stats.failed == p.stats.failed && Processed(r.stats) == Processed(p.stats) + (|tasks| - i)
    ensures p.failedAt.None? && r.failedAt.Some? ==>
              && i <= r.failedAt.value < |tasks| && r.stats.failed == p.stats.failed + 1
              && Processed(r.stats) == Processed(p.stats) + (r.failedAt.value - i)
    decreases |tasks| - i
  {
    if i == |tasks| then p
    else
      var t := tasks[i];
      match SetIfNeeded(t.key, t.scope, existing, opts, failing, p.state, p.rest)
      case Failed(st, rest) =>
        Progress(p.stats.(failed := p.stats.failed + 1), Some(i), st, rest, p.written)
      case Done(result, mutated, st, rest) =>
        var written := p.written + (if mutated && !opts.dryRun then [t] else []);
        SyncFrom(tasks, i + 1, Progress(UpdateStats(p.stats, result), None, st, rest, written), existing, opts, failing)
  }

  /** `setGitHubSecrets`: `order` is the order in which Go visits the keys
      of `secrets`; no global confirmation decision has been made yet. */
  function SetGitHubSecrets(secrets: map<string, string>, order: seq<string>, existing: Existing, opts: Options,
                            failing: set<(string, Scope)>, input: seq<string>): (r: Progress)
    requires IsOrderOf(order, secrets.Keys)
    ensures r.failedAt.None? ==> r.stats.failed == 0
    ensures r.failedAt.Some? ==> r.stats.failed == 1 && Processed(r.stats) == r.failedAt.value
    ensures r.failedAt.Some? ==> r.failedAt.value < |Tasks(order, opts.dependabot)|
  {
    SyncFrom(Tasks(order, opts.dependabot), 0, Progress(NoStats, None, Undecided, input, []), existing, opts, failing)
  }

  /** What the statistics of a run over `n` tasks say: with no failure
      every task was counted once as created, updated or skipped; with a
      failure at task `j`, `failed` is one and exactly the `j` tasks before
      it were counted. */
  predicate Counted(r: Progress, n: nat) {
    && (r.failedAt.None? ==> r.stats.failed == 0 && Processed(r.stats) == n)
    && (r.failedAt.Some? ==> r.failedAt.value < n && r.stats.failed == 1 && Processed(r.stats) == r.failedAt.value)
  }

  /** The loop stops at the first failure: only tasks before it are
      written. */
  lemma {:induction false} SyncFromStops(tasks: seq<Task>, i: nat, p: Progress, existing: Existing, opts: Options,
                                         failing: set<(string, Scope)>, t: Task)
    requires i <= |tasks| && p.failedAt.None?
    ensures var r := SyncFrom(tasks, i, p, existing, opts, failing);
            r.failedAt.Some? ==> i <= r.failedAt.value
    ensures var r := SyncFrom(tasks, i, p, existing, opts, failing);
            t in r.written ==>
              t in p.written || exists k :: i <= k < |tasks| && (r.failedAt.None? || k < r.failedAt.value) && tasks[k] == t
    decreases |tasks| - i
  {
    if i < |tasks| {
      var u := tasks[i];
      var s := SetIfNeeded(u.key, u.scope, existing, opts, failing, p.state, p.rest);
      if s.Done? {
        var written := p.written + (if s.mutated && !opts.dryRun then [u] else []);
        var q := Progress(UpdateStats(p.stats, s.result), None, s.state, s.rest, written);
        SyncFromStops(tasks, i + 1, q, existing, opts, failing, t);
        var r := SyncFrom(tasks, i + 1, q, existing, opts, failing);
        if t in r.written && t !in p.written && t in q.written {
          assert t == u && (r.failedAt.None? || i < r.failedAt.value);
        }
      }
    }
  }

  /** On success `Created + Updated + Skipped` is the number of keys times
      the number of scopes; on failure `Failed` is one and the failed call
      is one of those. */
  lemma SetGitHubSecretsCounts(secrets: map<string, string>, order: seq<string>, existing: Existing, opts: Options,
                               failing: set<(string, Scope)>, input: seq<string>)
    requires IsOrderOf(order, secrets.Keys)
    ensures Counted(SetGitHubSecrets(secrets, order, existing, opts, failing, input),
                    if opts.dependabot then 2 * |secrets.Keys| else |secrets.Keys|)
  {
    var tasks := Tasks(order, opts.dependabot);
    var p0 := Progress(NoStats, None, Undecided, input, []);
    assert |tasks| == if opts.dependabot then 2 * |secrets.Keys| else |secrets.Keys| by {
      DistinctCard(order);
    }
    assert SetGitHubSecrets(secrets, order, existing, opts, failing, input) == SyncFrom(tasks, 0, p0, existing, opts, failing);
  }

  /** A dry run never fails and never writes. */
  lemma {:induction false} DryRunNeverFails(tasks: seq<Task>, i: nat, p: Progress, existing: Existing, opts: Options,
                                            failing: set<(string, Scope)>)
    requires i <= |tasks| && opts.dryRun && p.failedAt.None?
    ensures var r := SyncFrom(tasks, i, p, existing, opts, failing);
            r.failedAt.None? && r.written == p.written
    decreases |tasks| - i
  {
    if i < |tasks| {
      var t := tasks[i];
      var s := SetIfNeeded(t.key, t.scope, existing, opts, failing, p.state, p.rest);
      assert s.Done?;
      assert p.written + [] == p.written;
      DryRunNeverFails(tasks, i + 1, Progress(UpdateStats(p.stats, s.result), None, s.state, s.rest, p.written),
                       existing, opts, failing);
    }
  }

  /** Without confirmation prompts a dry run reports the same statistics
      as a real run that does not fail. */
  lemma {:induction false} DryRunPredictsStats(tasks: seq<Task>, i: nat, p: Progress, q: Progress, existing: Existing,
                                               opts: Options, failing: set<(string, Scope)>)
    requires i <= |tasks| && !opts.flags.confirmOverwrite && p.stats == q.stats
    requires SyncFrom(tasks, i, q, existing, opts, failing).failedAt.None?
    ensures SyncFrom(tasks, i, p, existing, opts.(dryRun := true), failing).stats
            == SyncFrom(tasks, i, q, existing, opts, failing).stats
    decreases |tasks| - i
  {
    if i < |tasks| {
      var t := tasks[i];
      var dry := opts.(dryRun := true);
      var sd := SetIfNeeded(t.key, t.scope, existing, dry, failing, p.state, p.rest);
      var sr := SetIfNeeded(t.key, t.scope, existing, opts, failing, q.state, q.rest);
      assert sr.Done?;
      assert sd.Done? && sd.result == sr.result;
      var pd := Progress(UpdateStats(p.stats, sd.result), None, sd.state, sd.rest,
                         p.written + (if sd.mutated && !dry.dryRun then [t] else []));
      var pr := Progress(UpdateStats(q.stats, sr.result), None, sr.state, sr.rest,
                         q.written + (if sr.mutated && !opts.dryRun then [t] else []));
      DryRunPredictsStats(tasks, i + 1, pd, pr, existing, opts, failing);
    }
  }

  /** With `--skip-existing` and every secret already present in its
      scope, everything is skipped and nothing is written. */
  lemma {:induction false} SkipExistingAllPresent(tasks: seq<Task>, i: nat, p: Progress, existing: Existing,
                                                  opts: Options, failing: set<(string, Scope)>)
    requires i <= |tasks| && opts.flags.skipExisting && p.failedAt.None?
    requires forall k :: i <= k < |tasks| ==> ExistsIn(existing, tasks[k].key, tasks[k].scope)
    ensures var r := SyncFrom(tasks, i, p, existing, opts, failing);
            && r.stats == p.stats.(skipped := p.stats.skipped + (|tasks| - i))
            && r.written == p.written && r.failedAt.None?
    decreases |tasks| - i
  {
    if i < |tasks| {
      var t := tasks[i];
      assert SetIfNeeded(t.key, t.scope, existing, opts, failing, p.state, p.rest) == Done("skipped", false, p.state, p.rest);
      assert p.written + [] == p.written;
      var q := Progress(UpdateStats(p.stats, "skipped"), None, p.state, p.rest, p.written);
      SkipExistingAllPresent(tasks, i + 1, q, existing, opts, failing);
    }
  }
  /** A dry run of `setGitHubSecrets` never fails and changes nothing on
      GitHub, whatever the oracle says. */
  lemma SetGitHubSecretsDryRun(secrets: map<string, string>, order: seq<string>, existing: Existing, opts: Options,
                               failing: set<(string, Scope)>, input: seq<string>)
    requires IsOrderOf(order, secrets.Keys) && opts.dryRun
    ensures var r := SetGitHubSecrets(secrets, order, existing, opts, failing, input);
            r.failedAt.None? && r.written == []
  {
    DryRunNeverFails(Tasks(order, opts.dependabot), 0, Progress(NoStats, None, Undecided, input, []), existing, opts, failing);
  }

  /** The remote after a run: the names listed before it plus every
      secret the run set. */
  function Remote(e: Existing, written: seq<Task>): (r: Existing)
    ensures forall t :: t in written ==> ExistsIn(r, t.key, t.scope)
    ensures e.repository <= r.repository && e.dependabot <= r.dependabot
  {
    Existing(e.repository + (set t | t in written && t.scope == Repository :: t.key),
             e.dependabot + (set t | t in written && t.scope == Dependabot :: t.key))
  }

  /** Without skipping or prompting, a real run that does not fail sets
      every key in every scope it covers. */
  lemma {:induction false} SyncFromWritesAll(tasks: seq<Task>, i: nat, p: Progress, existing: Existing,
                                             opts: Options, failing: set<(string, Scope)>, k: nat)
    requires i <= k < |tasks| && !opts.dryRun && !opts.flags.skipExisting && !opts.flags.confirmOverwrite
    requires SyncFrom(tasks, i, p, existing, opts, failing).failedAt.None?
    ensures tasks[k] in SyncFrom(tasks, i, p, existing, opts, failing).written
    decreases |tasks| - i
  {
    var t := tasks[i];
    var s := SetIfNeeded(t.key, t.scope, existing, opts, failing, p.state, p.rest);
    if s.Done? {
      var q := Progress(UpdateStats(p.stats, s.result), None, s.state, s.rest, p.written + [t]);
      assert SyncFrom(tasks, i, p, existing, opts, failing) == SyncFrom(tasks, i + 1, q, existing, opts, failing);
      if k == i {
        WrittenKept(tasks, i + 1, q, existing, opts, failing, t);
      } else {
        SyncFromWritesAll(tasks, i + 1, q, existing, opts, failing, k);
      }
    }
  }

  /** What was written stays written. */
  lemma {:induction false} WrittenKept(tasks: seq<Task>, i: nat, p: Progress, existing: Existing,
                                       opts: Options, failing: set<(string, Scope)>, t: Task)
    requires i <= |tasks| && t in p.written
    ensures t in SyncFrom(tasks, i, p, existing, opts, failing).written
    decreases |tasks| - i
  {
    if i < |tasks| {
      var u := tasks[i];
      var s := SetIfNeeded(u.key, u.scope, existing, opts, failing, p.state, p.rest);
      if s.Done? {
        var written := p.written + (if s.mutated && !opts.dryRun then [u] else []);
        var q := Progress(UpdateStats(p.stats, s.result), None, s.state, s.rest, written);
        WrittenKept(tasks, i + 1, q, existing, opts, failing, t);
      }
    }
  }

  /** When every remaining secret already exists, nothing more is
      created. */
  lemma {:induction false} NothingCreated(tasks: seq<Task>, i: nat, p: Progress, existing: Existing,
                                          opts: Options, failing: set<(string, Scope)>)
    requires i <= |tasks|
    requires forall k :: i <= k < |tasks| ==> ExistsIn(existing, tasks[k].key, tasks[k].scope)
    ensures SyncFrom(tasks, i, p, existing, opts, failing).stats.created == p.stats.created
    decreases |tasks| - i
  {
    if i < |tasks| {
      var t := tasks[i];
      var s := SetIfNeeded(t.key, t.scope, existing, opts, failing, p.state, p.rest);
      if s.Done? {
        assert s.result != "created";
        var written := p.written + (if s.mutated && !opts.dryRun then [t] else []);
        var q := Progress(UpdateStats(p.stats, s.result), None, s.state, s.rest, written);
        NothingCreated(tasks, i + 1, q, existing, opts, failing);
      }
    }
  }

  /** Without skipping or prompting, a run over secrets that all exist
      and that does not fail updates every remaining task. */
  lemma {:induction false} AllUpdated(tasks: seq<Task>, i: nat, p: Progress, existing: Existing,
                                      opts: Options, failing: set<(string, Scope)>)
    requires i <= |tasks| && !opts.flags.skipExisting && !opts.flags.confirmOverwrite
    requires forall k :: i <= k < |tasks| ==> ExistsIn(existing, tasks[k].key, tasks[k].scope)
    requires SyncFrom(tasks, i, p, existing, opts, failing).failedAt.None?
    ensures SyncFrom(tasks, i, p, existing, opts, failing).stats.updated == p.stats.updated + (|tasks| - i)
    decreases |tasks| - i
  {
    if i < |tasks| {
      var t := tasks[i];
      var s := SetIfNeeded(t.key, t.scope, existing, opts, failing, p.state, p.rest);
      if s.Done? {
        assert s.result == "updated";
        var written := p.written + (if s.mutated && !opts.dryRun then [t] else []);
        var q := Progress(UpdateStats(p.stats, s.result), None, s.state, s.rest, written);
        AllUpdated(tasks, i + 1, q, existing, opts, failing);
      }
    }
  }

  /** Re-running is harmless: after a real run without skipping or
      prompting that did not fail, a second run against the updated remote
      creates nothing, whatever its own flags; without skipping or
      prompting, and if it does not fail, it updates every key in every
      scope. */
  lemma SecondRunCreatesNothing(secrets: map<string, string>, order: seq<string>, existing: Existing,
                                opts: Options, failing: set<(string, Scope)>, input: seq<string>,
                                opts2: Options, failing2: set<(string, Scope)>, input2: seq<string>)
    requires IsOrderOf(order, secrets.Keys) && !opts.dryRun && !opts.flags.skipExisting && !opts.flags.confirmOverwrite
    requires SetGitHubSecrets(secrets, order, existing, opts, failing, input).failedAt.None?
    requires opts2.dependabot == opts.dependabot
    ensures var first := SetGitHubSecrets(secrets, order, existing, opts, failing, input);
            SetGitHubSecrets(secrets, order, Remote(existing, first.written), opts2, failing2, input2).stats.created == 0
    ensures var first := SetGitHubSecrets(secrets, order, existing, opts, failing, input);
            var second := SetGitHubSecrets(secrets, order, Remote(existing, first.written), opts2, failing2, input2);
            !opts2.flags.skipExisting && !opts2.flags.confirmOverwrite && second.failedAt.None? ==>
              second.stats.updated == if opts.dependabot then 2 * |secrets.Keys| else |secrets.Keys|
  {
    var tasks := Tasks(order, opts.dependabot);
    var p0 := Progress(NoStats, None, Undecided, input, []);
    var first := SyncFrom(tasks, 0, p0, existing, opts, failing);
    var after := Remote(existing, first.written);
    forall k | 0 <= k < |tasks|
      ensures ExistsIn(after, tasks[k].key, tasks[k].scope)
    {
      SyncFromWritesAll(tasks, 0, p0, existing, opts, failing, k);
    }
    var p2 := Progress(NoStats, None, Undecided, input2, []);
    NothingCreated(tasks, 0, p2, after, opts2, failing2);
    if !opts2.flags.skipExisting && !opts2.flags.confirmOverwrite && SyncFrom(tasks, 0, p2, after, opts2, failing2).failedAt.None? {
      AllUpdated(tasks, 0, p2, after, opts2, failing2);
      DistinctCard(order);
    }
  }

  // ---------------------------------------------------------------------
  // Summary
  // ---------------------------------------------------------------------

  /** The lines `printOperationSummary` prints, without their wording. */
  datatype SummaryLine =
    | Header(dryRun: bool)
    | CreatedLine(created: nat)
    | UpdatedLine(updated: nat)
    | SkippedLine(skipped: nat)
    | FailedLine(failed: nat)
    | NoneProcessed

  /** A header naming the kind of run, one line per non-zero counter, and
      a final note when all four counters are zero. */
  function Summary(s: Stats, dryRun: bool): (r: seq<SummaryLine>)
    ensures |r| > 0 && r[0] == Header(dryRun)
  {
    [Header(dryRun)]
    + (if s.created > 0 then [CreatedLine(s.created)] else [])
    + (if s.updated > 0 then [UpdatedLine(s.updated)] else [])
    + (if s.skipped > 0 then [SkippedLine(s.skipped)] else [])
    + (if s.failed > 0 then [FailedLine(s.failed)] else [])
    + (if Processed(s) + s.failed == 0 then [NoneProcessed] else [])
  }

  /** Which lines the summary holds: the header of its kind of run, a
      counter's line exactly when that counter is non-zero, with its
      value, and the final note exactly when nothing was counted. */
  lemma SummaryHolds(s: Stats, dryRun: bool, l: SummaryLine)
    ensures l in Summary(s, dryRun) <==>
              match l
              case Header(d) => d == dryRun
              case CreatedLine(n) => n == s.created > 0
              case UpdatedLine(n) => n == s.updated > 0
              case SkippedLine(n) => n == s.skipped > 0
              case FailedLine(n) => n == s.failed > 0
              case NoneProcessed => Processed(s) + s.failed == 0
  {
  }

  /** The summary of counted statistics with no failure. */
  lemma SummaryOfCounted(r: Progress, n: nat, dryRun: bool)
    requires Counted(r, n) && r.failedAt.None?
    ensures var lines := Summary(r.stats, dryRun);
            (NoneProcessed in lines <==> n == 0) && forall m :: FailedLine(m) !in lines
  {
    SummaryHolds(r.stats, dryRun, NoneProcessed);
    forall m {
      SummaryHolds(r.stats, dryRun, FailedLine(m));
    }
  }

  /** After a successful run the summary reports "no secrets processed"
      exactly when there were no secrets, and never a failure. */
  lemma SummaryOfRun(secrets: map<string, string>, order: seq<string>, existing: Existing, opts: Options,
                     failing: set<(string, Scope)>, input: seq<string>)
    requires IsOrderOf(order, secrets.Keys)
    requires SetGitHubSecrets(secrets, order, existing, opts, failing, input).failedAt.None?
    ensures var lines := Summary(SetGitHubSecrets(secrets, order, existing, opts, failing, input).stats, opts.dryRun);
            (NoneProcessed in lines <==> |secrets| == 0) && forall m :: FailedLine(m) !in lines
  {
    var r := SetGitHubSecrets(secrets, order, existing, opts, failing, input);
    var n := if opts.dependabot then 2 * |secrets.Keys| else |secrets.Keys|;
    SetGitHubSecretsCounts(secrets, order, existing, opts, failing, input);
    SummaryOfCounted(r, n, opts.dryRun);
    assert n == 0 <==> |secrets| == 0;
  }
}
