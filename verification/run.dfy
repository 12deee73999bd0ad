/** The `run` command (cmd/run.go) up to the point where it starts the
    child process: the guard on missing variables and the environment the
    child receives. Starting the process is not modelled. */
module Run {
  import opened Outcome
  import opened Text
  import opened Providers
  import opened Missing
  import opened EnvFile

  /** `getSecretKeys`: the keys of the map, each once, in whatever order
      the map yields them. */
  method SecretKeys(secrets: map<string, string>) returns (keys: seq<string>)
    ensures Distinct(keys) && Elems(keys) == secrets.Keys
    ensures |keys| == |secrets.Keys|
  {
    keys := [];
    var rest := secrets.Keys;
    while rest != {}
      invariant Distinct(keys)
      invariant Elems(keys) !! rest && Elems(keys) + rest == secrets.Keys
      decreases |rest|
    {
      var k :| k in rest;
      keys := keys + [k];
      rest := rest - {k};
    }
    DistinctCard(keys);
  }

  /** `K=V` as `fmt.Sprintf("%s=%s", key, value)` writes it. */
  function Entry(key: string, value: string): string {
    key + "=" + value
  }

  /** One entry per secret, in map order. */
  function Entries(secrets: map<string, string>, order: seq<string>): (r: seq<string>)
    requires IsOrderOf(order, secrets.Keys)
    ensures |r| == |order| == |secrets.Keys|
    ensures forall i :: 0 <= i < |r| ==> order[i] in secrets && r[i] == Entry(order[i], secrets[order[i]])
  {
    DistinctCard(order);
    seq(|order|, i requires 0 <= i < |order| => assert order[i] in Elems(order); Entry(order[i], secrets[order[i]]))
  }

  /** The environment handed to the child: the current environment unless
      `--reset` is given, followed by the secrets' entries. */
  function ChildEnv(secrets: map<string, string>, order: seq<string>, current: seq<string>, reset: bool): (r: seq<string>)
    requires IsOrderOf(order, secrets.Keys)
    ensures reset ==> r == Entries(secrets, order)
    ensures !reset ==> |r| == |current| + |secrets.Keys| && r[..|current|] == current
                       && r[|current|..] == Entries(secrets, order)
  {
    var r := (if reset then [] else current) + Entries(secrets, order);
    assert !reset ==> r[|current|..] == Entries(secrets, order);
    r
  }

  /** Every secret has exactly one entry, and every entry is a secret. */
  lemma EntriesExact(secrets: map<string, string>, order: seq<string>, k: string)
    requires IsOrderOf(order, secrets.Keys)
    ensures var e := Entries(secrets, order);
            && (k in secrets ==> exists j :: 0 <= j < |e| && order[j] == k && e[j] == Entry(k, secrets[k]))
            && (forall j, j' :: 0 <= j < j' < |e| ==> order[j] != order[j'])
  {
    if k in secrets {
      assert k in Elems(order);
      var j :| 0 <= j < |order| && order[j] == k;
    }
  }

  datatype RunError = CollectFailed(cause: LoadError) | MissingVars(report: MissingError)

  /** `runCommand` in GitHub Actions, after the configuration is loaded: a
      collection error, then the missing-variable guard, then the child's
      environment. */
  function RunCommand(collected: Result<CollectionResult, LoadError>, silent: bool, order: seq<string>, current: seq<string>, reset: bool): (r: Result<seq<string>, RunError>)
    requires collected.Ok? ==> (collected.value.hasMissingVars <==> |collected.value.missingVars| > 0)
    requires collected.Ok? ==> IsOrderOf(order, collected.value.secrets.Keys)
    ensures collected.Err? ==> r == Err(CollectFailed(collected.error))
    ensures r.Err? && r.error.MissingVars?
            <==> collected.Ok? && |collected.value.missingVars| > 0 && !silent
    ensures r.Ok? ==> r.value == ChildEnv(collected.value.secrets, order, current, reset)
  {
    match collected
    case Err(e) => Err(CollectFailed(e))
    case Ok(c) =>
      match Gate(Missing.RunCommand, c, silent)
      case Some(report) => Err(MissingVars(report))
      case None => Ok(ChildEnv(c.secrets, order, current, reset))
  }
}
