/** Secret collection (pkg/providers/providers.go): the Google Secret
    Manager adapter reads environment variables through explicit bindings,
    the dotenv adapter reads parsed files, and `CollectSecretsWithResult`
    merges all GSM providers and then all dotenv providers. The process
    environment and the file system are inputs. Go visits the providers of
    one kind, and the bindings of one path map, in map order; here those
    orders are explicit sequences. */
module Providers {
  import opened Outcome
  import opened Text
  import opened Config
  import opened EnvFile
  import opened Bindings

  /** A GSM binding whose environment variable was unset or empty. */
  datatype MissingVariable = MissingVariable(variableName: string, mappedTo: string, provider: string)

  datatype CollectionResult = CollectionResult(
    secrets: map<string, string>,
    missingVars: seq<MissingVariable>,
    hasMissingVars: bool)

  /** `os.Getenv`: the empty string for an unset variable. */
  function Getenv(env: map<string, string>, name: string): string {
    if name in env then env[name] else ""
  }

  /** The variables `os.Getenv` reports with a non-empty value: the GSM
      adapter treats empty and unset alike. */
  function Present(env: map<string, string>): (r: map<string, string>)
    ensures forall name :: name in r <==> Getenv(env, name) != ""
    ensures forall name :: name in r ==> r[name] == Getenv(env, name)
  {
    map name | name in env && env[name] != "" :: env[name]
  }

  // ---------------------------------------------------------------------
  // Google Secret Manager adapter
  // ---------------------------------------------------------------------

  /** Secrets and missing variables gathered so far. */
  datatype Gathered = Gathered(secrets: map<string, string>, missing: seq<MissingVariable>)

  /** The missing-variable records for the bindings whose variable is unset
      or empty, in binding order. */
  function MissingOf(bs: seq<Binding>, env: map<string, string>, name: string): (r: seq<MissingVariable>)
    ensures |r| <= |bs|
    ensures forall j :: 0 <= j < |r| ==> r[j].provider == name && Getenv(env, r[j].variableName) == ""
  {
    if |bs| == 0 then []
    else
      var b := bs[|bs| - 1];
      MissingOf(bs[..|bs| - 1], env, name)
        + (if Getenv(env, b.from) == "" then [MissingVariable(b.from, b.to, name)] else [])
  }

  lemma {:induction false} MissingOfAppend(a: seq<Binding>, b: seq<Binding>, env: map<string, string>, name: string)
    ensures MissingOf(a + b, env, name) == MissingOf(a, env, name) + MissingOf(b, env, name)
    decreases |b|
  {
    if |b| == 0 {
      assert a + b == a;
    } else {
      assert (a + b)[..|a + b| - 1] == a + b[..|b| - 1];
      assert (a + b)[|a + b| - 1] == b[|b| - 1];
      MissingOfAppend(a, b[..|b| - 1], env, name);
    }
  }

  /** A record is missing exactly when it names a binding whose variable is
      unset or empty. */
  lemma {:induction false} MissingOfMember(bs: seq<Binding>, env: map<string, string>, name: string, m: MissingVariable)
    ensures m in MissingOf(bs, env, name)
            <==> exists b :: b in bs && Getenv(env, b.from) == "" && m == MissingVariable(b.from, b.to, name)
  {
    if |bs| > 0 {
      var init := bs[..|bs| - 1];
      MissingOfMember(init, env, name, m);
      assert bs == init + [bs[|bs| - 1]];
    }
  }

  /** One GSM path map. One without keys (discovery mode, which GSM does
      not support) is skipped. */
  function GsmPathMap(g: Gathered, pm: PathMap, env: map<string, string>, name: string): Gathered {
    if |pm.keys| == 0 then g
    else Gathered(BindAll(g.secrets, pm.keys, Present(env)), g.missing + MissingOf(pm.keys, env, name))
  }

  /** Each binding of a GSM path map has exactly one of two outcomes: a
      non-empty variable sets the output key to its value and reports
      nothing; an unset or empty one leaves the secrets alone and appends
      exactly one missing-variable record. */
  lemma GsmBindingOutcome(g: Gathered, b: Binding, env: map<string, string>, name: string)
    ensures var r := GsmPathMap(g, PathMap("", "", [b]), env, name);
            if Getenv(env, b.from) != "" then
              r.secrets == g.secrets[b.to := Getenv(env, b.from)] && r.missing == g.missing
            else
              r.secrets == g.secrets && r.missing == g.missing + [MissingVariable(b.from, b.to, name)]
  {
    var bs := [b];
    assert bs[..0] == [];
    assert BindAll(g.secrets, bs, Present(env))
        == if b.from in Present(env) then g.secrets[b.to := Present(env)[b.from]] else g.secrets;
    assert MissingOf(bs, env, name)
        == if Getenv(env, b.from) == "" then [MissingVariable(b.from, b.to, name)] else [];
  }

  /** `collectGSMSecretsWithMissing`, from an arbitrary starting point. */
  function GsmMaps(g: Gathered, maps: seq<PathMap>, env: map<string, string>, name: string): (r: Gathered)
    ensures |g.missing| <= |r.missing| && r.missing[..|g.missing|] == g.missing
    ensures forall j :: |g.missing| <= j < |r.missing| ==> r.missing[j].provider == name
  {
    if |maps| == 0 then g
    else GsmPathMap(GsmMaps(g, maps[..|maps| - 1], env, name), maps[|maps| - 1], env, name)
  }

  function CollectGsm(p: Provider, name: string, env: map<string, string>): (r: Gathered)
    ensures forall j :: 0 <= j < |r.missing| ==> r.missing[j].provider == name
    ensures |p.maps| == 0 ==> r == Gathered(map[], [])
  {
    GsmMaps(Gathered(map[], []), p.maps, env, name)
  }

  /** All bindings of the path maps, in order. */
  function AllBindings(maps: seq<PathMap>): seq<Binding> {
    if |maps| == 0 then [] else AllBindings(maps[..|maps| - 1]) + maps[|maps| - 1].keys
  }

  lemma {:induction false} AllBindingsMember(maps: seq<PathMap>, b: Binding)
    ensures b in AllBindings(maps) <==> exists i :: 0 <= i < |maps| && b in maps[i].keys
  {
    if |maps| > 0 {
      var init := maps[..|maps| - 1];
      AllBindingsMember(init, b);
      if exists i :: 0 <= i < |init| && b in init[i].keys {
        var i :| 0 <= i < |init| && b in init[i].keys;
        assert maps[i] == init[i];
      }
      if exists i :: 0 <= i < |maps| - 1 && b in maps[i].keys {
        var i :| 0 <= i < |maps| - 1 && b in maps[i].keys;
        assert maps[i] == init[i];
      }
    }
  }

  /** The path-map structure does not matter: a GSM provider behaves as one
      run over all its bindings, so a path map without keys contributes
      neither secrets nor missing variables. */
  lemma {:induction false} GsmMapsFlat(g: Gathered, maps: seq<PathMap>, env: map<string, string>, name: string)
    ensures GsmMaps(g, maps, env, name)
            == Gathered(BindAll(g.secrets, AllBindings(maps), Present(env)),
                        g.missing + MissingOf(AllBindings(maps), env, name))
  {
    if |maps| > 0 {
      var init := maps[..|maps| - 1];
      var pm := maps[|maps| - 1];
      GsmMapsFlat(g, init, env, name);
      BindAllAppend(g.secrets, AllBindings(init), pm.keys, Present(env));
      MissingOfAppend(AllBindings(init), pm.keys, env, name);
      if |pm.keys| == 0 {
        assert AllBindings(maps) == AllBindings(init);
      }
    }
  }

  /** An output key is collected exactly when some binding onto it names a
      non-empty variable, and its value is that of such a variable. */
  lemma GsmSecrets(p: Provider, name: string, env: map<string, string>, k: string)
    ensures var s := CollectGsm(p, name, env).secrets;
            && (k in s <==> exists b :: b in AllBindings(p.maps) && b.to == k && Getenv(env, b.from) != "")
            && (k in s ==> exists b :: b in AllBindings(p.maps) && b.to == k && s[k] == Getenv(env, b.from))
  {
    var bs := AllBindings(p.maps);
    GsmMapsFlat(Gathered(map[], []), p.maps, env, name);
    BindAllKeys(map[], bs, Present(env), k);
    var s := CollectGsm(p, name, env).secrets;
    if exists i :: 0 <= i < |bs| && bs[i].to == k && bs[i].from in Present(env) {
      var i :| 0 <= i < |bs| && bs[i].to == k && bs[i].from in Present(env);
      assert bs[i] in bs;
    }
    if k in s {
      BindAllProvenance(map[], bs, Present(env), k);
      var i :| 0 <= i < |bs| && bs[i].to == k && bs[i].from in Present(env) && s[k] == Present(env)[bs[i].from];
      assert bs[i] in bs;
    }
  }

  /** The missing variables of a GSM provider are exactly its bindings whose
      variable is unset or empty, attributed to the provider. */
  lemma GsmMissing(p: Provider, name: string, env: map<string, string>, m: MissingVariable)
    ensures m in CollectGsm(p, name, env).missing
            <==> exists b :: b in AllBindings(p.maps) && Getenv(env, b.from) == ""
                             && m == MissingVariable(b.from, b.to, name)
  {
    GsmMapsFlat(Gathered(map[], []), p.maps, env, name);
    MissingOfMember(AllBindings(p.maps), env, name, m);
  }

  // ---------------------------------------------------------------------
  // dotenv adapter
  // ---------------------------------------------------------------------

  /** One dotenv path map applied to its loaded file: discovery mode (no
      keys) copies every parsed key unchanged; mapping mode copies only
      bound keys, renamed, and silently skips bound keys the file lacks. */
  function DotenvPathMap(secrets: map<string, string>, pm: PathMap, file: map<string, string>): (r: map<string, string>)
    ensures |pm.keys| == 0 ==> forall k :: k in r <==> k in secrets || k in file
    ensures |pm.keys| == 0 ==> forall k :: k in file ==> r[k] == file[k]
  {
    if |pm.keys| == 0 then secrets + file else BindAll(secrets, pm.keys, file)
  }

  /** `collectDotenvSecrets`, from an arbitrary starting point: the first
      path map whose file fails to load aborts the provider. */
  function DotenvMaps(secrets: map<string, string>, maps: seq<PathMap>, files: map<string, FileState>): (r: Result<map<string, string>, LoadError>)
    ensures r.Err? ==> exists i :: 0 <= i < |maps| && maps[i].path == r.error.path && Unloadable(maps[i], files)
    decreases |maps|
  {
    if |maps| == 0 then Ok(secrets)
    else
      match LoadEnvFile(maps[0].path, files)
      case Err(e) => Err(e)
      case Ok(file) => DotenvMaps(DotenvPathMap(secrets, maps[0], file), maps[1..], files)
  }

  function CollectDotenv(p: Provider, files: map<string, FileState>): (r: Result<map<string, string>, LoadError>)
    ensures r.Err? ==> exists i :: 0 <= i < |p.maps| && p.maps[i].path == r.error.path && Unloadable(p.maps[i], files)
    ensures |p.maps| == 0 ==> r == Ok(map[])
  {
    DotenvMaps(map[], p.maps, files)
  }

  /** A path map's file cannot be loaded. */
  predicate Unloadable(pm: PathMap, files: map<string, FileState>) {
    pm.path !in files || files[pm.path].scanFailed
  }

  /** A dotenv provider fails exactly when one of its path maps cannot be
      loaded. */
  lemma {:induction false} DotenvMapsFails(secrets: map<string, string>, maps: seq<PathMap>, files: map<string, FileState>)
    ensures DotenvMaps(secrets, maps, files).Err? <==> exists i :: 0 <= i < |maps| && Unloadable(maps[i], files)
    decreases |maps|
  {
    if |maps| > 0 && !Unloadable(maps[0], files) {
      var file := LoadEnvFile(maps[0].path, files).value;
      DotenvMapsFails(DotenvPathMap(secrets, maps[0], file), maps[1..], files);
      assert forall i :: 1 <= i < |maps| ==> maps[i] == maps[1..][i - 1];
    }
  }

  /** A first path map that cannot be loaded aborts the provider with its
      error. */
  lemma DotenvMapsFailsHere(secrets: map<string, string>, maps: seq<PathMap>, files: map<string, FileState>)
    requires |maps| > 0 && Unloadable(maps[0], files)
    ensures DotenvMaps(secrets, maps, files) == Err(LoadEnvFile(maps[0].path, files).error)
  {
  }

  /** The error is that of the first path map that cannot be loaded. */
  lemma {:induction false} DotenvMapsFirstError(secrets: map<string, string>, maps: seq<PathMap>, files: map<string, FileState>, i: int)
    requires 0 <= i < |maps| && Unloadable(maps[i], files)
    requires forall j :: 0 <= j < i ==> !Unloadable(maps[j], files)
    ensures DotenvMaps(secrets, maps, files) == Err(LoadEnvFile(maps[i].path, files).error)
    decreases |maps|
  {
    if i == 0 {
      DotenvMapsFailsHere(secrets, maps, files);
    } else {
      assert !Unloadable(maps[0], files);
      var file := LoadEnvFile(maps[0].path, files).value;
      var acc := DotenvPathMap(secrets, maps[0], file);
      var tail := maps[1..];
      DotenvMapsStep(secrets, maps, files, file, acc, tail);
      assert forall j :: 0 <= j < i - 1 ==> tail[j] == maps[j + 1];
      DotenvMapsFirstError(acc, tail, files, i - 1);
    }
  }

  /** Mapping mode keeps exactly the bound keys the file has, renamed to
      their output keys, each with the value of a source key bound to it. */
  lemma DotenvMappingMode(pm: PathMap, file: map<string, string>, k: string)
    requires |pm.keys| > 0
    ensures var r := DotenvPathMap(map[], pm, file);
            && (k in r <==> exists b :: b in pm.keys && b.to == k && b.from in file)
            && (k in r ==> exists b :: b in pm.keys && b.to == k && b.from in file && r[k] == file[b.from])
  {
    var bs := pm.keys;
    BindAllKeys(map[], bs, file, k);
    if exists i :: 0 <= i < |bs| && bs[i].to == k && bs[i].from in file {
      var i :| 0 <= i < |bs| && bs[i].to == k && bs[i].from in file;
      assert bs[i] in bs;
    }
    if k in BindAll(map[], bs, file) {
      BindAllProvenance(map[], bs, file, k);
      var i :| 0 <= i < |bs| && bs[i].to == k && bs[i].from in file && BindAll(map[], bs, file)[k] == file[bs[i].from];
      assert bs[i] in bs;
    }
  }

  /** A provider with one discovery-mode path map yields its file's parsed
      content unchanged. */
  lemma DotenvDiscoveryFile(kind: string, pm: PathMap, files: map<string, FileState>)
    requires |pm.keys| == 0 && !Unloadable(pm, files)
    ensures CollectDotenv(Provider(kind, [pm]), files) == Ok(ParseEnv(files[pm.path].lines))
  {
    var maps := [pm];
    var file := LoadEnvFile(pm.path, files).value;
    assert maps[0] == pm && maps[1..] == [];
    assert DotenvPathMap(map[], pm, file) == file;
    assert DotenvMaps(map[], maps, files) == DotenvMaps(file, [], files);
  }

  /** One path map's writes lie on top of what was collected before. */
  lemma DotenvPathMapOnto(secrets: map<string, string>, pm: PathMap, file: map<string, string>)
    ensures DotenvPathMap(secrets, pm, file) == secrets + DotenvPathMap(map[], pm, file)
  {
    if |pm.keys| > 0 {
      BindAllOnto(secrets, pm.keys, file);
    } else {
      assert map[] + file == file;
    }
  }

  /** One loaded path map is applied, and the rest follow. */
  lemma DotenvMapsStep(secrets: map<string, string>, maps: seq<PathMap>, files: map<string, FileState>,
                       file: map<string, string>, acc: map<string, string>, tail: seq<PathMap>)
    requires |maps| > 0 && LoadEnvFile(maps[0].path, files) == Ok(file) && tail == maps[1..]
    requires acc == DotenvPathMap(secrets, maps[0], file)
    ensures DotenvMaps(secrets, maps, files) == DotenvMaps(acc, tail, files)
  {
  }

  /** The provider's writes lie on top of what was collected before. */
  predicate Onto(r: Result<map<string, string>, LoadError>, base: Result<map<string, string>, LoadError>, secrets: map<string, string>) {
    (r.Ok? <==> base.Ok?) && (r.Ok? ==> r.value == secrets + base.value)
  }

  lemma OntoStep(secrets: map<string, string>, e1: map<string, string>, r: Result<map<string, string>, LoadError>,
                 base: Result<map<string, string>, LoadError>, rest: Result<map<string, string>, LoadError>)
    requires Onto(r, rest, secrets + e1) && Onto(base, rest, e1)
    ensures Onto(r, base, secrets)
  {
    if rest.Ok? {
      assert (secrets + e1) + rest.value == secrets + (e1 + rest.value);
    }
  }

  lemma {:induction false} DotenvMapsOnto(secrets: map<string, string>, maps: seq<PathMap>, files: map<string, FileState>)
    ensures Onto(DotenvMaps(secrets, maps, files), DotenvMaps(map[], maps, files), secrets)
    decreases |maps|
  {
    if |maps| > 0 && LoadEnvFile(maps[0].path, files).Ok? {
      var file := LoadEnvFile(maps[0].path, files).value;
      var tail := maps[1..];
      var e1 := DotenvPathMap(map[], maps[0], file);
      DotenvPathMapOnto(secrets, maps[0], file);
      DotenvMapsStep(secrets, maps, files, file, secrets + e1, tail);
      DotenvMapsStep(map[], maps, files, file, e1, tail);
      DotenvMapsOnto(secrets + e1, tail, files);
      DotenvMapsOnto(e1, tail, files);
      OntoStep(secrets, e1, DotenvMaps(secrets + e1, tail, files), DotenvMaps(e1, tail, files), DotenvMaps(map[], tail, files));
    }
  }

  // ---------------------------------------------------------------------
  // Collection
  // ---------------------------------------------------------------------

  /** The GSM providers in the given order: missing variables are
      concatenated, and each provider's secrets are copied over the
      running map. */
  function GsmPhase(g: Gathered, names: seq<string>, gsm: map<string, Provider>, env: map<string, string>): (r: Gathered)
    requires Elems(names) <= gsm.Keys
    ensures forall m :: m in r.missing ==> m in g.missing || m.provider in names
    decreases |names|
  {
    if |names| == 0 then g
    else
      assert names[0] in Elems(names) && Elems(names[1..]) <= Elems(names);
      var p := CollectGsm(gsm[names[0]], names[0], env);
      GsmPhase(Gathered(g.secrets + p.secrets, g.missing + p.missing), names[1..], gsm, env)
  }

  /** The dotenv providers in the given order; the first failure aborts. */
  function DotenvPhase(secrets: map<string, string>, names: seq<string>, dot: map<string, Provider>, files: map<string, FileState>): (r: Result<map<string, string>, LoadError>)
    requires Elems(names) <= dot.Keys
    ensures r.Err? ==> exists n :: n in names && n in dot && CollectDotenv(dot[n], files) == Err(r.error)
    decreases |names|
  {
    if |names| == 0 then Ok(secrets)
    else
      assert names[0] in Elems(names) && Elems(names[1..]) <= Elems(names);
      match CollectDotenv(dot[names[0]], files)
      case Err(e) => Err(e)
      case Ok(s) => DotenvPhase(secrets + s, names[1..], dot, files)
  }

  /** `CollectSecretsWithResult`. `gsmOrder` and `dotenvOrder` are the
      orders in which Go happens to visit the providers of each kind. */
  function CollectSecretsWithResult(
    cfg: TellerConfig, gsmOrder: seq<string>, dotenvOrder: seq<string>,
    env: map<string, string>, files: map<string, FileState>): (r: Result<CollectionResult, LoadError>)
    requires IsOrderOf(gsmOrder, ProvidersByKind(cfg, GoogleSecretManager).Keys)
    requires IsOrderOf(dotenvOrder, ProvidersByKind(cfg, Dotenv).Keys)
    ensures r.Ok? ==> (r.value.hasMissingVars <==> |r.value.missingVars| > 0)
  {
    var gsm := ProvidersByKind(cfg, GoogleSecretManager);
    var dot := ProvidersByKind(cfg, Dotenv);
    var g := GsmPhase(Gathered(map[], []), gsmOrder, gsm, env);
    match DotenvPhase(g.secrets, dotenvOrder, dot, files)
    case Err(e) => Err(e)
    case Ok(secrets) => Ok(CollectionResult(secrets, g.missing, |g.missing| > 0))
  }

  /** The missing variables of the GSM phase: those it started with and
      those of each provider visited. */
  lemma {:induction false} GsmPhaseMissing(g: Gathered, names: seq<string>, gsm: map<string, Provider>, env: map<string, string>, m: MissingVariable)
    requires Elems(names) <= gsm.Keys
    ensures m in GsmPhase(g, names, gsm, env).missing
            <==> m in g.missing || exists n :: n in names && m in CollectGsm(gsm[n], n, env).missing
    decreases |names|
  {
    if |names| > 0 {
      assert names[0] in Elems(names) && Elems(names[1..]) <= Elems(names);
      var p := CollectGsm(gsm[names[0]], names[0], env);
      GsmPhaseMissing(Gathered(g.secrets + p.secrets, g.missing + p.missing), names[1..], gsm, env, m);
      assert names == [names[0]] + names[1..];
    }
  }

  /** The secrets of the GSM phase: a key is present exactly when it was
      before or some visited provider collected it. */
  lemma {:induction false} GsmPhaseKeys(g: Gathered, names: seq<string>, gsm: map<string, Provider>, env: map<string, string>, k: string)
    requires Elems(names) <= gsm.Keys
    ensures k in GsmPhase(g, names, gsm, env).secrets
            <==> k in g.secrets || exists n :: n in names && k in CollectGsm(gsm[n], n, env).secrets
    decreases |names|
  {
    if |names| > 0 {
      assert names[0] in Elems(names) && Elems(names[1..]) <= Elems(names);
      var p := CollectGsm(gsm[names[0]], names[0], env);
      GsmPhaseKeys(Gathered(g.secrets + p.secrets, g.missing + p.missing), names[1..], gsm, env, k);
      assert names == [names[0]] + names[1..];
    }
  }

  /** One GSM provider's result is merged, and the rest follow. */
  lemma GsmPhaseStep(g: Gathered, names: seq<string>, gsm: map<string, Provider>, env: map<string, string>,
                     acc: Gathered, tail: seq<string>)
    requires Elems(names) <= gsm.Keys && |names| > 0 && tail == names[1..]
    requires names[0] in gsm
    requires var p := CollectGsm(gsm[names[0]], names[0], env);
             acc == Gathered(g.secrets + p.secrets, g.missing + p.missing)
    ensures Elems(tail) <= gsm.Keys
    ensures GsmPhase(g, names, gsm, env) == GsmPhase(acc, tail, gsm, env)
  {
    assert names[0] in Elems(names) && Elems(names[1..]) <= Elems(names);
  }

  /** A key that no visited GSM provider collects keeps its value. */
  lemma {:induction false} GsmPhaseUntouched(g: Gathered, names: seq<string>, gsm: map<string, Provider>,
                                             env: map<string, string>, k: string)
    requires Elems(names) <= gsm.Keys && k in g.secrets
    requires forall j :: 0 <= j < |names| ==> names[j] in gsm && k !in CollectGsm(gsm[names[j]], names[j], env).secrets
    ensures k in GsmPhase(g, names, gsm, env).secrets && GsmPhase(g, names, gsm, env).secrets[k] == g.secrets[k]
    decreases |names|
  {
    if |names| > 0 {
      var p := CollectGsm(gsm[names[0]], names[0], env);
      var acc := Gathered(g.secrets + p.secrets, g.missing + p.missing);
      GsmPhaseStep(g, names, gsm, env, acc, names[1..]);
      assert forall j :: 0 <= j < |names[1..]| ==> names[1..][j] == names[j + 1];
      GsmPhaseUntouched(acc, names[1..], gsm, env, k);
    }
  }

  /** Within the GSM phase the last provider, in visiting order, that
      collects a key decides its value. */
  lemma {:induction false} GsmPhaseLast(g: Gathered, names: seq<string>, gsm: map<string, Provider>,
                                        env: map<string, string>, i: int, k: string)
    requires Elems(names) <= gsm.Keys && 0 <= i < |names|
    requires forall j :: 0 <= j < |names| ==> names[j] in gsm
    requires k in CollectGsm(gsm[names[i]], names[i], env).secrets
    requires forall j :: i < j < |names| ==> k !in CollectGsm(gsm[names[j]], names[j], env).secrets
    ensures k in GsmPhase(g, names, gsm, env).secrets
    ensures GsmPhase(g, names, gsm, env).secrets[k] == CollectGsm(gsm[names[i]], names[i], env).secrets[k]
    decreases |names|
  {
    var p := CollectGsm(gsm[names[0]], names[0], env);
    var acc := Gathered(g.secrets + p.secrets, g.missing + p.missing);
    var tail := names[1..];
    GsmPhaseStep(g, names, gsm, env, acc, tail);
    assert forall j :: 0 <= j < |tail| ==> tail[j] == names[j + 1];
    if i == 0 {
      GsmPhaseUntouched(acc, tail, gsm, env, k);
    } else {
      GsmPhaseLast(acc, tail, gsm, env, i - 1, k);
    }
  }

  /** The dotenv phase fails exactly when some visited provider has a path
      map that cannot be loaded. */
  lemma {:induction false} DotenvPhaseFails(secrets: map<string, string>, names: seq<string>, dot: map<string, Provider>, files: map<string, FileState>)
    requires Elems(names) <= dot.Keys
    ensures DotenvPhase(secrets, names, dot, files).Err?
            <==> exists n, i :: n in names && 0 <= i < |dot[n].maps| && Unloadable(dot[n].maps[i], files)
    decreases |names|
  {
    if |names| > 0 {
      assert names[0] in Elems(names) && Elems(names[1..]) <= Elems(names);
      DotenvMapsFails(map[], dot[names[0]].maps, files);
      assert names == [names[0]] + names[1..];
      match CollectDotenv(dot[names[0]], files)
      case Err(_) =>
      case Ok(s) => DotenvPhaseFails(secrets + s, names[1..], dot, files);
    }
  }

  /** One provider's secrets are collected, and the rest follow. */
  lemma DotenvPhaseStep(secrets: map<string, string>, names: seq<string>, dot: map<string, Provider>, files: map<string, FileState>,
                        s: map<string, string>, acc: map<string, string>, tail: seq<string>)
    requires Elems(names) <= dot.Keys && |names| > 0 && tail == names[1..]
    requires CollectDotenv(dot[names[0]], files) == Ok(s) && acc == secrets + s
    ensures Elems(tail) <= dot.Keys
    ensures DotenvPhase(secrets, names, dot, files) == DotenvPhase(acc, tail, dot, files)
  {
    assert names[0] in Elems(names) && Elems(names[1..]) <= Elems(names);
  }

  /** A key that no visited dotenv provider collects keeps its value. */
  lemma {:induction false} DotenvPhaseUntouched(secrets: map<string, string>, names: seq<string>, dot: map<string, Provider>,
                                                files: map<string, FileState>, k: string)
    requires Elems(names) <= dot.Keys && k in secrets
    requires DotenvPhase(secrets, names, dot, files).Ok?
    requires forall j :: 0 <= j < |names| ==> names[j] in dot && CollectDotenv(dot[names[j]], files).Ok?
                                              && k !in CollectDotenv(dot[names[j]], files).value
    ensures k in DotenvPhase(secrets, names, dot, files).value
    ensures DotenvPhase(secrets, names, dot, files).value[k] == secrets[k]
    decreases |names|
  {
    if |names| > 0 {
      var s := CollectDotenv(dot[names[0]], files).value;
      var tail := names[1..];
      DotenvPhaseStep(secrets, names, dot, files, s, secrets + s, tail);
      assert forall j :: 0 <= j < |tail| ==> tail[j] == names[j + 1];
      DotenvPhaseUntouched(secrets + s, tail, dot, files, k);
    }
  }

  /** Every provider of a dotenv phase that succeeds loaded its files. */
  lemma {:induction false} DotenvPhaseLoaded(secrets: map<string, string>, names: seq<string>, dot: map<string, Provider>,
                                             files: map<string, FileState>, j: int)
    requires Elems(names) <= dot.Keys && 0 <= j < |names|
    requires DotenvPhase(secrets, names, dot, files).Ok?
    ensures names[j] in dot && CollectDotenv(dot[names[j]], files).Ok?
    decreases |names|
  {
    assert names[0] in Elems(names) && names[j] in Elems(names);
    var c := CollectDotenv(dot[names[0]], files);
    if j > 0 && c.Ok? {
      var tail := names[1..];
      DotenvPhaseStep(secrets, names, dot, files, c.value, secrets + c.value, tail);
      assert tail[j - 1] == names[j];
      DotenvPhaseLoaded(secrets + c.value, tail, dot, files, j - 1);
    }
  }

  /** Within a dotenv phase that succeeds the last provider, in visiting
      order, that collects a key decides its value. */
  lemma {:induction false} DotenvPhaseLast(secrets: map<string, string>, names: seq<string>, dot: map<string, Provider>,
                                           files: map<string, FileState>, i: int, k: string)
    requires Elems(names) <= dot.Keys && 0 <= i < |names|
    requires forall j :: 0 <= j < |names| ==> names[j] in dot
    requires DotenvPhase(secrets, names, dot, files).Ok?
    requires CollectDotenv(dot[names[i]], files).Ok? && k in CollectDotenv(dot[names[i]], files).value
    requires forall j :: i < j < |names| && CollectDotenv(dot[names[j]], files).Ok?
                         ==> k !in CollectDotenv(dot[names[j]], files).value
    ensures k in DotenvPhase(secrets, names, dot, files).value
    ensures DotenvPhase(secrets, names, dot, files).value[k] == CollectDotenv(dot[names[i]], files).value[k]
    decreases |names|
  {
    DotenvPhaseLoaded(secrets, names, dot, files, 0);
    var s := CollectDotenv(dot[names[0]], files).value;
    var tail := names[1..];
    DotenvPhaseStep(secrets, names, dot, files, s, secrets + s, tail);
    assert forall j :: 0 <= j < |tail| ==> tail[j] == names[j + 1];
    if i == 0 {
      forall j | 0 <= j < |tail|
        ensures tail[j] in dot && CollectDotenv(dot[tail[j]], files).Ok? && k !in CollectDotenv(dot[tail[j]], files).value
      {
        DotenvPhaseLoaded(secrets + s, tail, dot, files, j);
      }
      DotenvPhaseUntouched(secrets + s, tail, dot, files, k);
    } else {
      DotenvPhaseLast(secrets + s, tail, dot, files, i - 1, k);
    }
  }

  /** The dotenv phase's writes lie on top of the GSM result. */
  lemma {:induction false} DotenvPhaseOnto(secrets: map<string, string>, names: seq<string>, dot: map<string, Provider>, files: map<string, FileState>)
    requires Elems(names) <= dot.Keys
    ensures Onto(DotenvPhase(secrets, names, dot, files), DotenvPhase(map[], names, dot, files), secrets)
    decreases |names|
  {
    if |names| > 0 {
      assert names[0] in Elems(names);
      match CollectDotenv(dot[names[0]], files)
      case Err(_) =>
      case Ok(s) =>
        var tail := names[1..];
        assert map[] + s == s;
        DotenvPhaseStep(secrets, names, dot, files, s, secrets + s, tail);
        DotenvPhaseStep(map[], names, dot, files, s, s, tail);
        DotenvPhaseOnto(secrets + s, tail, dot, files);
        DotenvPhaseOnto(s, tail, dot, files);
        OntoStep(secrets, s, DotenvPhase(secrets + s, tail, dot, files), DotenvPhase(s, tail, dot, files), DotenvPhase(map[], tail, dot, files));
    }
  }

  /** A dotenv value overrides a GSM value for the same output key: the
      collected secrets are the GSM secrets with the dotenv secrets copied
      over them. */
  lemma DotenvOverridesGsm(
    cfg: TellerConfig, gsmOrder: seq<string>, dotenvOrder: seq<string>,
    env: map<string, string>, files: map<string, FileState>)
    requires IsOrderOf(gsmOrder, ProvidersByKind(cfg, GoogleSecretManager).Keys)
    requires IsOrderOf(dotenvOrder, ProvidersByKind(cfg, Dotenv).Keys)
    ensures var r := CollectSecretsWithResult(cfg, gsmOrder, dotenvOrder, env, files);
            var d := DotenvPhase(map[], dotenvOrder, ProvidersByKind(cfg, Dotenv), files);
            r.Ok? <==> d.Ok?
    ensures var r := CollectSecretsWithResult(cfg, gsmOrder, dotenvOrder, env, files);
            var g := GsmPhase(Gathered(map[], []), gsmOrder, ProvidersByKind(cfg, GoogleSecretManager), env);
            var d := DotenvPhase(map[], dotenvOrder, ProvidersByKind(cfg, Dotenv), files);
            r.Ok? ==> r.value.secrets == g.secrets + d.value
  {
    var g := GsmPhase(Gathered(map[], []), gsmOrder, ProvidersByKind(cfg, GoogleSecretManager), env);
    DotenvPhaseOnto(g.secrets, dotenvOrder, ProvidersByKind(cfg, Dotenv), files);
  }

  /** Collection fails exactly when some dotenv provider of the
      configuration has a path map whose file cannot be loaded; which
      provider is visited first does not matter for whether it fails. */
  lemma CollectFailsIff(
    cfg: TellerConfig, gsmOrder: seq<string>, dotenvOrder: seq<string>,
    env: map<string, string>, files: map<string, FileState>)
    requires IsOrderOf(gsmOrder, ProvidersByKind(cfg, GoogleSecretManager).Keys)
    requires IsOrderOf(dotenvOrder, ProvidersByKind(cfg, Dotenv).Keys)
    ensures CollectSecretsWithResult(cfg, gsmOrder, dotenvOrder, env, files).Err?
            <==> exists n, i :: n in cfg.providers && cfg.providers[n].kind == Dotenv
                                && 0 <= i < |cfg.providers[n].maps| && Unloadable(cfg.providers[n].maps[i], files)
  {
    var dot := ProvidersByKind(cfg, Dotenv);
    var g := GsmPhase(Gathered(map[], []), gsmOrder, ProvidersByKind(cfg, GoogleSecretManager), env);
    DotenvPhaseFails(g.secrets, dotenvOrder, dot, files);
    assert forall n :: n in dotenvOrder <==> n in dot by {
      forall n ensures n in dotenvOrder <==> n in Elems(dotenvOrder) { }
    }
  }

  /** The missing variables are exactly the GSM bindings, over all GSM
      providers, whose variable is unset or empty, each attributed to its
      provider. */
  lemma CollectMissingVars(
    cfg: TellerConfig, gsmOrder: seq<string>, dotenvOrder: seq<string>,
    env: map<string, string>, files: map<string, FileState>, m: MissingVariable)
    requires IsOrderOf(gsmOrder, ProvidersByKind(cfg, GoogleSecretManager).Keys)
    requires IsOrderOf(dotenvOrder, ProvidersByKind(cfg, Dotenv).Keys)
    requires CollectSecretsWithResult(cfg, gsmOrder, dotenvOrder, env, files).Ok?
    ensures m in CollectSecretsWithResult(cfg, gsmOrder, dotenvOrder, env, files).value.missingVars
            <==> exists n, b :: n in cfg.providers && cfg.providers[n].kind == GoogleSecretManager
                                && b in AllBindings(cfg.providers[n].maps) && Getenv(env, b.from) == ""
                                && m == MissingVariable(b.from, b.to, n)
  {
    var gsm := ProvidersByKind(cfg, GoogleSecretManager);
    GsmPhaseMissing(Gathered(map[], []), gsmOrder, gsm, env, m);
    assert forall n :: n in gsmOrder <==> n in gsm by {
      forall n ensures n in gsmOrder <==> n in Elems(gsmOrder) { }
    }
    forall n | n in gsm
      ensures m in CollectGsm(gsm[n], n, env).missing
              <==> exists b :: b in AllBindings(gsm[n].maps) && Getenv(env, b.from) == ""
                               && m == MissingVariable(b.from, b.to, n)
    {
      GsmMissing(gsm[n], n, env, m);
    }
  }
}
