/** The `export` command (cmd/export.go): the env and CSV renderings with
    their escaping, and the dispatch on the format name. The JSON and YAML
    renderings are library calls; here they stand for the secrets they
    serialise. */
module Export {
  import opened Outcome
  import opened Text
  import opened Providers
  import opened Missing
  import opened EnvFile

  // ---------------------------------------------------------------------
  // env format
  // ---------------------------------------------------------------------

  /** The escaping in `exportEnv`: backslashes doubled first, then `"`
      written as `\"`, then a newline written as `\n`. */
  function EscapeEnv(v: string): (r: string)
    ensures '\\' !in v && '"' !in v && '\n' !in v ==> r == v
  {
    ReplaceChar(ReplaceChar(ReplaceChar(v, '\\', "\\\\"), '"', "\\\""), '\n', "\\n")
  }

  /** What each character becomes in one pass. */
  function EscapeEnvChar(c: char): string {
    if c == '\\' then "\\\\"
    else if c == '"' then "\\\""
    else if c == '\n' then "\\n"
    else [c]
  }

  /** One-pass, character-by-character escaping. */
  function EscapeEnvOnePass(s: string): string {
    if |s| == 0 then "" else EscapeEnvChar(s[0]) + EscapeEnvOnePass(s[1..])
  }

  lemma EscapeEnvAppend(a: string, b: string)
    ensures EscapeEnv(a + b) == EscapeEnv(a) + EscapeEnv(b)
  {
    var a1, b1 := ReplaceChar(a, '\\', "\\\\"), ReplaceChar(b, '\\', "\\\\");
    ReplaceCharAppend(a, b, '\\', "\\\\");
    var a2, b2 := ReplaceChar(a1, '"', "\\\""), ReplaceChar(b1, '"', "\\\"");
    ReplaceCharAppend(a1, b1, '"', "\\\"");
    ReplaceCharAppend(a2, b2, '\n', "\\n");
  }

  lemma EscapeEnvSingle(c: char)
    ensures EscapeEnv([c]) == EscapeEnvChar(c)
  {
    var s1 := ReplaceChar([c], '\\', "\\\\");
    ReplaceCharSingle(c, '\\', "\\\\");
    var s2 := ReplaceChar(s1, '"', "\\\"");
    var s3 := ReplaceChar(s2, '\n', "\\n");
    assert EscapeEnv([c]) == s3;
    if c == '\\' {
      assert s1 == ['\\', '\\'];
      assert s2 == s1 && s3 == s2;
    } else {
      assert s1 == [c];
      ReplaceCharSingle(c, '"', "\\\"");
      if c == '"' {
        assert s2 == ['\\', '"'];
        assert s3 == s2;
      } else {
        assert s2 == [c];
        ReplaceCharSingle(c, '\n', "\\n");
      }
    }
  }

  /** The three passes of `exportEnv` amount to one character-wise pass:
      the order of the passes makes each later one leave the earlier
      output alone. */
  lemma {:induction false} EscapeEnvIsOnePass(s: string)
    ensures EscapeEnv(s) == EscapeEnvOnePass(s)
    decreases |s|
  {
    if |s| == 0 {
      assert EscapeEnv(s) == "";
    } else {
      assert s == [s[0]] + s[1..];
      EscapeEnvAppend([s[0]], s[1..]);
      EscapeEnvSingle(s[0]);
      EscapeEnvIsOnePass(s[1..]);
    }
  }

  /** Text made of plain characters and the two-character escapes `\\`,
      `\"`, `\n`: no raw newline, and every `"` is the second half of an
      escape. */
  predicate WellEscaped(s: string)
    decreases |s|
  {
    if |s| == 0 then true
    else if s[0] == '\\' then |s| >= 2 && (s[1] == '\\' || s[1] == '"' || s[1] == 'n') && WellEscaped(s[2..])
    else s[0] != '"' && s[0] != '\n' && WellEscaped(s[1..])
  }

  lemma {:induction false} EscapeEnvWellEscaped(s: string)
    ensures WellEscaped(EscapeEnvOnePass(s))
    decreases |s|
  {
    if |s| > 0 {
      var t := EscapeEnvOnePass(s[1..]);
      EscapeEnvWellEscaped(s[1..]);
      var e := EscapeEnvChar(s[0]);
      if |e| == 2 {
        assert (e + t)[2..] == t;
      } else {
        assert (e + t)[1..] == t;
      }
    }
  }

  /** In well-escaped text there is no raw newline and every `"` follows a
      backslash. */
  lemma {:induction false} WellEscapedSafe(s: string, i: int)
    requires WellEscaped(s) && 0 <= i < |s|
    ensures s[i] != '\n'
    ensures s[i] == '"' ==> i > 0 && s[i - 1] == '\\'
    decreases |s|
  {
    if s[0] == '\\' {
      if i >= 2 {
        WellEscapedSafe(s[2..], i - 2);
        assert s[2..][i - 2] == s[i];
      }
    } else if i >= 1 {
      WellEscapedSafe(s[1..], i - 1);
      assert s[1..][i - 1] == s[i];
    }
  }

  /** Undoes the env escaping. */
  function UnescapeEnv(s: string): string
    decreases |s|
  {
    if |s| == 0 then ""
    else if s[0] == '\\' && |s| >= 2 && s[1] == 'n' then "\n" + UnescapeEnv(s[2..])
    else if s[0] == '\\' && |s| >= 2 && (s[1] == '\\' || s[1] == '"') then [s[1]] + UnescapeEnv(s[2..])
    else [s[0]] + UnescapeEnv(s[1..])
  }

  lemma UnescapeEnvCons(c: char, t: string)
    ensures UnescapeEnv(EscapeEnvChar(c) + t) == [c] + UnescapeEnv(t)
  {
    var e := EscapeEnvChar(c);
    if |e| == 2 {
      assert (e + t)[2..] == t;
    } else {
      assert (e + t)[1..] == t;
    }
  }

  lemma {:induction false} OnePassRoundTrip(v: string)
    ensures UnescapeEnv(EscapeEnvOnePass(v)) == v
    decreases |v|
  {
    if |v| > 0 {
      OnePassRoundTrip(v[1..]);
      UnescapeEnvCons(v[0], EscapeEnvOnePass(v[1..]));
      assert v == [v[0]] + v[1..];
    }
  }

  /** The escaping loses nothing: unescaping gives the value back. */
  lemma EscapeEnvRoundTrip(v: string)
    ensures UnescapeEnv(EscapeEnv(v)) == v
  {
    EscapeEnvIsOnePass(v);
    OnePassRoundTrip(v);
  }

  /** The escaped value holds no raw newline, and every `"` in it is
      preceded by a backslash, so it cannot end the quoted value early. */
  lemma EscapeEnvSafe(v: string, i: int)
    requires 0 <= i < |EscapeEnv(v)|
    ensures EscapeEnv(v)[i] != '\n'
    ensures EscapeEnv(v)[i] == '"' ==> i > 0 && EscapeEnv(v)[i - 1] == '\\'
  {
    EscapeEnvIsOnePass(v);
    EscapeEnvWellEscaped(v);
    WellEscapedSafe(EscapeEnv(v), i);
  }

  /** One `exportEnv` line. */
  function EnvLine(key: string, value: string): string {
    key + "=\"" + EscapeEnv(value) + "\""
  }

  /** The lines of `exportEnv`: one per key, in ascending key order; no
      secrets, no lines. */
  function ExportEnvLines(order: seq<string>, secrets: map<string, string>): (r: seq<string>)
    requires IsOrderOf(order, secrets.Keys)
    ensures |r| == |secrets.Keys|
    ensures forall i :: 0 <= i < |r| ==>
              var k := SortedKeys(order, secrets)[i]; k in secrets && r[i] == EnvLine(k, secrets[k])
  {
    var keys := SortedKeys(order, secrets);
    seq(|keys|, i requires 0 <= i < |keys| => assert keys[i] in Elems(keys); EnvLine(keys[i], secrets[keys[i]]))
  }

  /** Every secret gets exactly one line, at the position of its key in
      ascending order, and unescaping that line's value gives the secret
      back. */
  lemma ExportEnvCovers(order: seq<string>, secrets: map<string, string>, k: string)
    requires IsOrderOf(order, secrets.Keys)
    requires k in secrets
    ensures var keys := SortedKeys(order, secrets);
            exists i :: 0 <= i < |keys| && keys[i] == k
                        && ExportEnvLines(order, secrets)[i] == EnvLine(k, secrets[k])
                        && UnescapeEnv(EscapeEnv(secrets[k])) == secrets[k]
                        && forall j :: 0 <= j < |keys| && j != i ==> keys[j] != k
  {
    var keys := SortedKeys(order, secrets);
    assert k in Elems(keys);
    var i :| 0 <= i < |keys| && keys[i] == k;
    StrictlySortedIsDistinct(keys);
    EscapeEnvRoundTrip(secrets[k]);
  }

  // ---------------------------------------------------------------------
  // CSV format
  // ---------------------------------------------------------------------

  /** The escaping in `exportCSV`: every `"` doubled. */
  function EscapeCsv(v: string): (r: string)
    ensures |r| == |v| + Count(v, '"')
  {
    ReplaceCharLength(v, '"', "\"\"");
    ReplaceChar(v, '"', "\"\"")
  }

  /** Undoes the CSV escaping: a doubled `"` becomes one. */
  function UnescapeCsv(s: string): string
    decreases |s|
  {
    if |s| >= 2 && s[0] == '"' && s[1] == '"' then "\"" + UnescapeCsv(s[2..])
    else if |s| == 0 then ""
    else [s[0]] + UnescapeCsv(s[1..])
  }

  lemma {:induction false} EscapeCsvRoundTrip(v: string)
    ensures UnescapeCsv(EscapeCsv(v)) == v
    decreases |v|
  {
    if |v| > 0 {
      assert v == [v[0]] + v[1..];
      ReplaceCharAppend([v[0]], v[1..], '"', "\"\"");
      ReplaceCharSingle(v[0], '"', "\"\"");
      EscapeCsvRoundTrip(v[1..]);
      var t := EscapeCsv(v[1..]);
      if v[0] == '"' {
        assert ("\"\"" + t)[2..] == t;
      } else {
        assert ([v[0]] + t)[1..] == t;
      }
    }
  }

  /** One CSV row; the key is written between quotes as it is. */
  function CsvRow(key: string, value: string): string {
    "\"" + key + "\",\"" + EscapeCsv(value) + "\""
  }

  const CsvHeader: string := "key,value"

  /** The rows of `exportCSV`: one per key, in ascending key order. */
  function CsvRows(order: seq<string>, secrets: map<string, string>): (r: seq<string>)
    requires IsOrderOf(order, secrets.Keys)
    ensures |r| == |secrets.Keys|
    ensures forall i :: 0 <= i < |r| ==>
              var k := SortedKeys(order, secrets)[i]; k in secrets && r[i] == CsvRow(k, secrets[k])
  {
    var keys := SortedKeys(order, secrets);
    seq(|keys|, i requires 0 <= i < |keys| => assert keys[i] in Elems(keys); CsvRow(keys[i], secrets[keys[i]]))
  }

  /** The lines of `exportCSV`: the header always comes first, then the
      rows. */
  function ExportCsvLines(order: seq<string>, secrets: map<string, string>): (r: seq<string>)
    requires IsOrderOf(order, secrets.Keys)
    ensures |r| == |secrets.Keys| + 1 && r[0] == CsvHeader && r[1..] == CsvRows(order, secrets)
  {
    [CsvHeader] + CsvRows(order, secrets)
  }

  // ---------------------------------------------------------------------
  // Dispatch
  // ---------------------------------------------------------------------

  /** What `exportSecrets` writes: a JSON or YAML document of the secrets,
      or lines. */
  datatype Rendered = JsonDocument(secrets: map<string, string>) | YamlDocument(secrets: map<string, string>) | Lines(lines: seq<string>)

  datatype ExportError = CollectFailed(cause: LoadError) | MissingVars(report: MissingError) | Unsupported(format: string)

  predicate KnownFormat(format: string) {
    format == "json" || format == "yaml" || format == "env" || format == "csv"
  }

  /** Collection succeeded and the missing-variable guard lets the
      command go on: nothing is missing, or `--silent` was given. */
  predicate Proceeds(collected: Result<CollectionResult, LoadError>, silent: bool) {
    collected.Ok? && (|collected.value.missingVars| == 0 || silent)
  }

  /** `exportSecrets` after the configuration is loaded: a collection
      error first, then the missing-variable guard, and only then the
      format, so nothing is rendered when variables are missing. */
  function ExportSecrets(format: string, collected: Result<CollectionResult, LoadError>, silent: bool, order: seq<string>): (r: Result<Rendered, ExportError>)
    requires collected.Ok? ==> (collected.value.hasMissingVars <==> |collected.value.missingVars| > 0)
    requires collected.Ok? ==> IsOrderOf(order, collected.value.secrets.Keys)
    ensures collected.Err? ==> r == Err(CollectFailed(collected.error))
    ensures collected.Ok? && |collected.value.missingVars| > 0 && !silent
            ==> r.Err? && r.error.MissingVars? && r.error.report.count == |collected.value.missingVars|
    ensures r.Err? && r.error.Unsupported?
            <==> Proceeds(collected, silent) && !KnownFormat(format)
    ensures r.Ok? ==> collected.Ok? && KnownFormat(format)
    ensures Proceeds(collected, silent) && format == "json" ==> r == Ok(JsonDocument(collected.value.secrets))
    ensures Proceeds(collected, silent) && format == "yaml" ==> r == Ok(YamlDocument(collected.value.secrets))
    ensures Proceeds(collected, silent) && format == "env"
            ==> r == Ok(Lines(ExportEnvLines(order, collected.value.secrets)))
    ensures Proceeds(collected, silent) && format == "csv"
            ==> r == Ok(Lines(ExportCsvLines(order, collected.value.secrets)))
  {
    match collected
    case Err(e) => Err(CollectFailed(e))
    case Ok(c) =>
      match Gate(ExportCommand, c, silent)
      case Some(report) => Err(MissingVars(report))
      case None =>
        if format == "json" then Ok(JsonDocument(c.secrets))
        else if format == "yaml" then Ok(YamlDocument(c.secrets))
        else if format == "env" then Ok(Lines(ExportEnvLines(order, c.secrets)))
        else if format == "csv" then Ok(Lines(ExportCsvLines(order, c.secrets)))
        else Err(Unsupported(format))
  }

  /** The env and CSV outputs do not depend on the order in which Go
      happened to visit the secrets. */
  lemma ExportDeterministic(format: string, collected: Result<CollectionResult, LoadError>, silent: bool, o1: seq<string>, o2: seq<string>)
    requires collected.Ok? ==> (collected.value.hasMissingVars <==> |collected.value.missingVars| > 0)
    requires collected.Ok? ==> IsOrderOf(o1, collected.value.secrets.Keys) && IsOrderOf(o2, collected.value.secrets.Keys)
    ensures ExportSecrets(format, collected, silent, o1) == ExportSecrets(format, collected, silent, o2)
  {
    if collected.Ok? {
      SortedKeysDeterministic(o1, o2, collected.value.secrets);
    }
  }
}
