/** The `KEY=VALUE` file reader of the dotenv provider (`loadEnvFile` in
    pkg/providers/providers.go). The file system is an input: a map from
    path to what reading that path yields. A path that is not in the map
    cannot be opened. */
module EnvFile {
  import opened Outcome
  import opened Text

  /** The lines a scanner delivered for one file, and whether the scanner
      stopped with an error (for instance a line longer than its buffer). */
  datatype FileState = FileState(lines: seq<string>, scanFailed: bool)

  datatype LoadError = OpenFailed(path: string) | ReadFailed(path: string)

  /** `strings.SplitN(s, [sep], 2)`: the text before the first `sep` and the
      text after it, or `None` when `sep` does not occur. */
  function SplitFirst(s: string, sep: char): (r: Option<(string, string)>)
    ensures r.None? <==> sep !in s
    ensures r.Some? ==> s == r.value.0 + [sep] + r.value.1 && sep !in r.value.0
  {
    if |s| == 0 then None
    else if s[0] == sep then
      assert s == [] + [sep] + s[1..];
      Some(([], s[1..]))
    else
      match SplitFirst(s[1..], sep)
      case None => None
      case Some(parts) =>
        ConsSplit(s, sep, parts.0, parts.1);
        Some(([s[0]] + parts.0, parts.1))
  }

  /** Putting back the first character of a split string. */
  lemma ConsSplit(s: string, sep: char, a: string, b: string)
    requires |s| > 0 && s[0] != sep && s[1..] == a + [sep] + b && sep !in a
    ensures s == ([s[0]] + a) + [sep] + b && sep !in [s[0]] + a
  {
    assert s == [s[0]] + s[1..];
  }

  /** A value wrapped in one matching pair of double or single quotes. */
  predicate IsQuoted(v: string) {
    |v| >= 2 && (v[0] == '"' || v[0] == '\'') && v[|v| - 1] == v[0]
  }

  /** Removes exactly one outer pair of matching quotes, if there is one. */
  function Unquote(v: string): (r: string)
    ensures IsQuoted(v) ==> v == [v[0]] + r + [v[0]]
    ensures !IsQuoted(v) ==> r == v
  {
    if IsQuoted(v) then v[1..|v| - 1] else v
  }

  /** Quoting is undone exactly once: whatever is inside the outer pair,
      quotes included, is kept verbatim. */
  lemma UnquoteOnce(s: string, q: char)
    requires q == '"' || q == '\''
    ensures Unquote([q] + s + [q]) == s
  {
    var v := [q] + s + [q];
    assert v[1..|v| - 1] == s;
  }

  /** The key and value of one line, or `None` when the line is blank, a
      comment, or has no `=`. The line is trimmed, split at its first `=`,
      both halves trimmed again, and the value unquoted. */
  function ParseLine(raw: string): (r: Option<(string, string)>)
    ensures var line := TrimSpace(raw);
            r.None? <==> (|line| == 0 || line[0] == '#' || '=' !in line)
    ensures r.Some? ==>
              exists before, after ::
                && TrimSpace(raw) == before + "=" + after && '=' !in before
                && r.value == (TrimSpace(before), Unquote(TrimSpace(after)))
  {
    var line := TrimSpace(raw);
    if |line| == 0 || line[0] == '#' then None
    else
      match SplitFirst(line, '=')
      case None => None
      case Some(parts) =>
        assert line == parts.0 + "=" + parts.1;
        Some((TrimSpace(parts.0), Unquote(TrimSpace(parts.1))))
  }

  /** One parsed line: the key and value it defines, if any. */
  type Entry = Option<(string, string)>

  function KeyOf(e: Entry): Option<string> {
    match e
    case None => None
    case Some(kv) => Some(kv.0)
  }

  /** Assigns the entries in order, as the parser's `env[key] = value`
      does. */
  function Assign(es: seq<Entry>): map<string, string> {
    if |es| == 0 then map[]
    else
      match es[|es| - 1]
      case None => Assign(es[..|es| - 1])
      case Some(kv) => Assign(es[..|es| - 1])[kv.0 := kv.1]
  }

  /** A key is assigned exactly when some entry defines it. */
  lemma {:induction false} AssignKeys(es: seq<Entry>, k: string)
    ensures k in Assign(es) <==> exists i :: 0 <= i < |es| && KeyOf(es[i]) == Some(k)
  {
    if |es| > 0 {
      var init := es[..|es| - 1];
      AssignKeys(init, k);
      if exists i :: 0 <= i < |init| && KeyOf(init[i]) == Some(k) {
        var i :| 0 <= i < |init| && KeyOf(init[i]) == Some(k);
        assert KeyOf(es[i]) == Some(k);
      }
      if exists i :: 0 <= i < |es| - 1 && KeyOf(es[i]) == Some(k) {
        var i :| 0 <= i < |es| - 1 && KeyOf(es[i]) == Some(k);
        assert KeyOf(init[i]) == Some(k);
      }
    }
  }

  /** A key holds the value of the last entry that defines it. */
  lemma {:induction false} AssignLast(es: seq<Entry>, i: int)
    requires 0 <= i < |es| && es[i].Some?
    requires forall j :: i < j < |es| ==> KeyOf(es[j]) != KeyOf(es[i])
    ensures es[i].value.0 in Assign(es) && Assign(es)[es[i].value.0] == es[i].value.1
  {
    if i < |es| - 1 {
      var init := es[..|es| - 1];
      assert forall j :: i < j < |init| ==> KeyOf(init[j]) != KeyOf(init[i]);
      AssignLast(init, i);
    }
  }

  /** Each line parsed on its own. */
  function ParseLines(lines: seq<string>): (r: seq<Entry>)
    ensures |r| == |lines| && forall i :: 0 <= i < |lines| ==> r[i] == ParseLine(lines[i])
  {
    seq(|lines|, i requires 0 <= i < |lines| => ParseLine(lines[i]))
  }

  /** The map a file's lines produce. */
  function ParseEnv(lines: seq<string>): (r: map<string, string>)
    ensures forall k :: k in r ==> exists i :: 0 <= i < |lines| && KeyOf(ParseLines(lines)[i]) == Some(k)
  {
    var es := ParseLines(lines);
    AssignFrom(es);
    Assign(es)
  }

  /** Every assigned key is defined by one of the entries. */
  lemma AssignFrom(es: seq<Entry>)
    ensures forall k :: k in Assign(es) ==> exists i :: 0 <= i < |es| && KeyOf(es[i]) == Some(k)
  {
    forall k | k in Assign(es)
      ensures exists i :: 0 <= i < |es| && KeyOf(es[i]) == Some(k)
    {
      AssignKeys(es, k);
    }
  }

  /** A key is in the parsed file exactly when some line defines it. */
  lemma ParseEnvKeys(lines: seq<string>, k: string)
    ensures k in ParseEnv(lines) <==> exists i :: 0 <= i < |lines| && KeyOf(ParseLine(lines[i])) == Some(k)
  {
    var es := ParseLines(lines);
    AssignKeys(es, k);
    if exists i :: 0 <= i < |es| && KeyOf(es[i]) == Some(k) {
      var i :| 0 <= i < |es| && KeyOf(es[i]) == Some(k);
      assert KeyOf(ParseLine(lines[i])) == Some(k);
    }
    if exists i :: 0 <= i < |lines| && KeyOf(ParseLine(lines[i])) == Some(k) {
      var i :| 0 <= i < |lines| && KeyOf(ParseLine(lines[i])) == Some(k);
      assert KeyOf(es[i]) == Some(k);
    }
  }

  /** When a key is defined on several lines, the last one wins. */
  lemma ParseEnvLastLineWins(lines: seq<string>, i: int)
    requires 0 <= i < |lines| && ParseLine(lines[i]).Some?
    requires forall j :: i < j < |lines| ==> KeyOf(ParseLine(lines[j])) != KeyOf(ParseLine(lines[i]))
    ensures var kv := ParseLine(lines[i]).value;
            kv.0 in ParseEnv(lines) && ParseEnv(lines)[kv.0] == kv.1
  {
    var es := ParseLines(lines);
    assert forall j :: i < j < |es| ==> KeyOf(es[j]) != KeyOf(es[i]);
    AssignLast(es, i);
  }

  /** The split is the unique one at the first separator. */
  lemma {:induction false} SplitFirstUnique(a: string, b: string, sep: char)
    requires sep !in a
    ensures SplitFirst(a + [sep] + b, sep) == Some((a, b))
  {
    var s := a + [sep] + b;
    if |a| == 0 {
      assert s == [sep] + b;
    } else {
      assert s[1..] == a[1..] + [sep] + b;
      SplitFirstUnique(a[1..], b, sep);
      assert [a[0]] + a[1..] == a;
    }
  }

  /** Trimming a string with no white space at either end changes nothing. */
  lemma TrimUnpadded(s: string)
    requires |s| == 0 || (!IsSpace(s[0]) && !IsSpace(s[|s| - 1]))
    ensures TrimSpace(s) == s
  {
    if |s| > 0 {
      assert Lead(s) == 0 && Trail(s) == 0;
    }
  }

  /** A well-formed `KEY=VALUE` line parses to its key and its unquoted value. */
  lemma ParseCleanLine(k: string, v: string)
    requires |k| > 0 && !IsSpace(k[0]) && !IsSpace(k[|k| - 1]) && k[0] != '#' && '=' !in k
    requires |v| == 0 || (!IsSpace(v[0]) && !IsSpace(v[|v| - 1]))
    ensures ParseLine(k + "=" + v) == Some((k, Unquote(v)))
  {
    var line := k + "=" + v;
    assert line[0] == k[0];
    assert line[|line| - 1] == if |v| == 0 then '=' else v[|v| - 1];
    TrimUnpadded(line);
    TrimUnpadded(k);
    TrimUnpadded(v);
    SplitFirstUnique(k, v, '=');
    assert k + ['='] + v == line;
  }

  /** A blank, comment or `=`-less line adds nothing to what came before. */
  lemma SkippedLineContributesNothing(lines: seq<string>, line: string)
    requires ParseLine(line).None?
    ensures ParseEnv(lines + [line]) == ParseEnv(lines)
  {
    var es := ParseLines(lines + [line]);
    var init := ParseLines(lines);
    assert es[..|lines|] == init by {
      forall i | 0 <= i < |lines| ensures es[i] == init[i] {
        assert (lines + [line])[i] == lines[i];
      }
    }
    assert es[|lines|] == None by {
      assert (lines + [line])[|lines|] == line;
    }
    AssignSkip(es, init);
  }

  /** A last entry that defines nothing is ignored. */
  lemma AssignSkip(es: seq<Entry>, init: seq<Entry>)
    requires |es| > 0 && es[|es| - 1].None? && init == es[..|es| - 1]
    ensures Assign(es) == Assign(init)
  {
  }

  /** `loadEnvFile`: a path that cannot be opened and a scanner error are
      both errors; otherwise the parsed lines. */
  function LoadEnvFile(path: string, files: map<string, FileState>): (r: Result<map<string, string>, LoadError>)
    ensures r.Err? <==> path !in files || files[path].scanFailed
    ensures path !in files ==> r == Err(OpenFailed(path))
    ensures r.Ok? ==> r.value == ParseEnv(files[path].lines)
  {
    if path !in files then Err(OpenFailed(path))
    else if files[path].scanFailed then Err(ReadFailed(path))
    else Ok(ParseEnv(files[path].lines))
  }
}
