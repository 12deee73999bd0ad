/** The `sh` command (cmd/sh.go): `export K='V'` lines in ascending key
    order, with each value single-quoted and every `'` inside it written
    as `'\''`. The replacement is done by the hand-written
    `shellReplaceAll` and `shellIndexOf`. */
module Shell {
  import opened Outcome
  import opened Text
  import opened Providers
  import opened Missing
  import opened EnvFile

  /** `sub` occurs in `s` at position `i`. */
  predicate OccursAt(s: string, sub: string, i: int) {
    0 <= i && i + |sub| <= |s| && s[i..i + |sub|] == sub
  }

  /** The first position at or after `j` at which `sub` occurs, or -1. */
  function FirstFrom(s: string, sub: string, j: nat): (r: int)
    ensures r == -1 || (j <= r && r + |sub| <= |s|)
    decreases |s| - j
  {
    if j + |sub| > |s| then -1
    else if OccursAt(s, sub, j) then j
    else FirstFrom(s, sub, j + 1)
  }

  /** The least position at which `sub` occurs in `s`, or -1: the
      reference meaning of `shellIndexOf`. */
  function FirstIndex(s: string, sub: string): int {
    FirstFrom(s, sub, 0)
  }

  lemma {:induction false} FirstFromSpec(s: string, sub: string, j: nat)
    ensures var r := FirstFrom(s, sub, j);
            && (r == -1 || (j <= r && OccursAt(s, sub, r)))
            && (r == -1 ==> forall m :: j <= m ==> !OccursAt(s, sub, m))
            && (r >= 0 ==> forall m :: j <= m < r ==> !OccursAt(s, sub, m))
    decreases |s| - j
  {
    if j + |sub| <= |s| && !OccursAt(s, sub, j) {
      FirstFromSpec(s, sub, j + 1);
    }
  }

  /** `FirstIndex` is -1 exactly when `sub` does not occur, and otherwise
      an occurrence with none before it. */
  lemma FirstIndexSpec(s: string, sub: string)
    ensures FirstIndex(s, sub) == -1 <==> forall m :: !OccursAt(s, sub, m)
    ensures FirstIndex(s, sub) >= 0 ==>
              && OccursAt(s, sub, FirstIndex(s, sub))
              && forall m :: 0 <= m < FirstIndex(s, sub) ==> !OccursAt(s, sub, m)
  {
    FirstFromSpec(s, sub, 0);
  }

  /** `shellIndexOf`: a left-to-right scan comparing `sub` with each
      window of `s`. */
  method IndexOf(s: string, sub: string) returns (i: int)
    ensures i == FirstIndex(s, sub)
    ensures |sub| == 0 ==> i == 0
  {
    var n := |s| - |sub|;
    i := 0;
    while i <= n
      invariant 0 <= i <= if n >= 0 then n + 1 else 0
      invariant FirstFrom(s, sub, i) == FirstIndex(s, sub)
    {
      if s[i..i + |sub|] == sub {
        return;
      }
      i := i + 1;
    }
    i := -1;
  }

  /** Left-to-right replacement of non-overlapping occurrences of `pat`
      in `s` from position `k` on: the reference meaning of
      `shellReplaceAll`. */
  function ReplacedFrom(s: string, pat: string, rep: string, k: nat): string
    requires |pat| > 0 && k <= |s|
    decreases |s| - k
  {
    if k + |pat| > |s| then s[k..]
    else if OccursAt(s, pat, k) then rep + ReplacedFrom(s, pat, rep, k + |pat|)
    else [s[k]] + ReplacedFrom(s, pat, rep, k + 1)
  }

  function Replaced(s: string, pat: string, rep: string): string
    requires |pat| > 0
  {
    ReplacedFrom(s, pat, rep, 0)
  }

  /** Occurrences in a suffix are occurrences in the whole string. */
  lemma OccursInSuffix(s: string, pat: string, k: int, j: int)
    requires 0 <= k <= |s| && 0 <= j
    ensures OccursAt(s[k..], pat, j) <==> OccursAt(s, pat, k + j)
  {
    if j + |pat| <= |s| - k {
      assert s[k..][j..j + |pat|] == s[k + j..k + j + |pat|];
    }
  }

  /** Searching the suffix `s[k..]` from `j` finds what searching `s`
      from `k + j` finds, shifted by `k`. */
  lemma {:induction false} FirstFromSuffix(s: string, sub: string, k: nat, j: nat)
    requires k <= |s|
    ensures FirstFrom(s[k..], sub, j) == if FirstFrom(s, sub, k + j) == -1 then -1 else FirstFrom(s, sub, k + j) - k
    decreases |s| - k - j
  {
    if j + |sub| <= |s| - k {
      OccursInSuffix(s, sub, k, j);
      if !OccursAt(s, sub, k + j) {
        FirstFromSuffix(s, sub, k, j + 1);
      }
    }
  }

  /** Text with no occurrence of `pat` from `k` on is copied. */
  lemma {:induction false} ReplacedNone(s: string, pat: string, rep: string, k: nat)
    requires |pat| > 0 && k <= |s| && FirstFrom(s, pat, k) == -1
    ensures ReplacedFrom(s, pat, rep, k) == s[k..]
    decreases |s| - k
  {
    if k + |pat| <= |s| {
      ReplacedNone(s, pat, rep, k + 1);
      assert [s[k]] + s[k + 1..] == s[k..];
    }
  }

  /** A string in which `pat` does not occur is returned unchanged. */
  lemma ReplacedAbsent(s: string, pat: string, rep: string)
    requires |pat| > 0 && forall m :: !OccursAt(s, pat, m)
    ensures Replaced(s, pat, rep) == s
  {
    FirstIndexSpec(s, pat);
    ReplacedNone(s, pat, rep, 0);
    assert s[0..] == s;
  }

  /** Without an occurrence at `k`, the character at `k` is copied. */
  lemma ReplacedCopies(s: string, pat: string, rep: string, k: nat)
    requires |pat| > 0 && k + |pat| <= |s| && !OccursAt(s, pat, k)
    ensures ReplacedFrom(s, pat, rep, k) == [s[k]] + ReplacedFrom(s, pat, rep, k + 1)
  {
  }

  /** Copying the character at `k` in front of the replacement from
      `k + 1`, which copies up to `i`, copies from `k` up to `i`. */
  lemma ConsSlice(s: string, k: int, i: int, rep: string, rest: string, x: string, y: string)
    requires 0 <= k < i <= |s| && x == [s[k]] + y && y == s[k + 1..i] + rep + rest
    ensures x == s[k..i] + rep + rest
  {
    assert [s[k]] + s[k + 1..i] == s[k..i];
  }

  /** An occurrence at `k` is replaced and the scan resumes at `k'`. */
  lemma ReplacedAt(s: string, pat: string, rep: string, k: nat, k': int, x: string)
    requires |pat| > 0 && k <= |s| && OccursAt(s, pat, k) && k' == k + |pat| && x == ReplacedFrom(s, pat, rep, k)
    ensures k' <= |s| && x == s[k..k] + rep + ReplacedFrom(s, pat, rep, k')
  {
    assert s[k..k] == [];
  }

  /** Without an occurrence at `k`, the first occurrence from `k` on is
      the first one from `k + 1` on. */
  lemma FirstFromNext(s: string, pat: string, k: nat, f: int)
    requires f == FirstFrom(s, pat, k) && f != -1 && !OccursAt(s, pat, k)
    ensures k + |pat| <= |s| && f == FirstFrom(s, pat, k + 1) && k < f
  {
  }

  /** Up to the first occurrence `f` from `k` on the text is copied; the
      occurrence is replaced and the scan resumes right after it, at
      `k' == f + |pat|`. */
  lemma {:induction false} ReplacedFirst(s: string, pat: string, rep: string, k: nat, f: int, k': int)
    requires |pat| > 0 && k <= |s| && f == FirstFrom(s, pat, k) && f != -1 && k' == f + |pat|
    ensures k <= f && k' <= |s|
    ensures ReplacedFrom(s, pat, rep, k) == s[k..f] + rep + ReplacedFrom(s, pat, rep, k')
    decreases |s| - k
  {
    if OccursAt(s, pat, k) {
      assert f == k;
      ReplacedAt(s, pat, rep, k, k', ReplacedFrom(s, pat, rep, k));
    } else {
      FirstFromNext(s, pat, k, f);
      ReplacedCopies(s, pat, rep, k);
      ReplacedFirst(s, pat, rep, k + 1, f, k');
      ConsSlice(s, k, f, rep, ReplacedFrom(s, pat, rep, k'), ReplacedFrom(s, pat, rep, k), ReplacedFrom(s, pat, rep, k + 1));
    }
  }

  /** One round of `shellReplaceAll` on the unscanned suffix
      `rest == s[k..]` when `shellIndexOf` finds nothing. */
  lemma ReplacedSuffixNone(s: string, pat: string, rep: string, k: nat, rest: string)
    requires |pat| > 0 && k <= |s| && rest == s[k..] && FirstIndex(rest, pat) == -1
    ensures ReplacedFrom(s, pat, rep, k) == rest
  {
    FirstFromSuffix(s, pat, k, 0);
    ReplacedNone(s, pat, rep, k);
  }

  /** Rewrites a prefix `s[k..f]`, `f == k + i`, as a prefix of the suffix `s[k..]`. */
  lemma SuffixPrefix(s: string, k: nat, i: nat, f: int, rep: string, x: string, y: string)
    requires f == k + i <= |s| && x == s[k..f] + rep + y
    ensures x == s[k..][..i] + rep + y
  {
    assert s[k..][..i] == s[k..f];
  }

  /** One round of `shellReplaceAll` on the unscanned suffix
      `rest == s[k..]` when `shellIndexOf` finds the first occurrence at
      `i`: the text before it and `rep` are output, and the scan goes on
      at `k' == k + i + |pat|`. */
  lemma ReplacedSuffixFirst(s: string, pat: string, rep: string, k: nat, rest: string, i: int, k': int)
    requires |pat| > 0 && k <= |s| && rest == s[k..] && i == FirstIndex(rest, pat) && i != -1
    requires k' == k + i + |pat|
    ensures k' <= |s| && rest[i + |pat|..] == s[k'..]
    ensures ReplacedFrom(s, pat, rep, k) == rest[..i] + rep + ReplacedFrom(s, pat, rep, k')
  {
    var f := k + i;
    FirstFromSuffix(s, pat, k, 0);
    ReplacedFirst(s, pat, rep, k, f, k');
    SuffixPrefix(s, k, i, f, rep, ReplacedFrom(s, pat, rep, k), ReplacedFrom(s, pat, rep, k'));
  }

  /** The loop invariant of `shellReplaceAll` carried over one round:
      output so far `r`, the replaced remainder `x`, which is the
      round's output `a` followed by the replaced rest `y`; the output
      becomes `r' == r + a`. */
  lemma RoundStep(r: string, a: string, x: string, y: string, total: string, r': string)
    requires r + x == total && x == a + y && r' == r + a
    ensures r' + y == total
  {
  }

  /** The loop invariant of `shellReplaceAll`: the output `r` so far,
      followed by the replacement of the unscanned text from `k` on, is
      the replacement of the whole of `s`. */
  predicate Scanned(s: string, pat: string, rep: string, k: nat, r: string)
    requires |pat| > 0 && k <= |s|
  {
    r + ReplacedFrom(s, pat, rep, k) == Replaced(s, pat, rep)
  }

  /** A round of `shellReplaceAll` that finds an occurrence at `i` of the
      unscanned suffix `rest == s[k..]`, outputs `rest[..i] + rep` and goes
      on with `rest[i + |pat|..]`, keeps the loop invariant. */
  lemma ReplaceRound(s: string, pat: string, rep: string, k: nat, rest: string, i: int, r: string,
                     k': int, r': string, rest': string)
    requires |pat| > 0 && k <= |s| && rest == s[k..] && i == FirstIndex(rest, pat) && i != -1
    requires Scanned(s, pat, rep, k, r)
    requires k' == k + i + |pat| && r' == r + (rest[..i] + rep) && rest' == rest[i + |pat|..]
    ensures k <= k' <= |s| && rest' == s[k'..] && |rest'| < |rest|
    ensures Scanned(s, pat, rep, k', r')
  {
    ReplacedSuffixFirst(s, pat, rep, k, rest, i, k');
    RoundStep(r, rest[..i] + rep, ReplacedFrom(s, pat, rep, k), ReplacedFrom(s, pat, rep, k'), Replaced(s, pat, rep), r');
  }

  /** The last round of `shellReplaceAll`, which finds nothing in the
      unscanned suffix `rest == s[k..]` and copies it, completes the
      replacement. */
  lemma ReplaceLast(s: string, pat: string, rep: string, k: nat, rest: string, r: string)
    requires |pat| > 0 && k <= |s| && rest == s[k..] && FirstIndex(rest, pat) == -1
    requires Scanned(s, pat, rep, k, r)
    ensures r + rest == Replaced(s, pat, rep)
  {
    ReplacedSuffixNone(s, pat, rep, k, rest);
  }

  /** Occurrences are taken left to right and do not overlap. */
  lemma ReplacedNonOverlapping()
    ensures Replaced("aaaa", "aa", "b") == "bb"
  {
    var s := "aaaa";
    assert OccursAt(s, "aa", 0) && OccursAt(s, "aa", 2);
  }

  /** `shellReplaceAll`: an empty `pat` returns `s`; otherwise the
      occurrences of `pat` are found with `IndexOf` and replaced from left
      to right. */
  method ReplaceAll(s: string, pat: string, rep: string) returns (r: string)
    ensures |pat| == 0 ==> r == s
    ensures |pat| > 0 ==> r == Replaced(s, pat, rep)
  {
    if |pat| == 0 {
      return s;
    }
    r := "";
    var rest := s;
    ghost var k := 0;
    while true
      invariant 0 <= k <= |s| && rest == s[k..]
      invariant Scanned(s, pat, rep, k, r)
      decreases |rest|
    {
      var i := IndexOf(rest, pat);
      if i == -1 {
        ReplaceLast(s, pat, rep, k, rest, r);
        r := r + rest;
        break;
      }
      ghost var k' := k + i + |pat|;
      var r', rest' := r + (rest[..i] + rep), rest[i + |pat|..];
      ReplaceRound(s, pat, rep, k, rest, i, r, k', r', rest');
      r, rest, k := r', rest', k';
    }
  }

  /** Replacing a one-character pattern is character-wise replacement. */
  lemma {:induction false} ReplacedChar(s: string, c: char, rep: string, k: nat)
    requires k <= |s|
    ensures ReplacedFrom(s, [c], rep, k) == ReplaceChar(s[k..], c, rep)
    decreases |s| - k
  {
    if k < |s| {
      ReplacedChar(s, c, rep, k + 1);
      assert s[k..] == [s[k]] + s[k + 1..];
      ReplaceCharAppend([s[k]], s[k + 1..], c, rep);
      ReplaceCharSingle(s[k], c, rep);
      assert OccursAt(s, [c], k) <==> s[k] == c by {
        assert s[k..k + 1] == [s[k]];
      }
    }
  }

  /** The four characters `'\''` that stand for one quote. */
  const QuoteEscape: string := "'\\''"

  /** `shellEscape`: every `'` becomes `'\''` and nothing else changes. */
  function ShellEscape(s: string): (r: string)
    ensures r == ReplaceChar(s, '\'', QuoteEscape)
    ensures |r| == |s| + 3 * Count(s, '\'')
    ensures '\'' !in s ==> r == s
  {
    ReplacedChar(s, '\'', QuoteEscape, 0);
    assert s[0..] == s;
    ReplaceCharLength(s, '\'', QuoteEscape);
    Replaced(s, "'", QuoteEscape)
  }

  /** Undoes the shell quoting inside one single-quoted word: each
      `'\''` stands for one `'`. */
  function UnescapeShell(s: string): string
    decreases |s|
  {
    if |s| >= 4 && s[..4] == QuoteEscape then "'" + UnescapeShell(s[4..])
    else if |s| == 0 then ""
    else [s[0]] + UnescapeShell(s[1..])
  }

  lemma UnescapeShellQuote(t: string)
    ensures UnescapeShell(QuoteEscape + t) == "'" + UnescapeShell(t)
  {
    var s := QuoteEscape + t;
    assert s[..4] == QuoteEscape && s[4..] == t;
  }

  lemma UnescapeShellPlain(c: char, t: string)
    requires c != '\''
    ensures UnescapeShell([c] + t) == [c] + UnescapeShell(t)
  {
    var s := [c] + t;
    assert s[0] == c && s[1..] == t;
    assert |s| >= 4 ==> s[..4][0] == c;
  }

  /** A shell reading the quoted word gets the value back. */
  lemma {:induction false} ShellEscapeRoundTrip(v: string)
    ensures UnescapeShell(ShellEscape(v)) == v
    decreases |v|
  {
    if |v| > 0 {
      assert v == [v[0]] + v[1..];
      ReplaceCharAppend([v[0]], v[1..], '\'', QuoteEscape);
      ReplaceCharSingle(v[0], '\'', QuoteEscape);
      ShellEscapeRoundTrip(v[1..]);
      var t := ShellEscape(v[1..]);
      if v[0] == '\'' {
        UnescapeShellQuote(t);
      } else {
        UnescapeShellPlain(v[0], t);
      }
    }
  }

  /** The line printed for one secret. */
  function ExportLine(key: string, value: string): string {
    "export " + key + "='" + ShellEscape(value) + "'"
  }

  /** The lines of `exportShell`: one per secret, in ascending key order. */
  function ExportShellLines(order: seq<string>, secrets: map<string, string>): (r: seq<string>)
    requires IsOrderOf(order, secrets.Keys)
    ensures |r| == |secrets.Keys|
    ensures forall i :: 0 <= i < |r| ==>
              var k := SortedKeys(order, secrets)[i]; k in secrets && r[i] == ExportLine(k, secrets[k])
  {
    var keys := SortedKeys(order, secrets);
    seq(|keys|, i requires 0 <= i < |keys| => assert keys[i] in Elems(keys); ExportLine(keys[i], secrets[keys[i]]))
  }

  /** Every secret gets exactly one line, at the position of its key in
      ascending order, and no two lines share a key. */
  lemma ExportShellCovers(order: seq<string>, secrets: map<string, string>, k: string)
    requires IsOrderOf(order, secrets.Keys)
    requires k in secrets
    ensures var keys := SortedKeys(order, secrets);
            exists i :: 0 <= i < |keys| && keys[i] == k
                        && ExportShellLines(order, secrets)[i] == ExportLine(k, secrets[k])
                        && forall j :: 0 <= j < |keys| && j != i ==> keys[j] != k
  {
    var keys := SortedKeys(order, secrets);
    assert k in Elems(keys);
    var i :| 0 <= i < |keys| && keys[i] == k;
    StrictlySortedIsDistinct(keys);
  }

  datatype ShellError = CollectFailed(cause: LoadError) | MissingVars(report: MissingError)

  /** `exportShell` after the configuration is loaded: a collection error,
      then the missing-variable guard, then the lines. */
  function ExportShell(collected: Result<CollectionResult, LoadError>, silent: bool, order: seq<string>): (r: Result<seq<string>, ShellError>)
    requires collected.Ok? ==> (collected.value.hasMissingVars <==> |collected.value.missingVars| > 0)
    requires collected.Ok? ==> IsOrderOf(order, collected.value.secrets.Keys)
    ensures r.Err? <==> collected.Err? || (|collected.value.missingVars| > 0 && !silent)
    ensures collected.Err? ==> r == Err(CollectFailed(collected.error))
    ensures r.Ok? ==> r.value == ExportShellLines(order, collected.value.secrets)
  {
    match collected
    case Err(e) => Err(CollectFailed(e))
    case Ok(c) =>
      match Gate(ShellCommand, c, silent)
      case Some(report) => Err(MissingVars(report))
      case None => Ok(ExportShellLines(order, c.secrets))
  }
}
