/** `promptForOverwrite` (cmd/github_secret_add.go): the yes / no /
    yes-to-all / no-to-all confirmation before an existing secret is
    overwritten. The two package-level flags `yesToAll` and `noToAll` are a
    three-valued state (they are only ever set while both are false, so at
    most one holds). Standard input is the sequence of lines still to be
    read; running out of lines is end of input. */
module Prompt {
  import opened Text

  datatype ConfirmState = Undecided | AllYes | AllNo

  datatype Answer = Yes | No | YesToAll | NoToAll | Unrecognised

  /** One character in ASCII lower case. */
  function LowerChar(c: char): char {
    if 'A' <= c <= 'Z' then (c as int + 32) as char else c
  }

  /** ASCII lower case. For the words the prompt recognises this agrees
      with `strings.ToLower`. */
  function Lower(s: string): (r: string)
    ensures |r| == |s|
    ensures forall i :: 0 <= i < |s| ==>
      r[i] == LowerChar(s[i]) && (if 'A' <= s[i] <= 'Z' then r[i] as int == s[i] as int + 32 else r[i] == s[i])
    ensures forall i :: 0 <= i < |r| ==> !('A' <= r[i] <= 'Z')
  {
    if |s| == 0 then ""
    else
      var t := Lower(s[1..]);
      var r := [LowerChar(s[0])] + t;
      assert forall i :: 1 <= i < |s| ==> r[i] == t[i - 1] && s[i] == s[1..][i - 1];
      r
  }

  /** The answer a typed line stands for, after trimming and lowering. */
  function Classify(line: string): Answer {
    Word(Lower(TrimSpace(line)))
  }

  /** The answer a trimmed, lowered line stands for. */
  function Word(w: string): Answer {
    if w == "y" || w == "yes" then Yes
    else if w == "n" || w == "no" then No
    else if w == "ya" || w == "yes-to-all" then YesToAll
    else if w == "na" || w == "no-to-all" then NoToAll
    else Unrecognised
  }

  /** The decision, the state after it, and the lines not yet read. */
  datatype PromptResult = PromptResult(overwrite: bool, state: ConfirmState, rest: seq<string>)

  /** One call of `promptForOverwrite`. */
  function PromptForOverwrite(st: ConfirmState, dryRun: bool, input: seq<string>): (r: PromptResult)
    ensures st != Undecided ==> r == PromptResult(st == AllYes, st, input)
    ensures st == Undecided && dryRun ==> r == PromptResult(true, Undecided, input)
    ensures r.state == st || st == Undecided
    ensures r.state == AllYes ==> r.overwrite
    ensures r.state == AllNo ==> !r.overwrite
    decreases |input|
  {
    match st
    case AllYes => PromptResult(true, st, input)
    case AllNo => PromptResult(false, st, input)
    case Undecided =>
    if dryRun then PromptResult(true, st, input)
    else if |input| == 0 then PromptResult(false, st, input)
    else
      match Classify(input[0])
      case Yes => PromptResult(true, st, input[1..])
      case No => PromptResult(false, st, input[1..])
      case YesToAll => PromptResult(true, AllYes, input[1..])
      case NoToAll => PromptResult(false, AllNo, input[1..])
      case Unrecognised => PromptForOverwrite(st, dryRun, input[1..])
  }

  /** The result of answering `a` with `rest` still unread. */
  function Answered(a: Answer, rest: seq<string>): PromptResult
    requires a != Unrecognised
  {
    PromptResult(a == Yes || a == YesToAll,
                 if a == YesToAll then AllYes else if a == NoToAll then AllNo else Undecided,
                 rest)
  }

  /** A recognised line `k` answers, leaving the lines after it unread. */
  lemma LineAnswers(input: seq<string>, k: int, s: seq<string>, after: seq<string>)
    requires 0 <= k < |input| && s == input[k..] && after == input[k + 1..]
    requires Classify(input[k]) != Unrecognised
    ensures PromptForOverwrite(Undecided, false, s) == Answered(Classify(input[k]), after)
  {
    assert s[0] == input[k] && s[1..] == after;
  }

  /** An unrecognised line `k` is read and dropped. */
  lemma LineSkipped(input: seq<string>, k: int, s: seq<string>, next: seq<string>)
    requires 0 <= k < |input| && s == input[k..] && next == input[k + 1..]
    requires Classify(input[k]) == Unrecognised
    ensures PromptForOverwrite(Undecided, false, s) == PromptForOverwrite(Undecided, false, next)
  {
    assert s[0] == input[k] && s[1..] == next;
  }

  lemma Chain(a: PromptResult, b: PromptResult, c: PromptResult)
    requires a == b && b == c
    ensures a == c
  {
  }

  /** Lines that are not recognised, from position `from` on. */
  predicate Unanswered(lines: seq<string>, from: int, to: int)
    requires 0 <= from <= to <= |lines|
  {
    forall j :: from <= j < to ==> Classify(lines[j]) == Unrecognised
  }

  /** Reading from line `k`, the first recognised line `i` decides. */
  lemma {:induction false} FirstAnswerFrom(input: seq<string>, k: int, i: int)
    requires 0 <= k <= i < |input| && Classify(input[i]) != Unrecognised
    requires Unanswered(input, k, i)
    ensures PromptForOverwrite(Undecided, false, input[k..]) == Answered(Classify(input[i]), input[i + 1..])
    decreases i - k
  {
    if k == i {
      LineAnswers(input, i, input[k..], input[i + 1..]);
    } else {
      LineSkipped(input, k, input[k..], input[k + 1..]);
      FirstAnswerFrom(input, k + 1, i);
      Chain(PromptForOverwrite(Undecided, false, input[k..]), PromptForOverwrite(Undecided, false, input[k + 1..]),
            Answered(Classify(input[i]), input[i + 1..]));
    }
  }

  /** Outside dry-run and with no global decision, the first recognised
      line decides: `y`/`yes` and `n`/`no` answer once and keep the state,
      `ya`/`yes-to-all` and `na`/`no-to-all` answer and set the state; the
      unrecognised lines before it are read and dropped. */
  lemma FirstAnswerDecides(input: seq<string>, i: int)
    requires 0 <= i < |input| && Classify(input[i]) != Unrecognised
    requires forall j :: 0 <= j < i ==> Classify(input[j]) == Unrecognised
    ensures PromptForOverwrite(Undecided, false, input) == Answered(Classify(input[i]), input[i + 1..])
  {
    FirstAnswerFrom(input, 0, i);
    assert input[0..] == input;
  }

  /** Without a recognised line the input runs out: the answer is no, the
      state is unchanged, and every line has been read. */
  lemma {:induction false} EndOfInputDeclines(input: seq<string>)
    requires forall j :: 0 <= j < |input| ==> Classify(input[j]) == Unrecognised
    ensures PromptForOverwrite(Undecided, false, input) == PromptResult(false, Undecided, [])
    decreases |input|
  {
    if |input| > 0 {
      assert forall j :: 0 <= j < |input| - 1 ==> input[1..][j] == input[j + 1];
      EndOfInputDeclines(input[1..]);
    }
  }
}
