/** A Go loop of map writes `m[k] = v`: a later write to the same key
    replaces an earlier one. */
module Namespace {

  /** Every key a sequence of writes touches. */
  function WrittenKeys(ws: seq<(string, string)>): (r: set<string>)
    ensures forall i :: 0 <= i < |ws| ==> ws[i].0 in r
    ensures forall k :: k in r ==> exists i :: 0 <= i < |ws| && ws[i].0 == k
  {
    if |ws| == 0 then {} else WrittenKeys(ws[..|ws| - 1]) + {ws[|ws| - 1].0}
  }

  /** `ws[i]` is the last write to its key. */
  predicate IsLastWrite(ws: seq<(string, string)>, i: int) {
    0 <= i < |ws| && forall j :: i < j < |ws| ==> ws[j].0 != ws[i].0
  }

  /** Performs the writes in order, starting from `m`: the result holds
      the keys of `m` and the written keys, and no others. */
  function ApplyWrites(m: map<string, string>, ws: seq<(string, string)>): (r: map<string, string>)
    ensures r.Keys == m.Keys + WrittenKeys(ws)
  {
    if |ws| == 0 then m
    else ApplyWrites(m, ws[..|ws| - 1])[ws[|ws| - 1].0 := ws[|ws| - 1].1]
  }

  /** A write to another key leaves a key's value alone. */
  lemma ApplyWritesOther(m: map<string, string>, ws: seq<(string, string)>, init: seq<(string, string)>, w: (string, string))
    requires |ws| > 0 && init == ws[..|ws| - 1] && ws[|ws| - 1].0 != w.0
    requires w.0 in ApplyWrites(m, init) && ApplyWrites(m, init)[w.0] == w.1
    ensures w.0 in ApplyWrites(m, ws) && ApplyWrites(m, ws)[w.0] == w.1
  {
  }

  /** A written key holds the value of its last write. */
  lemma {:induction false} ApplyWritesLast(m: map<string, string>, ws: seq<(string, string)>, i: int)
    requires IsLastWrite(ws, i)
    ensures ws[i].0 in ApplyWrites(m, ws) && ApplyWrites(m, ws)[ws[i].0] == ws[i].1
  {
    if i < |ws| - 1 {
      var init := ws[..|ws| - 1];
      assert init[i] == ws[i];
      assert IsLastWrite(init, i);
      ApplyWritesLast(m, init, i);
      ApplyWritesOther(m, ws, init, ws[i]);
    }
  }

  /** A written key holds the value of one of its writes. */
  lemma {:induction false} ApplyWritesProvenance(m: map<string, string>, ws: seq<(string, string)>, k: string)
    requires k in WrittenKeys(ws)
    ensures exists i :: 0 <= i < |ws| && ws[i].0 == k && ApplyWrites(m, ws)[k] == ws[i].1
  {
    var n := |ws| - 1;
    if ws[n].0 != k {
      var init := ws[..n];
      var i :| 0 <= i < |ws| && ws[i].0 == k;
      assert init[i].0 == k;
      ApplyWritesProvenance(m, init, k);
      var j :| 0 <= j < |init| && init[j].0 == k && ApplyWrites(m, init)[k] == init[j].1;
      assert ws[j] == init[j];
    }
  }
}
