/** String helpers that the Go code takes from its standard library:
    `strings.TrimSpace`, `strings.ReplaceAll` with a one-character pattern,
    and `sort.Strings`. A Go string is a byte sequence; here it is a
    sequence of characters. For valid UTF-8 the byte-wise order of
    `sort.Strings` coincides with the code-point order used by `Below`. */
module Text {

  /** Go's `unicode.IsSpace`: the ASCII blanks, NEL, NBSP and the Unicode
      White_Space characters above U+00FF. */
  predicate IsSpace(c: char) {
    || c == ' ' || c == '\t' || c == '\n' || c == '\r'
    || c == '\U{000B}' || c == '\U{000C}' || c == '\U{0085}' || c == '\U{00A0}'
    || c == '\U{1680}' || ('\U{2000}' <= c <= '\U{200A}')
    || c == '\U{2028}' || c == '\U{2029}' || c == '\U{202F}' || c == '\U{205F}'
    || c == '\U{3000}'
  }

  /** The number of white-space characters `s` starts with. */
  function Lead(s: string): (n: nat)
    ensures n <= |s|
    ensures forall j :: 0 <= j < n ==> IsSpace(s[j])
    ensures n < |s| ==> !IsSpace(s[n])
  {
    if |s| == 0 || !IsSpace(s[0]) then 0 else 1 + Lead(s[1..])
  }

  /** The number of white-space characters `s` ends with. */
  function Trail(s: string): (n: nat)
    ensures n <= |s|
    ensures forall j :: |s| - n <= j < |s| ==> IsSpace(s[j])
    ensures n < |s| ==> !IsSpace(s[|s| - 1 - n])
  {
    if |s| == 0 || !IsSpace(s[|s| - 1]) then 0 else 1 + Trail(s[..|s| - 1])
  }

  /** `strings.TrimSpace`: `r` is a window of `s` that neither starts nor
      ends with white space, and everything outside the window is white
      space. */
  function TrimSpace(s: string): (r: string)
    ensures Lead(s) + |r| <= |s| && r == s[Lead(s)..Lead(s) + |r|]
    ensures forall j :: 0 <= j < |s| && !(Lead(s) <= j < Lead(s) + |r|) ==> IsSpace(s[j])
    ensures |r| == 0 || (!IsSpace(r[0]) && !IsSpace(r[|r| - 1]))
  {
    var a := Lead(s);
    if a == |s| then ""
    else
      var t := Trail(s);
      assert t < |s| - a;
      s[a..|s| - t]
  }

  /** Number of occurrences of the character `c` in `s`. */
  function Count(s: string, c: char): nat {
    if |s| == 0 then 0 else Count(s[..|s| - 1], c) + (if s[|s| - 1] == c then 1 else 0)
  }

  lemma {:induction false} CountAppend(a: string, b: string, c: char)
    ensures Count(a + b, c) == Count(a, c) + Count(b, c)
    decreases |b|
  {
    if |b| == 0 {
      assert a + b == a;
    } else {
      assert (a + b)[..|a + b| - 1] == a + b[..|b| - 1];
      CountAppend(a, b[..|b| - 1], c);
    }
  }

  /** `strings.ReplaceAll(s, [c], rep)`: every occurrence of the single
      character `c` is replaced by `rep`; every other character is kept. */
  function ReplaceChar(s: string, c: char, rep: string): (r: string)
    ensures c !in s ==> r == s
  {
    if |s| == 0 then ""
    else
      var init := s[..|s| - 1];
      assert s == init + [s[|s| - 1]];
      ReplaceChar(init, c, rep) + (if s[|s| - 1] == c then rep else [s[|s| - 1]])
  }

  lemma ReplaceCharSingle(x: char, c: char, rep: string)
    ensures ReplaceChar([x], c, rep) == if x == c then rep else [x]
  {
    assert [x][..0] == [];
  }

  lemma MulStep(n: int, k: int)
    ensures (n + 1) * k == n * k + k
  {
  }

  lemma {:induction false} ReplaceCharLength(s: string, c: char, rep: string)
    ensures |ReplaceChar(s, c, rep)| == |s| + Count(s, c) * (|rep| - 1)
  {
    if |s| > 0 {
      var init := s[..|s| - 1];
      ReplaceCharLength(init, c, rep);
      MulStep(Count(init, c), |rep| - 1);
    }
  }

  /** Replacement commutes with concatenation. */
  lemma {:induction false} ReplaceCharAppend(a: string, b: string, c: char, rep: string)
    ensures ReplaceChar(a + b, c, rep) == ReplaceChar(a, c, rep) + ReplaceChar(b, c, rep)
    decreases |b|
  {
    if |b| == 0 {
      assert a + b == a;
    } else {
      assert (a + b)[..|a + b| - 1] == a + b[..|b| - 1];
      ReplaceCharAppend(a, b[..|b| - 1], c, rep);
    }
  }

  // ---------------------------------------------------------------------
  // Ordering of keys (`sort.Strings`)
  // ---------------------------------------------------------------------

  /** Strict lexicographic order on code points. */
  predicate Below(a: string, b: string) {
    if |a| == 0 then |b| > 0
    else if |b| == 0 then false
    else if a[0] != b[0] then a[0] < b[0]
    else Below(a[1..], b[1..])
  }

  lemma {:induction false} BelowIrreflexive(a: string)
    ensures !Below(a, a)
  {
    if |a| > 0 {
      BelowIrreflexive(a[1..]);
    }
  }

  lemma {:induction false} BelowTransitive(a: string, b: string, c: string)
    requires Below(a, b) && Below(b, c)
    ensures Below(a, c)
  {
    if |a| > 0 && |b| > 0 && |c| > 0 && a[0] == b[0] && b[0] == c[0] {
      BelowTransitive(a[1..], b[1..], c[1..]);
    }
  }

  lemma {:induction false} BelowTotal(a: string, b: string)
    requires a != b
    ensures Below(a, b) || Below(b, a)
  {
    if |a| > 0 && |b| > 0 && a[0] == b[0] {
      assert a == [a[0]] + a[1..] && b == [b[0]] + b[1..];
      BelowTotal(a[1..], b[1..]);
    }
  }

  predicate StrictlySorted(s: seq<string>) {
    forall i, j :: 0 <= i < j < |s| ==> Below(s[i], s[j])
  }

  predicate Distinct<T(==)>(s: seq<T>) {
    forall i, j :: 0 <= i < j < |s| ==> s[i] != s[j]
  }

  /** A sequence that lists every element of `keys` exactly once: the order
      in which a Go `range` over a map with these keys visits them. */
  predicate IsOrderOf<T(==)>(order: seq<T>, keys: set<T>) {
    Distinct(order) && Elems(order) == keys
  }

  /** The set of elements of a sequence. */
  function Elems<T>(s: seq<T>): set<T> {
    set x | x in s
  }

  /** A sequence without repetitions has as many elements as its set. */
  lemma {:induction false} DistinctCard<T>(s: seq<T>)
    requires Distinct(s)
    ensures |Elems(s)| == |s|
  {
    if |s| > 0 {
      var init := s[..|s| - 1];
      DistinctCard(init);
      assert Elems(s) == Elems(init) + {s[|s| - 1]};
      assert s[|s| - 1] !in Elems(init);
    }
  }

  lemma StrictlySortedIsDistinct(s: seq<string>)
    requires StrictlySorted(s)
    ensures Distinct(s)
  {
    forall i, j | 0 <= i < j < |s|
      ensures s[i] != s[j]
    {
      BelowIrreflexive(s[i]);
    }
  }

  lemma SortedCons(h: string, t: seq<string>)
    requires StrictlySorted(t)
    requires forall j :: 0 <= j < |t| ==> Below(h, t[j])
    ensures StrictlySorted([h] + t)
  {
    var r := [h] + t;
    forall i, j | 0 <= i < j < |r|
      ensures Below(r[i], r[j])
    {
      assert r[j] == t[j - 1];
      if i > 0 {
        assert r[i] == t[i - 1];
      }
    }
  }

  /** Inserts a new element into a strictly sorted sequence. */
  function Insert(x: string, s: seq<string>): (r: seq<string>)
    requires StrictlySorted(s) && x !in s
    ensures StrictlySorted(r)
    ensures multiset(r) == multiset(s) + multiset{x}
  {
    if |s| == 0 then [x]
    else if Below(x, s[0]) then
      InsertFront(x, s);
      [x] + s
    else
      var t := Insert(x, s[1..]);
      InsertBehind(x, s, t);
      [s[0]] + t
  }

  lemma InsertFront(x: string, s: seq<string>)
    requires StrictlySorted(s) && |s| > 0 && Below(x, s[0])
    ensures StrictlySorted([x] + s)
  {
    forall j | 0 <= j < |s|
      ensures Below(x, s[j])
    {
      if j > 0 {
        BelowTransitive(x, s[0], s[j]);
      }
    }
    SortedCons(x, s);
  }

  lemma InsertBehind(x: string, s: seq<string>, t: seq<string>)
    requires StrictlySorted(s) && |s| > 0 && x !in s && !Below(x, s[0])
    requires StrictlySorted(t) && multiset(t) == multiset(s[1..]) + multiset{x}
    ensures StrictlySorted([s[0]] + t)
    ensures multiset([s[0]] + t) == multiset(s) + multiset{x}
  {
    assert s == [s[0]] + s[1..];
    BelowTotal(x, s[0]);
    forall j | 0 <= j < |t|
      ensures Below(s[0], t[j])
    {
      assert t[j] in multiset(t);
      if t[j] != x {
        assert t[j] in multiset(s[1..]);
        var k :| 0 <= k < |s[1..]| && s[1..][k] == t[j];
        assert s[k + 1] == t[j];
      }
    }
    SortedCons(s[0], t);
  }

  /** `sort.Strings` on a sequence of distinct strings: the result is a
      strictly ascending permutation of the input. */
  function Sort(s: seq<string>): (r: seq<string>)
    requires Distinct(s)
    ensures StrictlySorted(r)
    ensures multiset(r) == multiset(s)
  {
    if |s| == 0 then []
    else
      var init := s[..|s| - 1];
      var sorted := Sort(init);
      assert s == init + [s[|s| - 1]];
      assert s[|s| - 1] !in multiset(init);
      Insert(s[|s| - 1], sorted)
  }

  lemma ElemsEmpty<T>(s: seq<T>)
    ensures |s| == 0 <==> Elems(s) == {}
  {
    if |s| > 0 {
      assert s[0] in Elems(s);
    }
  }

  /** A strictly sorted listing of a set is unique. */
  lemma {:induction false} SortedListingUnique(a: seq<string>, b: seq<string>)
    requires StrictlySorted(a) && StrictlySorted(b)
    requires Elems(a) == Elems(b)
    ensures a == b
    decreases |a|
  {
    ElemsEmpty(a);
    ElemsEmpty(b);
    if |a| == 0 || |b| == 0 {
      return;
    }
    assert a[0] in Elems(a) && b[0] in Elems(b);
    if a[0] != b[0] {
      var i :| 0 <= i < |a| && a[i] == b[0];
      var j :| 0 <= j < |b| && b[j] == a[0];
      assert 0 < i && 0 < j;
      BelowIrreflexive(a[0]);
      BelowTransitive(a[0], b[0], a[0]);
      assert false;
    }
    StrictlySortedIsDistinct(a);
    StrictlySortedIsDistinct(b);
    assert a == [a[0]] + a[1..] && b == [b[0]] + b[1..];
    assert Elems(a[1..]) == Elems(a) - {a[0]};
    assert Elems(b[1..]) == Elems(b) - {b[0]};
    SortedListingUnique(a[1..], b[1..]);
  }

  /** The keys of a map in ascending order: Go collects them in map order
      (`order`) and sorts them with `sort.Strings`. */
  function SortedKeys(order: seq<string>, m: map<string, string>): (r: seq<string>)
    requires IsOrderOf(order, m.Keys)
    ensures StrictlySorted(r) && Elems(r) == m.Keys && |r| == |m.Keys|
  {
    var r := Sort(order);
    assert forall x :: x in r <==> x in multiset(order);
    DistinctCard(order);
    r
  }

  /** Sorting removes the dependence on map order. */
  lemma SortedKeysDeterministic(o1: seq<string>, o2: seq<string>, m: map<string, string>)
    requires IsOrderOf(o1, m.Keys) && IsOrderOf(o2, m.Keys)
    ensures SortedKeys(o1, m) == SortedKeys(o2, m)
  {
    SortedListingUnique(SortedKeys(o1, m), SortedKeys(o2, m));
  }
}
