/** `maskSecret`, the value mask used in debug logs (pkg/providers/providers.go
    and, identically, cmd/run.go): a value of at most four characters is
    starred out entirely; a longer one keeps its first two and last two
    characters and stars the rest. */
module Mask {

  /** `strings.Repeat("*", n)`. */
  function Stars(n: nat): (r: string)
    ensures |r| == n && forall i :: 0 <= i < n ==> r[i] == '*'
  {
    seq(n, _ => '*')
  }

  function MaskSecret(v: string): (r: string)
    ensures |r| == |v|
    ensures |v| <= 4 ==> forall i :: 0 <= i < |r| ==> r[i] == '*'
    ensures |v| > 4 ==> r[..2] == v[..2] && r[|r| - 2..] == v[|v| - 2..]
    ensures |v| > 4 ==> forall i :: 2 <= i < |r| - 2 ==> r[i] == '*'
  {
    if |v| <= 4 then Stars(|v|) else v[..2] + Stars(|v| - 4) + v[|v| - 2..]
  }

  /** The mask reveals the length and, for values longer than four
      characters, the first two and the last two characters: two values
      have the same mask exactly when they agree on those. */
  lemma MaskReveals(a: string, b: string)
    ensures MaskSecret(a) == MaskSecret(b)
            <==> |a| == |b| && (|a| <= 4 || (a[..2] == b[..2] && a[|a| - 2..] == b[|b| - 2..]))
  {
    var ma, mb := MaskSecret(a), MaskSecret(b);
    if |a| == |b| && |a| > 4 && a[..2] == b[..2] && a[|a| - 2..] == b[|b| - 2..] {
      forall i | 0 <= i < |ma|
        ensures ma[i] == mb[i]
      {
        if i < 2 {
          assert ma[i] == ma[..2][i] && mb[i] == mb[..2][i];
        } else if i >= |ma| - 2 {
          assert ma[i] == ma[|ma| - 2..][i - (|ma| - 2)] && mb[i] == mb[|mb| - 2..][i - (|mb| - 2)];
        }
      }
    }
    if |a| == |b| && |a| <= 4 {
      assert forall i :: 0 <= i < |ma| ==> ma[i] == mb[i];
    }
  }

  /** Masking a mask changes nothing. */
  lemma MaskIdempotent(v: string)
    ensures MaskSecret(MaskSecret(v)) == MaskSecret(v)
  {
    var m := MaskSecret(v);
    assert forall i :: 0 <= i < |m| ==> MaskSecret(m)[i] == m[i];
  }
}
