/** Key bindings (`fromKey: toKey`) resolved against a source map: the
    inner loops of `collectGSMSecretsWithMissing` and of the mapping mode
    of `collectDotenvSecrets` in pkg/providers/providers.go. For every
    binding whose source key resolves, the output key is set to the
    resolved value; a binding that does not resolve writes nothing. */
module Bindings {
  import opened Config

  /** Resolves each binding in order against `src`, writing into `secrets`. */
  function BindAll(secrets: map<string, string>, bs: seq<Binding>, src: map<string, string>): map<string, string>
  {
    if |bs| == 0 then secrets
    else
      var b := bs[|bs| - 1];
      var m := BindAll(secrets, bs[..|bs| - 1], src);
      if b.from in src then m[b.to := src[b.from]] else m
  }

  /** An output key is present exactly when it was present before or some
      binding onto it resolves. */
  lemma {:induction false} BindAllKeys(secrets: map<string, string>, bs: seq<Binding>, src: map<string, string>, k: string)
    ensures k in BindAll(secrets, bs, src)
            <==> k in secrets || exists i :: 0 <= i < |bs| && bs[i].to == k && bs[i].from in src
  {
    if |bs| > 0 {
      var init := bs[..|bs| - 1];
      BindAllKeys(secrets, init, src, k);
      if exists i :: 0 <= i < |init| && init[i].to == k && init[i].from in src {
        var i :| 0 <= i < |init| && init[i].to == k && init[i].from in src;
        assert bs[i] == init[i];
      }
      if exists i :: 0 <= i < |bs| - 1 && bs[i].to == k && bs[i].from in src {
        var i :| 0 <= i < |bs| - 1 && bs[i].to == k && bs[i].from in src;
        assert bs[i] == init[i];
      }
    }
  }

  /** Every present value either was there before or came from a binding
      onto that key. */
  lemma {:induction false} BindAllProvenance(secrets: map<string, string>, bs: seq<Binding>, src: map<string, string>, k: string)
    requires k in BindAll(secrets, bs, src)
    ensures || (k in secrets && BindAll(secrets, bs, src)[k] == secrets[k])
            || exists i :: 0 <= i < |bs| && bs[i].to == k && bs[i].from in src
                           && BindAll(secrets, bs, src)[k] == src[bs[i].from]
  {
    if |bs| > 0 {
      var init := bs[..|bs| - 1];
      var b := bs[|bs| - 1];
      if b.from in src && b.to == k {
        assert bs[|bs| - 1] == b;
      } else {
        BindAllProvenance(secrets, init, src, k);
        if exists i :: 0 <= i < |init| && init[i].to == k && init[i].from in src
                       && BindAll(secrets, init, src)[k] == src[init[i].from] {
          var i :| 0 <= i < |init| && init[i].to == k && init[i].from in src
                   && BindAll(secrets, init, src)[k] == src[init[i].from];
          assert bs[i] == init[i];
        }
      }
    }
  }

  /** A key holds the value of the last binding onto it that resolves. */
  lemma {:induction false} BindAllLast(secrets: map<string, string>, bs: seq<Binding>, src: map<string, string>, i: int)
    requires 0 <= i < |bs| && bs[i].from in src
    requires forall j :: i < j < |bs| && bs[j].to == bs[i].to ==> bs[j].from !in src
    ensures bs[i].to in BindAll(secrets, bs, src)
    ensures BindAll(secrets, bs, src)[bs[i].to] == src[bs[i].from]
  {
    if i < |bs| - 1 {
      var init := bs[..|bs| - 1];
      assert init[i] == bs[i];
      assert forall j :: i < j < |init| && init[j].to == init[i].to ==> init[j].from !in src by {
        forall j | i < j < |init| ensures init[j] == bs[j] { }
      }
      BindAllLast(secrets, init, src, i);
    }
  }

  /** A key that no resolving binding targets keeps its earlier value. */
  lemma {:induction false} BindAllUntouched(secrets: map<string, string>, bs: seq<Binding>, src: map<string, string>, k: string)
    requires k in secrets
    requires forall i :: 0 <= i < |bs| && bs[i].to == k ==> bs[i].from !in src
    ensures k in BindAll(secrets, bs, src) && BindAll(secrets, bs, src)[k] == secrets[k]
  {
    if |bs| > 0 {
      var init := bs[..|bs| - 1];
      assert forall i :: 0 <= i < |init| && init[i].to == k ==> init[i].from !in src by {
        forall i | 0 <= i < |init| ensures init[i] == bs[i] { }
      }
      BindAllUntouched(secrets, init, src, k);
    }
  }

  /** Resolving `a` and then `b` is resolving `a + b`. */
  lemma {:induction false} BindAllAppend(secrets: map<string, string>, a: seq<Binding>, b: seq<Binding>, src: map<string, string>)
    ensures BindAll(secrets, a + b, src) == BindAll(BindAll(secrets, a, src), b, src)
    decreases |b|
  {
    if |b| == 0 {
      assert a + b == a;
    } else {
      assert (a + b)[..|a + b| - 1] == a + b[..|b| - 1];
      assert (a + b)[|a + b| - 1] == b[|b| - 1];
      BindAllAppend(secrets, a, b[..|b| - 1], src);
    }
  }

  /** The bindings' writes lie on top of whatever was there: starting from
      `secrets` is the same as overlaying the writes made from nothing. */
  lemma {:induction false} BindAllOnto(secrets: map<string, string>, bs: seq<Binding>, src: map<string, string>)
    ensures BindAll(secrets, bs, src) == secrets + BindAll(map[], bs, src)
  {
    if |bs| > 0 {
      BindAllOnto(secrets, bs[..|bs| - 1], src);
    }
  }
}
