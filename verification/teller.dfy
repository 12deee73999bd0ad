/** The GSM filter of `getSecretsFromTeller` (cmd/github_secret_add.go):
    only secrets that some Google Secret Manager binding produces are sent
    to GitHub, under their GSM key rather than their output key. Running
    the `teller` binary and decoding its JSON output are an input here: the
    map of output keys to values it printed, or a failure. */
module Teller {
  import opened Outcome
  import opened Text
  import opened Namespace
  import opened Config
  import Providers

  /** Every binding of the GSM providers, provider by provider in the
      order `names` visits them, each provider's path maps in order. */
  function GsmBindings(names: seq<string>, gsm: map<string, Provider>): seq<Binding>
    requires Elems(names) <= gsm.Keys
    decreases |names|
  {
    if |names| == 0 then []
    else
      assert names[0] in Elems(names) && Elems(names[1..]) <= Elems(names);
      Providers.AllBindings(gsm[names[0]].maps) + GsmBindings(names[1..], gsm)
  }

  /** A binding is collected exactly when one of the visited providers
      has it in one of its path maps. */
  lemma {:induction false} GsmBindingsMember(names: seq<string>, gsm: map<string, Provider>, b: Binding)
    requires Elems(names) <= gsm.Keys
    ensures b in GsmBindings(names, gsm) <==>
              exists i, j :: 0 <= i < |names| && 0 <= j < |gsm[names[i]].maps| && b in gsm[names[i]].maps[j].keys
    decreases |names|
  {
    if |names| > 0 {
      assert names[0] in Elems(names) && Elems(names[1..]) <= Elems(names);
      var rest := names[1..];
      GsmBindingsMember(rest, gsm, b);
      Providers.AllBindingsMember(gsm[names[0]].maps, b);
      if exists i, j :: 0 <= i < |rest| && 0 <= j < |gsm[rest[i]].maps| && b in gsm[rest[i]].maps[j].keys {
        var i, j :| 0 <= i < |rest| && 0 <= j < |gsm[rest[i]].maps| && b in gsm[rest[i]].maps[j].keys;
        assert rest[i] == names[i + 1];
      }
      if exists i, j :: 0 <= i < |names| && 0 <= j < |gsm[names[i]].maps| && b in gsm[names[i]].maps[j].keys {
        var i, j :| 0 <= i < |names| && 0 <= j < |gsm[names[i]].maps| && b in gsm[names[i]].maps[j].keys;
        if i > 0 {
          assert rest[i - 1] == names[i];
        }
      }
    }
  }

  /** `expectedGSMKeys`: the output keys the GSM bindings produce. */
  function Expected(bs: seq<Binding>): (r: set<string>)
    ensures forall k :: k in r <==> exists b :: b in bs && b.to == k
  {
    set b | b in bs :: b.to
  }

  /** The writes `outputKeyToGSMKey[outputKey] = gsmKey`, in order. */
  function ReverseWrites(bs: seq<Binding>): (r: seq<(string, string)>)
    ensures |r| == |bs| && forall i :: 0 <= i < |bs| ==> r[i] == (bs[i].to, bs[i].from)
  {
    seq(|bs|, i requires 0 <= i < |bs| => (bs[i].to, bs[i].from))
  }

  /** `outputKeyToGSMKey`: from an output key to the GSM key of the last
      binding that produces it. */
  function Reverse(bs: seq<Binding>): (r: map<string, string>)
    ensures r.Keys == Expected(bs)
  {
    var ws := ReverseWrites(bs);
    assert WrittenKeys(ws) == Expected(bs) by {
      forall k | k in Expected(bs) ensures k in WrittenKeys(ws) {
        var b :| b in bs && b.to == k;
        var i :| 0 <= i < |bs| && bs[i] == b;
        assert ws[i].0 == k;
      }
      forall k | k in WrittenKeys(ws) ensures k in Expected(bs) {
        var i :| 0 <= i < |ws| && ws[i].0 == k;
        assert bs[i] in bs;
      }
    }
    ApplyWrites(map[], ws)
  }

  /** The two maps built together cover the same output keys, and each
      output key maps back to the GSM key of a binding that produces it. */
  lemma ReverseOfBinding(bs: seq<Binding>, k: string)
    ensures k in Reverse(bs) <==> k in Expected(bs)
    ensures k in Reverse(bs) ==> exists b :: b in bs && b.to == k && Reverse(bs)[k] == b.from
  {
    var ws := ReverseWrites(bs);
    if k in Expected(bs) {
      var b :| b in bs && b.to == k;
      var i :| 0 <= i < |bs| && bs[i] == b;
      assert ws[i].0 == k;
    }
    if k in Reverse(bs) {
      ApplyWritesProvenance(map[], ws, k);
      var i :| 0 <= i < |ws| && ws[i].0 == k && Reverse(bs)[k] == ws[i].1;
      assert bs[i] in bs;
    }
  }

  /** When several bindings produce the same output key, the last one in
      visiting order decides which GSM key it maps back to. */
  lemma ReverseLastBinding(bs: seq<Binding>, i: int)
    requires 0 <= i < |bs| && forall j :: i < j < |bs| ==> bs[j].to != bs[i].to
    ensures bs[i].to in Reverse(bs) && Reverse(bs)[bs[i].to] == bs[i].from
  {
    var ws := ReverseWrites(bs);
    assert IsLastWrite(ws, i);
    ApplyWritesLast(map[], ws, i);
  }

  /** A Go map read: the value, or the empty string for a missing key. */
  function Lookup(m: map<string, string>, k: string): (r: string)
    ensures k in m ==> r == m[k]
    ensures k !in m ==> r == ""
  {
    if k in m then m[k] else ""
  }

  /** The writes `gsmSecrets[gsmKey] = value` of the filter loop, visiting
      teller's output keys in `outOrder`. */
  function FilterWrites(outOrder: seq<string>, out: map<string, string>, expected: set<string>,
                        reverse: map<string, string>): seq<(string, string)>
    requires Elems(outOrder) <= out.Keys
  {
    if |outOrder| == 0 then []
    else
      var k := outOrder[|outOrder| - 1];
      assert k in Elems(outOrder) && Elems(outOrder[..|outOrder| - 1]) <= Elems(outOrder);
      FilterWrites(outOrder[..|outOrder| - 1], out, expected, reverse)
      + (if k in expected then [(Lookup(reverse, k), out[k])] else [])
  }

  /** Each write comes from a visited output key that is expected. */
  lemma {:induction false} FilterWritesMember(outOrder: seq<string>, out: map<string, string>, expected: set<string>,
                                              reverse: map<string, string>, w: (string, string))
    requires Elems(outOrder) <= out.Keys
    ensures w in FilterWrites(outOrder, out, expected, reverse) <==>
              exists k :: k in outOrder && k in expected && k in out && w == (Lookup(reverse, k), out[k])
  {
    if |outOrder| > 0 {
      var init := outOrder[..|outOrder| - 1];
      var k := outOrder[|outOrder| - 1];
      assert k in Elems(outOrder) && Elems(init) <= Elems(outOrder);
      FilterWritesMember(init, out, expected, reverse, w);
      assert outOrder == init + [k];
    }
  }

  /** The failure of running `teller export json` or decoding its output. */
  datatype TellerError = TellerFailed

  /** `getSecretsFromTeller` from the provider lookup on. `gsmOrder` is the
      order Go visits the GSM providers in; `outOrder` the order it visits
      teller's output. */
  function GetSecretsFromTeller(cfg: TellerConfig, gsmOrder: seq<string>, teller: Result<map<string, string>, TellerError>,
                                outOrder: seq<string>): (r: Result<map<string, string>, TellerError>)
    requires IsOrderOf(gsmOrder, ProvidersByKind(cfg, GoogleSecretManager).Keys)
    requires teller.Ok? ==> IsOrderOf(outOrder, teller.value.Keys)
    ensures |ProvidersByKind(cfg, GoogleSecretManager)| == 0 ==> r == Ok(map[])
    ensures |ProvidersByKind(cfg, GoogleSecretManager)| > 0 ==> (r.Err? <==> teller.Err?)
  {
    var gsm := ProvidersByKind(cfg, GoogleSecretManager);
    if |gsm| == 0 then Ok(map[])
    else
      var bs := GsmBindings(gsmOrder, gsm);
      match teller
      case Err(e) => Err(e)
      case Ok(out) => Ok(ApplyWrites(map[], FilterWrites(outOrder, out, Expected(bs), Reverse(bs))))
  }

  /** The filter on its own, as the lemmas below see it. */
  function Filter(bs: seq<Binding>, outOrder: seq<string>, out: map<string, string>): map<string, string>
    requires Elems(outOrder) <= out.Keys
  {
    ApplyWrites(map[], FilterWrites(outOrder, out, Expected(bs), Reverse(bs)))
  }

  /** Only GSM secrets reach GitHub, under their GSM key: every key of the
      result is the source key of some binding whose output key teller
      printed, and holds teller's value for that output key. */
  lemma FilterProvenance(bs: seq<Binding>, outOrder: seq<string>, out: map<string, string>, g: string)
    requires IsOrderOf(outOrder, out.Keys)
    ensures g in Filter(bs, outOrder, out) ==>
              exists b :: b in bs && b.from == g && b.to in out && Filter(bs, outOrder, out)[g] == out[b.to]
  {
    var ws := FilterWrites(outOrder, out, Expected(bs), Reverse(bs));
    if g in Filter(bs, outOrder, out) {
      ApplyWritesProvenance(map[], ws, g);
      var i :| 0 <= i < |ws| && ws[i].0 == g && Filter(bs, outOrder, out)[g] == ws[i].1;
      FilterWritesMember(outOrder, out, Expected(bs), Reverse(bs), ws[i]);
      var k :| k in outOrder && k in Expected(bs) && k in out && ws[i] == (Lookup(Reverse(bs), k), out[k]);
      ReverseOfBinding(bs, k);
      var b :| b in bs && b.to == k && Reverse(bs)[k] == b.from;
    }
  }

  /** A key of the result comes from an expected output key teller
      printed. */
  lemma FilterKeyFrom(bs: seq<Binding>, outOrder: seq<string>, out: map<string, string>, g: string)
    requires IsOrderOf(outOrder, out.Keys)
    ensures g in Filter(bs, outOrder, out) ==> exists k :: k in out && k in Expected(bs) && Reverse(bs)[k] == g
  {
    var ws := FilterWrites(outOrder, out, Expected(bs), Reverse(bs));
    if g in Filter(bs, outOrder, out) {
      var i :| 0 <= i < |ws| && ws[i].0 == g;
      FilterWritesMember(outOrder, out, Expected(bs), Reverse(bs), ws[i]);
      var k :| k in outOrder && k in Expected(bs) && k in out && ws[i] == (Lookup(Reverse(bs), k), out[k]);
      ReverseOfBinding(bs, k);
    }
  }

  /** An expected output key teller printed yields its GSM key. */
  lemma FilterKeyTo(bs: seq<Binding>, outOrder: seq<string>, out: map<string, string>, k: string)
    requires IsOrderOf(outOrder, out.Keys) && k in out && k in Expected(bs)
    ensures k in Reverse(bs) && Reverse(bs)[k] in Filter(bs, outOrder, out)
  {
    ReverseOfBinding(bs, k);
    assert k in Elems(outOrder);
    FilterWritesMember(outOrder, out, Expected(bs), Reverse(bs), (Reverse(bs)[k], out[k]));
  }

  /** Every output key that a binding produces and teller printed yields
      a secret; output keys of no binding are dropped. */
  lemma FilterKeys(bs: seq<Binding>, outOrder: seq<string>, out: map<string, string>, g: string)
    requires IsOrderOf(outOrder, out.Keys)
    ensures g in Filter(bs, outOrder, out) <==>
              exists k :: k in out && k in Expected(bs) && Reverse(bs)[k] == g
  {
    FilterKeyFrom(bs, outOrder, out, g);
    if exists k :: k in out && k in Expected(bs) && Reverse(bs)[k] == g {
      var k :| k in out && k in Expected(bs) && Reverse(bs)[k] == g;
      FilterKeyTo(bs, outOrder, out, k);
    }
  }

  /** Bindings that pair source and output keys one to one are undone
      exactly: each GSM key gets teller's value for its output key. */
  lemma FilterRekeys(bs: seq<Binding>, outOrder: seq<string>, out: map<string, string>, b: Binding)
    requires IsOrderOf(outOrder, out.Keys)
    requires forall b1, b2 :: b1 in bs && b2 in bs && (b1.from == b2.from || b1.to == b2.to) ==> b1 == b2
    requires b in bs && b.to in out
    ensures b.from in Filter(bs, outOrder, out) && Filter(bs, outOrder, out)[b.from] == out[b.to]
  {
    ReverseOfBinding(bs, b.to);
    FilterKeys(bs, outOrder, out, b.from);
    FilterProvenance(bs, outOrder, out, b.from);
  }

  /** What reaches GitHub when teller succeeds: a GSM key is sent
      exactly when an expected output key that teller printed maps back to
      it, and it carries teller's value for the output key of one of its
      bindings. */
  lemma GetSecretsContent(cfg: TellerConfig, gsmOrder: seq<string>, out: map<string, string>, outOrder: seq<string>, g: string)
    requires IsOrderOf(gsmOrder, ProvidersByKind(cfg, GoogleSecretManager).Keys)
    requires IsOrderOf(outOrder, out.Keys)
    requires |ProvidersByKind(cfg, GoogleSecretManager)| > 0
    ensures var r := GetSecretsFromTeller(cfg, gsmOrder, Ok(out), outOrder);
            var bs := GsmBindings(gsmOrder, ProvidersByKind(cfg, GoogleSecretManager));
            && r.Ok?
            && (g in r.value <==> exists k :: k in out && k in Expected(bs) && Reverse(bs)[k] == g)
            && (g in r.value ==> exists b :: b in bs && b.from == g && b.to in out && r.value[g] == out[b.to])
  {
    var bs := GsmBindings(gsmOrder, ProvidersByKind(cfg, GoogleSecretManager));
    FilterKeys(bs, outOrder, out, g);
    FilterProvenance(bs, outOrder, out, g);
  }
}
