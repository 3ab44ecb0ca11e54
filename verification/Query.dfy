/** Query strings: `params_to_query_str` and `parse_query_text` of httplib.h. */
module Query {
  import opened Text
  import opened Params
  import opened Percent

  /** One `key=value` item of a query string. */
  function Item(p: (string, string)): string
    requires IsBytes(p.1)
  {
    p.0 + "=" + EncodeQueryParam(p.1)
  }

  predicate ValuesAreBytes(ps: Params) {
    forall i :: 0 <= i < |ps| ==> IsBytes(ps[i].1)
  }

  function ToQuery(ps: Params): string
    requires ValuesAreBytes(ps)
  {
    if ps == [] then ""
    else if |ps| == 1 then Item(ps[0])
    else Item(ps[0]) + "&" + ToQuery(ps[1..])
  }

  lemma {:induction false} ToQueryAppend(ps: Params, p: (string, string))
    requires ValuesAreBytes(ps) && IsBytes(p.1)
    ensures ToQuery(ps + [p]) == ToQuery(ps) + (if ps == [] then "" else "&") + Item(p)
  {
    hide Item;
    if ps == [] {
      assert ps + [p] == [p];
    } else {
      assert (ps + [p])[1..] == ps[1..] + [p];
      ToQueryAppend(ps[1..], p);
    }
  }

  /** The loop of `params_to_query_str`. */
  method ParamsToQueryStr(ps: Params) returns (query: string)
    requires ValuesAreBytes(ps)
    ensures query == ToQuery(ps)
  {
    query := "";
    for i := 0 to |ps|
      invariant query == ToQuery(ps[..i])
    {
      ToQueryAppend(ps[..i], ps[i]);
      assert ps[..i + 1] == ps[..i] + [ps[i]];
      if i > 0 { query := query + "&"; }
      var value := EncodeQueryParamLoop(ps[i].1);
      query := query + (ps[i].0 + "=" + value);
    }
    assert ps[..|ps|] == ps;
  }

  const DECODE_TEXT: string -> string := x => DecodeUrl(x, true)

  /** `parse_query_text` into an empty multimap. */
  function ParseQueryText(s: string): Params {
    ParseList(s, '&', DECODE_TEXT)
  }

  // ---------------------------------------------------------------- round trip

  /** Keys that `params_to_query_str`, which does not encode them, can carry. */
  predicate PlainKey(k: string) {
    k != "" && Trimmed(k) && '&' !in k && '=' !in k && DecodeUrl(k, true) == k
  }

  predicate Plain(p: (string, string)) {
    PlainKey(p.0) && IsBytes(p.1)
  }

  predicate AllPlain(ps: Params) {
    forall i :: 0 <= i < |ps| ==> Plain(ps[i])
  }

  /** An encoded value: no separators, no blanks, and decoding gives the value back. */
  lemma Encoded(v: string) returns (e: string)
    requires IsBytes(v)
    ensures e == EncodeQueryParam(v) && '=' !in e && '&' !in e && Trimmed(e) && DecodeUrl(e, true) == v
    ensures e == "" <==> v == ""
  {
    e := EncodeQueryParam(v);
    assert v == "" ==> e == "";
    hide EncodeQueryParam, Unreserved;
    assert DecodeUrl("", true) == "";
    hide DecodeUrl;
    EncodedChars(v);
    DecodeInvertsEncode(v, true);
    forall c | c in e ensures c != '=' && c != '&' && !IsSpaceOrTab(c) { EncodedChar(c); }
  }

  lemma EncodedChar(c: char)
    requires Unreserved(c) || c == '%'
    ensures c != '=' && c != '&' && !IsSpaceOrTab(c)
  {
  }

  lemma ItemShape(p: (string, string))
    requires Plain(p)
    ensures Item(p) != "" && Trimmed(Item(p)) && '&' !in Item(p)
  {
    hide EncodeQueryParam, DecodeUrl;
    var e := Encoded(p.1);
    assert Item(p)[0] == p.0[0];
  }

  lemma ItemSplits(p: (string, string))
    requires Plain(p)
    ensures SplitPair(Item(p)) == (p.0, EncodeQueryParam(p.1))
  {
    hide EncodeQueryParam, DecodeUrl, SplitPair;
    var e := Encoded(p.1);
    PairSplits(p.0, e);
  }

  /** The inner split and the decoding give back the pair. */
  lemma ItemParses(p: (string, string))
    requires Plain(p)
    ensures var kv := SplitPair(Item(p)); kv.0 == p.0 && DecodeUrl(kv.0, true) == p.0 && DecodeUrl(kv.1, true) == p.1
  {
    hide EncodeQueryParam, DecodeUrl, SplitPair;
    ItemSplits(p);
    DecodeInvertsEncode(p.1, true);
  }

  lemma ItemInjective(p: (string, string), q: (string, string))
    requires Plain(p) && Plain(q) && Item(p) == Item(q)
    ensures p == q
  {
    ItemParses(p);
    ItemParses(q);
  }

  function Items(ps: Params): seq<string>
    requires AllPlain(ps)
  {
    if ps == [] then [] else [Item(ps[0])] + Items(ps[1..])
  }

  lemma {:induction false} QuerySplits(ps: Params)
    requires AllPlain(ps)
    ensures Split(ToQuery(ps), '&') == Items(ps)
  {
    if ps == [] {
      SplitLast("", '&');
    } else {
      ItemShape(ps[0]);
      TrimIdentity(Item(ps[0]));
      if |ps| == 1 {
        SplitLast(Item(ps[0]), '&');
      } else {
        SplitFirst(Item(ps[0]), '&', ToQuery(ps[1..]));
        QuerySplits(ps[1..]);
      }
    }
  }

  /** The entries of `ps`, each repeated pair only at its first place. */
  function Distinct(ps: Params): Params {
    if ps == [] then [] else
    var q := ps[..|ps| - 1];
    var last := ps[|ps| - 1];
    Distinct(q) + if last in q then [] else [last]
  }

  predicate NoRepeats(ps: Params) {
    forall i, j :: 0 <= i < j < |ps| ==> ps[i] != ps[j]
  }

  lemma {:induction false} DistinctElements(ps: Params)
    ensures forall x :: x in Distinct(ps) ==> x in ps
    ensures |Distinct(ps)| <= |ps|
    ensures Distinct(ps) == ps <==> NoRepeats(ps)
  {
    if ps != [] {
      var n := |ps| - 1;
      var q := ps[..n];
      DistinctElements(q);
      assert ps == q + [ps[n]];
      if ps[n] in q {
        assert !NoRepeats(ps);
      } else if Distinct(q) != q {
        assert Distinct(ps)[..|Distinct(ps)| - 1] == Distinct(q);
        assert !NoRepeats(ps);
      }
    }
  }

  ghost predicate CacheOf(cache: set<string>, done: Params)
    requires AllPlain(done)
  {
    forall p: (string, string) | Plain(p) :: Item(p) in cache <==> p in done
  }

  /** The state of `parse_query_text` after `i` items. */
  lemma {:induction false} GatherItems(ps: Params, i: nat, cache: set<string>)
    requires AllPlain(ps) && Sorted(ps) && i <= |ps| && CacheOf(cache, ps[..i])
    ensures Gather(Items(ps[i..]), DECODE_TEXT, cache, Distinct(ps[..i])) == Distinct(ps)
    decreases |ps| - i
  {
    hide Gather, Item, PlainKey, Distinct, CacheOf;
    if i == |ps| {
      assert ps[..i] == ps && ps[i..] == [];
      NoItems(cache, Distinct(ps));
    } else {
      CacheStep(cache, ps[..i], ps[i]);
      assert ps[..i + 1] == ps[..i] + [ps[i]];
      GatherItems(ps, i + 1, cache + {Item(ps[i])});
      GatherOne(ps, i, cache);
    }
  }

  lemma NoItems(cache: set<string>, ps: Params)
    ensures Gather([], DECODE_TEXT, cache, ps) == ps
  {
  }

  lemma GatherOne(ps: Params, i: nat, cache: set<string>)
    requires AllPlain(ps) && Sorted(ps) && i < |ps| && CacheOf(cache, ps[..i])
    ensures Gather(Items(ps[i..]), DECODE_TEXT, cache, Distinct(ps[..i]))
            == Gather(Items(ps[i + 1..]), DECODE_TEXT, cache + {Item(ps[i])}, Distinct(ps[..i + 1]))
  {
    var p, done := ps[i], ps[..i];
    assert ps[i..][1..] == ps[i + 1..] && ps[i..][0] == p;
    GatherNext(Item(p), Items(ps[i + 1..]), DECODE_TEXT, cache, Distinct(done));
    CacheStep(cache, done, p);
    DistinctNext(ps, i);
  }

  lemma DistinctNext(ps: Params, i: nat)
    requires AllPlain(ps) && Sorted(ps) && i < |ps|
    ensures Distinct(ps[..i + 1])
            == if ps[i] in ps[..i] then Distinct(ps[..i])
               else AddPair(Distinct(ps[..i]), DECODE_TEXT, SplitPair(Item(ps[i])))
  {
    assert ps[..i + 1][..i] == ps[..i];
    ItemParses(ps[i]);
    AfterDone(ps, i);
    EmplaceAtEnd(Distinct(ps[..i]), ps[i].0, ps[i].1);
  }

  lemma AfterDone(ps: Params, i: nat)
    requires Sorted(ps) && i < |ps|
    ensures forall k :: 0 <= k < |Distinct(ps[..i])| ==> !Less(ps[i].0, Distinct(ps[..i])[k].0)
  {
    DistinctElements(ps[..i]);
    forall k | 0 <= k < |Distinct(ps[..i])| ensures !Less(ps[i].0, Distinct(ps[..i])[k].0) {
      var x := Distinct(ps[..i])[k];
      assert x in ps[..i];
    }
  }

  lemma CacheStep(cache: set<string>, done: Params, p: (string, string))
    requires AllPlain(done) && Plain(p) && CacheOf(cache, done)
    ensures Item(p) in cache <==> p in done
    ensures CacheOf(cache + {Item(p)}, done + [p])
  {
    forall q: (string, string) | Plain(q) && Item(q) == Item(p) ensures q == p {
      ItemInjective(q, p);
    }
  }

  /** `parse_query_text` gives back the multimap that `params_to_query_str` printed, less repeated
      pairs; so it gives back the whole multimap exactly when no pair is repeated. */
  lemma QueryRoundTrip(ps: Params)
    requires AllPlain(ps) && Sorted(ps)
    ensures ParseQueryText(ToQuery(ps)) == Distinct(ps)
    ensures ParseQueryText(ToQuery(ps)) == ps <==> NoRepeats(ps)
  {
    QuerySplits(ps);
    assert ps[0..] == ps && ps[..0] == [];
    GatherItems(ps, 0, {});
    DistinctElements(ps);
  }

  /** A pair that stands twice in the multimap stands there once after the round trip. */
  lemma RepeatedPair()
    ensures ToQuery([("a", "b"), ("a", "b")]) == "a=b&a=b" && ParseQueryText("a=b&a=b") == [("a", "b")]
  {
    hide EncodeQueryParam, DecodeUrl, Gather, Split;
    var p, ps := ("a", "b"), [("a", "b"), ("a", "b")];
    EncodedB();
    assert Item(p) == "a=b";
    hide Item;
    assert ps[1..] == [p] && ps[..1] == [p] && [p][..0] == [];
    DecodePlain("a", true);
    assert PlainKey("a") && Plain(p);
    assert Sorted(ps) by { NotLess("a"); }
    QueryRoundTrip(ps);
  }

  lemma EncodedB()
    ensures EncodeQueryParam("b") == "b"
  {
    assert "b"[1..] == "";
  }

  lemma {:induction false} NotLess(a: string)
    ensures !Less(a, a)
  {
    if a != "" { NotLess(a[1..]); }
  }
}
