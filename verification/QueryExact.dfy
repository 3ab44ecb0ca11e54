/** Which multimaps survive the round trip through a query string: a weight that the round trip lowers for all others.
    */
module QueryExact {
  import opened Text
  import opened Params
  import opened Percent
  import opened Query

  // ---------------------------------------------------------------- weights of texts

  /** Two for every character, three for a plus sign. */
  function Weight(s: string): nat {
    if s == "" then 0 else (if s[0] == '+' then 3 else 2) + Weight(s[1..])
  }

  lemma {:induction false} WeightJoin(a: string, b: string)
    ensures Weight(a + b) == Weight(a) + Weight(b)
  {
    if a == "" {
      assert a + b == b;
    } else {
      assert (a + b)[1..] == a[1..] + b;
      WeightJoin(a[1..], b);
    }
  }

  lemma {:induction false} WeightBounds(s: string)
    ensures 2 * |s| <= Weight(s) <= 3 * |s|
  {
    if s != "" { WeightBounds(s[1..]); }
  }

  lemma WeightOne(c: char)
    ensures Weight([c]) == if c == '+' then 3 else 2
  {
    assert [c][1..] == "";
  }

  /** Decoding an escape or a plus sign lowers the weight. */
  lemma FrontWeight(s: string)
    requires s != ""
    ensures var p := DecodeFront(s, true);
            Weight(p.text) <= Weight(s[..p.used]) && (Weight(p.text) == Weight(s[..p.used]) ==> p.text == s[..p.used])
  {
    hide Weight, ToUtf8;
    var p := DecodeFront(s, true);
    if p.used == 1 {
      assert s[..1] == [s[0]];
      WeightOne(s[0]);
      WeightOne(' ');
    } else {
      FrontShrinks(s);
      WeightBounds(p.text);
      WeightBounds(s[..p.used]);
    }
  }

  lemma FrontShrinks(s: string)
    requires s != "" && DecodeFront(s, true).used > 1
    ensures var p := DecodeFront(s, true); 3 * |p.text| < 2 * p.used
  {
    if DecodeFront(s, true).used == 6 { FourDigits(s); }
  }

  lemma {:induction false} DecodeWeight(s: string)
    ensures var d := DecodeUrl(s, true); Weight(d) <= Weight(s) && (Weight(d) == Weight(s) ==> d == s)
    decreases |s|
  {
    hide DecodeFront, Weight;
    if s != "" {
      var p := DecodeFront(s, true);
      FrontWeight(s);
      DecodeWeight(s[p.used..]);
      WeightJoin(p.text, DecodeUrl(s[p.used..], true));
      WeightJoin(s[..p.used], s[p.used..]);
      assert s == s[..p.used] + s[p.used..];
    }
  }

  lemma TrimWeight(s: string)
    ensures Weight(Trim(s)) <= Weight(s) && (Weight(Trim(s)) == Weight(s) ==> Trimmed(s))
  {
    hide Weight, TrimLeft, TrimRight;
    var l := TrimLeft(s);
    var t := TrimRight(l);
    TrimLeftSuffix(s);
    TrimRightPrefix(l);
    var a, c := s[..|s| - |l|], l[|t|..];
    assert s == a + l && l == t + c;
    InnerWeight(a, t, c);
    TrimIdentity(s);
  }

  lemma InnerWeight(a: string, t: string, c: string)
    ensures Weight(t) <= Weight(a + (t + c)) && (Weight(t) == Weight(a + (t + c)) ==> t == a + (t + c))
  {
    hide Weight;
    WeightJoin(a, t + c);
    WeightJoin(t, c);
    WeightBounds(a);
    WeightBounds(c);
    assert a == "" && c == "" ==> a + (t + c) == t;
  }

  function WeightAll(parts: seq<string>): nat {
    if parts == [] then 0 else Weight(parts[0]) + WeightAll(parts[1..])
  }

  lemma {:induction false} WeightAllJoin(a: seq<string>, b: seq<string>)
    ensures WeightAll(a + b) == WeightAll(a) + WeightAll(b)
  {
    if a == [] {
      assert a + b == b;
    } else {
      assert (a + b)[1..] == a[1..] + b;
      WeightAllJoin(a[1..], b);
    }
  }

  lemma WeightNonEmpty(s: string)
    ensures WeightAll(NonEmpty(s)) == Weight(s)
  {
    assert s != "" ==> NonEmpty(s)[1..] == [];
  }

  /** The pieces of a split weigh less than the text, unless it is one trimmed piece. */
  lemma {:induction false} SplitWeight(s: string, d: char)
    ensures WeightAll(Split(s, d)) <= Weight(s)
    ensures WeightAll(Split(s, d)) == Weight(s) ==> d !in s && Trimmed(s) && Split(s, d) == NonEmpty(s)
    decreases |s|
  {
    hide Weight, WeightAll, Trim;
    var i := IndexOf(s, d);
    var x := s[..i];
    TrimWeight(x);
    TrimIdentity(x);
    WeightNonEmpty(Trim(x));
    if i == |s| {
      assert x == s;
      SplitLast(s, d);
    } else {
      var y := s[i + 1..];
      assert s == x + [d] + y;
      SplitFirst(x, d, y);
      SplitWeight(y, d);
      WeightAllJoin(NonEmpty(Trim(x)), Split(y, d));
      WeightJoin(x, [d]);
      WeightJoin(x + [d], y);
      WeightOne(d);
    }
  }

  /** The first part and the last, where they are not the same. */
  lemma EndsWeight(parts: seq<string>)
    requires parts != []
    ensures Weight(parts[0]) + (if |parts| == 1 then 0 else Weight(parts[|parts| - 1])) <= WeightAll(parts)
  {
    hide Weight;
    var n := |parts| - 1;
    if n > 0 {
      assert parts == [parts[0]] + parts[1..n] + [parts[n]];
      WeightAllJoin([parts[0]] + parts[1..n], [parts[n]]);
      WeightAllJoin([parts[0]], parts[1..n]);
    }
  }

  // ---------------------------------------------------------------- weights of pairs

  function PairWeight(p: (string, string)): nat {
    2 * (1 + Weight(p.0) + Weight(p.1)) + if p.0 == "" then 1 else 0
  }

  function Total(ps: Params): nat {
    if ps == [] then 0 else PairWeight(ps[0]) + Total(ps[1..])
  }

  /** What the pair of an item weighs, if it has one. */
  function PieceWeight(x: string): nat {
    if SplitPair(x).0 == "" then 0 else PairWeight(Entry(x, DECODE_TEXT))
  }

  function PiecesWeight(xs: seq<string>): nat {
    if xs == [] then 0 else PieceWeight(xs[0]) + PiecesWeight(xs[1..])
  }

  lemma {:induction false} PiecesJoin(a: seq<string>, b: seq<string>)
    ensures PiecesWeight(a + b) == PiecesWeight(a) + PiecesWeight(b)
  {
    hide PieceWeight;
    if a == [] {
      assert a + b == b;
    } else {
      assert (a + b)[1..] == a[1..] + b;
      PiecesJoin(a[1..], b);
    }
  }

  lemma {:induction false} TotalEmplaced(ps: Params, k: string, v: string)
    ensures Total(Emplace(ps, k, v)) == Total(ps) + PairWeight((k, v))
  {
    hide PairWeight, Less;
    if ps == [] {
      assert [(k, v)][1..] == [];
    } else if Less(k, ps[0].0) {
      assert ([(k, v)] + ps)[1..] == ps;
    } else {
      assert ([ps[0]] + Emplace(ps[1..], k, v))[1..] == Emplace(ps[1..], k, v);
      TotalEmplaced(ps[1..], k, v);
    }
  }

  /** Gathering adds at most what the items weigh. */
  lemma {:induction false} GatherWeight(xs: seq<string>, cache: set<string>, ps: Params)
    ensures Total(Gather(xs, DECODE_TEXT, cache, ps)) <= Total(ps) + PiecesWeight(xs)
    decreases |xs|
  {
    hide Emplace, PairWeight, SplitPair;
    if xs != [] {
      var kv := SplitPair(xs[0]);
      if xs[0] in cache {
        GatherWeight(xs[1..], cache, ps);
      } else {
        GatherWeight(xs[1..], cache + {xs[0]}, AddPair(ps, DECODE_TEXT, kv));
        TotalEmplaced(ps, DECODE_TEXT(kv.0), DECODE_TEXT(kv.1));
      }
    }
  }

  // ---------------------------------------------------------------- one item

  /** A decoded key, with the point for an empty one. */
  lemma KeyWeight(k: string)
    requires k != ""
    ensures var d := DecodeUrl(k, true);
            2 * Weight(d) + (if d == "" then 1 else 0) <= 2 * Weight(k)
            && (2 * Weight(d) + (if d == "" then 1 else 0) == 2 * Weight(k) ==> d == k)
  {
    DecodeWeight(k);
    WeightBounds(k);
  }

  /** Text between two separators. */
  lemma TextWeight(x: string)
    ensures PieceWeight(x) <= 2 * (1 + Weight(x))
  {
    hide Weight, DecodeUrl, SplitPair, PairWeight;
    var kv := SplitPair(x);
    PartsWeight(x);
    if kv.0 != "" { DecodedPairWeight(kv.0, kv.1, Weight(x)); }
  }

  lemma PartsWeight(x: string)
    ensures var kv := SplitPair(x); Weight(kv.0) + Weight(kv.1) <= Weight(x)
  {
    hide Weight, Split;
    var parts := Split(x, '=');
    SplitWeight(x, '=');
    EmptyWeight();
    if parts != [] { EndsWeight(parts); }
  }

  lemma DecodedPairWeight(k: string, v: string, n: nat)
    requires k != "" && Weight(k) + Weight(v) <= n
    ensures PairWeight((DecodeUrl(k, true), DecodeUrl(v, true))) <= 2 * (1 + n)
  {
    hide Weight, DecodeUrl;
    KeyWeight(k);
    DecodeWeight(v);
  }

  lemma EmptyWeight()
    ensures Weight("") == 0 && DecodeUrl("", true) == ""
  {
  }

  lemma EqualsSplits(y: string, e: string)
    requires '=' !in e && Trimmed(e)
    ensures Split(y + "=" + e, '=') == Split(y, '=') + NonEmpty(e)
  {
    hide Split;
    SplitBoth(y, '=', e);
    SplitLast(e, '=');
    TrimIdentity(e);
  }

  /** The end of an item: the part of its key behind the last separator, and the value. */
  lemma ItemEndWeight(y: string, v: string)
    requires IsBytes(v)
    ensures PieceWeight(Item((y, v))) <= PairWeight((y, v))
    ensures PieceWeight(Item((y, v))) == PairWeight((y, v))
            ==> y != "" && Trimmed(y) && '=' !in y && DecodeUrl(y, true) == y
  {
    hide Weight, DecodeUrl, Split, EncodeQueryParam;
    var e := Encoded(v);
    var x, parts := Item((y, v)), Split(y, '=');
    EqualsSplits(y, e);
    EmptyWeight();
    WeightBounds(y);
    SplitWeight(y, '=');
    if parts != [] {
      SplitPieces(y, '=', parts[0]);
      EndsWeight(parts);
      KeyWeight(parts[0]);
      DecodeWeight(parts[|parts| - 1]);
      if |parts| > 1 { SplitPieces(y, '=', parts[|parts| - 1]); }
    }
  }

  lemma TrimmedPiece(x: string)
    ensures PiecesWeight(NonEmpty(Trim(x))) <= PieceWeight(x)
  {
    hide Trim, Split;
    SplitOfTrimmed(x, '=');
    assert Trim(x) != "" ==> NonEmpty(Trim(x))[1..] == [];
  }

  /** The pieces of an item weigh less than its pair, unless its key is plain. */
  lemma {:induction false} ItemWeight(k: string, v: string)
    requires IsBytes(v)
    ensures PiecesWeight(Split(Item((k, v)), '&')) <= PairWeight((k, v))
    ensures PiecesWeight(Split(Item((k, v)), '&')) == PairWeight((k, v)) ==> PlainKey(k)
    decreases |k|
  {
    hide Split, PieceWeight, PiecesWeight, Weight, EncodeQueryParam, DecodeUrl, Trim;
    var e := Encoded(v);
    var i := IndexOf(k, '&');
    if i == |k| {
      SplitLast(Item((k, v)), '&');
      TrimmedPiece(Item((k, v)));
      ItemEndWeight(k, v);
    } else {
      var x, y := k[..i], k[i + 1..];
      assert k == x + ['&'] + y;
      assert Item((k, v)) == x + ['&'] + Item((y, v));
      SplitFirst(x, '&', Item((y, v)));
      TrimmedPiece(x);
      TextWeight(x);
      ItemWeight(y, v);
      PiecesJoin(NonEmpty(Trim(x)), Split(Item((y, v)), '&'));
      WeightJoin(x, ['&']);
      WeightJoin(x + ['&'], y);
      WeightOne('&');
    }
  }

  // ---------------------------------------------------------------- a whole query

  lemma {:induction false} QueryWeight(ps: Params)
    requires ValuesAreBytes(ps)
    ensures PiecesWeight(Split(ToQuery(ps), '&')) <= Total(ps)
    ensures PiecesWeight(Split(ToQuery(ps), '&')) == Total(ps) ==> AllPlain(ps)
  {
    hide Split, PieceWeight, PairWeight, Item, PlainKey;
    if ps == [] {
      SplitLast("", '&');
    } else {
      var p, rest := ps[0], ps[1..];
      ItemWeight(p.0, p.1);
      QueryWeight(rest);
      if rest == [] {
        SplitLast("", '&');
      } else {
        SplitBoth(Item(p), '&', ToQuery(rest));
        PiecesJoin(Split(Item(p), '&'), Split(ToQuery(rest), '&'));
      }
      assert AllPlain(rest) && Plain(p) ==> AllPlain(ps);
    }
  }

  /** A multimap survives being printed and parsed if and only if all its keys are plain and no pair is repeated. */
  lemma QueryExactness(ps: Params)
    requires ValuesAreBytes(ps) && Sorted(ps)
    ensures ParseQueryText(ToQuery(ps)) == ps <==> AllPlain(ps) && NoRepeats(ps)
  {
    hide Gather, Split, Total, PiecesWeight, ToQuery;
    QueryWeight(ps);
    GatherWeight(Split(ToQuery(ps), '&'), {}, []);
    assert Total([]) == 0 by { NothingWeighs(); }
    if AllPlain(ps) { QueryRoundTrip(ps); }
  }

  lemma NothingWeighs()
    ensures Total([]) == 0
  {
  }
}
