/** The multimap that httplib.h parses `key=value` lists into. */
module Params {
  import opened Text

  /** A std::multimap in iteration order: keys ascending, equal keys in order of insertion. */
  type Params = seq<(string, string)>

  /** std::string's order, byte by byte. */
  predicate Less(a: string, b: string) {
    b != "" && (a == "" || a[0] < b[0] || (a[0] == b[0] && Less(a[1..], b[1..])))
  }

  predicate Sorted(ps: Params) {
    forall i, j :: 0 <= i < j < |ps| ==> !Less(ps[j].0, ps[i].0)
  }

  /** multimap::emplace: after every entry whose key is not greater. */
  function Emplace(ps: Params, k: string, v: string): Params {
    if ps == [] then [(k, v)]
    else if Less(k, ps[0].0) then [(k, v)] + ps
    else [ps[0]] + Emplace(ps[1..], k, v)
  }

  /** multimap::find followed by a dereference. */
  function Lookup(ps: Params, k: string): Option<string> {
    if ps == [] then None else if ps[0].0 == k then Some(ps[0].1) else Lookup(ps[1..], k)
  }

  lemma {:induction false} EmplaceAtEnd(ps: Params, k: string, v: string)
    requires forall i :: 0 <= i < |ps| ==> !Less(k, ps[i].0)
    ensures Emplace(ps, k, v) == ps + [(k, v)]
  {
    if ps != [] {
      EmplaceAtEnd(ps[1..], k, v);
    }
  }

  lemma {:induction false} EmplaceElements(ps: Params, k: string, v: string)
    ensures forall x :: x in Emplace(ps, k, v) <==> x in ps || x == (k, v)
  {
    if ps != [] && !Less(k, ps[0].0) {
      EmplaceElements(ps[1..], k, v);
      assert ps == [ps[0]] + ps[1..];
    }
  }

  lemma {:induction false} LookupElement(ps: Params, k: string)
    ensures Lookup(ps, k).Some? ==> (k, Lookup(ps, k).value) in ps
    ensures Lookup(ps, k).None? ==> forall x :: x in ps ==> x.0 != k
  {
    if ps != [] && ps[0].0 != k {
      LookupElement(ps[1..], k);
    }
  }

  // ---------------------------------------------------------------- key=value lists

  /** The inner split at '=': the first piece is the key, the last of several the value. */
  function SplitPair(kv: string): (string, string) {
    var ps := Split(kv, '=');
    if ps == [] then ("", "") else (ps[0], if |ps| == 1 then "" else ps[|ps| - 1])
  }

  /** Key and value are no longer than the item, hold only its characters, and no '='. */
  lemma SplitPairParts(kv: string)
    ensures var r := SplitPair(kv); '=' !in r.0 && '=' !in r.1 && |r.1| <= |kv| && forall c :: c in r.1 ==> c in kv
  {
    var ps := Split(kv, '=');
    if ps != [] {
      SplitPieces(kv, '=', ps[0]);
      SplitPieces(kv, '=', ps[|ps| - 1]);
    }
  }

  lemma PairSplits(k: string, v: string)
    requires k != "" && Trimmed(k) && Trimmed(v) && '=' !in k && '=' !in v
    ensures SplitPair(k + "=" + v) == (k, v)
  {
    SplitFirst(k, '=', v);
    SplitLast(v, '=');
    TrimIdentity(k);
    TrimIdentity(v);
    assert Split(k + ['='] + v, '=') == [k] + NonEmpty(v);
  }

  /** The key of an item does not depend on the value, nor on blanks after it. */
  lemma KeyOfTrimmed(key: string, v: string)
    requires key != "" && Trimmed(key) && '=' !in key
    ensures SplitPair(Trim(key + "=" + v)).0 == key && Trim(key + "=" + v) != ""
  {
    var a := key + "=";
    assert (a + v)[0] == key[0] && TrimLeft(a + v) == a + v;
    TrimRightKeeps(a, v);
    var t := Trim(a + v);
    assert t == key + ['='] + t[|a|..];
    SplitFirst(key, '=', t[|a|..]);
    TrimIdentity(key);
  }

  /** The callback of the outer split, over the pieces it is handed: a piece seen before is dropped. */
  function Gather(pieces: seq<string>, f: string -> string, cache: set<string>, ps: Params): Params
    decreases |pieces|
  {
    if pieces == [] then ps
    else if pieces[0] in cache then Gather(pieces[1..], f, cache, ps)
    else Gather(pieces[1..], f, cache + {pieces[0]}, AddPair(ps, f, SplitPair(pieces[0])))
  }

  lemma GatherNext(x: string, rest: seq<string>, f: string -> string, cache: set<string>, ps: Params)
    ensures Gather([x] + rest, f, cache, ps)
            == Gather(rest, f, cache + {x}, if x in cache then ps else AddPair(ps, f, SplitPair(x)))
  {
    assert ([x] + rest)[1..] == rest;
    assert x in cache ==> cache + {x} == cache;
  }

  function AddPair(ps: Params, f: string -> string, kv: (string, string)): Params {
    if kv.0 == "" then ps else Emplace(ps, f(kv.0), f(kv.1))
  }

  /** The entry that the item `p` adds. */
  function Entry(p: string, f: string -> string): (string, string) {
    (f(SplitPair(p).0), f(SplitPair(p).1))
  }

  /** Every entry was there before or comes from one of the items. */
  lemma {:induction false} GatherOrigin(pieces: seq<string>, f: string -> string, cache: set<string>, ps: Params,
                                        x: (string, string))
    requires x in Gather(pieces, f, cache, ps)
    ensures x in ps || exists p :: p in pieces && x == Entry(p, f)
    decreases |pieces|
  {
    if pieces != [] {
      var p := pieces[0];
      var ps' := if p in cache then ps else AddPair(ps, f, SplitPair(p));
      assert pieces == [p] + pieces[1..];
      GatherNext(p, pieces[1..], f, cache, ps);
      GatherOrigin(pieces[1..], f, cache + {p}, ps', x);
      EmplaceElements(ps, f(SplitPair(p).0), f(SplitPair(p).1));
      if x in ps' {
        assert x in ps || (p in pieces && x == Entry(p, f));
      } else {
        var q :| q in pieces[1..] && x == Entry(q, f);
        assert q in pieces;
      }
    }
  }

  /** The item behind a parameter that is found. */
  lemma LookupOrigin(pieces: seq<string>, f: string -> string, k: string) returns (p: string)
    requires Lookup(Gather(pieces, f, {}, []), k).Some?
    ensures p in pieces && Entry(p, f) == (k, Lookup(Gather(pieces, f, {}, []), k).value)
  {
    var ps := Gather(pieces, f, {}, []);
    LookupElement(ps, k);
    GatherOrigin(pieces, f, {}, [], (k, Lookup(ps, k).value));
    p :| p in pieces && (k, Lookup(ps, k).value) == Entry(p, f);
  }

  /** No entry is lost, and every new item with a key adds its entry. */
  lemma {:induction false} GatherKeeps(pieces: seq<string>, f: string -> string, cache: set<string>, ps: Params)
    ensures forall x :: x in ps ==> x in Gather(pieces, f, cache, ps)
    ensures pieces != [] && pieces[0] !in cache && SplitPair(pieces[0]).0 != ""
            ==> Entry(pieces[0], f) in Gather(pieces, f, cache, ps)
    decreases |pieces|
  {
    if pieces != [] {
      var p := pieces[0];
      var ps' := if p in cache then ps else AddPair(ps, f, SplitPair(p));
      assert pieces == [p] + pieces[1..];
      GatherNext(p, pieces[1..], f, cache, ps);
      GatherKeeps(pieces[1..], f, cache + {p}, ps');
      EmplaceElements(ps, f(SplitPair(p).0), f(SplitPair(p).1));
    }
  }

  /** A last item that is new adds its entry. */
  lemma {:induction false} GatherLast(pieces: seq<string>, x: string, f: string -> string, cache: set<string>,
                                      ps: Params)
    requires x !in pieces && x !in cache
    ensures Gather(pieces + [x], f, cache, ps) == AddPair(Gather(pieces, f, cache, ps), f, SplitPair(x))
    decreases |pieces|
  {
    hide SplitPair, AddPair;
    if pieces == [] {
      assert pieces + [x] == [x] && [x][1..] == [];
    } else {
      assert (pieces + [x])[1..] == pieces[1..] + [x];
      assert pieces[0] in pieces && x !in pieces[1..];
      if pieces[0] in cache {
        GatherLast(pieces[1..], x, f, cache, ps);
      } else {
        GatherLast(pieces[1..], x, f, cache + {pieces[0]}, AddPair(ps, f, SplitPair(pieces[0])));
      }
    }
  }

  /** A new entry is found under its key, if it is the first, and no other key finds anything else. */
  lemma {:induction false} EmplaceLookup(ps: Params, k: string, v: string, other: string)
    requires Lookup(ps, k).None?
    ensures Lookup(Emplace(ps, k, v), other) == if other == k then Some(v) else Lookup(ps, other)
  {
    hide Less;
    if ps == [] {
      assert [(k, v)][1..] == [];
    } else if Less(k, ps[0].0) {
      assert ([(k, v)] + ps)[1..] == ps;
    } else {
      assert ([ps[0]] + Emplace(ps[1..], k, v))[1..] == Emplace(ps[1..], k, v);
      EmplaceLookup(ps[1..], k, v, other);
    }
  }

  /** `parse_query_text` with f = decode_url, `parse_disposition_params` with f = trim_double_quotes_copy. */
  function ParseList(s: string, d: char, f: string -> string): Params {
    Gather(Split(s, d), f, {}, [])
  }

  /** The callback of the inner split: the first piece is the key, each later one replaces the value. */
  method SplitPairLoop(kv: string) returns (key: string, val: string)
    ensures (key, val) == SplitPair(kv)
  {
    key, val := "", "";
    var parts := SplitLoop(kv, '=');
    if parts != [] { SplitPieces(kv, '=', parts[0]); }
    for j := 0 to |parts|
      invariant key == if j == 0 then "" else parts[0]
      invariant val == if j <= 1 then "" else parts[j - 1]
    {
      if key == "" { key := parts[j]; } else { val := parts[j]; }
    }
  }

  /** The nested loops behind `ParseList`. */
  method ParseListLoop(s: string, d: char, f: string -> string) returns (ps: Params)
    ensures ps == ParseList(s, d, f)
  {
    var pieces := SplitLoop(s, d);
    var cache: set<string> := {};
    ps := [];
    var i := 0;
    assert pieces[i..] == pieces;
    while i < |pieces|
      invariant 0 <= i <= |pieces|
      invariant Gather(pieces[i..], f, cache, ps) == ParseList(s, d, f)
    {
      var kv := pieces[i];
      assert pieces[i..][1..] == pieces[i + 1..];
      if kv !in cache {
        cache := cache + {kv};
        var key, val := SplitPairLoop(kv);
        if key != "" { ps := Emplace(ps, f(key), f(val)); }
      }
      i := i + 1;
    }
  }
}
