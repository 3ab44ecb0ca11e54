/** Calls of getopt one after another, on values. */
module GetoptRun {
  import opened Text
  import opened Getopt

  /** The argument vector and the fields of `_getopt_data_a` that carry over from call to call; a null
      `__nextchar` and an empty one are the same. */
  datatype State = State(argv: seq<string>, optind: nat, nextchar: string, ordering: Ordering,
                         first: nat, last: nat)

  /** The state of the first call: `_getopt_initialize_a` with `optind` already 1 or more. */
  function Start(argv: seq<string>, optind: nat, ordering: Ordering): State {
    State(argv, optind, "", ordering, optind, optind)
  }

  // ---------------------------------------------------------------- moving operands behind options

  /** Blocks [first, last) and [last, top) change places: what `exchange_a` does. */
  function Exchanged(argv: seq<string>, first: nat, last: nat, top: nat): (r: seq<string>)
    requires first <= last <= top <= |argv|
    ensures |r| == |argv|
  {
    argv[..first] + argv[last..top] + argv[first..last] + argv[top..]
  }

  function Exchange(s: State): State
    requires s.first <= s.last <= s.optind <= |s.argv|
  {
    s.(argv := Exchanged(s.argv, s.first, s.last, s.optind), first := s.first + s.optind - s.last, last := s.optind)
  }

  function SkipOperands(argv: seq<string>, i: nat): (r: nat)
    requires i <= |argv|
    ensures i <= r <= |argv|
    decreases |argv| - i
  {
    if i < |argv| && NonOption(argv[i]) then SkipOperands(argv, i + 1) else i
  }

  function Min(a: nat, b: nat): nat { if a < b then a else b }

  function Clamp(s: State): State {
    s.(first := Min(s.first, s.optind), last := Min(s.last, s.optind))
  }

  predicate Ready(s: State) {
    s.first <= s.last && s.optind <= |s.argv|
  }

  /** Permuting: move the operands seen so far behind the options since, then skip the operands that follow. */
  function Gather(s: State): (r: State)
    requires s.first <= s.last <= s.optind <= |s.argv|
    ensures r.first <= r.last == r.optind <= |r.argv| && |r.argv| == |s.argv| && s.optind <= r.optind
    ensures r.nextchar == s.nextchar && r.ordering == s.ordering
  {
    var s1 := if s.first != s.last && s.last != s.optind then Exchange(s)
              else if s.last != s.optind then s.(first := s.optind)
              else s;
    var i := SkipOperands(s1.argv, s1.optind);
    s1.(optind := i, last := i)
  }

  /** The element "--": it joins the options, and everything after it is an operand. */
  function DashDash(s: State): (r: State)
    requires s.first <= s.last <= s.optind < |s.argv|
    ensures r.optind == |r.argv| == |s.argv|
  {
    var s1 := s.(optind := s.optind + 1);
    var s2 := if s1.first != s1.last && s1.last != s1.optind then Exchange(s1)
              else if s1.first == s1.last then s1.(first := s1.optind)
              else s1;
    s2.(last := |s2.argv|, optind := |s2.argv|)
  }

  // ---------------------------------------------------------------- one call

  /** How looking at a new element ends: with result -1, with an operand to report, or at an option. */
  datatype Fetched = End(s: State) | Yield(s: State, operand: string) | Option(s: State)

  /** At the end `optind` goes back to the first operand. */
  function Ended(s: State): Fetched {
    End(if s.first != s.last then s.(optind := s.first) else s)
  }

  function Gathered(s: State): (r: State)
    requires Ready(s)
    ensures r.first <= r.last <= r.optind <= |r.argv| && |r.argv| == |s.argv| && s.optind <= r.optind
    ensures r.nextchar == s.nextchar && r.ordering == s.ordering
  {
    if s.ordering == Permute then Gather(Clamp(s)) else Clamp(s)
  }

  /** What the element at `optind` is, once the operands before it have been dealt with. */
  function Decide(s: State): (r: Fetched)
    requires s.first <= s.last <= s.optind <= |s.argv|
    ensures |r.s.argv| == |s.argv| && r.s.ordering == s.ordering && r.s.nextchar == s.nextchar
    ensures r.Option? ==> r.s == s && s.optind < |s.argv| && !NonOption(s.argv[s.optind]) && s.argv[s.optind] != "--"
    ensures r.Yield? ==> r.s.argv == s.argv && s.optind < r.s.optind <= |r.s.argv|
  {
    if s.optind < |s.argv| && s.argv[s.optind] == "--" then Ended(DashDash(s))
    else if s.optind == |s.argv| then Ended(s)
    else if NonOption(s.argv[s.optind]) then
      if s.ordering == RequireOrder then End(s)
      else Yield(s.(optind := s.optind + 1), s.argv[s.optind])
    else Option(s)
  }

  function Fetch(s: State): Fetched
    requires Ready(s)
  {
    Decide(Gathered(s))
  }

  /** The end of a call: a report, or None for the result -1. */
  datatype Call = Call(s: State, found: Option<Found>)

  predicate AtText(s: State) {
    s.optind < |s.argv| && s.nextchar != ""
  }

  function ScanText(cfg: Config, s: State): (c: Call)
    requires AtText(s)
  {
    var t := ElementStep(cfg, s.argv[s.optind], s.nextchar, NextOf(s.argv[s.optind..]));
    Call(s.(nextchar := t.nextchar, optind := s.optind + t.used), Some(t.found))
  }

  function OneCall(cfg: Config, s: State): Call
    requires Ready(s) && CStrings(s.argv) && (s.nextchar != "" ==> AtText(s))
  {
    if s.nextchar != "" then ScanText(cfg, s) else
    match Fetch(s)
    case End(q) => Call(q, None)
    case Yield(q, a) => Call(q, Some(Found(1, Some(a), None, None, None)))
    case Option(q) =>
      FetchKeeps(s);
      FirstTextNonEmpty(cfg, q.argv[q.optind]);
      ScanText(cfg, q.(nextchar := FirstText(cfg, q.argv[q.optind])))
  }

  lemma ExchangedParts(v: seq<string>, f: nat, l: nat, o: nat)
    requires f <= l <= o <= |v|
    ensures var w, g := Exchanged(v, f, l, o), f + o - l;
            w[..g] == v[..f] + v[l..o] && w[g..o] == v[f..l] && w[o..] == v[o..]
    ensures multiset(Exchanged(v, f, l, o)) == multiset(v)
  {
    var w := Exchanged(v, f, l, o);
    assert v == v[..f] + v[f..l] + v[l..o] + v[o..];
  }

  /** `t` holds the elements of `s` again, in some order. */
  predicate Permutes(s: seq<string>, t: seq<string>) {
    |s| == |t| && multiset(s) == multiset(t)
  }

  lemma PermutesCStrings(s: seq<string>, t: seq<string>)
    requires Permutes(s, t) && CStrings(s)
    ensures CStrings(t)
  {
    forall i | 0 <= i < |t| ensures '\0' !in t[i] {
      assert t[i] in multiset(t);
      assert t[i] in s;
    }
  }

  lemma ExchangePermutes(v: seq<string>, f: nat, l: nat, o: nat)
    requires f <= l <= o <= |v|
    ensures Permutes(v, Exchanged(v, f, l, o)) && Exchanged(v, f, l, o)[o..] == v[o..]
  {
    ExchangedParts(v, f, l, o);
  }

  lemma GatherPermutes(s: State)
    requires s.first <= s.last <= s.optind <= |s.argv|
    ensures Permutes(s.argv, Gather(s).argv) && Gather(s).argv[s.optind..] == s.argv[s.optind..]
  {
    GatherVector(s);
    ExchangePermutes(s.argv, s.first, s.last, s.optind);
  }

  lemma GatherVector(s: State)
    requires s.first <= s.last <= s.optind <= |s.argv|
    ensures Gather(s).argv == s.argv || Gather(s).argv == Exchanged(s.argv, s.first, s.last, s.optind)
  {
  }

  lemma DashDashVectors(s: State)
    requires s.first <= s.last <= s.optind < |s.argv|
    ensures DashDash(s).argv == s.argv || DashDash(s).argv == Exchanged(s.argv, s.first, s.last, s.optind + 1)
  {
  }

  lemma DashDashPermutes(s: State)
    requires s.first <= s.last <= s.optind < |s.argv|
    ensures Permutes(s.argv, DashDash(s).argv)
  {
    DashDashVectors(s);
    ExchangePermutes(s.argv, s.first, s.last, s.optind + 1);
  }

  /** Looking at a new element only moves elements before `optind`. */
  lemma FetchKeeps(s: State)
    requires Ready(s) && s.nextchar == "" && CStrings(s.argv)
    ensures CStrings(Fetch(s).s.argv) && Permutes(s.argv, Fetch(s).s.argv)
    ensures Fetch(s).Option? ==> Fetch(s).s.argv[s.optind..] == s.argv[s.optind..]
  {
    FetchPermutes(s);
    PermutesCStrings(s.argv, Fetch(s).s.argv);
  }

  lemma DecidePermutes(g: State)
    requires g.first <= g.last <= g.optind <= |g.argv|
    ensures Permutes(g.argv, Decide(g).s.argv)
  {
    if g.optind < |g.argv| {
      DashDashPermutes(g);
    }
  }

  lemma FetchPermutes(s: State)
    requires Ready(s)
    ensures Permutes(s.argv, Fetch(s).s.argv)
    ensures Fetch(s).Option? ==> Fetch(s).s.argv[s.optind..] == s.argv[s.optind..]
  {
    GatherPermutes(Clamp(s));
    DecidePermutes(Gathered(s));
  }

  lemma FetchOrder(s: State)
    requires Ready(s)
    ensures Ready(Fetch(s).s)
  {
  }

  // ---------------------------------------------------------------- calls until -1

  /** What is left to scan of the element at `optind`. */
  function Weight(s: State): nat {
    if s.nextchar != "" then |s.nextchar| else if s.optind < |s.argv| then |s.argv[s.optind]| + 1 else 0
  }

  predicate Runs(s: State) {
    Ready(s) && CStrings(s.argv) && (s.nextchar != "" ==> AtText(s))
  }

  /** Every call that does not return -1 makes progress, whatever the ordering. */
  lemma CallProgress(cfg: Config, s: State)
    requires Runs(s)
    ensures var c := OneCall(cfg, s);
            multiset(c.s.argv) == multiset(s.argv) && |c.s.argv| == |s.argv| && Ready(c.s)
            && (c.found.Some? ==> Runs(c.s) && s.optind <= c.s.optind
                                  && (s.optind < c.s.optind || Weight(c.s) < Weight(s)))
  {
    if s.nextchar == "" {
      FetchKeeps(s);
      FetchOrder(s);
    }
    var q := if s.nextchar != "" then s else Fetch(s).s;
    if s.nextchar != "" || Fetch(s).Option? {
      TextProgress(cfg, s, q);
    }
  }

  lemma TextProgress(cfg: Config, s: State, q: State)
    requires Runs(s) && q.optind < |q.argv|
    requires q == if s.nextchar != "" then s else Fetch(s).s
    requires s.nextchar == "" ==> Fetch(s).Option? && CStrings(q.argv) && q.argv[s.optind..] == s.argv[s.optind..]
    ensures var c := OneCall(cfg, s);
            c.found.Some? && c.s.argv == q.argv && q.optind <= c.s.optind <= |q.argv|
            && (c.s.nextchar != "" ==> c.s.optind == q.optind)
            && (q.optind < c.s.optind || q.optind > s.optind || Weight(c.s) < Weight(s))
  {
    if s.nextchar == "" {
      FirstTextNonEmpty(cfg, q.argv[q.optind]);
      assert q.optind == s.optind ==> q.argv[s.optind..][0] == s.argv[s.optind..][0];
    }
    var text := if s.nextchar != "" then s.nextchar else FirstText(cfg, q.argv[q.optind]);
    StepShape(cfg, q.argv[q.optind], text, NextOf(q.argv[q.optind..]));
  }

  datatype RunEnd = RunEnd(s: State, found: seq<Found>)

  /** Calling until the result is -1. */
  function Run(cfg: Config, s: State): RunEnd
    requires Runs(s)
    decreases |s.argv| - s.optind, Weight(s)
  {
    CallProgress(cfg, s);
    var c := OneCall(cfg, s);
    if c.found.None? then RunEnd(c.s, []) else
    var r := Run(cfg, c.s);
    RunEnd(r.s, [c.found.value] + r.found)
  }
}
