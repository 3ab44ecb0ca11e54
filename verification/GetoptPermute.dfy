/** getopt in PERMUTE order: a whole run reports what one pass over the original arguments finds, and leaves
    the argument vector as its options followed by its operands, both in their original order. */
module GetoptPermute {
  import opened Text
  import opened Getopt
  import opened GetoptRun

  // ---------------------------------------------------------------- what is done and what is to come

  /** Options and operands scanned so far, in their places in the vector, and the reports made. */
  function Done(s: State, k: nat, seen: seq<Found>): Scan
    requires k <= s.first <= s.last <= s.optind <= |s.argv|
  {
    Scan(s.argv[k..s.first] + s.argv[s.last..s.optind], s.argv[s.first..s.last], seen)
  }

  /** What the reference scan finds in the rest, starting inside an element when `nextchar` is not empty. */
  function Pending(cfg: Config, s: State): Scan
    requires s.optind <= |s.argv| && CStrings(s.argv) && (s.nextchar != "" ==> s.optind < |s.argv|)
  {
    var rest := s.argv[s.optind..];
    if s.nextchar == "" then ScanAll(cfg, rest) else
    var e := ScanElement(cfg, rest, s.nextchar);
    After(args := rest, e := e, r := ScanAll(cfg, rest[e.used..]))
  }

  function After(args: seq<string>, e: Element, r: Scan): Scan
    requires e.used <= |args|
  {
    Scan(args[..e.used] + r.options, r.operands, e.found + r.found)
  }

  function Both(a: Scan, b: Scan): Scan {
    Scan(a.options + b.options, a.operands + b.operands, a.found + b.found)
  }

  /** Between calls: nothing has been lost, and the part not yet scanned is untouched. */
  predicate Partway(cfg: Config, s: State, k: nat, seen: seq<Found>, front: seq<string>, goal: Scan) {
    && s.ordering == Permute && k <= s.first <= s.last <= s.optind <= |s.argv| && CStrings(s.argv)
    && (s.nextchar != "" ==> s.optind < |s.argv|)
    && s.argv[..k] == front
    && Both(Done(s, k, seen), Pending(cfg, s)) == goal
  }

  // ---------------------------------------------------------------- moving and skipping operands

  lemma {:induction false} SkipScan(cfg: Config, v: seq<string>, o: nat)
    requires o <= |v| && CStrings(v)
    ensures var i := SkipOperands(v, o); var r := ScanAll(cfg, v[i..]);
            ScanAll(cfg, v[o..]) == r.(operands := v[o..i] + r.operands)
    decreases |v| - o
  {
    if o < |v| && NonOption(v[o]) {
      SkipScan(cfg, v, o + 1);
      var i := SkipOperands(v, o);
      OperandFirst(cfg, v, o, i);
    } else {
      assert v[o..o] == [];
      var r := ScanAll(cfg, v[o..]);
      assert [] + r.operands == r.operands;
    }
  }

  lemma OperandFirst(cfg: Config, v: seq<string>, o: nat, i: nat)
    requires o < i <= |v| && CStrings(v) && NonOption(v[o])
    ensures var r := ScanAll(cfg, v[o + 1..]); ScanAll(cfg, v[o..]) == r.(operands := [v[o]] + r.operands)
    ensures forall x: seq<string> :: [v[o]] + (v[o + 1..i] + x) == v[o..i] + x
  {
    assert v[o..][1..] == v[o + 1..];
    assert v[o..i] == [v[o]] + v[o + 1..i];
    forall x: seq<string> ensures [v[o]] + (v[o + 1..i] + x) == v[o..i] + x {
    }
  }

  /** The operands seen so far lie right behind the options. */
  function Packed(s: State): State
    requires s.first <= s.last <= s.optind <= |s.argv|
  {
    if s.first != s.last && s.last != s.optind then Exchange(s)
    else if s.last != s.optind then s.(first := s.optind, last := s.optind)
    else s
  }

  lemma PackedParts(s: State, k: nat)
    requires k <= s.first <= s.last <= s.optind <= |s.argv|
    ensures var p := Packed(s); var f, o := p.first, s.optind;
            k <= f <= o && |p.argv| == |s.argv|
            && p.argv[..k] == s.argv[..k] && p.argv[o..] == s.argv[o..]
            && p.argv[k..f] == s.argv[k..s.first] + s.argv[s.last..o] && p.argv[f..o] == s.argv[s.first..s.last]
  {
    var p, v := Packed(s), s.argv;
    ExchangedParts(v, s.first, s.last, s.optind);
    if s.first != s.last && s.last != s.optind {
      assert p.argv[k..p.first] == p.argv[..p.first][k..];
      assert p.argv[..k] == p.argv[..p.first][..k];
    }
  }

  lemma GatherIsPacked(s: State)
    requires s.first <= s.last <= s.optind <= |s.argv|
    ensures var p := Packed(s); var i := SkipOperands(p.argv, s.optind);
            Gather(s) == p.(optind := i, last := i)
  {
  }

  /** After moving and skipping, the options lie in [k, first) and the operands in [first, optind). */
  lemma GatheredParts(cfg: Config, s: State, k: nat, seen: seq<Found>, front: seq<string>, goal: Scan)
    requires Partway(cfg, s, k, seen, front, goal) && s.nextchar == ""
    ensures var g := Gathered(s);
            Partway(cfg, g, k, seen, front, goal) && g.last == g.optind
            && (g.optind < |g.argv| ==> !NonOption(g.argv[g.optind]))
  {
    assert Clamp(s) == s;
    var g := Gather(s);
    GatherPermutes(s);
    PermutesCStrings(s.argv, g.argv);
    GatherBlocks(s, k);
    SkipScan(cfg, g.argv, s.optind);
    PackedPartway(cfg, g, k, seen, s.optind, Pending(cfg, s));
    assert Done(s, k, seen) == Scan(g.argv[k..g.first], g.argv[g.first..s.optind], seen);
  }

  /** A state whose last skipped operands are [o, optind). */
  lemma PackedPartway(cfg: Config, g: State, k: nat, seen: seq<Found>, o: nat, pending: Scan)
    requires g.ordering == Permute && CStrings(g.argv) && g.nextchar == ""
    requires k <= g.first <= o <= g.optind == g.last <= |g.argv|
    requires var r := ScanAll(cfg, g.argv[g.optind..]); pending == r.(operands := g.argv[o..g.optind] + r.operands)
    ensures Partway(cfg, g, k, seen, g.argv[..k], Both(Scan(g.argv[k..g.first], g.argv[g.first..o], seen), pending))
  {
    assert g.argv[g.optind..g.optind] == [];
    assert g.argv[g.first..g.optind] == g.argv[g.first..o] + g.argv[o..g.optind];
    Rejoin(ScanAll(cfg, g.argv[g.optind..]), g.argv[k..g.first], g.argv[g.first..o], g.argv[o..g.optind], seen);
  }

  lemma GatherBlocks(s: State, k: nat)
    requires k <= s.first <= s.last <= s.optind <= |s.argv|
    ensures var g, o := Gather(s), s.optind;
            && k <= g.first <= o <= g.optind == g.last == SkipOperands(g.argv, o)
            && (g.optind < |g.argv| ==> !NonOption(g.argv[g.optind]))
            && g.argv[..k] == s.argv[..k] && g.argv[o..] == s.argv[o..]
            && g.argv[k..g.first] == s.argv[k..s.first] + s.argv[s.last..o]
            && g.argv[g.first..o] == s.argv[s.first..s.last]
  {
    PackedParts(s, k);
    GatherIsPacked(s);
    SkipStops(Packed(s).argv, s.optind);
  }

  lemma Rejoin(r: Scan, opts: seq<string>, ops: seq<string>, more: seq<string>, seen: seq<Found>)
    ensures Both(Scan(opts, ops, seen), r.(operands := more + r.operands)) == Both(Scan(opts + [], ops + more, seen), r)
  {
    assert ops + (more + r.operands) == ops + more + r.operands;
    assert opts + [] == opts;
  }

  lemma {:induction false} SkipStops(v: seq<string>, o: nat)
    requires o <= |v|
    ensures var i := SkipOperands(v, o); i < |v| ==> !NonOption(v[i])
    decreases |v| - o
  {
    if o < |v| && NonOption(v[o]) {
      SkipStops(v, o + 1);
    }
  }

  // ---------------------------------------------------------------- the end of the run

  /** The result -1: options, then operands from `optind` on. */
  predicate Finished(s: State, k: nat, front: seq<string>, goal: Scan) {
    s.argv == front + goal.options + goal.operands && s.optind == k + |goal.options|
  }

  lemma EndOfArguments(cfg: Config, g: State, k: nat, seen: seq<Found>, front: seq<string>, goal: Scan)
    requires Partway(cfg, g, k, seen, front, goal) && g.nextchar == "" && g.last == g.optind == |g.argv|
    ensures Finished(Ended(g).s, k, front, goal) && seen == goal.found
  {
    assert g.argv[g.optind..] == [] && g.argv[g.optind..g.optind] == [];
    assert g.argv == g.argv[..k] + g.argv[k..g.first] + g.argv[g.first..];
  }

  lemma DashDashVector(g: State)
    requires g.first <= g.last == g.optind < |g.argv| && g.argv[g.optind] == "--"
    ensures var v, f, o, d := g.argv, g.first, g.optind, DashDash(g);
            d.argv == v[..f] + ["--"] + v[f..o] + v[o + 1..] && Ended(d).s == d.(optind := f + 1)
  {
    var v, f, o := g.argv, g.first, g.optind;
    assert v[o..o + 1] == ["--"];
    if f == o {
      assert v[f..o] == [] && v == v[..f] + ["--"] + v[o + 1..];
    }
  }

  lemma EndAtDashDash(cfg: Config, g: State, k: nat, seen: seq<Found>, front: seq<string>, goal: Scan)
    requires Partway(cfg, g, k, seen, front, goal) && g.nextchar == "" && g.last == g.optind < |g.argv|
    requires g.argv[g.optind] == "--"
    ensures Finished(Ended(DashDash(g)).s, k, front, goal) && seen == goal.found
  {
    var v, f, o := g.argv, g.first, g.optind;
    DashDashGoal(cfg, g, k, seen, goal);
    DashDashVector(g);
    Prefix(v, k, f);
    FinalVector(front, v[k..f], v[f..o], v[o + 1..]);
  }

  lemma Prefix(v: seq<string>, k: nat, f: nat)
    requires k <= f <= |v|
    ensures v[..f] == v[..k] + v[k..f]
  {
  }

  lemma DashDashGoal(cfg: Config, g: State, k: nat, seen: seq<Found>, goal: Scan)
    requires k <= g.first <= g.last == g.optind < |g.argv| && CStrings(g.argv) && g.nextchar == ""
    requires g.argv[g.optind] == "--" && Both(Done(g, k, seen), Pending(cfg, g)) == goal
    ensures var v, f, o := g.argv, g.first, g.optind;
            goal == Scan(v[k..f] + ["--"], v[f..o] + v[o + 1..], seen)
  {
    var v, f, o := g.argv, g.first, g.optind;
    DashDashScan(cfg, v[o..]);
    Shift(v, o, o, 1);
    assert v[o..o] == [] && v[k..f] + [] == v[k..f] && seen + [] == seen;
  }

  lemma DashDashScan(cfg: Config, args: seq<string>)
    requires args != [] && args[0] == "--" && CStrings(args)
    ensures ScanAll(cfg, args) == Scan(["--"], args[1..], [])
  {
    assert |"--"| == 2 && "--"[0] == '-' && "--"[1] == '-';
  }

  lemma FinalVector(front: seq<string>, opts: seq<string>, ops: seq<string>, more: seq<string>)
    ensures front + opts + ["--"] + ops + more == front + (opts + ["--"]) + (ops + more)
    ensures opts + [] == opts
  {
  }

  // ---------------------------------------------------------------- options

  lemma NewElement(cfg: Config, g: State, k: nat, seen: seq<Found>, front: seq<string>, goal: Scan) returns (q: State)
    requires Partway(cfg, g, k, seen, front, goal) && g.nextchar == "" && g.optind < |g.argv|
    requires !NonOption(g.argv[g.optind]) && g.argv[g.optind] != "--"
    ensures q == g.(nextchar := FirstText(cfg, g.argv[g.optind])) && AtText(q)
    ensures Partway(cfg, q, k, seen, front, goal)
  {
    FirstTextNonEmpty(cfg, g.argv[g.optind]);
    q := g.(nextchar := FirstText(cfg, g.argv[g.optind]));
    var rest := g.argv[g.optind..];
    assert rest[0] == g.argv[g.optind];
    var e := ScanElement(cfg, rest, q.nextchar);
    assert ScanAll(cfg, rest) == After(rest, e, ScanAll(cfg, rest[e.used..]));
  }

  lemma TextStep(cfg: Config, s: State, k: nat, seen: seq<Found>, front: seq<string>, goal: Scan)
    requires Partway(cfg, s, k, seen, front, goal) && AtText(s)
    ensures var c := ScanText(cfg, s);
            c.found.Some? && Partway(cfg, c.s, k, seen + [c.found.value], front, goal)
  {
    var rest := s.argv[s.optind..];
    assert rest[0] == s.argv[s.optind];
    StepShape(cfg, rest[0], s.nextchar, NextOf(rest));
    if ElementStep(cfg, rest[0], s.nextchar, NextOf(rest)).used == 0 {
      StepInside(cfg, s, k, seen, front, goal);
    } else {
      StepPast(cfg, s, k, seen, front, goal);
    }
  }

  /** A step that stays inside its element. */
  lemma StepInside(cfg: Config, s: State, k: nat, seen: seq<Found>, front: seq<string>, goal: Scan)
    requires Partway(cfg, s, k, seen, front, goal) && AtText(s)
    requires var rest := s.argv[s.optind..]; var t := ElementStep(cfg, rest[0], s.nextchar, NextOf(rest));
             t.used == 0 && t.nextchar != ""
    ensures var c := ScanText(cfg, s); Partway(cfg, c.s, k, seen + [c.found.value], front, goal)
  {
    hide ElementStep, ScanAll;
    var rest, o := s.argv[s.optind..], s.optind;
    var t := ElementStep(cfg, rest[0], s.nextchar, NextOf(rest));
    var e, e' := ScanElement(cfg, rest, s.nextchar), ScanElement(cfg, rest, t.nextchar);
    assert e == Element([t.found] + e'.found, e'.used);
    MoveReport(s.argv[k..s.first] + s.argv[s.last..o], s.argv[s.first..s.last], seen, t.found, e'.found,
               rest[..e.used], ScanAll(cfg, rest[e.used..]));
  }

  /** A step that uses up its element. */
  lemma StepPast(cfg: Config, s: State, k: nat, seen: seq<Found>, front: seq<string>, goal: Scan)
    requires Partway(cfg, s, k, seen, front, goal) && AtText(s)
    requires var rest := s.argv[s.optind..]; var t := ElementStep(cfg, rest[0], s.nextchar, NextOf(rest));
             0 < t.used <= |rest| && t.nextchar == ""
    ensures var c := ScanText(cfg, s); Partway(cfg, c.s, k, seen + [c.found.value], front, goal)
  {
    hide ElementStep, ScanAll, Both;
    var rest, o := s.argv[s.optind..], s.optind;
    var t := ElementStep(cfg, rest[0], s.nextchar, NextOf(rest));
    assert ScanElement(cfg, rest, s.nextchar) == Element([t.found], t.used);
    Shift(s.argv, s.last, o, t.used);
    MoveElement(s.argv[k..s.first], s.argv[s.last..o], s.argv[s.first..s.last], seen, t.found, rest[..t.used],
                ScanAll(cfg, rest[t.used..]));
  }

  lemma Shift(v: seq<string>, l: nat, o: nat, n: nat)
    requires l <= o <= o + n <= |v|
    ensures v[o..][n..] == v[o + n..] && v[l..o + n] == v[l..o] + v[o..][..n]
  {
  }

  lemma MoveReport(opts: seq<string>, ops: seq<string>, seen: seq<Found>, f: Found, fs: seq<Found>,
                   elem: seq<string>, r: Scan)
    ensures Both(Scan(opts, ops, seen), Scan(elem + r.options, r.operands, [f] + fs + r.found))
            == Both(Scan(opts, ops, seen + [f]), Scan(elem + r.options, r.operands, fs + r.found))
  {
    assert seen + ([f] + fs + r.found) == seen + [f] + (fs + r.found);
  }

  lemma MoveElement(a: seq<string>, b: seq<string>, ops: seq<string>, seen: seq<Found>, f: Found,
                    elem: seq<string>, r: Scan)
    ensures Both(Scan(a + b, ops, seen), Scan(elem + r.options, r.operands, [f] + r.found))
            == Both(Scan(a + (b + elem), ops, seen + [f]), r)
  {
    assert a + b + (elem + r.options) == a + (b + elem) + r.options;
    assert seen + ([f] + r.found) == seen + [f] + r.found;
  }

  // ---------------------------------------------------------------- one call, and the whole run

  lemma CallKeeps(cfg: Config, s: State, k: nat, seen: seq<Found>, front: seq<string>, goal: Scan)
    requires Partway(cfg, s, k, seen, front, goal) && Runs(s)
    ensures var c := OneCall(cfg, s);
            if c.found.Some? then Partway(cfg, c.s, k, seen + [c.found.value], front, goal)
            else Finished(c.s, k, front, goal) && seen == goal.found
  {
    if s.nextchar != "" {
      TextStep(cfg, s, k, seen, front, goal);
    } else {
      GatheredParts(cfg, s, k, seen, front, goal);
      var g := Gathered(s);
      if g.optind == |g.argv| {
        EndOfArguments(cfg, g, k, seen, front, goal);
      } else if g.argv[g.optind] == "--" {
        EndAtDashDash(cfg, g, k, seen, front, goal);
      } else {
        var q := NewElement(cfg, g, k, seen, front, goal);
        TextStep(cfg, q, k, seen, front, goal);
      }
    }
  }

  lemma RunNext(cfg: Config, s: State)
    requires Runs(s) && OneCall(cfg, s).found.Some?
    ensures var c := OneCall(cfg, s);
            Runs(c.s) && Run(cfg, s) == RunEnd(Run(cfg, c.s).s, [c.found.value] + Run(cfg, c.s).found)
    ensures var t := OneCall(cfg, s).s;
            |t.argv| == |s.argv| && s.optind <= t.optind <= |t.argv| && (s.optind < t.optind || Weight(t) < Weight(s))
  {
    CallProgress(cfg, s);
  }

  lemma {:induction false} RunFrom(cfg: Config, s: State, k: nat, seen: seq<Found>, front: seq<string>, goal: Scan)
    requires Partway(cfg, s, k, seen, front, goal) && Runs(s)
    ensures var r := Run(cfg, s); Finished(r.s, k, front, goal) && seen + r.found == goal.found
    decreases |s.argv| - s.optind, Weight(s)
  {
    CallKeeps(cfg, s, k, seen, front, goal);
    var c := OneCall(cfg, s);
    if c.found.Some? {
      RunNext(cfg, s);
      RunFrom(cfg, c.s, k, seen + [c.found.value], front, goal);
      AssocFound(seen, c.found.value, Run(cfg, c.s).found);
    }
  }

  lemma AssocFound(seen: seq<Found>, f: Found, more: seq<Found>)
    ensures seen + [f] + more == seen + ([f] + more)
  {
  }

  /** Calling until -1, from index `k` of any argument vector: the vector ends as the elements before k, the
      options with their arguments, and the operands from `optind` on; the reports are those of one pass over
      the original vector. */
  lemma PermuteRun(cfg: Config, argv: seq<string>, k: nat)
    requires k <= |argv| && CStrings(argv) && NoLongW(cfg)
    ensures var goal, r := ScanAll(cfg, argv[k..]), Run(cfg, Start(argv, k, Permute));
            r.s.argv == argv[..k] + goal.options + goal.operands
            && r.s.optind == k + |goal.options| && r.found == goal.found
  {
    var s := Start(argv, k, Permute);
    assert argv[k..k] == [];
    var goal := ScanAll(cfg, argv[k..]);
    assert Both(Scan([] + [], [], []), goal) == goal;
    RunFrom(cfg, s, k, [], argv[..k], goal);
    assert [] + Run(cfg, s).found == Run(cfg, s).found;
  }

  // ---------------------------------------------------------------- what the reference scan is

  /** `args` is `a` and `b` merged, each in its own order. */
  ghost predicate Interleaves(args: seq<string>, a: seq<string>, b: seq<string>)
    decreases |args|
  {
    if args == [] then a == [] && b == []
    else (a != [] && a[0] == args[0] && Interleaves(args[1..], a[1..], b))
         || (b != [] && b[0] == args[0] && Interleaves(args[1..], a, b[1..]))
  }

  lemma {:induction false} InterleavesOptions(args: seq<string>, n: nat, a: seq<string>, b: seq<string>)
    requires n <= |args| && Interleaves(args[n..], a, b)
    ensures Interleaves(args, args[..n] + a, b)
    decreases n
  {
    if n == 0 {
      assert args[0..] == args && args[..0] + a == a;
    } else {
      assert args[1..][n - 1..] == args[n..] && args[1..][..n - 1] == args[1..n];
      InterleavesOptions(args[1..], n - 1, a, b);
      assert (args[..n] + a)[1..] == args[1..n] + a;
    }
  }

  lemma {:induction false} InterleavesOperands(args: seq<string>)
    ensures Interleaves(args, [], args)
  {
    if args != [] {
      InterleavesOperands(args[1..]);
    }
  }

  /** Options and operands are the original arguments, each kept in order: a stable partition. */
  lemma {:induction false} ScanPartitions(cfg: Config, args: seq<string>)
    requires CStrings(args)
    ensures var sc := ScanAll(cfg, args); Interleaves(args, sc.options, sc.operands)
    decreases |args|
  {
    if args != [] {
      if NonOption(args[0]) {
        ScanPartitions(cfg, args[1..]);
        var r := ScanAll(cfg, args[1..]);
        assert ([args[0]] + r.operands)[1..] == r.operands;
      } else if args[0] == "--" {
        InterleavesOperands(args[1..]);
        assert ["--"][1..] == [];
      } else {
        FirstTextNonEmpty(cfg, args[0]);
        var e := ScanElement(cfg, args, FirstText(cfg, args[0]));
        ScanPartitions(cfg, args[e.used..]);
        var r := ScanAll(cfg, args[e.used..]);
        InterleavesOptions(args, e.used, r.options, r.operands);
      }
    }
  }

  /** Without a "--" among the options, every operand is one by its own spelling. */
  lemma {:induction false} ScanOperands(cfg: Config, args: seq<string>)
    requires CStrings(args)
    ensures var sc := ScanAll(cfg, args); "--" !in sc.options ==> forall x :: x in sc.operands ==> NonOption(x)
    decreases |args|
  {
    if args != [] {
      if NonOption(args[0]) {
        ScanOperands(cfg, args[1..]);
      } else if args[0] != "--" {
        FirstTextNonEmpty(cfg, args[0]);
        ScanOperands(cfg, args[ScanElement(cfg, args, FirstText(cfg, args[0])).used..]);
      }
    }
  }
}
