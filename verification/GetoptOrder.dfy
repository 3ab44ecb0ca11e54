/** getopt in REQUIRE_ORDER and RETURN_IN_ORDER: a whole run moves nothing and reports what one pass finds. */
module GetoptOrder {
  import opened Text
  import opened Getopt
  import opened GetoptRun

  /** The reports of a pass, and how many elements it goes through. */
  datatype Pass = Pass(found: seq<Found>, used: nat)

  function Then(e: Element, r: Pass): Pass { Pass(e.found + r.found, e.used + r.used) }

  /** One pass: to the first operand, which RETURN_IN_ORDER reports and passes, or past "--". */
  function PassOver(cfg: Config, ordering: Ordering, args: seq<string>): (r: Pass)
    requires CStrings(args)
    ensures r.used <= |args|
    decreases |args|
  {
    if args == [] then Pass([], 0)
    else if args[0] == "--" then Pass([], 1)
    else if NonOption(args[0]) then
      if ordering == RequireOrder then Pass([], 0)
      else Then(Element([Found(1, Some(args[0]), None, None, None)], 1), PassOver(cfg, ordering, args[1..]))
    else
      FirstTextNonEmpty(cfg, args[0]);
      var e := ScanElement(cfg, args, FirstText(cfg, args[0]));
      Then(e, PassOver(cfg, ordering, args[e.used..]))
  }

  /** Where the pass stops: at the end, behind "--", or in REQUIRE_ORDER at an operand. */
  lemma {:induction false} PassStops(cfg: Config, ordering: Ordering, args: seq<string>)
    requires CStrings(args) && ordering != Permute
    ensures var n := PassOver(cfg, ordering, args).used;
            n == |args| || (n > 0 && args[n - 1] == "--") || (ordering == RequireOrder && NonOption(args[n]))
    decreases |args|
  {
    hide ScanElement;
    if args != [] && args[0] != "--" && !(NonOption(args[0]) && ordering == RequireOrder) {
      var used := 1;
      if !NonOption(args[0]) {
        FirstTextNonEmpty(cfg, args[0]);
        used := ScanElement(cfg, args, FirstText(cfg, args[0])).used;
      }
      PassStops(cfg, ordering, args[used..]);
    }
  }

  /** The rest of the pass from a state between calls. */
  function Rest(cfg: Config, s: State): Pass
    requires Runs(s)
  {
    var rest := s.argv[s.optind..];
    if s.nextchar == "" then PassOver(cfg, s.ordering, rest) else
    var e := ScanElement(cfg, rest, s.nextchar);
    Then(e, PassOver(cfg, s.ordering, rest[e.used..]))
  }

  predicate InOrder(s: State) { s.ordering != Permute && s.first == s.last <= s.optind && Runs(s) }

  /** A report or the end, against the rest of the pass. */
  ghost predicate Follows(cfg: Config, s: State, c: Call)
    requires Runs(s)
  {
    var p := Rest(cfg, s);
    if c.found.None? then p.found == [] && c.s.argv == s.argv && c.s.optind == s.optind + p.used
    else
      && InOrder(c.s) && c.s.argv == s.argv && s.optind <= c.s.optind
      && p == Pass([c.found.value] + Rest(cfg, c.s).found, c.s.optind - s.optind + Rest(cfg, c.s).used)
  }

  lemma TextFollows(cfg: Config, s: State)
    requires InOrder(s) && AtText(s)
    ensures Follows(cfg, s, ScanText(cfg, s))
  {
    hide ElementStep, PassOver;
    var rest := s.argv[s.optind..];
    StepShape(cfg, rest[0], s.nextchar, NextOf(rest));
    var t := ElementStep(cfg, rest[0], s.nextchar, NextOf(rest));
    if t.used > 0 {
      assert rest[t.used..] == s.argv[s.optind + t.used..];
    } else {
      var e := ScanElement(cfg, rest, t.nextchar);
      var more := PassOver(cfg, s.ordering, rest[e.used..]).found;
      assert [t.found] + e.found + more == [t.found] + (e.found + more);
    }
  }

  lemma CallFollows(cfg: Config, s: State)
    requires InOrder(s)
    ensures Follows(cfg, s, OneCall(cfg, s))
  {
    hide ScanElement;
    if s.nextchar != "" {
      TextFollows(cfg, s);
    } else {
      assert Gathered(s) == s;
      var rest := s.argv[s.optind..];
      if s.optind < |s.argv| {
        assert rest[0] == s.argv[s.optind] && rest[1..] == s.argv[s.optind + 1..];
        if !NonOption(rest[0]) && rest[0] != "--" {
          FirstTextNonEmpty(cfg, rest[0]);
          hide Follows;
          var q := s.(nextchar := FirstText(cfg, rest[0]));
          TextFollows(cfg, q);
          SameRest(cfg, s, q, ScanText(cfg, q));
        }
      }
    }
  }

  lemma SameRest(cfg: Config, s: State, q: State, c: Call)
    requires InOrder(s) && InOrder(q) && Rest(cfg, s) == Rest(cfg, q) && s.argv == q.argv && s.optind == q.optind
             && Follows(cfg, q, c)
    ensures Follows(cfg, s, c)
  {
    hide Rest;
  }

  lemma {:induction false} RunFollows(cfg: Config, s: State)
    requires InOrder(s)
    ensures var r := Run(cfg, s);
            r.s.argv == s.argv && r.found == Rest(cfg, s).found && r.s.optind == s.optind + Rest(cfg, s).used
    decreases |s.argv| - s.optind, Weight(s)
  {
    hide OneCall, Rest;
    CallFollows(cfg, s);
    CallProgress(cfg, s);
    var c := OneCall(cfg, s);
    if c.found.Some? { RunFollows(cfg, c.s); }
  }

  /** Calling until -1 leaves the vector as it was, reports what one pass over it finds, and leaves `optind` where the
      pass stops. */
  lemma OrderRun(cfg: Config, argv: seq<string>, k: nat, ordering: Ordering)
    requires k <= |argv| && CStrings(argv) && ordering != Permute && NoLongW(cfg)
    ensures var p, r := PassOver(cfg, ordering, argv[k..]), Run(cfg, Start(argv, k, ordering));
            r.s.argv == argv && r.found == p.found && r.s.optind == k + p.used
  {
    hide Run, PassOver;
    RunFollows(cfg, Start(argv, k, ordering));
  }
}
