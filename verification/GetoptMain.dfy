/** The way a program uses getopt: calls until the result is -1. */
module GetoptMain {
  import opened Text
  import opened Getopt
  import opened GetoptRun
  import opened GetoptPermute
  import opened GetoptOrder
  import opened GetoptData

  /** No option's own result is -1. */
  predicate NoEndCode(cfg: Config) {
    && (forall i :: 0 <= i < |cfg.optstring| ==> Code(cfg.optstring[i]) != -1)
    && (cfg.longopts.Some? ==>
          forall i :: 0 <= i < |cfg.longopts.value| ==>
            cfg.longopts.value[i].flag.Some? || cfg.longopts.value[i].val != -1)
  }

  /** A caller can tell the end of the options from an option. */
  lemma ReportIsNotEnd(cfg: Config, s: State)
    requires NoEndCode(cfg) && Runs(s) && OneCall(cfg, s).found.Some?
    ensures OneCall(cfg, s).found.value.code != -1
  {
    if s.nextchar == "" {
      FetchKeeps(s);
    }
    if s.nextchar != "" || Fetch(s).Option? {
      var q := if s.nextchar != "" then s else Fetch(s).s;
      var text := if s.nextchar != "" then s.nextchar else FirstText(cfg, q.argv[q.optind]);
      if s.nextchar == "" { FirstTextNonEmpty(cfg, q.argv[q.optind]); }
      StepIsNotEnd(cfg, q.argv[q.optind], text, NextOf(q.argv[q.optind..]));
    }
  }

  lemma StepIsNotEnd(cfg: Config, a: string, text: string, next: Option<string>)
    requires NoEndCode(cfg) && text != ""
    ensures ElementStep(cfg, a, text, next).found.code != -1
  {
    if !IsLong(cfg, a) {
      var i := IndexOf(cfg.optstring, text[0]);
      assert i < |cfg.optstring| ==> cfg.optstring[i] == text[0];
    }
  }

  function Codes(found: seq<Found>): seq<int> {
    if found == [] then [] else [found[0].code] + Codes(found[1..])
  }

  /** One call of a run, its result told apart from the end. */
  method NextCode(d: Data, argv: array<string>, optstring: string, longopts: Option<seq<LongOption>>, posixly: bool)
    returns (code: int)
    requires argv.Length >= 1
    requires var cfg := Config(Body(optstring), longopts); NoLongW(cfg) && NoEndCode(cfg)
    requires var s := d.Prepared(argv, optstring, posixly); Runs(s) && s.optind >= 1
    modifies d, argv
    ensures var c := OneCall(Config(Body(optstring), longopts), old(d.Prepared(argv, optstring, posixly)));
            (code == -1 <==> c.found.None?) && (c.found.Some? ==> code == c.found.value.code)
            && d.Abstract(argv) == c.s && (code != -1 ==> d.Prepared(argv, optstring, posixly) == c.s)
  {
    ghost var cfg, s := Config(Body(optstring), longopts), d.Prepared(argv, optstring, posixly);
    CallProgress(cfg, s);
    if OneCall(cfg, s).found.Some? { ReportIsNotEnd(cfg, s); }
    code := d.Getopt(argv, optstring, longopts, posixly);
  }

  lemma CodesFirst(codes: seq<int>, f: Found, more: seq<Found>)
    ensures codes + Codes([f] + more) == codes + [f.code] + Codes(more)
  {
    assert ([f] + more)[1..] == more;
  }

  lemma CodesOfRun(cfg: Config, s: State, codes: seq<int>)
    requires Runs(s) && OneCall(cfg, s).found.Some?
    ensures var c := OneCall(cfg, s);
            && Runs(c.s) && s.optind <= c.s.optind && |c.s.argv| == |s.argv|
            && (s.optind < c.s.optind || Weight(c.s) < Weight(s))
            && Run(cfg, s).s == Run(cfg, c.s).s
            && codes + Codes(Run(cfg, s).found) == codes + [c.found.value.code] + Codes(Run(cfg, c.s).found)
  {
    RunNext(cfg, s);
    var c := OneCall(cfg, s);
    CodesFirst(codes, c.found.value, Run(cfg, c.s).found);
  }

  lemma RunStops(cfg: Config, s: State, codes: seq<int>)
    requires Runs(s) && OneCall(cfg, s).found.None?
    ensures Run(cfg, s).s == OneCall(cfg, s).s && codes + Codes(Run(cfg, s).found) == codes
  {
    assert codes + [] == codes;
  }

  /** Calls until the result is -1, from any state between calls. */
  method FinishRun(d: Data, argv: array<string>, optstring: string, longopts: Option<seq<LongOption>>, posixly: bool)
    returns (codes: seq<int>)
    requires argv.Length >= 1
    requires var cfg := Config(Body(optstring), longopts); NoLongW(cfg) && NoEndCode(cfg)
    requires var s := d.Prepared(argv, optstring, posixly); Runs(s) && s.optind >= 1
    modifies d, argv
    ensures var r := Run(Config(Body(optstring), longopts), old(d.Prepared(argv, optstring, posixly)));
            d.Abstract(argv) == r.s && codes == Codes(r.found)
  {
    ghost var cfg, s := Config(Body(optstring), longopts), d.Prepared(argv, optstring, posixly);
    ghost var goal := Run(cfg, s);
    codes := [];
    while true
      invariant d.Prepared(argv, optstring, posixly) == s && Runs(s) && s.optind >= 1 && |s.argv| == argv.Length
      invariant Run(cfg, s).s == goal.s && codes + Codes(Run(cfg, s).found) == Codes(goal.found)
      decreases argv.Length - s.optind, Weight(s)
    {
      var code := NextCode(d, argv, optstring, longopts, posixly);
      if code == -1 {
        RunStops(cfg, s, codes);
        return;
      }
      CodesOfRun(cfg, s, codes);
      codes, s := codes + [code], OneCall(cfg, s).s;
    }
  }

  /** In PERMUTE order the vector ends as the options with their arguments, then the operands from `optind` on,
      each in their original order, and the results are those of one pass over the original vector. */
  method ParsePermuting(d: Data, argv: array<string>, optstring: string, longopts: Option<seq<LongOption>>)
    returns (codes: seq<int>)
    requires !d.initialized && d.optind <= 1 && argv.Length >= 1 && CStrings(argv[..]) && !HasFlag(optstring)
    requires var cfg := Config(optstring, longopts); NoLongW(cfg) && NoEndCode(cfg)
    modifies d, argv
    ensures var goal := ScanAll(Config(optstring, longopts), old(argv[1..]));
            argv[..] == old(argv[..1]) + goal.options + goal.operands
            && d.optind == 1 + |goal.options| && codes == Codes(goal.found)
  {
    PermuteRun(Config(optstring, longopts), argv[..], 1);
    assert argv[..][1..] == argv[1..] && argv[..][..1] == argv[..1];
    assert d.Prepared(argv, optstring, false) == Start(argv[..], 1, Permute);
    codes := FinishRun(d, argv, optstring, longopts, false);
  }

  /** With '-' in front of the option string, or '+', or under POSIXLY_CORRECT, nothing moves: operands are reported in
      order after '-', and otherwise end the run. */
  method ParseInOrder(d: Data, argv: array<string>, optstring: string, longopts: Option<seq<LongOption>>, posixly: bool)
    returns (codes: seq<int>)
    requires !d.initialized && d.optind <= 1 && argv.Length >= 1 && CStrings(argv[..])
    requires "-" <= optstring || "+" <= optstring || posixly
    requires var cfg := Config(Body(optstring), longopts); NoLongW(cfg) && NoEndCode(cfg)
    modifies d, argv
    ensures var body := if "-" <= optstring || "+" <= optstring then optstring[1..] else optstring;
            var pass := PassOver(Config(body, longopts), if "-" <= optstring then ReturnInOrder else RequireOrder,
                                 old(argv[1..]));
            argv[..] == old(argv[..]) && d.optind == 1 + pass.used && codes == Codes(pass.found)
  {
    ghost var ordering := if "-" <= optstring then ReturnInOrder else RequireOrder;
    OrderRun(Config(Body(optstring), longopts), argv[..], 1, ordering);
    assert argv[..][1..] == argv[1..];
    assert d.Prepared(argv, optstring, posixly) == Start(argv[..], 1, ordering);
    hide PassOver, Run, NoLongW, NoEndCode, Codes, CStrings;
    codes := FinishRun(d, argv, optstring, longopts, posixly);
  }
}
