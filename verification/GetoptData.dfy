/** `_getopt_data_a` of getopt.c and the calls that update it and the argument vector in place. */
module GetoptData {
  import opened Text
  import opened Getopt
  import opened GetoptRun

  // ---------------------------------------------------------------- exchange_a

  /** Where the element that the exchange puts at index `i` comes from. */
  function Source(i: int, bottom: int, middle: int, top: int): int {
    if i < bottom || i >= top then i
    else if i < bottom + top - middle then i + middle - bottom
    else i - (top - middle)
  }

  lemma ExchangedAt(v: seq<string>, first: nat, last: nat, top: nat, i: nat)
    requires first <= last <= top <= |v| && i < |v|
    ensures 0 <= Source(i, first, last, top) < |v|
    ensures Exchanged(v, first, last, top)[i] == v[Source(i, first, last, top)]
  {
  }

  /** One of the two swap loops of `exchange_a`: blocks of `n` elements at `i` and `j` change places. */
  method SwapBlocks(a: array<string>, i: nat, j: nat, n: nat)
    requires i + n <= j && j + n <= a.Length
    modifies a
    ensures forall m :: i <= m < i + n ==> a[m] == old(a[m + (j - i)])
    ensures forall m :: j <= m < j + n ==> a[m] == old(a[m - (j - i)])
    ensures forall m :: 0 <= m < a.Length && !(i <= m < i + n) && !(j <= m < j + n) ==> a[m] == old(a[m])
  {
    for k := 0 to n
      invariant forall m :: i <= m < i + k ==> a[m] == old(a[m + (j - i)])
      invariant forall m :: j <= m < j + k ==> a[m] == old(a[m - (j - i)])
      invariant forall m :: 0 <= m < a.Length && !(i <= m < i + k) && !(j <= m < j + k) ==> a[m] == old(a[m])
    {
      a[i + k], a[j + k] := a[j + k], a[i + k];
    }
  }

  /** The first block is the shorter one: it goes to its final place at the top. */
  method MoveFirst(a: array<string>, bottom: nat, middle: nat, top: nat) returns (newTop: nat)
    requires bottom < middle < top <= a.Length && top - middle > middle - bottom
    modifies a
    ensures newTop == top - (middle - bottom)
    ensures forall i :: 0 <= i < a.Length ==>
              a[Source(i, bottom, middle, newTop)] == old(a[Source(i, bottom, middle, top)])
  {
    var len := middle - bottom;
    SwapBlocks(a, bottom, top - len, len);
    newTop := top - len;
  }

  /** The second block is no longer than the first: it goes to its final place at the bottom. */
  method MoveLast(a: array<string>, bottom: nat, middle: nat, top: nat) returns (newBottom: nat)
    requires bottom < middle < top <= a.Length && top - middle <= middle - bottom
    modifies a
    ensures newBottom == bottom + (top - middle)
    ensures forall i :: 0 <= i < a.Length ==>
              a[Source(i, newBottom, middle, top)] == old(a[Source(i, bottom, middle, top)])
  {
    var len := top - middle;
    SwapBlocks(a, bottom, middle, len);
    newBottom := bottom + len;
  }

  /** `exchange_a`: swap the shorter block to its place, and go on with what remains of the longer one. */
  method ExchangeInPlace(a: array<string>, first: nat, last: nat, top0: nat)
    requires first <= last <= top0 <= a.Length
    modifies a
    ensures a[..] == Exchanged(old(a[..]), first, last, top0)
  {
    ghost var target := Exchanged(a[..], first, last, top0);
    var bottom, middle, top := first, last, top0;
    forall i | 0 <= i < a.Length ensures target[i] == a[Source(i, bottom, middle, top)] {
      ExchangedAt(a[..], first, last, top0, i);
    }
    while top > middle && middle > bottom
      invariant first <= bottom <= middle <= top <= top0
      invariant forall i :: 0 <= i < a.Length ==> target[i] == a[Source(i, bottom, middle, top)]
      decreases top - bottom
    {
      if top - middle > middle - bottom {
        top := MoveFirst(a, bottom, middle, top);
      } else {
        bottom := MoveLast(a, bottom, middle, top);
      }
    }
    assert forall i :: 0 <= i < a.Length ==> target[i] == a[i];
  }

  // ---------------------------------------------------------------- the search among the long options

  /** The loop over the long options. */
  method SearchLoop(opts: seq<LongOption>, name: string) returns (r: Search)
    ensures r == SearchLong(opts, 0, name, Search(None, false, false))
  {
    var found: Option<nat>, ambiguous := None, false;
    var i := 0;
    while i < |opts|
      invariant 0 <= i <= |opts| && (found.Some? ==> found.value < |opts|)
      invariant SearchLong(opts, i, name, Search(found, false, ambiguous))
                == SearchLong(opts, 0, name, Search(None, false, false))
    {
      if name <= opts[i].name {
        if |name| == |opts[i].name| {
          return Search(Some(i), true, ambiguous);
        } else if found.None? {
          found := Some(i);
        } else if Differs(opts[found.value], opts[i]) {
          ambiguous := true;
        }
      }
      i := i + 1;
    }
    return Search(found, false, ambiguous);
  }

  /** The loop that skips operands. */
  method SkipLoop(argv: array<string>, start: nat) returns (i: nat)
    requires start <= argv.Length
    ensures i == SkipOperands(argv[..], start)
  {
    i := start;
    while i < argv.Length && NonOption(argv[i])
      invariant i <= argv.Length && SkipOperands(argv[..], i) == SkipOperands(argv[..], start)
    {
      i := i + 1;
    }
  }

  // ---------------------------------------------------------------- the option string

  predicate HasFlag(optstring: string) { optstring != "" && optstring[0] in {'-', '+'} }

  /** The option string as the scanner sees it. */
  function Body(optstring: string): string {
    if HasFlag(optstring) then optstring[1..] else optstring
  }

  function OrderingOf(optstring: string, posixly: bool): Ordering {
    if optstring != "" && optstring[0] == '-' then ReturnInOrder
    else if optstring != "" && optstring[0] == '+' then RequireOrder
    else if posixly then RequireOrder
    else Permute
  }

  // ---------------------------------------------------------------- _getopt_data_a

  class Data {
    var optind: nat
    var optopt: int
    var optarg: Option<string>
    var initialized: bool
    var nextchar: string
    var ordering: Ordering
    var first: nat
    var last: nat
    /** What `*longind` and the flags of the long options hold. */
    var longind: Option<nat>
    var flags: map<nat, int>

    ghost function Abstract(argv: array<string>): State
      reads this, argv
    {
      State(argv[..], optind, nextchar, ordering, first, last)
    }

    /** The state in which a call starts scanning: initialised if it has to be. */
    ghost function Prepared(argv: array<string>, optstring: string, posixly: bool): State
      reads this, argv
    {
      if optind == 0 || !initialized then Start(argv[..], if optind == 0 then 1 else optind,
                                                OrderingOf(optstring, posixly))
      else Abstract(argv)
    }

    /** The report of a call is in the fields, given what they held before. */
    ghost predicate Reported(found: Option<Found>, code: int, optopt0: int, longind0: Option<nat>, flags0: map<nat,
                             int>)
      reads this
    {
      match found
      case None => code == -1 && optarg == None && optopt == optopt0 && longind == longind0 && flags == flags0
      case Some(f) =>
        && code == f.code && optarg == f.optarg
        && optopt == (if f.optopt.Some? then f.optopt.value else optopt0)
        && longind == (if f.longind.Some? then f.longind else longind0)
        && flags == (if f.flag.Some? then flags0[f.flag.value.0 := f.flag.value.1] else flags0)
    }

    /** Moving the operands seen so far behind the options. */
    method ExchangeBlocks(argv: array<string>)
      requires first <= last <= optind <= argv.Length
      modifies this`first, this`last, argv
      ensures Abstract(argv) == Exchange(old(Abstract(argv)))
    {
      ExchangeInPlace(argv, first, last, optind);
      first := first + (optind - last);
      last := optind;
    }

    /** The PERMUTE part of a call. */
    method GatherOperands(argv: array<string>)
      requires first <= last <= optind <= argv.Length
      modifies this`first, this`last, this`optind, argv
      ensures Abstract(argv) == Gather(old(Abstract(argv)))
    {
      if first != last && last != optind {
        ExchangeBlocks(argv);
      } else if last != optind {
        first := optind;
      }
      optind := SkipLoop(argv, optind);
      last := optind;
    }

    /** The next element: the end of the options, an operand to report, or neither, for an option. */
    method FetchElement(argv: array<string>) returns (ended: bool, operand: Option<string>)
      requires Ready(Abstract(argv)) && nextchar == ""
      modifies this`first, this`last, this`optind, argv
      ensures var r := Fetch(old(Abstract(argv)));
              Abstract(argv) == r.s && ended == r.End? && operand == if r.Yield? then Some(r.operand) else None
    {
      hide Decide, Gather;
      if last > optind { last := optind; }
      if first > optind { first := optind; }
      if ordering == Permute { GatherOperands(argv); }
      ended, operand := DecideElement(argv);
    }

    method DecideElement(argv: array<string>) returns (ended: bool, operand: Option<string>)
      requires first <= last <= optind <= argv.Length
      modifies this`first, this`last, this`optind, argv
      ensures var r := Decide(old(Abstract(argv)));
              Abstract(argv) == r.s && ended == r.End? && operand == if r.Yield? then Some(r.operand) else None
    {
      if optind != argv.Length && argv[optind] == "--" {
        EndOptions(argv);
      }
      if optind == argv.Length {
        if first != last { optind := first; }
        return true, None;
      }
      if NonOption(argv[optind]) {
        if ordering == RequireOrder { return true, None; }
        operand := Some(argv[optind]);
        optind := optind + 1;
        return false, operand;
      }
      return false, None;
    }

    /** The element "--". */
    method EndOptions(argv: array<string>)
      requires first <= last <= optind < argv.Length
      modifies this`first, this`last, this`optind, argv
      ensures Abstract(argv) == DashDash(old(Abstract(argv)))
    {
      optind := optind + 1;
      if first != last && last != optind {
        ExchangeBlocks(argv);
      } else if first == last {
        first := optind;
      }
      last := argv.Length;
      optind := argv.Length;
    }

    /** The part of a call that scans a long option. */
    method LongOptionCall(cfg: Config, argv: array<string>) returns (code: int)
      requires AtText(Abstract(argv)) && IsLong(cfg, argv[optind]) && optarg == None
      modifies this`nextchar, this`optind, this`optarg, this`optopt, this`longind, this`flags
      ensures var c := ScanText(cfg, old(Abstract(argv)));
              Abstract(argv) == c.s && Reported(c.found, code, old(optopt), old(longind), old(flags))
    {
      hide SearchLong, ShortStep, IndexOf;
      var text, opts := nextchar, cfg.longopts.value;
      var k := IndexOf(text, '=');
      var r := SearchLoop(opts, text[..k]);
      nextchar := "";
      optind := optind + 1;
      if (r.ambiguous && !r.exact) || r.found.None? {
        optopt := 0;
        return Code('?');
      }
      var o := opts[r.found.value];
      if k < |text| {
        if o.hasArg == 0 {
          optopt := o.val;
          return Code('?');
        }
        optarg := Some(text[k + 1..]);
      } else if o.hasArg == 1 {
        if optind >= argv.Length {
          optopt := o.val;
          return Missing(cfg);
        }
        optarg := Some(argv[optind]);
        optind := optind + 1;
      }
      longind := r.found;
      if o.flag.Some? {
        flags := flags[o.flag.value := o.val];
        return 0;
      }
      return o.val;
    }

    /** The part of a call that scans a character of a cluster of short options. */
    method ShortOptionCall(cfg: Config, argv: array<string>) returns (code: int)
      requires AtText(Abstract(argv)) && !IsLong(cfg, argv[optind]) && optarg == None && NoLongW(cfg)
      modifies this`nextchar, this`optind, this`optarg, this`optopt
      ensures var c := ScanText(cfg, old(Abstract(argv)));
              Abstract(argv) == c.s && Reported(c.found, code, old(optopt), longind, flags)
    {
      hide LongStep, SearchLong, IndexOf;
      var c := nextchar[0];
      var i := IndexOf(cfg.optstring, c);
      nextchar := nextchar[1..];
      if nextchar == "" { optind := optind + 1; }
      if i == |cfg.optstring| || c == ':' || c == ';' {
        optopt := Code(c);
        return Code('?');
      }
      code := Code(c);
      if At(cfg.optstring, i + 1) == ':' {
        if nextchar != "" {
          optarg := Some(nextchar);
          optind := optind + 1;
        } else if At(cfg.optstring, i + 2) != ':' {
          if optind == argv.Length {
            optopt := Code(c);
            code := Missing(cfg);
          } else {
            optarg := Some(argv[optind]);
            optind := optind + 1;
          }
        }
        nextchar := "";
      }
    }

    /** `_getopt_internal_r_a`, without long_only. */
    method Getopt(argv: array<string>, optstring: string, longopts: Option<seq<LongOption>>, posixly: bool)
      returns (code: int)
      requires CStrings(argv[..]) && NoLongW(Config(Body(optstring), longopts))
      requires argv.Length >= 1 ==> Runs(Prepared(argv, optstring, posixly))
      modifies this, argv
      ensures argv.Length == 0 ==> code == -1 && Abstract(argv) == old(Abstract(argv))
      ensures argv.Length >= 1 ==>
                var c := OneCall(Config(Body(optstring), longopts), old(Prepared(argv, optstring, posixly)));
                initialized && Abstract(argv) == c.s && Reported(c.found, code, old(optopt), old(longind), old(flags))
    {
      hide OneCall, Runs, Reported, NoLongW, CStrings;
      if argv.Length < 1 { return -1; }
      optarg := None;
      if optind == 0 || !initialized {
        if optind == 0 { optind := 1; }
        first, last, nextchar := optind, optind, "";
        ordering := OrderingOf(optstring, posixly);
        initialized := true;
      }
      code := Scan(Config(Body(optstring), longopts), argv);
    }

    /** A call once the data are initialised. */
    method Scan(cfg: Config, argv: array<string>) returns (code: int)
      requires Runs(Abstract(argv)) && optarg == None && NoLongW(cfg)
      modifies this`first, this`last, this`nextchar, this`optind, this`optarg, this`optopt, this`longind, this`flags,
               argv
      ensures var c := OneCall(cfg, old(Abstract(argv)));
              Abstract(argv) == c.s && Reported(c.found, code, old(optopt), old(longind), old(flags))
    {
      hide ElementStep, Gathered, ScanText, NoLongW;
      if nextchar == "" {
        FetchKeeps(Abstract(argv));
        var ended, operand := FetchElement(argv);
        if ended { return -1; }
        if operand.Some? {
          optarg := operand;
          return 1;
        }
        FirstTextNonEmpty(cfg, argv[optind]);
        nextchar := FirstText(cfg, argv[optind]);
      }
      if IsLong(cfg, argv[optind]) {
        code := LongOptionCall(cfg, argv);
      } else {
        code := ShortOptionCall(cfg, argv);
      }
    }
  }
}
