/** `_getopt_internal_r_a` of getopt.c on values: option elements, one call, and the reference scan. */
module Getopt {
  import opened Text

  datatype Ordering = RequireOrder | Permute | ReturnInOrder

  /** `struct option_a`; a flag is named by a number, the variable it points to. */
  datatype LongOption = LongOption(name: string, hasArg: nat, flag: Option<nat>, val: int)

  /** The option string after its leading '-' or '+', and the long options if there are any. */
  datatype Config = Config(optstring: string, longopts: Option<seq<LongOption>>)

  /** What one call reports: its result, `optarg`, and what it stores elsewhere, if anything. */
  datatype Found = Found(code: int, optarg: Option<string>, optopt: Option<int>, longind: Option<nat>,
                         flag: Option<(nat, int)>)

  /** A call that returned `found`, left `nextchar` to be scanned and used up this many elements of argv. */
  datatype Step = Step(found: Found, nextchar: string, used: nat)

  /** A `char` as the `int` it is returned as: a signed byte. */
  function Code(c: char): (r: int)
    ensures c as int < 256 ==> -128 <= r < 128 && (r - c as int) % 256 == 0
  {
    if 128 <= c as int < 256 then c as int - 256 else c as int
  }

  /** Result code for a missing argument. */
  function Missing(cfg: Config): int {
    if cfg.optstring != "" && cfg.optstring[0] == ':' then Code(':') else Code('?')
  }

  function Error(code: int, optopt: int): Found {
    Found(code, None, Some(optopt), None, None)
  }

  // ---------------------------------------------------------------- long options

  datatype Search = Search(found: Option<nat>, exact: bool, ambiguous: bool)

  predicate Differs(a: LongOption, b: LongOption) {
    a.hasArg != b.hasArg || a.flag != b.flag || a.val != b.val
  }

  /** The search loop from option `i` on: an exact name wins, else the first option the name abbreviates. */
  function SearchLong(opts: seq<LongOption>, i: nat, name: string, s: Search): (r: Search)
    requires i <= |opts| && (s.found.Some? ==> s.found.value < |opts|)
    ensures r.found.Some? ==> r.found.value < |opts|
    decreases |opts| - i
  {
    if i == |opts| then s
    else if !(name <= opts[i].name) then SearchLong(opts, i + 1, name, s)
    else if |name| == |opts[i].name| then Search(Some(i), true, s.ambiguous)
    else if s.found.None? then SearchLong(opts, i + 1, name, s.(found := Some(i)))
    else SearchLong(opts, i + 1, name, s.(ambiguous := s.ambiguous || Differs(opts[s.found.value], opts[i])))
  }

  /** An element that starts with "--", given its text after that and the element after it. */
  function LongStep(cfg: Config, opts: seq<LongOption>, text: string, next: Option<string>): Step {
    var k := IndexOf(text, '=');
    var r := SearchLong(opts, 0, text[..k], Search(None, false, false));
    if (r.ambiguous && !r.exact) || r.found.None? then Step(Error(Code('?'), 0), "", 1) else
    var o := opts[r.found.value];
    var f := if o.flag.Some? then Found(0, None, None, r.found, Some((o.flag.value, o.val)))
             else Found(o.val, None, None, r.found, None);
    if k < |text| then
      if o.hasArg != 0 then Step(f.(optarg := Some(text[k + 1..])), "", 1)
      else Step(Error(Code('?'), o.val), "", 1)
    else if o.hasArg == 1 then
      if next.Some? then Step(f.(optarg := next), "", 2) else Step(Error(Missing(cfg), o.val), "", 1)
    else Step(f, "", 1)
  }

  // ---------------------------------------------------------------- short options

  function At(s: string, i: nat): char { if i < |s| then s[i] else '\0' }

  /** The next character of a cluster of short options, given the element after the cluster. */
  function ShortStep(cfg: Config, text: string, next: Option<string>): Step
    requires text != ""
  {
    var c, rest := text[0], text[1..];
    var i := IndexOf(cfg.optstring, c);
    var moved := if rest == "" then 1 else 0;
    if i == |cfg.optstring| || c == ':' || c == ';' then Step(Error(Code('?'), Code(c)), rest, moved) else
    var f := Found(Code(c), None, None, None, None);
    if At(cfg.optstring, i + 1) != ':' then Step(f, rest, moved)
    else if rest != "" then Step(f.(optarg := Some(rest)), "", 1)
    else if At(cfg.optstring, i + 2) == ':' then Step(f, "", 1)
    else if next.Some? then Step(f.(optarg := next), "", 2)
    else Step(Error(Missing(cfg), Code(c)), "", 1)
  }

  // ---------------------------------------------------------------- elements

  /** No option: not starting with '-', or just "-". */
  predicate NonOption(a: string) {
    At(a, 0) != '-' || At(a, 1) == '\0'
  }

  predicate IsLong(cfg: Config, a: string) {
    cfg.longopts.Some? && At(a, 1) == '-'
  }

  /** Where `nextchar` starts in an option element. */
  function FirstText(cfg: Config, a: string): string
    requires !NonOption(a)
  {
    if IsLong(cfg, a) then a[2..] else a[1..]
  }

  function ElementStep(cfg: Config, a: string, text: string, next: Option<string>): Step
    requires text != ""
  {
    if IsLong(cfg, a) then LongStep(cfg, cfg.longopts.value, text, next) else ShortStep(cfg, text, next)
  }

  /** An argument vector whose elements hold no NUL before their end. */
  predicate CStrings(argv: seq<string>) {
    forall i :: 0 <= i < |argv| ==> '\0' !in argv[i]
  }

  function NextOf(args: seq<string>): Option<string> {
    if |args| > 1 then Some(args[1]) else None
  }

  lemma StepShape(cfg: Config, a: string, text: string, next: Option<string>)
    requires text != ""
    ensures var t := ElementStep(cfg, a, text, next);
            t.used <= 2 && (t.used == 2 ==> next.Some?) && (t.used == 0 <==> t.nextchar != "")
            && |t.nextchar| < |text|
  {
  }

  /** "W;" makes -W take a long option; that is not modelled. */
  predicate NoLongW(cfg: Config) {
    At(cfg.optstring, IndexOf(cfg.optstring, 'W') + 1) != ';'
  }

  // ---------------------------------------------------------------- the reference scan

  datatype Element = Element(found: seq<Found>, used: nat)

  /** All the reports of one option element, from `text` on; args[0] is the element. */
  function ScanElement(cfg: Config, args: seq<string>, text: string): (e: Element)
    requires args != [] && text != ""
    ensures 1 <= e.used <= |args| && e.used <= 2
    decreases |text|
  {
    StepShape(cfg, args[0], text, NextOf(args));
    var t := ElementStep(cfg, args[0], text, NextOf(args));
    if t.used > 0 then Element([t.found], t.used) else
    var e := ScanElement(cfg, args, t.nextchar);
    Element([t.found] + e.found, e.used)
  }

  datatype Scan = Scan(options: seq<string>, operands: seq<string>, found: seq<Found>)

  /** One pass over the arguments that permutes nothing: options with their arguments, and operands. */
  function ScanAll(cfg: Config, args: seq<string>): Scan
    requires CStrings(args)
    decreases |args|
  {
    if args == [] then Scan([], [], [])
    else if NonOption(args[0]) then
      var r := ScanAll(cfg, args[1..]);
      r.(operands := [args[0]] + r.operands)
    else if args[0] == "--" then Scan(["--"], args[1..], [])
    else
      FirstTextNonEmpty(cfg, args[0]);
      var e := ScanElement(cfg, args, FirstText(cfg, args[0]));
      var r := ScanAll(cfg, args[e.used..]);
      Scan(args[..e.used] + r.options, r.operands, e.found + r.found)
  }

  lemma FirstTextNonEmpty(cfg: Config, a: string)
    requires '\0' !in a && !NonOption(a) && a != "--"
    ensures FirstText(cfg, a) != ""
  {
    assert |a| == 2 && a[0] == '-' && a[1] == '-' ==> a == "--";
  }
}
