/** What getopt makes of an option element, from the declarations alone; and the round trip: arguments spelled out as
    getopt's conventions ask are reported as meant. */
module GetoptWords {
  import opened Text
  import opened Getopt
  import opened GetoptRun
  import opened GetoptPermute
  import opened GetoptOrder

  // ---------------------------------------------------------------- declarations of short options

  /** `c` is first declared at index `i` of the option string. */
  predicate DeclaredAt(o: string, c: char, i: nat) {
    i < |o| && o[i] == c && c != ':' && c != ';' && forall j :: 0 <= j < i ==> o[j] != c
  }

  ghost predicate Declared(o: string, c: char) {
    exists i: nat :: DeclaredAt(o, c, i)
  }

  /** "c:" that is not "c::". */
  ghost predicate Requires(o: string, c: char) {
    exists i: nat :: DeclaredAt(o, c, i) && i + 1 < |o| && o[i + 1] == ':' && !(i + 2 < |o| && o[i + 2] == ':')
  }

  /** "c::". */
  ghost predicate Allows(o: string, c: char) {
    exists i: nat :: DeclaredAt(o, c, i) && i + 2 < |o| && o[i + 1] == ':' && o[i + 2] == ':'
  }

  /** Neither takes an argument. */
  ghost predicate Flag(o: string, c: char) {
    !Requires(o, c) && !Allows(o, c)
  }

  lemma SameDeclaration(o: string, c: char, i: nat, j: nat)
    requires DeclaredAt(o, c, i) && DeclaredAt(o, c, j)
    ensures i == j
  {
  }

  /** The declarations, read off the first occurrence. */
  lemma DeclarationAt(o: string, c: char)
    ensures var i := IndexOf(o, c);
            && (Declared(o, c) <==> i < |o| && c != ':' && c != ';')
            && (Requires(o, c) <==> Declared(o, c) && At(o, i + 1) == ':' && At(o, i + 2) != ':')
            && (Allows(o, c) <==> Declared(o, c) && At(o, i + 1) == ':' && At(o, i + 2) == ':')
  {
    var i := IndexOf(o, c);
    if i < |o| && c != ':' && c != ';' { assert DeclaredAt(o, c, i); }
    forall j: nat | DeclaredAt(o, c, j) ensures j == i { }
  }

  function Plain(c: char): Found { Found(Code(c), None, None, None, None) }

  function Invalid(optopt: int): Found { Found(Code('?'), None, Some(optopt), None, None) }

  /** The report of a missing argument: ':' if the option string starts with one. */
  function Lacking(cfg: Config, optopt: int): Found {
    Found(if ":" <= cfg.optstring then Code(':') else Code('?'), None, Some(optopt), None, None)
  }

  /** One character of a cluster, by its declaration. */
  lemma ShortResult(cfg: Config, c: char, rest: string, next: Option<string>)
    ensures var o, s := cfg.optstring, ShortStep(cfg, [c] + rest, next);
            && (!Declared(o, c) ==> s == Step(Invalid(Code(c)), rest, if rest == "" then 1 else 0))
            && (Declared(o, c) && Flag(o, c) ==> s == Step(Plain(c), rest, if rest == "" then 1 else 0))
            && (Allows(o, c) ==> s == Step(Plain(c).(optarg := if rest == "" then None else Some(rest)), "", 1))
            && (Requires(o, c) && rest != "" ==> s == Step(Plain(c).(optarg := Some(rest)), "", 1))
            && (Requires(o, c) && rest == "" && next.Some? ==> s == Step(Plain(c).(optarg := next), "", 2))
            && (Requires(o, c) && rest == "" && next.None? ==> s == Step(Lacking(cfg, Code(c)), "", 1))
  {
    DeclarationAt(cfg.optstring, c);
    hide Declared, Requires, Allows, IndexOf;
    assert ([c] + rest)[1..] == rest;
  }

  // ---------------------------------------------------------------- whole clusters

  /** How far a cluster goes before a character that takes an argument. */
  ghost function Flags(o: string, text: string): (n: nat)
    ensures n <= |text| && (n < |text| ==> !Flag(o, text[n]))
    ensures forall i :: 0 <= i < n ==> Flag(o, text[i])
  {
    if text == "" || !Flag(o, text[0]) then 0 else 1 + Flags(o, text[1..])
  }

  /** The report of a character that takes no argument. */
  ghost function FlagReport(o: string, c: char): Found {
    if Declared(o, c) then Plain(c) else Invalid(Code(c))
  }

  ghost function FlagReports(o: string, text: string): (r: seq<Found>)
    ensures |r| == |text|
  {
    seq(|text|, i requires 0 <= i < |text| => FlagReport(o, text[i]))
  }

  /** The report of the character that ends a cluster, with the text behind it. */
  ghost function LastReport(cfg: Config, c: char, rest: string, next: Option<string>): Found {
    if rest != "" then Plain(c).(optarg := Some(rest))
    else if Allows(cfg.optstring, c) then Plain(c)
    else if next.Some? then Plain(c).(optarg := next)
    else Lacking(cfg, Code(c))
  }

  /** The reports of a cluster, up to the first character that takes an argument. */
  ghost function ClusterReports(cfg: Config, text: string, next: Option<string>): seq<Found> {
    var n := Flags(cfg.optstring, text);
    FlagReports(cfg.optstring, text[..n])
    + if n == |text| then [] else [LastReport(cfg, text[n], text[n + 1..], next)]
  }

  /** The cluster ends in a character that requires its argument, and none before it takes one. */
  ghost predicate TakesNext(o: string, text: string) {
    text != "" && Flags(o, text) == |text| - 1 && Requires(o, text[|text| - 1])
  }

  /** A cluster reports its characters up to the first that takes an argument; the element behind the cluster is used if
      and only if that character is the last one, requires its argument, and there is such an element. */
  lemma {:induction false} ClusterResult(cfg: Config, args: seq<string>, text: string)
    requires args != [] && text != "" && !IsLong(cfg, args[0])
    ensures var e := ScanElement(cfg, args, text);
            && (e.used == 2 <==> TakesNext(cfg.optstring, text) && |args| > 1)
            && e.found == ClusterReports(cfg, text, NextOf(args))
    decreases |text|
  {
    hide ElementStep, ClusterReports, TakesNext, FlagReport, LastReport, Flag, Requires;
    var c, rest, next := text[0], text[1..], NextOf(args);
    assert text == [c] + rest;
    CharacterResult(cfg, args[0], c, rest, next);
    FirstCharacter(cfg, c, rest, next);
    if Flag(cfg.optstring, c) && rest != "" { ClusterResult(cfg, args, rest); }
  }

  /** The closed form, unfolded at its first character. */
  lemma FirstCharacter(cfg: Config, c: char, rest: string, next: Option<string>)
    ensures var o, r := cfg.optstring, ClusterReports(cfg, [c] + rest, next);
            && (Flag(o, c) ==> r == [FlagReport(o, c)] + ClusterReports(cfg, rest, next))
            && (!Flag(o, c) ==> r == [LastReport(cfg, c, rest, next)])
            && (TakesNext(o, [c] + rest)
                <==> if Flag(o, c) then TakesNext(o, rest) else rest == "" && Requires(o, c))
    ensures ClusterReports(cfg, "", next) == [] && !TakesNext(cfg.optstring, "")
  {
    hide FlagReport, LastReport, Flag, Requires;
    var o, text := cfg.optstring, [c] + rest;
    assert text[1..] == rest;
    assert Flag(o, c) ==> !Requires(o, c) by { CharacterFlag(o, c); }
    var n := Flags(o, text);
    if Flag(o, c) {
      assert text[..n] == [c] + rest[..n - 1];
      FlagReportsFirst(o, c, rest[..n - 1]);
      assert n < |text| ==> text[n + 1..] == rest[n..];
    } else {
      assert text[..0] == "" && FlagReports(o, "") == [];
    }
  }

  lemma CharacterFlag(o: string, c: char)
    ensures Flag(o, c) ==> !Requires(o, c)
  {
  }

  /** One character of a cluster: on to the rest, or the end of the cluster. */
  lemma CharacterResult(cfg: Config, a: string, c: char, rest: string, next: Option<string>)
    requires !IsLong(cfg, a)
    ensures var o := cfg.optstring;
            ElementStep(cfg, a, [c] + rest, next)
            == if Flag(o, c) then Step(FlagReport(o, c), rest, if rest == "" then 1 else 0)
               else
                 Step(LastReport(cfg, c, rest, next), "", if Requires(o, c) && rest == "" && next.Some? then 2 else 1)
    ensures Requires(cfg.optstring, c) ==> !Flag(cfg.optstring, c)
  {
    hide Declared, Requires, Allows, ShortStep;
    ShortResult(cfg, c, rest, next);
    OneOf(cfg.optstring, c);
  }

  lemma OneOf(o: string, c: char)
    ensures !(Requires(o, c) && Allows(o, c)) && (Requires(o, c) || Allows(o, c) ==> Declared(o, c))
  {
    DeclarationAt(o, c);
  }

  lemma FlagReportsFirst(o: string, c: char, more: string)
    ensures FlagReports(o, [c] + more) == [FlagReport(o, c)] + FlagReports(o, more)
  {
    hide FlagReport;
  }

  // ---------------------------------------------------------------- long options

  predicate Named(opts: seq<LongOption>, name: string, i: nat) { i < |opts| && opts[i].name == name }

  predicate Abbreviates(opts: seq<LongOption>, name: string, i: nat) { i < |opts| && name <= opts[i].name }

  /** The first option of that very name. */
  ghost predicate Exactly(opts: seq<LongOption>, name: string, i: nat) {
    Named(opts, name, i) && forall j: nat :: j < i ==> !Named(opts, name, j)
  }

  /** The first option that the name abbreviates, where all of them mean the same. */
  ghost predicate Shortened(opts: seq<LongOption>, name: string, i: nat) {
    && Abbreviates(opts, name, i) && (forall j: nat :: j < i ==> !Abbreviates(opts, name, j))
    && (forall j: nat :: j < |opts| ==> !Named(opts, name, j))
    && forall j: nat :: Abbreviates(opts, name, j) ==> SameMeaning(opts[i], opts[j])
  }

  predicate SameMeaning(a: LongOption, b: LongOption) { (a.hasArg, a.flag, a.val) == (b.hasArg, b.flag, b.val) }

  /** The option that a name stands for. */
  ghost predicate Means(opts: seq<LongOption>, name: string, i: nat) {
    Exactly(opts, name, i) || Shortened(opts, name, i)
  }

  /** What the search has met before option `i`, without an exact name so far. */
  ghost predicate Met(opts: seq<LongOption>, name: string, i: nat, s: Search) {
    && i <= |opts| && !s.exact
    && (forall j: nat :: j < i ==> !Named(opts, name, j))
    && (s.found.None? ==> !s.ambiguous && forall j: nat :: j < i ==> !Abbreviates(opts, name, j))
    && (s.found.Some? ==>
          && s.found.value < i && Abbreviates(opts, name, s.found.value)
          && (forall j: nat :: j < s.found.value ==> !Abbreviates(opts, name, j))
          && (s.ambiguous <==>
                exists j: nat :: j < i && Abbreviates(opts, name, j) && !SameMeaning(opts[s.found.value], opts[j])))
  }

  lemma MetNext(opts: seq<LongOption>, name: string, i: nat, s: Search)
    requires i < |opts| && Met(opts, name, i, s) && !Named(opts, name, i)
    ensures var here := Abbreviates(opts, name, i);
            && (!here ==> Met(opts, name, i + 1, s))
            && (here && s.found.None? ==> Met(opts, name, i + 1, s.(found := Some(i))))
            && (here && s.found.Some? ==>
                  Met(opts, name, i + 1, s.(ambiguous := s.ambiguous || Differs(opts[s.found.value], opts[i]))))
  {
    if s.found.Some? {
      var f := opts[s.found.value];
      assert Differs(f, opts[i]) <==> !SameMeaning(f, opts[i]);
      if Abbreviates(opts, name, i) && Differs(f, opts[i]) {
        var t := s.(ambiguous := true);
        assert i < i + 1 && Abbreviates(opts, name, i) && !SameMeaning(f, opts[i]);
      }
    }
  }

  /** The search loop finds the option that the name stands for, if it stands for one. */
  lemma {:induction false} SearchFinds(opts: seq<LongOption>, name: string, i: nat, s: Search)
    requires i <= |opts| && !s.exact && (s.found.Some? ==> s.found.value < |opts|) && Met(opts, name, i, s)
    ensures var r := SearchLong(opts, i, name, s); var good := r.found.Some? && (r.exact || !r.ambiguous);
            && (good ==> Means(opts, name, r.found.value))
            && (!good ==> forall k: nat :: !Means(opts, name, k))
    decreases |opts| - i
  {
    hide Met;
    if i == |opts| {
      SearchEnds(opts, name, s);
    } else if name == opts[i].name {
      assert Exactly(opts, name, i) by { NoneBefore(opts, name, i, s); }
    } else {
      MetNext(opts, name, i, s);
      if !(name <= opts[i].name) {
        SearchFinds(opts, name, i + 1, s);
      } else if s.found.None? {
        SearchFinds(opts, name, i + 1, s.(found := Some(i)));
      } else {
        SearchFinds(opts, name, i + 1, s.(ambiguous := s.ambiguous || Differs(opts[s.found.value], opts[i])));
      }
    }
  }

  lemma NoneBefore(opts: seq<LongOption>, name: string, i: nat, s: Search)
    requires Met(opts, name, i, s)
    ensures forall j: nat :: j < i ==> !Named(opts, name, j)
  {
  }

  lemma SearchEnds(opts: seq<LongOption>, name: string, s: Search)
    requires Met(opts, name, |opts|, s)
    ensures s.found.Some? && !s.ambiguous ==> Means(opts, name, s.found.value)
    ensures s.found.None? || s.ambiguous ==> forall k: nat :: !Means(opts, name, k)
  {
    if s.found.Some? && s.ambiguous {
      var f := s.found.value;
      var j: nat :| j < |opts| && Abbreviates(opts, name, j) && !SameMeaning(opts[f], opts[j]);
      forall k: nat ensures Shortened(opts, name, k) ==> k == f { }
      assert !Shortened(opts, name, f);
    }
  }

  lemma OneMeaning(opts: seq<LongOption>, name: string, i: nat, j: nat)
    requires Means(opts, name, i) && Means(opts, name, j)
    ensures i == j
  {
  }

  /** What an option with this index reports when all is well. */
  function LongReport(opts: seq<LongOption>, i: nat, optarg: Option<string>): Found
    requires i < |opts|
  {
    var o := opts[i];
    match o.flag
    case None => Found(o.val, optarg, None, Some(i), None)
    case Some(f) => Found(0, optarg, None, Some(i), Some((f, o.val)))
  }

  /** A long option by the option its name stands for: the value behind '=' or the next element is its argument, as the
      option asks; or an error. */
  lemma LongResult(cfg: Config, opts: seq<LongOption>, name: string, value: Option<string>, next: Option<string>,
                   i: nat)
    requires '=' !in name
    ensures var text := name + if value.None? then "" else "=" + value.value;
            var s := LongStep(cfg, opts, text, next);
            && ((forall k: nat :: !Means(opts, name, k)) ==> s == Step(Invalid(0), "", 1))
            && (Means(opts, name, i) ==>
                  var o := opts[i];
                  && (value.Some? && o.hasArg != 0 ==> s == Step(LongReport(opts, i, value), "", 1))
                  && (value.Some? && o.hasArg == 0 ==> s == Step(Invalid(o.val), "", 1))
                  && (value.None? && o.hasArg != 1 ==> s == Step(LongReport(opts, i, None), "", 1))
                  && (value.None? && o.hasArg == 1 && next.Some? ==> s == Step(LongReport(opts, i, next), "", 2))
                  && (value.None? && o.hasArg == 1 && next.None? ==> s == Step(Lacking(cfg, o.val), "", 1)))
  {
    hide SearchLong, Means;
    var text := name + if value.None? then "" else "=" + value.value;
    IndexOfIs(text, '=', |name|);
    assert text[..|name|] == name;
    if value.Some? { assert text[|name| + 1..] == value.value; }
    FirstMet(opts, name);
    var r := SearchLong(opts, 0, name, Search(None, false, false));
    SearchFinds(opts, name, 0, Search(None, false, false));
    if Means(opts, name, i) && r.found.Some? && (r.exact || !r.ambiguous) { OneMeaning(opts, name, i, r.found.value); }
  }

  lemma FirstMet(opts: seq<LongOption>, name: string)
    ensures Met(opts, name, 0, Search(None, false, false))
  {
  }

  // ---------------------------------------------------------------- the round trip

  /** How a cluster of flags may end: with them, with an option that may have an argument and has none, or with an
      option and its argument, in the same element or in the next. */
  datatype Ending = Done | Without(c: char) | Inline(c: char, arg: string) | Separate(c: char, arg: string)

  datatype LongValue = NoValue | Behind(value: string) | Following(value: string)

  /** What somebody means to say on a command line; `i` is the long option meant. */
  datatype Word = Operand(text: string) | Cluster(flags: string, ending: Ending)
                | Long(name: string, i: nat, value: LongValue)

  function ClusterText(w: Word): string
    requires w.Cluster?
  {
    match w.ending
    case Done => w.flags
    case Without(c) => w.flags + [c]
    case Inline(c, arg) => w.flags + [c] + arg
    case Separate(c, _) => w.flags + [c]
  }

  function LongText(w: Word): string
    requires w.Long?
  {
    w.name + if w.value.Behind? then "=" + w.value.value else ""
  }

  /** The arguments that say it. */
  function Spelled(w: Word): seq<string> {
    match w
    case Operand(text) => [text]
    case Cluster(_, ending) => ["-" + ClusterText(w)] + if ending.Separate? then [ending.arg] else []
    case Long(_, _, value) => ["--" + LongText(w)] + if value.Following? then [value.value] else []
  }

  ghost predicate GoodEnding(o: string, flags: string, ending: Ending) {
    match ending
    case Done => flags != ""
    case Without(c) => Allows(o, c)
    case Inline(c, arg) => arg != "" && (Allows(o, c) || Requires(o, c))
    case Separate(c, _) => Requires(o, c)
  }

  predicate GoodValue(hasArg: nat, value: LongValue) {
    match value case NoValue => hasArg != 1 case Behind(_) => hasArg != 0 case Following(_) => hasArg == 1
  }

  /** The options are declared so that it can be said. */
  ghost predicate Good(cfg: Config, w: Word) {
    && CStrings(Spelled(w))
    && match w
       case Operand(text) => NonOption(text)
       case Cluster(flags, ending) =>
         && GoodEnding(cfg.optstring, flags, ending) && ClusterText(w)[0] != '-'
         && forall i :: 0 <= i < |flags| ==> Declared(cfg.optstring, flags[i]) && Flag(cfg.optstring, flags[i])
       case Long(name, i, value) =>
         && cfg.longopts.Some? && name != "" && '=' !in name && Means(cfg.longopts.value, name, i)
         && GoodValue(cfg.longopts.value[i].hasArg, value)
  }

  function PlainReports(flags: string): (r: seq<Found>)
    ensures |r| == |flags|
  {
    seq(|flags|, i requires 0 <= i < |flags| => Plain(flags[i]))
  }

  /** The reports that are to come of it. */
  ghost function Meant(cfg: Config, w: Word): seq<Found>
    requires Good(cfg, w)
  {
    match w
    case Operand(_) => []
    case Cluster(flags, ending) =>
      PlainReports(flags)
      + (match ending
         case Done => []
         case Without(c) => [Plain(c)]
         case Inline(c, arg) => [Plain(c).(optarg := Some(arg))]
         case Separate(c, arg) => [Plain(c).(optarg := Some(arg))])
    case Long(_, i, value) =>
      [LongReport(cfg.longopts.value, i, if value.NoValue? then None else Some(value.value))]
  }

  /** The first arguments of the vector say `w`, which is no operand. */
  lemma WordScanned(cfg: Config, w: Word, more: seq<string>)
    requires Good(cfg, w) && !w.Operand?
    ensures var args := Spelled(w) + more;
            && !NonOption(args[0]) && args[0] != "--"
            && ScanElement(cfg, args, FirstText(cfg, args[0])) == Element(Meant(cfg, w), |Spelled(w)|)
  {
    if w.Cluster? { ClusterScanned(cfg, w, more); } else { LongScanned(cfg, w, more); }
  }

  lemma ClusterScanned(cfg: Config, w: Word, more: seq<string>)
    requires Good(cfg, w) && w.Cluster?
    ensures var args := Spelled(w) + more;
            && !NonOption(args[0]) && args[0] != "--" && FirstText(cfg, args[0]) == ClusterText(w)
            && ScanElement(cfg, args, ClusterText(w)) == Element(Meant(cfg, w), |Spelled(w)|)
  {
    hide Declared, Requires, Allows, ScanElement, LastReport, Flag, Code, Good, CStrings;
    var args, text, n := Spelled(w) + more, ClusterText(w), |w.flags|;
    assert text[..n] == w.flags;
    ClusterStart(cfg, w);
    FlagsOf(cfg, w);
    ClusterResult(cfg, args, text);
    if n < |text| { EndingReport(cfg, w, args); }
  }

  lemma ClusterStart(cfg: Config, w: Word)
    requires Good(cfg, w) && w.Cluster?
    ensures var a := Spelled(w)[0];
            && !NonOption(a) && a != "--" && !IsLong(cfg, a) && FirstText(cfg, a) == ClusterText(w) != ""
  {
    hide Declared, Requires, Allows;
    var a, text := Spelled(w)[0], ClusterText(w);
    assert a == "-" + text && a[1] == text[0] && text[0] in a;
  }

  lemma FlagsOf(cfg: Config, w: Word)
    requires Good(cfg, w) && w.Cluster?
    ensures var o, n, text := cfg.optstring, |w.flags|, ClusterText(w);
            && Flags(o, text) == n && FlagReports(o, w.flags) == PlainReports(w.flags)
            && (w.ending.Inline? ==> w.ending.arg != "")
            && (n < |text| ==>
                  (Requires(o, text[n])
                   <==> w.ending.Separate? || (w.ending.Inline? && !Allows(o, text[n]))))
  {
    hide Declared, Requires, Allows;
    var o, n, text := cfg.optstring, |w.flags|, ClusterText(w);
    if n < |text| { OneOf(o, text[n]); }
    assert forall i :: 0 <= i < n ==> text[i] == w.flags[i];
  }

  lemma EndingReport(cfg: Config, w: Word, args: seq<string>)
    requires Good(cfg, w) && w.Cluster? && !w.ending.Done? && args != []
    requires w.ending.Separate? ==> NextOf(args) == Some(w.ending.arg)
    ensures var n, text := |w.flags|, ClusterText(w);
            && n < |text| && text[n] == w.ending.c
            && LastReport(cfg, text[n], text[n + 1..], NextOf(args))
               == Plain(w.ending.c).(optarg := if w.ending.Without? then None else Some(w.ending.arg))
  {
    hide Declared, Requires, Allows;
    OneOf(cfg.optstring, w.ending.c);
    if w.ending.Inline? { assert ClusterText(w)[|w.flags| + 1..] == w.ending.arg; }
  }

  lemma LongScanned(cfg: Config, w: Word, more: seq<string>)
    requires Good(cfg, w) && w.Long?
    ensures var args := Spelled(w) + more;
            && !NonOption(args[0]) && args[0] != "--" && FirstText(cfg, args[0]) == LongText(w)
            && ScanElement(cfg, args, LongText(w)) == Element(Meant(cfg, w), |Spelled(w)|)
  {
    hide LongStep, Means;
    var args, text, value := Spelled(w) + more, LongText(w), if w.value.Behind? then Some(w.value.value) else None;
    assert args[0] == "--" + text && args[0][2..] == text;
    LongResult(cfg, cfg.longopts.value, w.name, value, NextOf(args), w.i);
  }

  function AllSpelled(ws: seq<Word>): seq<string> {
    if ws == [] then [] else Spelled(ws[0]) + AllSpelled(ws[1..])
  }

  ghost predicate AllGood(cfg: Config, ws: seq<Word>) {
    forall i :: 0 <= i < |ws| ==> Good(cfg, ws[i])
  }

  ghost function AllMeant(cfg: Config, ws: seq<Word>): seq<Found>
    requires AllGood(cfg, ws)
  {
    if ws == [] then [] else Meant(cfg, ws[0]) + AllMeant(cfg, ws[1..])
  }

  function Operands(ws: seq<Word>): seq<string> {
    if ws == [] then [] else (if ws[0].Operand? then Spelled(ws[0]) else []) + Operands(ws[1..])
  }

  function Options(ws: seq<Word>): seq<string> {
    if ws == [] then [] else (if ws[0].Operand? then [] else Spelled(ws[0])) + Options(ws[1..])
  }

  /** What follows the words: nothing, or "--" and operands of any spelling. */
  predicate Ends(tail: seq<string>) { CStrings(tail) && (tail == [] || tail[0] == "--") }

  lemma {:induction false} SpelledCStrings(cfg: Config, ws: seq<Word>, tail: seq<string>)
    requires AllGood(cfg, ws) && Ends(tail)
    ensures CStrings(AllSpelled(ws) + tail)
  {
    hide Spelled;
    if ws == [] {
      assert AllSpelled(ws) + tail == tail;
    } else {
      SpelledCStrings(cfg, ws[1..], tail);
      assert AllSpelled(ws) + tail == Spelled(ws[0]) + (AllSpelled(ws[1..]) + tail);
    }
  }

  /** The scan of arguments that say some words: the reports are those meant, the arguments of options stay with their
      options, and nothing else is an operand. */
  lemma {:induction false} WordsScanned(cfg: Config, ws: seq<Word>, tail: seq<string>)
    requires AllGood(cfg, ws) && Ends(tail)
    ensures CStrings(AllSpelled(ws) + tail)
    ensures ScanAll(cfg, AllSpelled(ws) + tail)
            == Scan(Options(ws) + tail[..if tail == [] then 0 else 1],
                    Operands(ws) + tail[if tail == [] then 0 else 1..], AllMeant(cfg, ws))
  {
    hide Good, Meant, ScanElement, Spelled;
    SpelledCStrings(cfg, ws, tail);
    if ws == [] {
      EndScanned(cfg, tail);
      assert AllSpelled(ws) + tail == tail;
    } else {
      var w, more := ws[0], AllSpelled(ws[1..]) + tail;
      WordsScanned(cfg, ws[1..], tail);
      Assoc(Spelled(w), AllSpelled(ws[1..]), tail);
      FirstWord(cfg, w, more);
      var r, k := ScanAll(cfg, more), if tail == [] then 0 else 1;
      if w.Operand? {
        Assoc(Spelled(w), Operands(ws[1..]), tail[k..]);
        assert Meant(cfg, w) == [] by { NothingMeant(cfg, w); }
        assert [] + Options(ws[1..]) == Options(ws[1..]);
        assert [] + AllMeant(cfg, ws[1..]) == AllMeant(cfg, ws[1..]);
      } else {
        Assoc(Spelled(w), Options(ws[1..]), tail[..k]);
        assert [] + Operands(ws[1..]) == Operands(ws[1..]);
      }
    }
  }

  lemma NothingMeant(cfg: Config, w: Word)
    requires Good(cfg, w) && w.Operand?
    ensures Meant(cfg, w) == []
  {
  }

  lemma EndScanned(cfg: Config, tail: seq<string>)
    requires Ends(tail)
    ensures var k := if tail == [] then 0 else 1; ScanAll(cfg, tail) == Scan([] + tail[..k], [] + tail[k..], [])
  {
    assert !NonOption("--");
    assert tail != [] ==> tail[..1] == ["--"];
  }

  /** One word in front. */
  lemma FirstWord(cfg: Config, w: Word, more: seq<string>)
    requires Good(cfg, w) && CStrings(more)
    ensures CStrings(Spelled(w) + more)
    ensures var r := ScanAll(cfg, more);
            ScanAll(cfg, Spelled(w) + more)
            == if w.Operand? then r.(operands := Spelled(w) + r.operands)
               else Scan(Spelled(w) + r.options, r.operands, Meant(cfg, w) + r.found)
  {
    hide ScanElement, Meant, FirstText;
    var args, n := Spelled(w) + more, |Spelled(w)|;
    assert args[n..] == more && args[..n] == Spelled(w);
    if !w.Operand? { WordScanned(cfg, w, more); }
  }

  /** Whoever says some words, in whatever order, is understood: the calls report the words meant, and leave the
      operands, in order, at the end of the vector. */
  lemma Understood(cfg: Config, prog: string, ws: seq<Word>, tail: seq<string>)
    requires NoLongW(cfg) && AllGood(cfg, ws) && Ends(tail) && '\0' !in prog
    ensures CStrings([prog] + (AllSpelled(ws) + tail))
    ensures var r := Run(cfg, Start([prog] + (AllSpelled(ws) + tail), 1, Permute));
            && r.found == AllMeant(cfg, ws) && r.s.optind <= |r.s.argv|
            && r.s.argv[r.s.optind..] == Operands(ws) + tail[if tail == [] then 0 else 1..]
            && r.s.argv[..r.s.optind] == [prog] + (Options(ws) + tail[..if tail == [] then 0 else 1])
  {
    hide AllGood, ScanAll, Run;
    WordsScanned(cfg, ws, tail);
    var argv := [prog] + (AllSpelled(ws) + tail);
    assert argv[1..] == AllSpelled(ws) + tail && argv[..1] == [prog];
    PermuteRun(cfg, argv, 1);
  }

  // ---------------------------------------------------------------- the other orderings

  /** The reports in RETURN_IN_ORDER: operands too, with result 1. */
  ghost function InOrderMeant(cfg: Config, ws: seq<Word>): seq<Found>
    requires AllGood(cfg, ws)
  {
    if ws == [] then [] else
    (if ws[0].Operand? then [Found(1, Some(ws[0].text), None, None, None)] else Meant(cfg, ws[0]))
    + InOrderMeant(cfg, ws[1..])
  }

  /** What a pass stops at behind the words: the end, "--", or an operand in REQUIRE_ORDER. */
  predicate StopsAt(ordering: Ordering, tail: seq<string>) {
    CStrings(tail) && (tail == [] || tail[0] == "--" || (ordering == RequireOrder && NonOption(tail[0])))
  }

  /** One word in front of a pass. */
  lemma FirstWordPassed(cfg: Config, ordering: Ordering, w: Word, more: seq<string>)
    requires Good(cfg, w) && CStrings(more) && ordering != Permute && (ordering == RequireOrder ==> !w.Operand?)
    ensures CStrings(Spelled(w) + more)
    ensures var r := PassOver(cfg, ordering, more);
            PassOver(cfg, ordering, Spelled(w) + more)
            == Pass((if w.Operand? then [Found(1, Some(w.text), None, None, None)] else Meant(cfg, w)) + r.found,
                    |Spelled(w)| + r.used)
  {
    hide ScanElement, Meant, FirstText;
    var args, n := Spelled(w) + more, |Spelled(w)|;
    assert args[n..] == more && args[..n] == Spelled(w) && !NonOption("--");
    if !w.Operand? { WordScanned(cfg, w, more); }
  }

  lemma {:induction false} WordsPassed(cfg: Config, ordering: Ordering, ws: seq<Word>, tail: seq<string>)
    requires AllGood(cfg, ws) && StopsAt(ordering, tail) && ordering != Permute
    requires ordering == RequireOrder ==> forall i :: 0 <= i < |ws| ==> !ws[i].Operand?
    ensures CStrings(AllSpelled(ws) + tail)
    ensures PassOver(cfg, ordering, AllSpelled(ws) + tail)
            == Pass(InOrderMeant(cfg, ws), |AllSpelled(ws)| + if tail != [] && tail[0] == "--" then 1 else 0)
  {
    hide Good, Meant, Spelled;
    if ws == [] {
      assert AllSpelled(ws) + tail == tail;
    } else {
      hide PassOver;
      WordsPassed(cfg, ordering, ws[1..], tail);
      Assoc(Spelled(ws[0]), AllSpelled(ws[1..]), tail);
      FirstWordPassed(cfg, ordering, ws[0], AllSpelled(ws[1..]) + tail);
    }
  }

  /** In the other orderings the calls report the words meant up to where they stop, RETURN_IN_ORDER the operands among
      them too, and move nothing. */
  lemma UnderstoodInOrder(cfg: Config, ordering: Ordering, prog: string, ws: seq<Word>, tail: seq<string>)
    requires NoLongW(cfg) && AllGood(cfg, ws) && StopsAt(ordering, tail) && ordering != Permute && '\0' !in prog
    requires ordering == RequireOrder ==> forall i :: 0 <= i < |ws| ==> !ws[i].Operand?
    ensures CStrings([prog] + (AllSpelled(ws) + tail))
    ensures var argv := [prog] + (AllSpelled(ws) + tail); var r := Run(cfg, Start(argv, 1, ordering));
            && r.found == InOrderMeant(cfg, ws) && r.s.argv == argv
            && r.s.optind == 1 + |AllSpelled(ws)| + if tail != [] && tail[0] == "--" then 1 else 0
  {
    hide AllGood, PassOver, Run;
    WordsPassed(cfg, ordering, ws, tail);
    var argv := [prog] + (AllSpelled(ws) + tail);
    assert argv[1..] == AllSpelled(ws) + tail;
    OrderRun(cfg, argv, 1, ordering);
  }
}
