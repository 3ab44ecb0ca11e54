/** What becomes of a parser that met its first boundary line too late: wherever in the body it did, the items that its
    callbacks add up to are not the items of the body. */
module MultipartStray {
  import opened Text
  import opened MultipartHeader
  import opened MultipartSpec
  import opened MultipartBody
  import opened MultipartSerializer
  import opened MultipartRun

  // ---------------------------------------------------------------- places in the body

  /** Where item `i` starts in the serialized body. */
  function Start(items: seq<Item>, b: string, i: nat): nat
    requires i <= |items|
  {
    |ItemsText(items[..i], b)|
  }

  lemma {:induction false} ItemsTextSplit(items: seq<Item>, b: string, i: nat)
    requires i <= |items|
    ensures ItemsText(items, b) == ItemsText(items[..i], b) + ItemsText(items[i..], b)
    decreases i
  {
    hide ItemBegin;
    if i == 0 {
      assert items[..0] == [] && items[0..] == items;
    } else {
      assert items[..i][1..] == items[1..][..i - 1] && items[1..][i - 1..] == items[i..];
      assert items[..i][0] == items[0];
      ItemsTextSplit(items[1..], b, i - 1);
    }
  }

  lemma SerializeFrom(items: seq<Item>, b: string, i: nat)
    requires i <= |items|
    ensures Start(items, b, i) <= |Serialize(items, b)|
    ensures Serialize(items, b)[Start(items, b, i)..] == Serialize(items[i..], b)
  {
    ItemsTextSplit(items, b, i);
    DropFirst(ItemsText(items[..i], b), ItemsText(items[i..], b), "--" + b + "--" + CRLF);
  }

  /** Where the content of item `i` starts, and where it ends. */
  function ContentAt(items: seq<Item>, b: string, i: nat): nat
    requires i < |items|
  {
    Start(items, b, i) + |Opening(b)| + |LinesText(LinesOf(items[i].info))|
  }

  function EndAt(items: seq<Item>, b: string, i: nat): nat
    requires i < |items|
  {
    ContentAt(items, b, i) + |items[i].content|
  }

  lemma Places(items: seq<Item>, b: string, i: nat)
    requires i < |items|
    ensures var s, todo := Serialize(items, b), items[i + 1..];
            && ContentAt(items, b, i) <= EndAt(items, b, i) <= |s|
            && s[ContentAt(items, b, i)..] == BodyText(items[i].content, todo, b)
            && s[EndAt(items, b, i)..] == Delimiter(b) + Tail(todo, b)
  {
    hide Serialize, LinesText, LinesOf, ItemsText, EntryText;
    var s, u, k := Serialize(items, b), items[i..], Start(items, b, i);
    SerializeFrom(items, b, i);
    SerializedTail(u, b);
    assert u[1..] == items[i + 1..] && u[0] == items[i];
    EntryParts(u, b);
    var head := Opening(b) + LinesText(LinesOf(u[0].info));
    var body := BodyText(u[0].content, u[1..], b);
    Assoc(Opening(b), LinesText(LinesOf(u[0].info)), body);
    CutLater(s, k, head, body, 0, 0);
    Assoc(u[0].content, Delimiter(b), Tail(u[1..], b));
    CutLater(s, k + |head|, u[0].content, Delimiter(b) + Tail(u[1..], b), 0, 0);
  }

  lemma EntryParts(u: seq<Item>, b: string)
    requires u != []
    ensures EntryText(u, b) == LinesText(LinesOf(u[0].info)) + BodyText(u[0].content, u[1..], b)
  {
  }

  lemma NextPlace(items: seq<Item>, b: string, i: nat)
    requires i + 1 < |items|
    ensures ContentAt(items, b, i + 1)
            == EndAt(items, b, i) + |Delimiter(b)| + 2 + |LinesText(LinesOf(items[i + 1].info))|
  {
    assert items[..i + 1] == items[..i] + [items[i]];
    ItemsTextAppend(items[..i], items[i], b);
    ItemBeginText(items[i].info, b);
  }

  // ---------------------------------------------------------------- where delimiters can be

  predicate NoDashes(s: string, o: nat) {
    !MatchAt(s, "\r\n--", o)
  }

  /** A line without a line end in it, that does not start with a dash. */
  predicate Lettered(lines: seq<string>) {
    forall i :: 0 <= i < |lines| ==> lines[i] != "" && lines[i][0] != '-' && Find(lines[i], CRLF) == |lines[i]|
  }

  /** A line end in a good line followed by its line end is that line end. */
  lemma LineEnd(line: string, more: string, o: nat)
    requires Find(line, CRLF) == |line| && o < |line| + 2 && MatchAt(line + CRLF + more, CRLF, o)
    ensures o == |line|
  {
    FindSpec(line, CRLF);
    var w := line + CRLF + more;
    assert w[o] == w[o..o + 2][0] && w[o + 1] == w[o..o + 2][1];
    if o + 1 < |line| {
      assert line[o..o + 2] == CRLF;
      assert MatchAt(line, CRLF, o);
    }
  }

  lemma DashNeeds(w: string, o: nat)
    ensures MatchAt(w, "\r\n--", o) ==> MatchAt(w, CRLF, o) && w[o] == '\r' && w[o + 2] == '-'
  {
    if MatchAt(w, "\r\n--", o) {
      assert w[o..o + 2] == w[o..o + 4][..2] == CRLF && w[o + 2] == w[o..o + 4][2] == '-' && w[o] == w[o..o + 4][0];
    }
  }

  lemma LinesHead(lines: seq<string>)
    requires Lettered(lines)
    ensures LinesText(lines) != "" && LinesText(lines)[0] != '-' && (lines != [] ==> LinesText(lines)[0] == lines[0][0])
  {
  }

  lemma {:induction false} NoDashInLines(lines: seq<string>, more: string, o: nat)
    requires Lettered(lines) && o + 2 < |LinesText(lines)|
    ensures NoDashes(LinesText(lines) + more, o)
    decreases |lines|
  {
    hide MatchAt;
    if lines != [] {
      var w, line, rest := LinesText(lines) + more, lines[0], LinesText(lines[1..]);
      assert w == line + CRLF + (rest + more);
      LinesHead(lines[1..]);
      DashNeeds(w, o);
      if o >= |line| + 2 {
        NoDashInLines(lines[1..], more, o - |line| - 2);
        SameDashes(line + CRLF, rest + more, o - |line| - 2);
      } else if MatchAt(w, CRLF, o) {
        LineEnd(line, rest + more, o);
        assert w[o + 2] == rest[0];
      }
    }
  }

  lemma SameDashes(u: string, v: string, o: nat)
    ensures MatchAt(u + v, "\r\n--", |u| + o) <==> MatchAt(v, "\r\n--", o)
  {
    if |u| + o + 4 <= |u + v| { assert (u + v)[|u| + o..|u| + o + 4] == v[o..o + 4]; }
  }

  lemma LinesLettered(info: FileInfo)
    requires GoodInfo(info)
    ensures Lettered(LinesOf(info))
  {
    assert DispositionLine(info.name, info.filename)[0] == 'C' && ContentTypeLine(info.contentType)[0] == 'C';
  }

  lemma DelimiterHead(s: string, b: string, e: nat)
    requires MatchAt(s, Delimiter(b), e)
    ensures MatchAt(s, "\r\n--", e) && s[e] == '\r'
  {
    var d := Delimiter(b);
    assert d[..4] == "\r\n--" && s[e..e + 4] == s[e..e + |d|][..4];
    assert s[e] == s[e..e + |d|][0];
  }

  /** In a text that starts with a delimiter there is no other where only its characters are. */
  lemma InsideDelimiter(s: string, b: string, o: nat)
    requires '\r' !in b && Delimiter(b) <= s && 0 < o < |Delimiter(b)|
    ensures s[o] != '\r'
  {
    var d := Delimiter(b);
    assert s[o] == d[o] && (o >= 4 ==> d[o] == b[o - 4]);
  }

  /** No delimiter starts inside a content. */
  lemma NoneInContent(items: seq<Item>, b: string, i: nat, e: nat)
    requires '\r' !in b && i < |items| && GoodItems(items, b) && ContentAt(items, b, i) <= e < EndAt(items, b, i)
    ensures !MatchAt(Serialize(items, b), Delimiter(b), e)
  {
    hide Serialize, ContentAt, GoodInfo, FindFrom, BodyText, Tail;
    var s, d, k := Serialize(items, b), Delimiter(b), ContentAt(items, b, i);
    Places(items, b, i);
    assert GoodItem(items[i], b);
    var t := BodyText(items[i].content, items[i + 1..], b);
    FirstDelimiter(items[i].content, items[i + 1..], b);
    FindSpec(t, d);
    ShiftedMatch(s, k, t, d, e - k);
  }

  lemma ShiftedMatch(s: string, k: nat, t: string, d: string, o: nat)
    requires k <= |s| && s[k..] == t
    ensures MatchAt(s, d, k + o) <==> MatchAt(t, d, o)
  {
    if k + o + |d| <= |s| { Shifted(s, k, t, k + o, |d|); }
  }

  lemma Shifted(s: string, k: nat, t: string, e: nat, n: nat)
    requires k <= |s| && s[k..] == t && k <= e && e + n <= |s|
    ensures e - k + n <= |t| && t[e - k..e - k + n] == s[e..e + n]
  {
  }

  /** After a content's delimiter the next one starts at the earliest on the empty line before the next content. */
  lemma NoneInHeader(items: seq<Item>, b: string, i: nat, e: nat)
    requires '\r' !in b && i + 1 < |items| && GoodItems(items, b) && EndAt(items, b, i) < e
    requires MatchAt(Serialize(items, b), Delimiter(b), e)
    ensures e + 2 >= ContentAt(items, b, i + 1)
  {
    hide Serialize, EndAt, ContentAt, LinesText, LinesOf, BodyText, Lettered, GoodInfo;
    var s, d, k, next := Serialize(items, b), Delimiter(b), EndAt(items, b, i), items[i + 1];
    NextPlace(items, b, i);
    assert GoodItem(next, b);
    LinesLettered(next.info);
    DelimiterHead(s, b, e);
    var lines, more := LinesOf(next.info), BodyText(next.content, items[i + 2..], b);
    NextHeader(items, b, i);
    var o := e - k;
    ShiftedMatch(s, k, d + (CRLF + (LinesText(lines) + more)), "\r\n--", o);
    if o < |d| + |LinesText(lines)| {
      HeaderDashes(d, b, lines, more, o);
    }
  }

  /** The text from a content's end on, up to the next content and further. */
  lemma NextHeader(items: seq<Item>, b: string, i: nat)
    requires i + 1 < |items|
    ensures var s, k, next := Serialize(items, b), EndAt(items, b, i), items[i + 1];
            && k <= |s| && LinesOf(next.info) != []
            && s[k..] == Delimiter(b) + (CRLF
                                         + (LinesText(LinesOf(next.info)) + BodyText(next.content, items[i + 2..], b)))
  {
    Places(items, b, i);
    hide Serialize, EndAt;
    assert items[i + 1..][1..] == items[i + 2..];
  }

  lemma HeaderDashes(d: string, b: string, lines: seq<string>, more: string, o: nat)
    requires '\r' !in b && d == Delimiter(b) && Lettered(lines) && lines != [] && 0 < o < |d| + |LinesText(lines)|
    ensures !MatchAt(d + (CRLF + (LinesText(lines) + more)), "\r\n--", o)
  {
    var u := LinesText(lines) + more;
    var t := d + (CRLF + u);
    DashNeeds(t, o);
    LinesHead(lines);
    if o < |d| {
      InsideDelimiter(t, b, o);
    } else if o >= |d| + 2 {
      NoDashInLines(lines, more, o - |d| - 2);
      SameDashes(d + CRLF, u, o - |d| - 2);
      assert t == d + CRLF + u;
    }
  }

  /** The last content's delimiter is the last. */
  lemma NoneAtEnd(items: seq<Item>, b: string, e: nat)
    requires '\r' !in b && items != [] && EndAt(items, b, |items| - 1) < e
    ensures !MatchAt(Serialize(items, b), Delimiter(b), e)
  {
    hide Serialize, EndAt, ContentAt;
    var s, d, k := Serialize(items, b), Delimiter(b), EndAt(items, b, |items| - 1);
    EndText(items, b);
    ShiftedMatch(s, k, d + ("--" + CRLF), d, e - k);
    OnlyOne(b, e - k);
  }

  lemma OnlyOne(b: string, o: nat)
    requires '\r' !in b && o > 0
    ensures !MatchAt(Delimiter(b) + ("--" + CRLF), Delimiter(b), o)
  {
    var d := Delimiter(b);
    var t := d + ("--" + CRLF);
    assert |d| == 4 ==> t[4] == '-';
    if o + |d| <= |t| {
      assert t[o..o + |d|][0] == t[o];
      if o < |d| { InsideDelimiter(t, b, o); }
    }
  }

  // ---------------------------------------------------------------- where a late parser stands

  /** Item `i` of the parser's is not item `i` of the body, and it can no longer become it. */
  predicate Dead(p: Parser, items: seq<Item>, i: nat) {
    var files := Collect(p.log);
    i < |files| && (i >= |items| || files[i].info != items[i].info
                    || ((i + 1 < |files| || p.state != 3) && files[i].content != items[i].content))
  }

  /** The parser has read up to `at` in the body and is ahead of where the items it has collected would have brought it;
      in the body state, the open item's content was entered at `x`. */
  ghost predicate Ahead(p: Parser, rest: string, items: seq<Item>, b: string, at: nat, x: nat) {
    var s, d, files := Serialize(items, b), Delimiter(b), Collect(p.log);
    var m := |files|;
    && at <= |s| && s[at..] == p.buf + rest
    && match p.state
       case 1 => m < |items| && ContentAt(items, b, m) < at && 2 <= at && s[at - 2..at] == CRLF
       case 2 => m < |items| && ContentAt(items, b, m) < at && 2 <= at && s[at - 2..at] == CRLF
       case 3 =>
         && 0 < m <= |items| && ContentAt(items, b, m - 1) + 2 < x <= at && 4 <= x && s[x - 4..x] == CRLF + CRLF
         && files[m - 1].content == s[x..at] && (x == at || at + |d| <= |s|)
         && (x <= EndAt(items, b, m - 1) ==> at <= EndAt(items, b, m - 1))
       case 4 => 0 < m < |items| && ContentAt(items, b, m) < at
       case _ => false
  }

  /** How a turn or a call leaves a late parser. */
  datatype Fate = Gone(i: nat) | Late(at: nat, x: nat)

  ghost predicate Holds(f: Fate, p: Parser, rest: string, items: seq<Item>, b: string) {
    match f
    case Gone(i) => Dead(p, items, i)
    case Late(at, x) => Ahead(p, rest, items, b, at, x)
  }

  // ---------------------------------------------------------------- turns of a parser that is gone

  lemma DeadKeeps(b: string, accept: Receiver, p: Parser, items: seq<Item>, i: nat)
    requires Dead(p, items, i)
    ensures Dead(TakeTurn(b, accept, p).p, items, i)
  {
    hide Find, ReadHeader;
    match p.state {
      case 2 => DeadHeader(accept, p, items, i);
      case 3 => DeadBody(b, accept, p, items, i);
      case _ =>
    }
  }

  lemma {:induction false} DeadHeader(accept: Receiver, p: Parser, items: seq<Item>, i: nat)
    requires Dead(p, items, i) && p.state == 2
    ensures Dead(HeaderLines(accept, p).p, items, i)
    decreases |p.buf|
  {
    hide ReadHeader;
    var pos := Find(p.buf, CRLF);
    CollectNext(p.log, Header(p.file));
    if 0 < pos < |p.buf| {
      var r := ReadHeader(p.buf[..pos], p.file);
      if r.ok { DeadHeader(accept, p.(file := r.file, buf := p.buf[pos + 2..]), items, i); }
    }
  }

  lemma DeadBody(b: string, accept: Receiver, p: Parser, items: seq<Item>, i: nat)
    requires Dead(p, items, i) && p.state == 3
    ensures Dead(BodyTurn(b, accept, p).p, items, i)
  {
    hide Find, Collect;
    var d := Delimiter(b);
    if |d| <= |p.buf| {
      var pos := Find(p.buf, d);
      var text := if pos < |p.buf| then p.buf[..pos] else p.buf[..|p.buf| - |d|];
      CollectNext(p.log, Content(text));
    }
  }

  // ---------------------------------------------------------------- turns of a late parser

  lemma {:induction false} LateHeader(accept: Receiver, p: Parser, rest: string, items: seq<Item>, b: string, at: nat,
                                      x: nat)
    returns (f: Fate)
    requires AcceptsAll(accept) && p.state == 2 && Ahead(p, rest, items, b, at, x)
    ensures var t := HeaderLines(accept, p); (t.Return? && !t.ok) || Holds(f, t.p, rest, items, b)
    decreases |p.buf|
  {
    hide ReadHeader, ContentAt, EndAt, Serialize, Find, Collect;
    var pos := Find(p.buf, CRLF);
    f := Late(at, x);
    if pos < |p.buf| {
      FindSpec(p.buf, CRLF);
      var s := Serialize(items, b);
      CutLater(s, at, p.buf, rest, pos, 2);
      if pos == 0 {
        EntersBody(p, rest, items, b, at, x);
        f := Late(at + 2, at + 2);
      } else {
        var r := ReadHeader(p.buf[..pos], p.file);
        if r.ok {
          CutLater(s, at, p.buf, rest, pos + 2, 0);
          f := LateHeader(accept, p.(file := r.file, buf := p.buf[pos + 2..]), rest, items, b, at + pos + 2, x);
        }
      }
    }
  }

  /** The empty line opens the content of a new item right behind it. */
  lemma EntersBody(p: Parser, rest: string, items: seq<Item>, b: string, at: nat, x: nat)
    requires p.state == 2 && Ahead(p, rest, items, b, at, x) && MatchAt(p.buf, CRLF, 0)
    ensures Ahead(p.(buf := p.buf[2..], state := 3, log := p.log + [Header(p.file)]), rest, items, b, at + 2, at + 2)
  {
    hide ContentAt, EndAt, Serialize, Collect;
    var s := Serialize(items, b);
    CollectNext(p.log, Header(p.file));
    CutLater(s, at, p.buf, rest, 0, 2);
    CutLater(s, at, p.buf, rest, 2, 0);
    Twice(s, at);
    assert s[at + 2..at + 2] == "";
  }

  lemma Twice(s: string, at: nat)
    requires 2 <= at && at + 2 <= |s| && s[at - 2..at] == CRLF && s[at..at + 2] == CRLF
    ensures s[at - 2..at + 2] == CRLF + CRLF
  {
    assert s[at - 2..at + 2] == s[at - 2..at] + s[at..at + 2];
  }

  /** The first delimiter in the buffer, as a place in the body, and that there is none before it from `at` on. */
  lemma FoundAt(s: string, at: nat, buf: string, rest: string, d: string)
    requires at <= |s| && s[at..] == buf + rest && d != ""
    ensures var pos := Find(buf, d);
            && (pos < |buf| ==> MatchAt(s, d, at + pos))
            && (forall e: nat :: at <= e && e + |d| <= at + |buf| && MatchAt(s, d, e) ==> pos < |buf| && at + pos <= e)
  {
    var pos := Find(buf, d);
    FindSpec(buf, d);
    if pos < |buf| { CutLater(s, at, buf, rest, pos, |d|); }
    forall e: nat | at <= e && e + |d| <= at + |buf| && MatchAt(s, d, e) ensures pos < |buf| && at + pos <= e {
      CutLater(s, at, buf, rest, e - at, |d|);
      assert MatchAt(buf, d, e - at);
    }
  }

  /** The true end of a content is a delimiter. */
  lemma EndMatches(items: seq<Item>, b: string, i: nat)
    requires i < |items|
    ensures var s, d, k := Serialize(items, b), Delimiter(b), EndAt(items, b, i); MatchAt(s, d, k)
  {
    hide Serialize, ContentAt, EndAt, Tail;
    var s, d, k := Serialize(items, b), Delimiter(b), EndAt(items, b, i);
    Places(items, b, i);
    CutLater(s, k, d, Tail(items[i + 1..], b), 0, |d|);
  }

  /** The delimiter at which an open item is closed: the true end of its content if the content was entered before that,
      and then the item is too short; else a later one, and the parser stays ahead. */
  lemma ClosedAt(items: seq<Item>, b: string, at: nat, buf: string, rest: string, i: nat, x: nat)
    requires '\r' !in b && GoodItems(items, b) && i < |items| && at <= |Serialize(items, b)|
             && Serialize(items, b)[at..] == buf + rest
    requires ContentAt(items, b, i) < x <= at && (x <= EndAt(items, b, i) ==> at <= EndAt(items, b, i))
    requires Find(buf, Delimiter(b)) < |buf|
    ensures var e := at + Find(buf, Delimiter(b));
            if x <= EndAt(items, b, i) then e == EndAt(items, b, i)
            else i + 1 < |items| && ContentAt(items, b, i + 1) < e + |Delimiter(b)|
  {
    hide ContentAt, EndAt, Serialize, Find;
    var s, d := Serialize(items, b), Delimiter(b);
    FoundAt(s, at, buf, rest, d);
    var e := at + Find(buf, d);
    if x <= EndAt(items, b, i) {
      EndMatches(items, b, i);
      if e < EndAt(items, b, i) { NoneInContent(items, b, i, e); }
    } else if i + 1 < |items| {
      NoneInHeader(items, b, i, e);
    } else {
      NoneAtEnd(items, b, e);
    }
  }

  /** A part of a content delivered without a delimiter in sight does not pass the true end. */
  lemma NotPassed(items: seq<Item>, b: string, at: nat, buf: string, rest: string, i: nat)
    requires i < |items| && at <= |Serialize(items, b)| && Serialize(items, b)[at..] == buf + rest
    requires at <= EndAt(items, b, i) && |Delimiter(b)| <= |buf| && Find(buf, Delimiter(b)) == |buf|
    ensures at + |buf| - |Delimiter(b)| <= EndAt(items, b, i)
  {
    hide ContentAt, EndAt, Serialize, Find;
    FoundAt(Serialize(items, b), at, buf, rest, Delimiter(b));
    EndMatches(items, b, i);
  }

  lemma LateBody(b: string, accept: Receiver, p: Parser, rest: string, items: seq<Item>, at: nat, x: nat)
    returns (f: Fate)
    requires '\r' !in b && GoodItems(items, b) && AcceptsAll(accept) && p.state == 3 && Ahead(p, rest, items, b, at, x)
    ensures Holds(f, BodyTurn(b, accept, p).p, rest, items, b)
  {
    hide ContentAt, EndAt, Serialize, Find, Collect, Ahead, Dead;
    var d := Delimiter(b);
    var pos := Find(p.buf, d);
    f := Late(at, x);
    if |d| <= |p.buf| {
      if pos < |p.buf| {
        f := Closes(b, p, rest, items, at, x);
      } else if |p.buf| > |d| {
        GoesOn(b, p, rest, items, at, x);
        f := Late(at + |p.buf| - |d|, x);
      }
    }
  }

  /** More of the open item's content. */
  lemma Delivers(b: string, p: Parser, rest: string, items: seq<Item>, at: nat, x: nat, n: nat)
    requires p.state == 3 && Ahead(p, rest, items, b, at, x) && n <= |p.buf|
    ensures var s, files, now := Serialize(items, b), Collect(p.log), Collect(p.log + [Content(p.buf[..n])]);
            && at + n <= |s| && s[at + n..] == p.buf[n..] + rest
            && |now| == |files| > 0 && now[|files| - 1].content == s[x..at + n]
  {
    hide ContentAt, EndAt, Serialize, Collect;
    var s := Serialize(items, b);
    CutLater(s, at, p.buf, rest, n, 0);
    CutLater(s, at, p.buf, rest, 0, n);
    Grows(s, x, at, n, p.buf);
    CollectNext(p.log, Content(p.buf[..n]));
  }

  lemma Closes(b: string, p: Parser, rest: string, items: seq<Item>, at: nat, x: nat) returns (f: Fate)
    requires '\r' !in b && GoodItems(items, b) && p.state == 3 && Ahead(p, rest, items, b, at, x)
             && Find(p.buf, Delimiter(b)) < |p.buf|
    ensures var pos := Find(p.buf, Delimiter(b));
            Holds(f, p.(buf := p.buf[pos + |Delimiter(b)|..], state := 4, log := p.log + [Content(p.buf[..pos])]),
                  rest, items, b)
  {
    hide ContentAt, EndAt, Serialize, Find, Collect;
    var d, i, pos := Delimiter(b), |Collect(p.log)| - 1, Find(p.buf, Delimiter(b));
    Delivers(b, p, rest, items, at, x, pos);
    ClosedAt(items, b, at, p.buf, rest, i, x);
    CutLater(Serialize(items, b), at, p.buf, rest, pos + |d|, 0);
    if x <= EndAt(items, b, i) {
      TooShort(items, b, i, x);
      f := Gone(i);
    } else {
      f := Late(at + pos + |d|, x);
    }
  }

  lemma GoesOn(b: string, p: Parser, rest: string, items: seq<Item>, at: nat, x: nat)
    requires p.state == 3 && Ahead(p, rest, items, b, at, x) && |Delimiter(b)| < |p.buf| == Find(p.buf, Delimiter(b))
    ensures var n := |p.buf| - |Delimiter(b)|;
            Ahead(p.(buf := p.buf[n..], log := p.log + [Content(p.buf[..n])]), rest, items, b, at + n, x)
  {
    hide ContentAt, EndAt, Serialize, Find, Collect;
    var i, n := |Collect(p.log)| - 1, |p.buf| - |Delimiter(b)|;
    Delivers(b, p, rest, items, at, x, n);
    if at <= EndAt(items, b, i) { NotPassed(items, b, at, p.buf, rest, i); }
  }

  lemma Grows(s: string, x: nat, at: nat, n: nat, buf: string)
    requires x <= at && at + n <= |s| && n <= |buf| && s[at..at + n] == buf[0..n]
    ensures s[x..at + n] == s[x..at] + buf[..n]
  {
  }

  lemma TooShort(items: seq<Item>, b: string, i: nat, x: nat)
    requires i < |items| && ContentAt(items, b, i) < x <= EndAt(items, b, i)
    ensures EndAt(items, b, i) <= |Serialize(items, b)|
            && Serialize(items, b)[x..EndAt(items, b, i)] != items[i].content
  {
    Places(items, b, i);
  }

  lemma LateBoundary(p: Parser, rest: string, items: seq<Item>, b: string, at: nat, x: nat) returns (f: Fate)
    requires p.state == 4 && Ahead(p, rest, items, b, at, x)
    ensures Holds(f, BoundaryTurn(p).p, rest, items, b)
  {
    hide ContentAt, EndAt, Serialize;
    var s := Serialize(items, b);
    f := Late(at, x);
    if 2 <= |p.buf| && CRLF <= p.buf {
      CutLater(s, at, p.buf, rest, 2, 0);
      CutLater(s, at, p.buf, rest, 0, 2);
      f := Late(at + 2, x);
    } else if 2 <= |p.buf| && "--" <= p.buf {
      CutLater(s, at, p.buf, rest, 0, 0);
      assert "" + rest == rest;
      f := Late(at + |p.buf|, x);
    }
  }

  /** Every turn of a late parser leaves it late or gone. */
  lemma LateTurn(b: string, accept: Receiver, p: Parser, rest: string, items: seq<Item>, f: Fate) returns (g: Fate)
    requires '\r' !in b && GoodItems(items, b) && AcceptsAll(accept) && Holds(f, p, rest, items, b)
    ensures var t := TakeTurn(b, accept, p); (t.Return? && !t.ok) || Holds(g, t.p, rest, items, b)
  {
    hide ContentAt, EndAt, Serialize, Find, HeaderLines, BodyTurn;
    g := f;
    if f.Gone? {
      DeadKeeps(b, accept, p, items, f.i);
    } else {
      match p.state {
        case 2 => g := LateHeader(accept, p, rest, items, b, f.at, f.x);
        case 3 => g := LateBody(b, accept, p, rest, items, f.at, f.x);
        case 4 => g := LateBoundary(p, rest, items, b, f.at, f.x);
        case _ =>
      }
    }
  }

  /** So does every call, which in the body state ends only when no delimiter is left in the buffer. */
  lemma {:induction false} LateLoop(b: string, accept: Receiver, p: Parser, rest: string, items: seq<Item>, f: Fate)
    returns (g: Fate)
    requires '\r' !in b && GoodItems(items, b) && AcceptsAll(accept) && Holds(f, p, rest, items, b)
    ensures var o := Loop(b, accept, p);
            !o.ok || (Holds(g, o.p, rest, items, b) && (o.p.state == 3 ==> Find(o.p.buf, Delimiter(b)) == |o.p.buf|))
    decreases |p.buf|, Rank(p)
  {
    hide Holds, Find, HeaderTurn, BoundaryTurn;
    g := f;
    if p.buf != "" {
      TurnShrinks(b, accept, p);
      g := LateTurn(b, accept, p, rest, items, f);
      var t := TakeTurn(b, accept, p);
      match t {
        case Next(q) => g := LateLoop(b, accept, q, rest, items, g);
        case Return(q, ok) => if ok && q.state == 3 { RestsInBody(b, accept, p); }
      }
    } else {
      FindSpec(p.buf, Delimiter(b));
    }
  }

  /** A turn that returns in the body state leaves no delimiter in the buffer. */
  lemma RestsInBody(b: string, accept: Receiver, p: Parser)
    requires var t := TakeTurn(b, accept, p); t.Return? && t.ok && t.p.state == 3
    ensures Find(TakeTurn(b, accept, p).p.buf, Delimiter(b)) == |TakeTurn(b, accept, p).p.buf|
  {
    if p.state == 2 {
      HeaderStays(accept, p);
    } else {
      var d := Delimiter(b);
      FindSpec(p.buf, d);
      if |d| > |p.buf| {
        FindNone(p.buf, d);
      } else {
        AfterDelivery(p.buf, d, |p.buf| - |d|);
      }
    }
  }

  lemma {:induction false} HeaderStays(accept: Receiver, p: Parser)
    requires p.state == 2
    ensures HeaderLines(accept, p).Return? ==> HeaderLines(accept, p).p.state == 2
    decreases |p.buf|
  {
    hide ReadHeader;
    var pos := Find(p.buf, CRLF);
    if 0 < pos < |p.buf| {
      var r := ReadHeader(p.buf[..pos], p.file);
      if r.ok { HeaderStays(accept, p.(file := r.file, buf := p.buf[pos + 2..])); }
    }
  }

  // ---------------------------------------------------------------- the end of a late run

  /** All items arrived, in a run that ended valid. */
  ghost predicate Arrived(o: Outcome, items: seq<Item>) {
    o.ok && o.p.valid && Collect(o.p.log) == items
  }

  lemma EndText(items: seq<Item>, b: string)
    requires items != []
    ensures var s, k, c := Serialize(items, b), EndAt(items, b, |items| - 1), items[|items| - 1].content;
            && k <= |s| && s[k..] == Delimiter(b) + ("--" + CRLF)
            && |c| <= k && k - |c| == ContentAt(items, b, |items| - 1) && s[k - |c|..k] == c
  {
    var n := |items| - 1;
    var s, d, c := Serialize(items, b), Delimiter(b), items[n].content;
    Places(items, b, n);
    assert items[|items|..] == [];
    Assoc(c, d, Tail([], b));
    CutLater(s, ContentAt(items, b, n), c, d + Tail([], b), 0, |c|);
  }

  /** An empty line past the end of the last content can only be the line end right there. */
  lemma LastBlank(s: string, k: nat, b: string, x: nat)
    requires '\r' !in b && k < x <= |s| && s[k..] == Delimiter(b) + ("--" + CRLF) && 4 <= x
             && s[x - 4..x] == CRLF + CRLF
    ensures x == k + 2
  {
    var d := Delimiter(b);
    var t, y, o := s[k..], s[x - 4..x], x - 2 - k;
    assert s[k] == t[0];
    assert s[x - 3] == y[1] == '\n' && s[x - 2] == y[2] == '\r' && s[x - 1] == y[3] == '\n';
    assert t[0] == '\r' && t[|d|] == '-' && t[|d| + 1] == '-' && t[|d| + 3] == '\n';
    assert o >= 0 ==> t[o] == s[x - 2];
    assert o >= 1 ==> t[o - 1] == s[x - 3];
    if 0 < o < |d| { InsideDelimiter(t, b, o); }
  }

  /** What follows the last content's end is not a content that ends with a line feed. */
  lemma NotDashes(s: string, k: nat, b: string, c: string, at: nat)
    requires k <= |s| && s[k..] == Delimiter(b) + ("--" + CRLF) && k + 2 <= at <= |s|
             && (at == k + 2 || at + |Delimiter(b)| <= |s|)
    requires 0 < |c| <= k && s[k - |c|..k] == c && s[k - 1] == '\n'
    ensures s[k + 2..at] != c
  {
    var t, o := s[k..], |c| - 1;
    assert c[o] == s[k - 1];
    assert t[2] == '-' && t[3] == '-' && s[k + 2] == t[2] && s[k + 3] == t[3];
    if |s[k + 2..at]| == |c| { assert s[k + 2..at][o] == s[k + 2 + o]; }
  }

  /** A content entered behind the true end of the last is not that content. */
  lemma PastTheEnd(items: seq<Item>, b: string, x: nat, at: nat)
    requires '\r' !in b && items != [] && EndAt(items, b, |items| - 1) < x <= at <= |Serialize(items, b)|
    requires ContentAt(items, b, |items| - 1) + 2 < x && 4 <= x && Serialize(items, b)[x - 4..x] == CRLF + CRLF
    requires x == at || at + |Delimiter(b)| <= |Serialize(items, b)|
    ensures Serialize(items, b)[x..at] != items[|items| - 1].content
  {
    hide EndAt, ContentAt, Serialize;
    var s, k, c := Serialize(items, b), EndAt(items, b, |items| - 1), items[|items| - 1].content;
    EndText(items, b);
    LastBlank(s, k, b, x);
    assert s[k - 1] == s[x - 4..x][1];
    NotDashes(s, k, b, c, at);
  }

  lemma LateEnd(b: string, p: Parser, items: seq<Item>, f: Fate)
    requires '\r' !in b && Holds(f, p, "", items, b) && (p.state == 3 ==> Find(p.buf, Delimiter(b)) == |p.buf|)
    ensures Collect(p.log) != items
  {
    hide ContentAt, EndAt, Serialize, Find, Collect;
    if f.Late? && p.state == 3 && |Collect(p.log)| == |items| {
      var s, i := Serialize(items, b), |items| - 1;
      assert p.buf + "" == p.buf;
      EndMatches(items, b, i);
      FoundAt(s, f.at, p.buf, "", Delimiter(b));
      PastTheEnd(items, b, f.x, f.at);
    }
  }

  /** A late parser never delivers the items, whatever the cut of what is still to come. */
  lemma {:induction false} LateFeed(b: string, accept: Receiver, p: Parser, chunks: seq<string>, items: seq<Item>,
                                    f: Fate)
    requires '\r' !in b && GoodItems(items, b) && AcceptsAll(accept) && Holds(f, p, Joined(chunks), items, b)
    requires p.state == 3 ==> Find(p.buf, Delimiter(b)) == |p.buf|
    ensures !Arrived(Feed(b, accept, p, chunks), items)
    decreases |chunks|
  {
    hide ContentAt, EndAt, Serialize, Find, Collect, Loop;
    if chunks == [] {
      LateEnd(b, p, items, f);
    } else {
      var q, rest := p.(buf := p.buf + chunks[0]), Joined(chunks[1..]);
      Assoc(p.buf, chunks[0], rest);
      var g := LateLoop(b, accept, q, rest, items, f);
      var o := Parse(b, accept, p, chunks[0]);
      if o.ok { LateFeed(b, accept, o.p, chunks[1..], items, g); }
    }
  }

  // ---------------------------------------------------------------- a boundary line in the header of the first item

  /** Which line end of the header a line end is: that of a line, or the empty line. */
  lemma {:induction false} EndsLine(lines: seq<string>, more: string, o: nat) returns (k: nat)
    requires Lettered(lines) && MatchAt(LinesText(lines) + more, CRLF, o) && o + 2 <= |LinesText(lines)|
    ensures k <= |lines| && (k == |lines| ==> o + 2 == |LinesText(lines)|)
    ensures k < |lines| ==>
              (LinesText(lines) + more)[o + 2..] == LinesText(lines[k + 1..]) + more && (k == 0 ==> o == |lines[0]|)
    decreases |lines|
  {
    if lines == [] {
      return 0;
    }
    var w, line, rest := LinesText(lines) + more, lines[0], LinesText(lines[1..]);
    assert w == line + CRLF + (rest + more);
    if o < |line| + 2 {
      LineEnd(line, rest + more, o);
      k := 0;
      assert w[o + 2..] == rest + more;
    } else {
      var j := o - |line| - 2;
      assert (rest + more)[j..j + 2] == w[o..o + 2];
      k := EndsLine(lines[1..], more, j);
      assert w[o + 2..] == (rest + more)[j + 2..];
      if k < |lines| - 1 { assert lines[1..][k + 1..] == lines[k + 2..]; }
      k := k + 1;
    }
  }

  lemma {:induction false} LinesTail(lines: seq<string>)
    ensures var w := LinesText(lines); 2 <= |w| && w[|w| - 2..] == CRLF
    ensures var w := LinesText(lines); lines != [] ==> 4 <= |w| && w[|w| - 4..] == CRLF + CRLF
    decreases |lines|
  {
    if lines != [] {
      LinesTail(lines[1..]);
      TailOf(lines[0], CRLF, LinesText(lines[1..]));
    }
  }

  lemma TailOf(line: string, x: string, rest: string)
    requires |x| == 2 && 2 <= |rest|
    ensures var w := line + x + rest;
            && 4 <= |w| && w[|w| - 2..] == rest[|rest| - 2..]
            && (|rest| == 2 ==> w[|w| - 4..] == x + rest) && (|rest| >= 4 ==> w[|w| - 4..] == rest[|rest| - 4..])
  {
  }

  /** Without a name the disposition line has no two dashes in a row. */
  lemma NoDashPair(i: nat)
    requires i + 1 < |DispositionLine("", "")|
    ensures var l := DispositionLine("", ""); !(l[i] == '-' && l[i + 1] == '-')
  {
    hide DispositionLine;
    NamelessLine();
    DashFree();
    DashesApart("Content", "Disposition: form", "data; name=\"\"", i);
  }

  lemma NamelessLine()
    ensures DispositionLine("", "") == "Content" + "-" + "Disposition: form" + "-" + "data; name=\"\""
  {
  }

  lemma DashFree()
    ensures '-' !in "Content" && '-' !in "Disposition: form" && '-' !in "data; name=\"\""
  {
  }

  lemma DashesApart(a: string, c: string, e: string, i: nat)
    requires '-' !in a && '-' !in c && '-' !in e && c != "" && i + 1 < |a + "-" + c + "-" + e|
    ensures var l := a + "-" + c + "-" + e; !(l[i] == '-' && l[i + 1] == '-')
  {
    var l := a + "-" + c + "-" + e;
    assert i < |a| ==> l[i] == a[i];
    assert |a| < i <= |a| + |c| ==> l[i] == c[i - |a| - 1];
    assert i == |a| ==> l[i + 1] == c[0];
    assert i > |a| + |c| ==> l[i + 1] == e[i - |a| - |c| - 1];
  }

  /** What is left of a header when its first line is lost, or more: not the information of the item. */
  lemma LostInfo(info: FileInfo, k: nat)
    requires GoodInfo(info) && k < |LinesOf(info)|
    ensures var r := LinesOf(info)[k + 1..]; var h := ReadLines(r, EMPTY_FILE);
            && GoodLines(r) && h.ok && GoodInfo(h.file)
            && (h.file == info ==> k == 0 && info.name == "" && info.filename == "")
  {
    hide DispositionLine;
    var lines, t := LinesOf(info), info.contentType;
    var r := lines[k + 1..];
    EmptyGood(t);
    if |r| == 1 {
      assert r == [ContentTypeLine(t)] && r[1..] == [];
      ContentTypeRoundTrip(t, EMPTY_FILE);
    } else {
      assert r == [];
    }
  }

  lemma EmptyGood(t: string)
    requires Trimmed(t) && GoodLine(ContentTypeLine(t))
    ensures GoodInfo(EMPTY_FILE) && GoodInfo(EMPTY_FILE.(contentType := t))
  {
    NamelessGood();
    TypelessGood();
    hide DispositionLine, ContentTypeLine, GoodLine;
  }

  lemma NamelessGood()
    ensures GoodLine(DispositionLine("", ""))
  {
    var l := DispositionLine("", "");
    assert |l| == 39 && '\r' !in l;
    hide DispositionLine;
    NoCr(l);
  }

  lemma TypelessGood()
    ensures GoodLine(ContentTypeLine(""))
  {
    var c := ContentTypeLine("");
    assert |c| == 14 && '\r' !in c;
    hide ContentTypeLine;
    NoCr(c);
  }

  lemma NoCr(l: string)
    requires '\r' !in l
    ensures Find(l, CRLF) == |l|
  {
    forall j: nat | j < |l| ensures !MatchAt(l, CRLF, j) { if j + 2 <= |l| { assert l[j..j + 2][0] == l[j]; } }
    FindNone(l, CRLF);
  }

  /** Where a boundary line not at the start of the body leaves the parser: past the start of the first content, or in
      the middle of the first header, whose remaining lines are `r`. */
  lemma LateEntry(items: seq<Item>, b: string, j: nat) returns (r: seq<string>)
    requires '\r' !in b && items != [] && GoodItems(items, b) && j > 0 && MatchAt(Serialize(items, b), Opening(b), j)
    ensures var s, q, h := Serialize(items, b), j + |Opening(b)|, ReadLines(r, EMPTY_FILE);
            && s[q - 2..q] == CRLF
            && (ContentAt(items, b, 0) < q
                || (s[q..] == LinesText(r) + BodyText(items[0].content, items[1..], b)
                    && GoodLines(r) && h.ok && GoodInfo(h.file) && h.file != items[0].info))
  {
    var s, o := Serialize(items, b), Opening(b);
    var q, more := j + |o|, BodyText(items[0].content, items[1..], b);
    r := [];
    EndsWithCrlf(s, o, j);
    FirstItem(items, b);
    assert GoodItem(items[0], b);
    hide Serialize, BodyText, ContentAt, GoodInfo, LinesText, LinesOf, GoodLines;
    if q <= ContentAt(items, b, 0) {
      r := HeaderEntry(items[0].info, b, more, s, j);
    }
  }

  lemma HeaderEntry(info: FileInfo, b: string, more: string, s: string, j: nat) returns (r: seq<string>)
    requires '\r' !in b && GoodInfo(info) && s == Opening(b) + (LinesText(LinesOf(info)) + more)
    requires 0 < j <= |LinesText(LinesOf(info))| && MatchAt(s, Opening(b), j)
    ensures var h := ReadLines(r, EMPTY_FILE);
            s[j + |Opening(b)|..] == LinesText(r) + more && GoodLines(r) && h.ok && GoodInfo(h.file) && h.file != info
  {
    hide GoodInfo, LinesText, DispositionLine;
    var lines := LinesOf(info);
    LinesLettered(info);
    var k := EntryLine(b, lines, more, s, j);
    LostInfo(info, k);
    r := lines[k + 1..];
    if k == 0 && info.name == "" && info.filename == "" {
      NoEntryThere(b, more, lines, s);
    }
  }

  lemma EndsWithCrlf(s: string, o: string, j: nat)
    requires MatchAt(s, o, j) && |o| >= 2 && o[|o| - 2..] == CRLF
    ensures s[j + |o| - 2..j + |o|] == CRLF
  {
    assert s[j + |o| - 2..j + |o|] == s[j..j + |o|][|o| - 2..];
  }

  lemma FirstItem(items: seq<Item>, b: string)
    requires items != []
    ensures var lines := LinesOf(items[0].info);
            && ContentAt(items, b, 0) == |Opening(b)| + |LinesText(lines)|
            && Serialize(items, b) == Opening(b) + (LinesText(lines) + BodyText(items[0].content, items[1..], b))
  {
    SerializedTail(items, b);
    assert items[..0] == [];
  }

  /** The line of the header that such a boundary line ends with. */
  lemma EntryLine(b: string, lines: seq<string>, more: string, s: string, j: nat) returns (k: nat)
    requires '\r' !in b && Lettered(lines) && lines != [] && s == Opening(b) + (LinesText(lines) + more)
    requires 0 < j && MatchAt(s, Opening(b), j) && j <= |LinesText(lines)|
    ensures k < |lines| && s[j + |Opening(b)|..] == LinesText(lines[k + 1..]) + more
    ensures k == 0 ==> j == |lines[0]| + 2
  {
    hide LinesText, Lettered;
    var w := LinesText(lines) + more;
    BehindOpening(b, w, s, j);
    k := EndsLine(lines, more, j - 2);
    if k == |lines| { NotTheBlank(b, lines, more, s); }
  }

  /** A boundary line that starts behind the start of the body ends behind the first one. */
  lemma BehindOpening(b: string, w: string, s: string, j: nat)
    requires s == Opening(b) + w && 0 < j && MatchAt(s, Opening(b), j)
    ensures 2 <= j <= |w| && w[j - 2..j] == CRLF && s[j + |Opening(b)|..] == w[j..]
  {
    var o, q := Opening(b), j + |Opening(b)|;
    EndsWithCrlf(s, o, j);
    assert s[q - 2] == s[q - 2..q][0] == '\r' && s[|o| - 1] == o[|o| - 1] == '\n';
    assert w[j - 2..j] == s[q - 2..q];
  }

  lemma NotTheBlank(b: string, lines: seq<string>, more: string, s: string)
    requires '\r' !in b && lines != [] && s == Opening(b) + (LinesText(lines) + more)
    ensures !MatchAt(s, Opening(b), |LinesText(lines)|)
  {
    var o, t := Opening(b), LinesText(lines);
    LinesTail(lines);
    var j, i := |t|, |o| - 4;
    var q := j + |o|;
    assert s[q - 4] == t[j - 4] == t[j - 4..][0] == '\r';
    assert o[i] == if i < 2 then '-' else b[i - 2];
    assert q <= |s| ==> s[q - 4] == s[j..q][i];
  }

  lemma NoEntryThere(b: string, more: string, lines: seq<string>, s: string)
    requires '\r' !in b && s == Opening(b) + (LinesText(lines) + more) && lines != []
             && lines[0] == DispositionLine("", "")
    ensures !MatchAt(s, Opening(b), |lines[0]| + 2)
  {
    hide DispositionLine;
    var l := lines[0];
    forall i: nat | i + 1 < |l| ensures !(l[i] == '-' && l[i + 1] == '-') { NoDashPair(i); }
    assert s == Opening(b) + (l + (CRLF + LinesText(lines[1..]) + more));
    NoPairThere(b, l, CRLF + LinesText(lines[1..]) + more);
  }

  lemma NoPairThere(b: string, l: string, more: string)
    requires '\r' !in b && forall i: nat :: i + 1 < |l| ==> !(l[i] == '-' && l[i + 1] == '-')
    ensures !MatchAt(Opening(b) + (l + more), Opening(b), |l| + 2)
  {
    var o, j := Opening(b), |l| + 2;
    var s, i := o + (l + more), |o| - 2;
    assert o[i] == '\r' && o[i + 1] == '\n' && s[i] == o[i] && s[i + 1] == o[i + 1] && o[0] == '-' && o[1] == '-';
    if j <= i {
      var m := i - j;
      assert o[m] == if m < 2 then '-' else b[m - 2];
      assert j + |o| <= |s| ==> s[j..j + |o|][m] == s[i];
    } else {
      assert j + |o| <= |s| ==> s[j..j + |o|][0] == s[j] && s[j..j + |o|][1] == s[j + 1];
      assert j > i + 1 ==> s[j] == l[j - |o|] && s[j + 1] == l[j - |o| + 1];
    }
  }

  /** A header whose first lines are lost: the run is that of a body with another first item. */
  lemma {:induction false} WrongFeed(b: string, accept: Receiver, items: seq<Item>, p: Parser, chunks: seq<string>,
                                     r: seq<string>)
    requires '\r' !in b && AcceptsAll(accept) && items != [] && GoodItems(items, b) && p.state == 1
             && Collect(p.log) == []
    requires p.buf + Joined(chunks) == LinesText(r) + BodyText(items[0].content, items[1..], b)
    requires GoodLines(r) && ReadLines(r, EMPTY_FILE) == HeaderResult(items[0].info, true)
    ensures Collect(Resume(b, accept, p, chunks).p.log) == items
    decreases |chunks|
  {
    hide Stands, Collect, LinesText, BodyText, GoodItems, GoodLines, ReadLines;
    if p.buf == "" {
      assert "" + Joined(chunks) == Joined(chunks);
      NonEmptyBody(r, items, b);
      var q := p.(buf := chunks[0]);
      assert p.(buf := p.buf + chunks[0]) == q;
      assert Resume(b, accept, p, chunks) == Resume(b, accept, q, chunks[1..]);
      WrongFeed(b, accept, items, q, chunks[1..], r);
    } else {
      var q := p.(state := 2, file := EMPTY_FILE);
      assert Loop(b, accept, p) == Loop(b, accept, q);
      WrongStands(b, items, q, Joined(chunks), r);
      var pos := LoopStands(b, accept, q, Joined(chunks), items, AtLines(r, items));
      pos := FeedStands(b, accept, Loop(b, accept, q).p, chunks, items, pos);
      FinishedItems(pos, Feed(b, accept, Loop(b, accept, q).p, chunks).p, items, b);
    }
  }

  lemma NonEmptyBody(r: seq<string>, items: seq<Item>, b: string)
    requires items != []
    ensures LinesText(r) + BodyText(items[0].content, items[1..], b) != ""
  {
    LinesTail(r);
  }

  lemma WrongStands(b: string, items: seq<Item>, q: Parser, rest: string, r: seq<string>)
    requires items != [] && GoodItems(items, b) && q.state == 2 && Collect(q.log) == []
    requires q.buf + rest == LinesText(r) + BodyText(items[0].content, items[1..], b)
    requires GoodLines(r) && ReadLines(r, q.file) == HeaderResult(items[0].info, true)
    ensures Stands(AtLines(r, items), q, rest, items, b)
  {
    assert [] + items == items;
  }

  lemma FinishedItems(pos: Position, p: Parser, items: seq<Item>, b: string)
    requires pos == Finished && Stands(pos, p, "", items, b)
    ensures Collect(p.log) == items
  {
  }
}
