/** The run of the multipart parser over a serialized body: an invariant over every call of every split. */
module MultipartRun {
  import opened Text
  import opened MultipartHeader
  import opened MultipartSpec
  import opened MultipartBody
  import opened MultipartSerializer

  // ---------------------------------------------------------------- what can be carried

  /** A header line short enough for every split, and with no line end in it. */
  predicate GoodLine(line: string) {
    0 < |line| < HEADER_MAX_LENGTH && Find(line, CRLF) == |line|
  }

  predicate GoodInfo(info: FileInfo) {
    && PlainValue(info.name) && PlainValue(info.filename) && Trimmed(info.contentType)
    && GoodLine(DispositionLine(info.name, info.filename)) && GoodLine(ContentTypeLine(info.contentType))
  }

  predicate GoodItem(item: Item, b: string) {
    GoodInfo(item.info) && Find(item.content, Delimiter(b)) == |item.content|
  }

  predicate GoodItems(items: seq<Item>, b: string) {
    forall i :: 0 <= i < |items| ==> GoodItem(items[i], b)
  }

  // ---------------------------------------------------------------- where a run stands

  datatype Position =
    | AtEntry(todo: seq<Item>)
    | AtLines(lines: seq<string>, todo: seq<Item>)
    | InBody(left: string, todo: seq<Item>)
    | AtBoundary(todo: seq<Item>)
    | Finished

  predicate GoodLines(lines: seq<string>) {
    forall i :: 0 <= i < |lines| ==> GoodLine(lines[i])
  }

  /** What reading header lines one after the other leaves in `file_`. */
  function ReadLines(lines: seq<string>, f: FileInfo): HeaderResult {
    if lines == [] then HeaderResult(f, true) else
    var r := ReadHeader(lines[0], f);
    if r.ok then ReadLines(lines[1..], r.file) else r
  }

  /** The parser `p`, with `rest` of the body still to be passed to it, stands at `pos`. */
  ghost predicate Stands(pos: Position, p: Parser, rest: string, items: seq<Item>, b: string) {
    var text, files := p.buf + rest, Collect(p.log);
    match pos
    case AtEntry(todo) =>
      && p.state == 1 && todo != [] && GoodItems(todo, b)
      && text == EntryText(todo, b) && files + todo == items
    case AtLines(lines, todo) =>
      && p.state == 2 && todo != [] && GoodItems(todo, b) && GoodLines(lines)
      && ReadLines(lines, p.file) == HeaderResult(todo[0].info, true)
      && text == LinesText(lines) + BodyText(todo[0].content, todo[1..], b) && files + todo == items
    case InBody(left, todo) =>
      && p.state == 3 && GoodItems(todo, b) && Find(left, Delimiter(b)) == |left|
      && text == BodyText(left, todo, b) && files != [] && AppendContent(files, left) + todo == items
    case AtBoundary(todo) =>
      && p.state == 4 && GoodItems(todo, b) && text == Tail(todo, b) && files + todo == items
    case Finished =>
      && p.valid && files == items
      && ((p.state == 4 && text in {"", "\n", CRLF}) || (p.state == 1 && text == ""))
  }

  /** A turn keeps its stand, and returns only for want of more input. */
  ghost predicate KeepsStand(t: Turn, pos: Position, rest: string, items: seq<Item>, b: string) {
    Stands(pos, t.p, rest, items, b) && (t.Return? ==> t.ok && (rest == "" ==> pos.Finished?))
  }

  // ---------------------------------------------------------------- one turn, state by state

  lemma LinesOfRead(info: FileInfo)
    requires GoodInfo(info)
    ensures GoodLines(LinesOf(info)) && ReadLines(LinesOf(info), EMPTY_FILE) == HeaderResult(info, true)
  {
    var lines := LinesOf(info);
    DispositionRoundTrip(info.name, info.filename, EMPTY_FILE);
    var f := FileInfo(info.name, info.filename, "");
    assert ReadHeader(lines[0], EMPTY_FILE) == HeaderResult(f, true);
    if info.contentType == "" {
      assert lines[1..] == [];
    } else {
      ContentTypeRoundTrip(info.contentType, f);
      assert lines[1..] == [ContentTypeLine(info.contentType)];
      assert lines[1..][1..] == [];
      assert ReadLines(lines[1..], f) == HeaderResult(info, true);
    }
  }

  lemma EntryTurn(b: string, accept: Receiver, p: Parser, rest: string, items: seq<Item>, todo: seq<Item>)
    returns (pos: Position)
    requires Stands(AtEntry(todo), p, rest, items, b)
    ensures KeepsStand(TakeTurn(b, accept, p), pos, rest, items, b)
  {
    LinesOfRead(todo[0].info);
    pos := AtLines(LinesOf(todo[0].info), todo);
  }

  /** A line complete in the buffer, or not: where `buf_find` sees its end. */
  lemma LineInBuffer(buf: string, rest: string, line: string, t: string)
    requires buf + rest == line + CRLF + t && Find(line, CRLF) == |line|
    ensures Find(buf, CRLF) == if |line| + 2 <= |buf| then |line| else |buf|
    ensures |line| + 2 <= |buf| ==> buf[..|line|] == line && buf[|line| + 2..] + rest == t
  {
    FindSpec(line, CRLF);
    FindAfter(line, CRLF, t);
    FindInPrefix(buf, rest, CRLF);
    if |line| + 2 <= |buf| {
      CutFirst(buf, rest, |line|);
      CutFirst(buf, rest, |line| + 2);
    }
  }

  /** The blank line hands the header fields to the callback. */
  lemma BlankLineTurn(b: string, accept: Receiver, p: Parser, rest: string, items: seq<Item>, todo: seq<Item>)
    returns (pos: Position)
    requires AcceptsAll(accept) && Stands(AtLines([], todo), p, rest, items, b)
    ensures KeepsStand(HeaderLines(accept, p), pos, rest, items, b)
  {
    hide BodyText, ReadHeader, Find, GoodItem, ReadLines, GoodLines, Collect, GoodInfo, LinesOf;
    FirstGood(b, p.file, todo);
    var x, t := todo[0], BodyText(todo[0].content, todo[1..], b);
    assert "" + CRLF + t == CRLF + t;
    LineInBuffer(p.buf, rest, "", t);
    if |p.buf| < 2 {
      pos := AtLines([], todo);
    } else {
      var files := Collect(p.log);
      CollectNext(p.log, Header(p.file));
      pos := InBody(x.content, todo[1..]);
      StartContent(files, x, todo);
    }
  }

  /** What the header of a good item leaves once all its lines are read. */
  lemma FirstGood(b: string, f: FileInfo, todo: seq<Item>)
    requires todo != [] && GoodItems(todo, b) && ReadLines([], f) == HeaderResult(todo[0].info, true)
    ensures f == todo[0].info && GoodItems(todo[1..], b)
    ensures Find(todo[0].content, Delimiter(b)) == |todo[0].content|
  {
    hide Find;
    assert GoodItem(todo[0], b);
  }

  lemma StartContent(files: seq<Item>, x: Item, todo: seq<Item>)
    requires todo != [] && x == todo[0]
    ensures AppendContent(files + [Item(x.info, "")], x.content) + todo[1..] == files + todo
  {
    assert (files + [Item(x.info, "")])[..|files|] == files;
    assert "" + x.content == x.content;
    assert todo == [x] + todo[1..];
  }

  lemma {:induction false} LinesTurn(b: string, accept: Receiver, p: Parser, rest: string, items: seq<Item>,
                                     lines: seq<string>, todo: seq<Item>)
    returns (pos: Position)
    requires AcceptsAll(accept) && Stands(AtLines(lines, todo), p, rest, items, b)
    ensures KeepsStand(HeaderLines(accept, p), pos, rest, items, b)
    decreases |lines|
  {
    if lines == [] {
      pos := BlankLineTurn(b, accept, p, rest, items, todo);
    } else if |lines[0]| + 2 <= |p.buf| {
      var q := LineStep(b, accept, p, rest, items, lines, todo);
      pos := LinesTurn(b, accept, q, rest, items, lines[1..], todo);
    } else {
      LinesTextFirst(lines, BodyText(todo[0].content, todo[1..], b));
      LineInBuffer(p.buf, rest, lines[0], LinesText(lines[1..]) + BodyText(todo[0].content, todo[1..], b));
      pos := AtLines(lines, todo);
    }
  }

  /** A complete line is read and the scan moves past it. */
  lemma LineStep(b: string, accept: Receiver, p: Parser, rest: string, items: seq<Item>,
                 lines: seq<string>, todo: seq<Item>)
    returns (q: Parser)
    requires lines != [] && |lines[0]| + 2 <= |p.buf| && Stands(AtLines(lines, todo), p, rest, items, b)
    ensures HeaderLines(accept, p) == HeaderLines(accept, q) && Stands(AtLines(lines[1..], todo), q, rest, items, b)
  {
    var line := lines[0];
    var t := LinesText(lines[1..]) + BodyText(todo[0].content, todo[1..], b);
    LinesTextFirst(lines, BodyText(todo[0].content, todo[1..], b));
    LineInBuffer(p.buf, rest, line, t);
    q := p.(file := ReadHeader(line, p.file).file, buf := p.buf[|line| + 2..]);
  }

  lemma LinesTextFirst(lines: seq<string>, t: string)
    requires lines != []
    ensures LinesText(lines) + t == lines[0] + CRLF + (LinesText(lines[1..]) + t)
  {
    assert lines[0] + CRLF + LinesText(lines[1..]) + t == lines[0] + CRLF + (LinesText(lines[1..]) + t);
  }

  /** The length limit never strikes. */
  lemma HeaderCase(b: string, accept: Receiver, p: Parser, rest: string, items: seq<Item>,
                   lines: seq<string>, todo: seq<Item>)
    returns (pos: Position)
    requires AcceptsAll(accept) && Stands(AtLines(lines, todo), p, rest, items, b)
    ensures KeepsStand(TakeTurn(b, accept, p), pos, rest, items, b)
  {
    var t := BodyText(todo[0].content, todo[1..], b);
    if lines == [] {
      assert "" + CRLF + t == CRLF + t;
      LineInBuffer(p.buf, rest, "", t);
    } else {
      LinesTextFirst(lines, t);
      LineInBuffer(p.buf, rest, lines[0], LinesText(lines[1..]) + t);
    }
    pos := LinesTurn(b, accept, p, rest, items, lines, todo);
  }

  // ---------------------------------------------------------------- the body

  lemma FirstDelimiter(left: string, todo: seq<Item>, b: string)
    requires '\r' !in b && Find(left, Delimiter(b)) == |left|
    ensures Find(BodyText(left, todo, b), Delimiter(b)) == |left|
  {
    var d := Delimiter(b);
    assert d[1..] == "\n--" + b;
    FindSpec(left, d);
    FindAfter(left, d, Tail(todo, b));
  }

  lemma BodyCase(b: string, accept: Receiver, p: Parser, rest: string, items: seq<Item>, left: string, todo: seq<Item>)
    returns (pos: Position)
    requires '\r' !in b && AcceptsAll(accept) && Stands(InBody(left, todo), p, rest, items, b)
    ensures KeepsStand(BodyTurn(b, accept, p), pos, rest, items, b)
  {
    if |p.buf| < |Delimiter(b)| {
      pos := InBody(left, todo);
    } else if |left| + |Delimiter(b)| <= |p.buf| {
      BodyEnds(b, accept, p, rest, items, left, todo);
      pos := AtBoundary(todo);
    } else {
      BodyGoesOn(b, accept, p, rest, items, left, todo);
      pos := InBody(left[|p.buf| - |Delimiter(b)|..], todo);
    }
  }

  lemma BodyEnds(b: string, accept: Receiver, p: Parser, rest: string, items: seq<Item>, left: string, todo: seq<Item>)
    requires '\r' !in b && AcceptsAll(accept) && Stands(InBody(left, todo), p, rest, items, b)
    requires |left| + |Delimiter(b)| <= |p.buf|
    ensures KeepsStand(BodyTurn(b, accept, p), AtBoundary(todo), rest, items, b)
  {
    hide Find, GoodItems;
    FirstDelimiter(left, todo, b);
    BodyTurnIs(b, accept, p, rest);
    LastPiece(b, p, rest, items, left, todo);
  }

  lemma BodyLeft(b: string, p: Parser, rest: string, items: seq<Item>, left: string, todo: seq<Item>)
    requires Stands(InBody(left, todo), p, rest, items, b)
    ensures p.state == 3 && Find(left, Delimiter(b)) == |left| && p.buf + rest == BodyText(left, todo, b)
  {
  }

  lemma BodyGoesOn(b: string, accept: Receiver, p: Parser, rest: string, items: seq<Item>, left: string,
                   todo: seq<Item>)
    requires '\r' !in b && AcceptsAll(accept) && Stands(InBody(left, todo), p, rest, items, b)
    requires |Delimiter(b)| <= |p.buf| < |left| + |Delimiter(b)|
    ensures KeepsStand(BodyTurn(b, accept, p), InBody(left[|p.buf| - |Delimiter(b)|..], todo), rest, items, b)
  {
    hide Find, GoodItems, Collect, Stands;
    var n := |p.buf| - |Delimiter(b)|;
    BodyLeft(b, p, rest, items, left, todo);
    FirstDelimiter(left, todo, b);
    BodyTurnIs(b, accept, p, rest);
    OnePiece(b, p, rest, items, left, todo, n);
  }

  lemma LastPiece(b: string, p: Parser, rest: string, items: seq<Item>, left: string, todo: seq<Item>)
    requires Stands(InBody(left, todo), p, rest, items, b) && |left| + |Delimiter(b)| <= |p.buf|
    ensures Stands(AtBoundary(todo), p.(buf := p.buf[|left| + |Delimiter(b)|..], state := 4,
                                        log := p.log + [Content(p.buf[..|left|])]), rest, items, b)
  {
    EndOfBody(p.buf, rest, left, Delimiter(b), Tail(todo, b));
    CollectNext(p.log, Content(left));
  }

  lemma OnePiece(b: string, p: Parser, rest: string, items: seq<Item>, left: string, todo: seq<Item>, n: nat)
    requires Stands(InBody(left, todo), p, rest, items, b) && n <= |left| && n <= |p.buf|
    ensures Stands(InBody(left[n..], todo), p.(buf := p.buf[n..],
                                               log := p.log + if n == 0 then [] else [Content(p.buf[..n])]), rest,
                                                 items, b)
  {
    var files := Collect(p.log);
    PartOfBody(p.buf, rest, left, Delimiter(b), Tail(todo, b), n);
    AfterDelivery(left, Delimiter(b), n);
    if n == 0 {
      assert left[0..] == left && p.log + [] == p.log;
    } else {
      CollectNext(p.log, Content(left[..n]));
      SplitContent(files, left, n);
    }
  }

  lemma EndOfBody(buf: string, rest: string, left: string, d: string, t: string)
    requires buf + rest == left + d + t && |left| + |d| <= |buf|
    ensures buf[..|left|] == left && buf[|left| + |d|..] + rest == t
  {
    CutFirst(buf, rest, |left|);
    CutFirst(buf, rest, |left| + |d|);
  }

  lemma PartOfBody(buf: string, rest: string, left: string, d: string, t: string, n: nat)
    requires buf + rest == left + d + t && n <= |left| && n <= |buf|
    ensures buf[..n] == left[..n] && buf[n..] + rest == left[n..] + d + t
  {
    CutFirst(buf, rest, n);
    CutFirst(left, d + t, n);
    assert left + d + t == left + (d + t);
    assert left[n..] + d + t == left[n..] + (d + t);
  }

  lemma SplitContent(files: seq<Item>, left: string, n: nat)
    requires files != [] && n <= |left|
    ensures AppendContent(AppendContent(files, left[..n]), left[n..]) == AppendContent(files, left)
  {
    var c := files[|files| - 1].content;
    assert c + left[..n] + left[n..] == c + left;
  }

  // ---------------------------------------------------------------- after a delimiter

  lemma BoundaryCase(b: string, accept: Receiver, p: Parser, rest: string, items: seq<Item>, todo: seq<Item>)
    returns (pos: Position)
    requires Stands(AtBoundary(todo), p, rest, items, b)
    ensures KeepsStand(TakeTurn(b, accept, p), pos, rest, items, b)
  {
    if |p.buf| < 2 {
      pos := AtBoundary(todo);
    } else if todo == [] {
      FrontOf(p.buf, rest, "--", CRLF);
      SuffixOfCrlf(p.buf[2..], rest);
      assert p.buf[0] == p.buf[..2][0] == '-' && "" + rest == rest;
      pos := Finished;
    } else {
      FrontOf(p.buf, rest, CRLF, EntryText(todo, b));
      pos := AtEntry(todo);
    }
  }

  lemma FrontOf(buf: string, rest: string, d: string, t: string)
    requires buf + rest == d + t && |d| <= |buf|
    ensures buf[..|d|] == d && buf[|d|..] + rest == t
  {
    CutFirst(buf, rest, |d|);
  }

  lemma SuffixOfCrlf(a: string, rest: string)
    requires a + rest == CRLF
    ensures rest in {"", "\n", CRLF}
  {
    assert rest == CRLF[|a|..];
  }

  lemma FinishedCase(b: string, accept: Receiver, p: Parser, rest: string, items: seq<Item>)
    requires p.buf != "" && Stands(Finished, p, rest, items, b)
    ensures KeepsStand(TakeTurn(b, accept, p), Finished, rest, items, b)
  {
    if |p.buf| == 2 {
      assert rest == "" && p.buf == CRLF;
    }
  }

  // ---------------------------------------------------------------- whole calls and whole runs

  lemma OneTurn(b: string, accept: Receiver, p: Parser, rest: string, items: seq<Item>, at: Position)
    returns (pos: Position)
    requires '\r' !in b && AcceptsAll(accept) && p.buf != "" && Stands(at, p, rest, items, b)
    ensures KeepsStand(TakeTurn(b, accept, p), pos, rest, items, b)
  {
    match at {
      case AtEntry(todo) => pos := EntryTurn(b, accept, p, rest, items, todo);
      case AtLines(lines, todo) => pos := HeaderCase(b, accept, p, rest, items, lines, todo);
      case InBody(left, todo) => pos := BodyCase(b, accept, p, rest, items, left, todo);
      case AtBoundary(todo) => pos := BoundaryCase(b, accept, p, rest, items, todo);
      case Finished =>
        FinishedCase(b, accept, p, rest, items);
        pos := Finished;
    }
  }

  /** The loop of one call. */
  lemma {:induction false} LoopStands(b: string, accept: Receiver, p: Parser, rest: string, items: seq<Item>,
                                      at: Position)
    returns (pos: Position)
    requires '\r' !in b && AcceptsAll(accept) && Stands(at, p, rest, items, b)
    ensures var o := Loop(b, accept, p); o.ok && Stands(pos, o.p, rest, items, b) && (rest == "" ==> pos.Finished?)
    decreases |p.buf|, Rank(p)
  {
    if p.buf == "" {
      pos := at;
    } else {
      pos := OneTurn(b, accept, p, rest, items, at);
      TurnShrinks(b, accept, p);
      var t := TakeTurn(b, accept, p);
      if t.Next? {
        pos := LoopStands(b, accept, t.p, rest, items, pos);
      }
    }
  }

  /** Any number of further calls. */
  lemma {:induction false} FeedStands(b: string, accept: Receiver, p: Parser, chunks: seq<string>, items: seq<Item>,
                                      at: Position)
    returns (pos: Position)
    requires '\r' !in b && AcceptsAll(accept) && Stands(at, p, Joined(chunks), items, b)
    requires chunks == [] ==> at.Finished?
    ensures var o := Feed(b, accept, p, chunks); o.ok && pos == Finished && Stands(pos, o.p, "", items, b)
    decreases |chunks|
  {
    if chunks == [] {
      pos := at;
    } else {
      var rest := Joined(chunks[1..]);
      Assoc(p.buf, chunks[0], rest);
      pos := LoopStands(b, accept, p.(buf := p.buf + chunks[0]), rest, items, at);
      pos := FeedStands(b, accept, Parse(b, accept, p, chunks[0]).p, chunks[1..], items, pos);
    }
  }

  /** The first call, holding the whole first boundary line. */
  lemma FirstCall(b: string, accept: Receiver, items: seq<Item>, first: string, rest: string) returns (pos: Position)
    requires '\r' !in b && AcceptsAll(accept) && items != [] && GoodItems(items, b)
    requires first + rest == Serialize(items, b) && |Opening(b)| <= |first|
    ensures var o := Parse(b, accept, INITIAL, first);
            o.ok && Stands(pos, o.p, rest, items, b) && (rest == "" ==> pos.Finished?)
  {
    SerializedTail(items, b);
    var p := INITIAL.(buf := first);
    assert "" + first == first;
    FrontOf(first, rest, Opening(b), EntryText(items, b));
    FindIs(first, Opening(b), 0);
    assert first[0..] == first;
    var q := p.(buf := first[|Opening(b)|..], state := 1);
    assert TakeTurn(b, accept, p) == Next(q);
    assert [] + items == items;
    pos := LoopStands(b, accept, q, rest, items, AtEntry(items));
  }

  /** Parsing a serialized body gives back its items in order and ends valid, for every cut of the body into
      calls whose first call holds the whole first boundary line. */
  lemma MultipartRoundTrip(b: string, accept: Receiver, items: seq<Item>, chunks: seq<string>)
    requires '\r' !in b && AcceptsAll(accept) && items != [] && GoodItems(items, b)
    requires chunks != [] && Joined(chunks) == Serialize(items, b) && |Opening(b)| <= |chunks[0]|
    ensures var o := Feed(b, accept, INITIAL, chunks); o.ok && o.p.valid && Collect(o.p.log) == items
  {
    var pos := FirstCall(b, accept, items, chunks[0], Joined(chunks[1..]));
    pos := FeedFirst(b, accept, items, chunks, pos);
  }

  lemma FeedFirst(b: string, accept: Receiver, items: seq<Item>, chunks: seq<string>, at: Position)
    returns (pos: Position)
    requires '\r' !in b && AcceptsAll(accept) && chunks != []
    requires var o := Parse(b, accept, INITIAL, chunks[0]); var rest := Joined(chunks[1..]);
             o.ok && Stands(at, o.p, rest, items, b) && (rest == "" ==> at.Finished?)
    ensures var o := Feed(b, accept, INITIAL, chunks); o.ok && pos == Finished && Stands(pos, o.p, "", items, b)
  {
    pos := FeedStands(b, accept, Parse(b, accept, INITIAL, chunks[0]).p, chunks[1..], items, at);
  }
}
