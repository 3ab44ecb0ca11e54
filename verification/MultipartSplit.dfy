/** Which cuts of the body into calls the multipart parser survives: the first call with any data must hold
    the whole first boundary line. */
module MultipartSplit {
  import opened Text
  import opened MultipartHeader
  import opened MultipartSpec
  import opened MultipartBody
  import opened MultipartSerializer
  import opened MultipartRun
  import opened MultipartStray

  /** Some item starts at index `j` of the body. */
  ghost predicate StartsAt(items: seq<Item>, b: string, j: nat) {
    exists i: nat :: i < |items| && j == Start(items, b, i)
  }

  lemma LaterItem(items: seq<Item>, b: string, j: nat) returns (i: nat)
    requires 0 < j && StartsAt(items, b, j)
    ensures 0 < i < |items| && j <= |Serialize(items, b)| && Serialize(items, b)[j..] == Serialize(items[i..], b)
  {
    i :| i < |items| && j == Start(items, b, i);
    assert Start(items, b, 0) == 0 by { assert items[..0] == []; }
    SerializeFrom(items, b, i);
  }

  /** The boundary line occurs in the body only where the serializer starts an item. */
  ghost predicate NoStrayBoundary(items: seq<Item>, b: string) {
    forall j: nat :: MatchAt(Serialize(items, b), Opening(b), j) ==> StartsAt(items, b, j)
  }

  /** The first piece with any data in it. */
  function FirstData(chunks: seq<string>): string {
    if chunks == [] then "" else if chunks[0] != "" then chunks[0] else FirstData(chunks[1..])
  }

  /** A call whose data hold no whole boundary line leaves the parser as it was: the data are lost. */
  lemma LostCall(b: string, accept: Receiver, data: string)
    requires Find(data, Opening(b)) == |data|
    ensures Parse(b, accept, INITIAL, data) == Outcome(INITIAL, true)
  {
    assert "" + data == data;
    if data != "" {
      assert data[|data|..] == "";
    }
  }

  /** A call that meets the boundary line of some item goes on with that item. */
  lemma CallAtItem(b: string, accept: Receiver, data: string, rest: string, items: seq<Item>) returns (pos: Position)
    requires '\r' !in b && AcceptsAll(accept) && items != [] && GoodItems(items, b)
    requires Find(data, Opening(b)) < |data| && data[Find(data, Opening(b))..] + rest == Serialize(items, b)
    ensures var o := Parse(b, accept, INITIAL, data);
            o.ok && Stands(pos, o.p, rest, items, b) && (rest == "" ==> pos.Finished?)
  {
    var f := Find(data, Opening(b));
    FindSpec(data, Opening(b));
    var first := data[f..];
    CutLater(data, f, first, "", 0, |Opening(b)|);
    FindIs(first, Opening(b), 0);
    SameTurn(b, accept, data, first);
    pos := FirstCall(b, accept, items, first, rest);
  }

  lemma SameTurn(b: string, accept: Receiver, data: string, first: string)
    requires data != "" && first != "" && data[Find(data, Opening(b))..] == first && Find(first, Opening(b)) == 0
    ensures Parse(b, accept, INITIAL, data) == Parse(b, accept, INITIAL, first)
  {
    assert first[0..] == first && "" + data == data && "" + first == first;
  }

  /** Once bytes of the first boundary line are lost, at most a proper suffix of the items comes back. */
  lemma {:induction false} LostRun(b: string, accept: Receiver, items: seq<Item>, chunks: seq<string>, k: nat)
    returns (i: nat)
    requires '\r' !in b && AcceptsAll(accept) && GoodItems(items, b) && NoStrayBoundary(items, b) && items != []
    requires 0 < k <= |Serialize(items, b)| && Joined(chunks) == Serialize(items, b)[k..]
    ensures 0 < i <= |items| && Collect(Feed(b, accept, INITIAL, chunks).p.log) == items[i..]
    decreases |chunks|
  {
    hide Serialize, Loop;
    if chunks == [] {
      return |items|;
    }
    var data, rest := chunks[0], Joined(chunks[1..]);
    if Find(data, Opening(b)) == |data| {
      LostCall(b, accept, data);
      CutLater(Serialize(items, b), k, data, rest, 0, 0);
      i := LostRun(b, accept, items, chunks[1..], k + |data|);
    } else {
      i := MetItem(b, items, data, rest, k);
      var pos := CallAtItem(b, accept, data, rest, items[i..]);
      pos := FeedFirst(b, accept, items[i..], chunks, pos);
    }
  }

  /** The boundary line met is that of a later item. */
  lemma MetItem(b: string, items: seq<Item>, data: string, rest: string, k: nat) returns (i: nat)
    requires NoStrayBoundary(items, b) && 0 < k <= |Serialize(items, b)|
    requires Serialize(items, b)[k..] == data + rest && Find(data, Opening(b)) < |data|
    ensures 0 < i < |items| && data[Find(data, Opening(b))..] + rest == Serialize(items[i..], b)
  {
    var j := BoundaryMet(Serialize(items, b), data, rest, k, Opening(b));
    i := LaterItem(items, b, j);
  }

  lemma BoundaryMet(body: string, data: string, rest: string, k: nat, line: string) returns (j: nat)
    requires k <= |body| && body[k..] == data + rest && Find(data, line) < |data|
    ensures k <= j <= |body| && body[j..] == data[Find(data, line)..] + rest && MatchAt(body, line, j)
  {
    FindSpec(data, line);
    CutLater(body, k, data, rest, Find(data, line), |line|);
    j := k + Find(data, line);
  }

  /** Leading empty calls change nothing. */
  lemma {:induction false} SkipEmpty(b: string, accept: Receiver, chunks: seq<string>) returns (used: seq<string>)
    ensures Feed(b, accept, INITIAL, chunks) == Feed(b, accept, INITIAL, used)
    ensures Joined(used) == Joined(chunks) && FirstData(used) == FirstData(chunks)
    ensures used == [] || used[0] != ""
    decreases |chunks|
  {
    used := chunks;
    if chunks != [] && chunks[0] == "" {
      assert "" + "" == "";
      assert "" + Joined(chunks[1..]) == Joined(chunks[1..]);
      used := SkipEmpty(b, accept, chunks[1..]);
    }
  }

  /** Once bytes of the first boundary line are lost, the items do not come back, wherever the parser next finds a
      boundary line: at a later item, in a content, in a header, or not at all. */
  lemma {:induction false} LostForever(b: string, accept: Receiver, items: seq<Item>, chunks: seq<string>, k: nat)
    requires '\r' !in b && AcceptsAll(accept) && GoodItems(items, b) && items != []
    requires 0 < k <= |Serialize(items, b)| && Joined(chunks) == Serialize(items, b)[k..]
    ensures !Arrived(Feed(b, accept, INITIAL, chunks), items)
    decreases |chunks|
  {
    hide Serialize, Loop;
    if chunks != [] {
      var data, rest := chunks[0], Joined(chunks[1..]);
      if Find(data, Opening(b)) == |data| {
        LostCall(b, accept, data);
        CutLater(Serialize(items, b), k, data, rest, 0, 0);
        LostForever(b, accept, items, chunks[1..], k + |data|);
      } else {
        MetTooLate(b, accept, items, chunks, k);
      }
    }
  }

  lemma MetTooLate(b: string, accept: Receiver, items: seq<Item>, chunks: seq<string>, k: nat)
    requires '\r' !in b && AcceptsAll(accept) && GoodItems(items, b) && items != []
    requires 0 < k <= |Serialize(items, b)| && Joined(chunks) == Serialize(items, b)[k..]
    requires chunks != [] && Find(chunks[0], Opening(b)) < |chunks[0]|
    ensures !Arrived(Feed(b, accept, INITIAL, chunks), items)
  {
    hide Serialize, Loop, ContentAt, EndAt, Find, Feed, Collect, Resume, GoodItems, Arrived, Opening, MatchAt;
    var s, o, data, rest := Serialize(items, b), Opening(b), chunks[0], Joined(chunks[1..]);
    var f := Find(data, o);
    var j := BoundaryMet(s, data, rest, k, o);
    CutLater(s, k, data, rest, f + |o|, 0);
    assert k + f == j by { PlaceOf(s, data, rest, k, f, j); }
    FirstMet(b, accept, chunks);
    EntersLate(b, accept, items, INITIAL.(buf := data[f + |o|..], state := 1), chunks[1..], j);
  }

  /** A parser that takes another boundary line for the first. */
  lemma EntersLate(b: string, accept: Receiver, items: seq<Item>, p: Parser, chunks: seq<string>, j: nat)
    requires '\r' !in b && AcceptsAll(accept) && GoodItems(items, b) && items != []
    requires p.state == 1 && p.log == [] && j > 0 && MatchAt(Serialize(items, b), Opening(b), j)
    requires Serialize(items, b)[j + |Opening(b)|..] == p.buf + Joined(chunks)
    ensures !Arrived(Resume(b, accept, p, chunks), items)
  {
    hide Serialize, Loop, ContentAt, Collect, Ahead, Resume, GoodItems, Arrived;
    hide LinesText, BodyText, ReadLines, GoodLines;
    var q := j + |Opening(b)|;
    var r := LateEntry(items, b, j);
    NothingYet();
    if ContentAt(items, b, 0) < q {
      EntersAhead(items, b, p, Joined(chunks), q);
      LateResume(b, accept, p, chunks, items, q);
    } else {
      WrongResume(b, accept, p, chunks, items, r);
    }
  }

  lemma NothingYet()
    ensures Collect([]) == []
  {
  }

  lemma FirstMet(b: string, accept: Receiver, chunks: seq<string>)
    requires chunks != [] && Find(chunks[0], Opening(b)) < |chunks[0]|
    ensures var f := Find(chunks[0], Opening(b)); var p := INITIAL.(buf := chunks[0][f + |Opening(b)|..], state := 1);
            Feed(b, accept, INITIAL, chunks) == Resume(b, accept, p, chunks[1..])
  {
    hide Find, Loop;
    OpeningMet(b, accept, chunks[0]);
  }

  lemma EntersAhead(items: seq<Item>, b: string, p: Parser, rest: string, at: nat)
    requires items != [] && p.state == 1 && Collect(p.log) == [] && 2 <= at <= |Serialize(items, b)|
    requires ContentAt(items, b, 0) < at && Serialize(items, b)[at..] == p.buf + rest
             && Serialize(items, b)[at - 2..at] == CRLF
    ensures Ahead(p, rest, items, b, at, 0)
  {
    hide Serialize, ContentAt, Collect;
  }

  lemma LateResume(b: string, accept: Receiver, p: Parser, chunks: seq<string>, items: seq<Item>, at: nat)
    requires '\r' !in b && AcceptsAll(accept) && GoodItems(items, b) && Ahead(p, Joined(chunks), items, b, at, 0)
    ensures !Arrived(Resume(b, accept, p, chunks), items)
  {
    hide Ahead, Loop, Collect;
    var g := LateLoop(b, accept, p, Joined(chunks), items, Late(at, 0));
    var q := Loop(b, accept, p);
    if q.ok { LateFeed(b, accept, q.p, chunks, items, g); }
  }

  lemma WrongResume(b: string, accept: Receiver, p: Parser, chunks: seq<string>, items: seq<Item>, r: seq<string>)
    requires '\r' !in b && AcceptsAll(accept) && GoodItems(items, b) && items != [] && p.state == 1
             && Collect(p.log) == []
    requires p.buf + Joined(chunks) == LinesText(r) + BodyText(items[0].content, items[1..], b)
    requires var h := ReadLines(r, EMPTY_FILE); GoodLines(r) && h.ok && GoodInfo(h.file) && h.file != items[0].info
    ensures !Arrived(Resume(b, accept, p, chunks), items)
  {
    hide LinesText, BodyText, GoodInfo, Resume, Collect;
    var other := [Item(ReadLines(r, EMPTY_FILE).file, items[0].content)] + items[1..];
    assert other[1..] == items[1..];
    OtherItems(items, other, b);
    WrongFeed(b, accept, other, p, chunks, r);
  }

  lemma PlaceOf(s: string, data: string, rest: string, k: nat, f: nat, j: nat)
    requires k <= |s| && s[k..] == data + rest && f <= |data| && j <= |s| && s[j..] == data[f..] + rest
    ensures k + f == j
  {
    assert |s[k..]| == |data| + |rest| && |s[j..]| == |data| - f + |rest|;
  }

  lemma OpeningMet(b: string, accept: Receiver, data: string)
    requires Find(data, Opening(b)) < |data|
    ensures var f := Find(data, Opening(b));
            Parse(b, accept, INITIAL, data) == Loop(b, accept, INITIAL.(buf := data[f + |Opening(b)|..], state := 1))
  {
    hide Find, HeaderTurn, BodyTurn, BoundaryTurn;
    var o, f := Opening(b), Find(data, Opening(b));
    FindSpec(data, o);
    assert "" + data == data;
    var rest := data[f..];
    assert rest[..|o|] == o && rest[|o|..] == data[f + |o|..];
    var p := INITIAL.(buf := data);
    assert TakeTurn(b, accept, p) == Next(INITIAL.(buf := rest[|o|..], state := 1));
  }

  lemma OtherItems(items: seq<Item>, other: seq<Item>, b: string)
    requires items != [] && GoodItems(items, b) && |other| == |items| && other[1..] == items[1..]
    requires other[0].content == items[0].content && GoodInfo(other[0].info) && other[0].info != items[0].info
    ensures other != items && GoodItems(other, b)
  {
    assert GoodItem(items[0], b);
    forall i | 0 < i < |other| ensures GoodItem(other[i], b) {
      assert other[i] == other[1..][i - 1] == items[1..][i - 1] == items[i];
    }
  }

  /** The body survives a cut into calls if and only if the first call with data holds the first boundary line. */
  lemma SplitExactness(b: string, accept: Receiver, items: seq<Item>, chunks: seq<string>)
    requires '\r' !in b && AcceptsAll(accept) && items != [] && GoodItems(items, b)
    requires Joined(chunks) == Serialize(items, b)
    ensures Arrived(Feed(b, accept, INITIAL, chunks), items) <==> |Opening(b)| <= |FirstData(chunks)|
  {
    hide Serialize, Loop;
    var used := SkipEmpty(b, accept, chunks);
    if |Opening(b)| <= |FirstData(chunks)| {
      MultipartRoundTrip(b, accept, items, used);
    } else {
      NonEmptySerialized(items, b);
      var data, rest := used[0], Joined(used[1..]);
      FindSpec(data, Opening(b));
      LostCall(b, accept, data);
      assert Serialize(items, b)[|data|..] == rest;
      LostForever(b, accept, items, used[1..], |data|);
    }
  }

  lemma NonEmptySerialized(items: seq<Item>, b: string)
    ensures Serialize(items, b) != ""
  {
  }

  /** One field, whose body is cut behind its first byte, does not arrive. */
  lemma FirstByteAlone(accept: Receiver)
    requires AcceptsAll(accept)
    ensures var items := [Item(FileInfo("a", "", ""), "x")]; var body := Serialize(items, "B");
            !Arrived(Feed("B", accept, INITIAL, [body[..1], body[1..]]), items)
  {
    var items := [Item(FileInfo("a", "", ""), "x")];
    var body := Serialize(items, "B");
    NonEmptySerialized(items, "B");
    assert Joined([body[..1], body[1..]]) == body by { TwoPieces(body[..1], body[1..]); }
    OneFieldGood();
    hide Serialize;
    SplitExactness("B", accept, items, [body[..1], body[1..]]);
  }

  lemma TwoPieces(x: string, y: string)
    ensures Joined([x, y]) == x + y
  {
    assert [y][1..] == [] && y + "" == y && Joined([y]) == y;
    assert [x, y][1..] == [y];
  }

  lemma OneFieldGood()
    ensures GoodItems([Item(FileInfo("a", "", ""), "x")], "B")
  {
    NamedGood("a");
    FindNone("x", Delimiter("B"));
  }

  lemma NamedGood(name: string)
    requires PlainValue(name) && '\r' !in name && |name| < 8000
    ensures GoodInfo(FileInfo(name, "", ""))
  {
    var l, c := DispositionLine(name, ""), ContentTypeLine("");
    assert '\r' !in "Content-Disposition: form-data; " && '\r' !in l;
    assert c == "Content-Type: " && '\r' !in c;
    NoCr(l);
    NoCr(c);
  }
}
