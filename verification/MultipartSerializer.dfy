/** `serialize_multipart_formdata` of httplib.h, the files its callbacks are collected into, and the shape of its
    text. */
module MultipartSerializer {
  import opened Text
  import opened MultipartHeader
  import opened MultipartSpec

  /** `MultipartFormData`: the header fields and the content. */
  datatype Item = Item(info: FileInfo, content: string)

  // ---------------------------------------------------------------- the serializer

  /** `serialize_multipart_formdata_item_begin`. */
  function ItemBegin(info: FileInfo, b: string): string {
    "--" + b + CRLF
    + DispositionLine(info.name, info.filename) + CRLF
    + (if info.contentType == "" then "" else ContentTypeLine(info.contentType) + CRLF)
    + CRLF
  }

  /** The items of `serialize_multipart_formdata`, without its final line. */
  function ItemsText(items: seq<Item>, b: string): string {
    if items == [] then "" else ItemBegin(items[0].info, b) + (items[0].content + CRLF) + ItemsText(items[1..], b)
  }

  function Serialize(items: seq<Item>, b: string): string {
    ItemsText(items, b) + ("--" + b + "--" + CRLF)
  }

  lemma {:induction false} ItemsTextAppend(items: seq<Item>, x: Item, b: string)
    ensures ItemsText(items + [x], b) == ItemsText(items, b) + (ItemBegin(x.info, b) + (x.content + CRLF))
  {
    if items == [] {
      assert items + [x] == [x] && [x][1..] == [];
    } else {
      assert (items + [x])[1..] == items[1..] + [x];
      ItemsTextAppend(items[1..], x, b);
    }
  }

  /** The loop of `serialize_multipart_formdata`. */
  method SerializeLoop(items: seq<Item>, b: string) returns (body: string)
    ensures body == Serialize(items, b)
  {
    body := "";
    for i := 0 to |items|
      invariant body == ItemsText(items[..i], b)
    {
      assert items[..i + 1] == items[..i] + [items[i]];
      ItemsTextAppend(items[..i], items[i], b);
      body := body + (ItemBegin(items[i].info, b) + (items[i].content + CRLF));
    }
    assert items[..|items|] == items;
    body := body + ("--" + b + "--" + CRLF);
  }

  // ---------------------------------------------------------------- what the callbacks add up to

  /** The effect of one callback on the files collected so far, in the order of their headers. */
  function Record(files: seq<Item>, e: Event): seq<Item> {
    match e
    case Header(f) => files + [Item(f, "")]
    case Content(d) => if files == [] then [] else AppendContent(files, d)
  }

  function AppendContent(files: seq<Item>, d: string): seq<Item>
    requires files != []
  {
    var n := |files| - 1;
    files[..n] + [Item(files[n].info, files[n].content + d)]
  }

  function Collect(log: seq<Event>): seq<Item> {
    if log == [] then [] else Record(Collect(log[..|log| - 1]), log[|log| - 1])
  }

  lemma CollectNext(log: seq<Event>, e: Event)
    ensures Collect(log + [e]) == Record(Collect(log), e)
  {
    assert (log + [e])[..|log|] == log;
  }

  // ---------------------------------------------------------------- the text still to come

  /** Header lines, each with its CRLF, and the empty line. */
  function LinesText(lines: seq<string>): string {
    if lines == [] then CRLF else lines[0] + CRLF + LinesText(lines[1..])
  }

  function LinesOf(info: FileInfo): seq<string> {
    [DispositionLine(info.name, info.filename)]
    + if info.contentType == "" then [] else [ContentTypeLine(info.contentType)]
  }

  /** The rest of a content, its delimiter, and the items `todo` after it. */
  function BodyText(left: string, todo: seq<Item>, b: string): string
    decreases |todo|, 1
  {
    left + Delimiter(b) + Tail(todo, b)
  }

  /** What follows a delimiter. */
  function Tail(todo: seq<Item>, b: string): string
    decreases |todo|, 0
  {
    if todo == [] then "--" + CRLF else CRLF + EntryText(todo, b)
  }

  /** What follows the boundary line of todo[0]. */
  function EntryText(todo: seq<Item>, b: string): string
    requires todo != []
    decreases |todo| - 1, 2
  {
    LinesText(LinesOf(todo[0].info)) + BodyText(todo[0].content, todo[1..], b)
  }

  lemma Regroup(o: string, l: string, c: string, r: string, t: string, fin: string)
    ensures (o + l) + (c + r) + t + fin == o + (l + (c + (r + (t + fin))))
  {
  }

  lemma RegroupLines(o: string, x: string, d: string, t: string)
    ensures o + d + x + (t + x) + x == o + (d + x + (t + x + x)) && o + d + x + "" + x == o + (d + x + x)
  {
    assert o + d + x + "" == o + d + x;
  }

  lemma ItemBeginText(info: FileInfo, b: string)
    ensures ItemBegin(info, b) == Opening(b) + LinesText(LinesOf(info))
  {
    var lines := LinesOf(info);
    RegroupLines(Opening(b), CRLF, lines[0], ContentTypeLine(info.contentType));
    if info.contentType == "" {
      assert lines[1..] == [];
    } else {
      assert lines[1..] == [ContentTypeLine(info.contentType)];
      assert lines[1..][1..] == [];
      assert LinesText(lines[1..]) == ContentTypeLine(info.contentType) + CRLF + CRLF;
    }
  }

  lemma RegroupDelimiter(x: string, dash: string, b: string, e: string)
    ensures x + (dash + b + x + e) == x + dash + b + (x + e)
  {
  }

  lemma SerializedItem(todo: seq<Item>, b: string)
    requires todo != []
    ensures Serialize(todo, b)
            == Opening(b) + (LinesText(LinesOf(todo[0].info)) + (todo[0].content + (CRLF + Serialize(todo[1..], b))))
  {
    ItemBeginText(todo[0].info, b);
    Regroup(Opening(b), LinesText(LinesOf(todo[0].info)), todo[0].content, CRLF, ItemsText(todo[1..], b),
            "--" + b + "--" + CRLF);
  }

  /** The text from the CRLF that ends a content on. */
  lemma {:induction false} SerializedTail(todo: seq<Item>, b: string)
    ensures CRLF + Serialize(todo, b) == Delimiter(b) + Tail(todo, b)
    ensures todo != [] ==> Serialize(todo, b) == Opening(b) + EntryText(todo, b)
  {
    if todo == [] {
      EmptyTail(b);
    } else {
      SerializedItem(todo, b);
      SerializedTail(todo[1..], b);
      var c, d, t := todo[0].content, Delimiter(b), Tail(todo[1..], b);
      assert c + (d + t) == c + d + t;
      assert Serialize(todo, b) == "--" + b + CRLF + EntryText(todo, b);
      RegroupDelimiter(CRLF, "--", b, EntryText(todo, b));
      assert Tail(todo, b) == CRLF + EntryText(todo, b);
    }
  }

  lemma EmptyTail(b: string)
    ensures CRLF + Serialize([], b) == Delimiter(b) + Tail([], b)
  {
    assert Serialize([], b) == "--" + b + "--" + CRLF;
    assert CRLF + ("--" + b + "--" + CRLF) == CRLF + "--" + b + ("--" + CRLF);
  }
}
