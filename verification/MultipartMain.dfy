/** A form sent and received: the serializer, the parser object and the receiver's callbacks together. */
module MultipartMain {
  import opened Text
  import opened MultipartSpec
  import opened MultipartParser
  import opened MultipartBody
  import opened MultipartSerializer
  import opened MultipartRun

  /** A parser object fed the serialized items in any pieces, the first of which holds the first boundary line, ends
      valid, and its callbacks give back the items. */
  method ReceiveForm(b: string, items: seq<Item>, chunks: seq<string>, accept: Receiver)
    returns (received: seq<Item>, ok: bool)
    requires '\r' !in b && AcceptsAll(accept) && items != [] && GoodItems(items, b)
    requires chunks != [] && Joined(chunks) == Serialize(items, b) && |Opening(b)| <= |chunks[0]|
    ensures ok && received == items
  {
    var parser := new MultipartFormDataParser(b);
    ok := parser.ParseBody(chunks, accept);
    MultipartRoundTrip(b, accept, items, chunks);
    ok := ok && parser.isValid;
    received := Collect(parser.log);
  }
}
