/** `read_content_with_length` and `read_content_chunked` of httplib.h over a buffered stream. */
module ChunkedReader {
  import opened Text
  import opened HexLength
  import opened Stream
  import opened Chunked
  import opened Trailer

  const RECV_BUFSIZ: nat := 4096

  /** The content receiver: given every piece so far, the last one included, does it accept the last one? */
  type ContentReceiver = seq<string> -> bool

  ghost predicate AcceptsAll(out: ContentReceiver) {
    forall pieces :: out(pieces)
  }

  function Smaller(a: nat, b: nat): nat { if a < b then a else b }

  /** `read_content_with_length`: deliver exactly `len` bytes, in the pieces the stream hands out. */
  method ReadContentWithLength(strm: SocketStream, len: nat, out: ContentReceiver, before: seq<string>)
    returns (ok: bool, pieces: seq<string>, refused: bool)
    requires strm.Valid() && !strm.sock.failed
    modifies strm, strm.buff, strm.sock
    ensures strm.Valid() && old(strm.Unread()) == Joined(pieces) + strm.Unread() && |Joined(pieces)| <= len
    ensures ok ==> |Joined(pieces)| == len && !strm.sock.failed && !refused
    ensures !ok && !strm.sock.failed && !refused ==> strm.Unread() == "" && |Joined(pieces)| < len
    ensures refused ==> !AcceptsAll(out)
  {
    pieces, refused := [], false;
    var r := 0;
    ghost var s := strm.Unread();
    assert s == "" + strm.Unread();
    while r < len
      invariant strm.Valid() && !strm.sock.failed
      invariant s == Joined(pieces) + strm.Unread() && r == |Joined(pieces)| <= len
      decreases len - r
    {
      var n, data := strm.Read(Smaller(len - r, RECV_BUFSIZ));
      if n <= 0 {
        assert n == 0 ==> data + strm.Unread() == strm.Unread();
        return false, pieces, false;
      }
      JoinedAppend(pieces, data);
      Assoc(Joined(pieces), data, strm.Unread());
      pieces := pieces + [data];
      if !out(before + pieces) { return false, pieces, true; }
      r := r + n;
    }
    return true, pieces, false;
  }

  /** The CRLF after a chunk's data and the next chunk-size line. */
  method ReadChunkEnd(reader: LineReader) returns (ok: bool)
    requires reader.Valid() && !reader.strm.sock.failed
    modifies reader, reader.fixed, reader.strm, reader.strm.buff, reader.strm.sock
    ensures reader.Valid() && (reader.strm.sock.failed ==> !ok)
    ensures !reader.strm.sock.failed ==>
              DechunkEnd(old(reader.strm.Unread()))
              == if ok then DechunkLine(reader.Line(), reader.strm.Unread()) else Failed("")
    ensures !reader.strm.sock.failed ==> |reader.strm.Unread()| <= |old(reader.strm.Unread())|
  {
    ghost var s := reader.strm.Unread();
    ok := reader.GetLine();
    if !ok { return; }
    if CString(reader.Line()) != CRLF { return false; }
    assert reader.strm.Unread() == Rest(s);
    ok := reader.GetLine();
  }

  /** The data of a chunk of `n` bytes and what follows them, up to the next chunk-size line. */
  method ReadChunk(reader: LineReader, n: nat, out: ContentReceiver, before: seq<string>)
    returns (ok: bool, pieces: seq<string>, refused: bool)
    requires reader.Valid() && !reader.strm.sock.failed && n > 0
    modifies reader, reader.fixed, reader.strm, reader.strm.buff, reader.strm.sock
    ensures reader.Valid() && (ok ==> !reader.strm.sock.failed && !refused) && (refused ==> !AcceptsAll(out))
    ensures Joined(pieces) <= old(reader.strm.Unread()) && |Joined(pieces)| <= n
    ensures !reader.strm.sock.failed && !refused ==>
              var s := old(reader.strm.Unread());
              if |s| < n then !ok && Joined(pieces) == s
              else Joined(pieces) == s[..n]
                   && DechunkEnd(s[n..]) == if ok then DechunkLine(reader.Line(), reader.strm.Unread()) else Failed("")
    ensures ok ==> |reader.strm.Unread()| < |old(reader.strm.Unread())|
  {
    ghost var s := reader.strm.Unread();
    ok, pieces, refused := ReadContentWithLength(reader.strm, n, out, before);
    PartsOf(s, Joined(pieces), reader.strm.Unread());
    if !ok { return; }
    ok := ReadChunkEnd(reader);
  }

  lemma PartsOf(s: string, a: string, b: string)
    requires s == a + b
    ensures a <= s && s[..|a|] == a && s[|a|..] == b && (b == "" ==> a == s)
  {
  }

  /** The loop over the trailer, which collects the fields of its lines. */
  method ReadTrailerLines(reader: LineReader) returns (ok: bool, headers: seq<Field>)
    requires reader.Valid() && !reader.strm.sock.failed
    modifies reader, reader.fixed, reader.strm, reader.strm.buff, reader.strm.sock
    ensures reader.Valid() && (reader.strm.sock.failed ==> !ok)
    ensures !reader.strm.sock.failed ==>
              var d := ReadTrailer(old(reader.strm.Unread()));
              ok == d.ok && (ok ==> headers == Fields(d.trailer) && reader.strm.Unread() == d.rest)
  {
    hide FieldOf;
    ghost var d, lines := ReadTrailer(reader.strm.Unread()), [];
    headers := [];
    assert d == WithLines([], d);
    while true
      invariant reader.Valid() && !reader.strm.sock.failed
      invariant d == WithLines(lines, ReadTrailer(reader.strm.Unread())) && headers == Fields(lines)
      decreases |reader.strm.Unread()|
    {
      TrailerStep(lines, reader.strm.Unread());
      ok := reader.GetLine();
      if !ok { return; }
      if CString(reader.Line()) == CRLF { return; }
      if |reader.Line()| > HEADER_MAX_LENGTH { return false, headers; }
      var field := ParseHeader(reader.Line());
      FieldsAppend(lines, reader.Line());
      lines := lines + [reader.Line()];
      headers := headers + FieldsIn(field);
    }
  }

  function WithLines(lines: seq<string>, d: Dechunked): Dechunked { d.(trailer := lines + d.trailer) }

  /** One line of the trailer. */
  lemma TrailerStep(lines: seq<string>, s: string)
    ensures var d, line := WithLines(lines, ReadTrailer(s)), FirstLine(s);
            if s == "" then !d.ok
            else if CString(line) == CRLF then d == Dechunked(true, "", Rest(s), lines)
            else if |line| > HEADER_MAX_LENGTH then !d.ok
            else d == WithLines(lines + [line], ReadTrailer(Rest(s)))
    ensures s != "" ==> Rest(s) == s[|FirstLine(s)|..]
  {
    MoveLine(lines, FirstLine(s), ReadTrailer(Rest(s)));
  }

  lemma MoveLine(lines: seq<string>, line: string, d: Dechunked)
    ensures WithLines(lines, WithLines([line], d)) == WithLines(lines + [line], d) && lines + [] == lines
  {
    assert lines + ([line] + d.trailer) == lines + [line] + d.trailer;
  }

  /** What a run of the reader has delivered, against the coding it was given. */
  ghost predicate Delivers(d: Dechunked, ok: bool, pieces: seq<string>, rest: string, headers: seq<Field>) {
    ok == d.ok && Joined(pieces) == d.payload && (ok ==> rest == d.rest && headers == Fields(d.trailer))
  }

  /** The loop over the chunks, from a chunk-size line already read to the line of the last chunk. */
  method ReadChunks(reader: LineReader, out: ContentReceiver)
    returns (ok: bool, pieces: seq<string>, refused: bool)
    requires reader.Valid() && !reader.strm.sock.failed
    modifies reader, reader.fixed, reader.strm, reader.strm.buff, reader.strm.sock
    ensures reader.Valid() && (reader.strm.sock.failed || refused ==> !ok) && (refused ==> !AcceptsAll(out))
    ensures var d := old(DechunkLine(reader.Line(), reader.strm.Unread()));
            && Joined(pieces) <= d.payload
            && (ok ==> d == After(Joined(pieces), ReadTrailer(reader.strm.Unread())))
            && (!ok && !reader.strm.sock.failed && !refused ==> !d.ok && d.payload == Joined(pieces))
  {
    pieces, refused := [], false;
    ghost var d := DechunkLine(reader.Line(), reader.strm.Unread());
    AfterNothing(d);
    while true
      invariant reader.Valid() && !reader.strm.sock.failed && !refused
      invariant d == After(Joined(pieces), DechunkLine(reader.Line(), reader.strm.Unread()))
      decreases |reader.strm.Unread()|
    {
      var number := Strtoul(CString(reader.Line()));
      LineDechunks(reader.Line(), reader.strm.Unread());
      if !number.any || number.value == ULONG_MAX {
        NothingMore(d, Joined(pieces));
        return false, pieces, false;
      }
      if number.value == 0 { return true, pieces, false; }
      ghost var done, s := Joined(pieces), reader.strm.Unread();
      var more;
      ok, more, refused := ReadChunk(reader, number.value, out, pieces);
      JoinedBoth(pieces, more);
      ChunkDelivered(d, done, s, number.value, Joined(more));
      pieces := pieces + more;
      if !ok { return; }
      AfterTwo(done, Joined(more), DechunkLine(reader.Line(), reader.strm.Unread()));
    }
  }

  lemma LineDechunks(line: string, s: string)
    ensures var n := Strtoul(CString(line));
            DechunkLine(line, s)
            == if !n.any || n.value == ULONG_MAX then Failed("") else if n.value == 0 then ReadTrailer(s)
               else if |s| < n.value then Failed(s) else After(s[..n.value], DechunkEnd(s[n.value..]))
  {
  }

  /** `read_content_chunked`: exactly the payload is delivered, however the socket cuts the stream; a failure of
      the socket or of the receiver stops it inside the payload. */
  method ReadContentChunked(strm: SocketStream, out: ContentReceiver)
    returns (ok: bool, pieces: seq<string>, refused: bool, headers: seq<Field>)
    requires strm.Valid() && !strm.sock.failed
    modifies strm, strm.buff, strm.sock
    ensures strm.Valid()
    ensures !strm.sock.failed && !refused ==> Delivers(Dechunk(old(strm.Unread())), ok, pieces, strm.Unread(), headers)
    ensures strm.sock.failed || refused ==> !ok && Joined(pieces) <= Dechunk(old(strm.Unread())).payload
    ensures refused ==> !AcceptsAll(out)
  {
    pieces, refused, headers := [], false, [];
    var reader := new LineReader(strm, 16);
    ok := reader.GetLine();
    if !ok { return; }
    ok, pieces, refused := ReadChunks(reader, out);
    if !ok { return; }
    ghost var s := strm.Unread();
    TrailerDelivers(Dechunk(old(strm.Unread())), Joined(pieces), s);
    ok, headers := ReadTrailerLines(reader);
  }

  lemma AfterNothing(d: Dechunked)
    ensures d == After("", d)
  {
    assert "" + d.payload == d.payload;
  }

  lemma AfterTwo(a: string, b: string, d: Dechunked)
    ensures After(a, After(b, d)) == After(a + b, d)
  {
    Assoc(a, b, d.payload);
  }

  lemma NothingMore(d: Dechunked, done: string)
    requires d == After(done, Failed(""))
    ensures !d.ok && d.payload == done
  {
    assert done + "" == done;
  }

  lemma {:induction false} TrailerPayload(s: string)
    ensures ReadTrailer(s).payload == ""
    decreases |s|
  {
    if s != "" && CString(FirstLine(s)) != CRLF && |FirstLine(s)| <= HEADER_MAX_LENGTH {
      TrailerPayload(Rest(s));
    }
  }

  lemma TrailerDelivers(d: Dechunked, done: string, s: string)
    requires d == After(done, ReadTrailer(s))
    ensures d.payload == done && d.ok == ReadTrailer(s).ok && d.rest == ReadTrailer(s).rest
            && d.trailer == ReadTrailer(s).trailer
  {
    TrailerPayload(s);
    assert done + "" == done;
  }

  /** What the delivery `text` of one chunk means for the whole payload. */
  lemma ChunkDelivered(d: Dechunked, done: string, s: string, n: nat, text: string)
    requires 0 < n && text <= s && |text| <= n
    requires d == After(done, if |s| < n then Failed(s) else After(s[..n], DechunkEnd(s[n..])))
    ensures done + text <= d.payload
    ensures |s| < n && text == s ==> !d.ok && d.payload == done + text
    ensures n <= |s| && text == s[..n] ==> d == After(done, After(text, DechunkEnd(s[n..])))
    ensures n <= |s| && text == s[..n] && DechunkEnd(s[n..]) == Failed("") ==> !d.ok && d.payload == done + text
  {
    if n <= |s| {
      var e := DechunkEnd(s[n..]);
      Assoc(done, s[..n], e.payload);
      assert s[..n] + "" == s[..n];
      assert text <= s[..n];
    }
  }
}
