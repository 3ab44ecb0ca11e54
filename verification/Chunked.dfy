/** The chunked transfer coding of section 7.1 of RFC 9112, as httplib.h writes and reads it, on values. */
module Chunked {
  import opened Text
  import opened HexLength
  import opened Stream

  // ---------------------------------------------------------------- writing

  function Chunk(payload: string): string {
    ToHex(|payload|) + CRLF + payload + CRLF
  }

  function Chunks(writes: seq<string>): string {
    if writes == [] then "" else Chunk(writes[0]) + Chunks(writes[1..])
  }

  const LAST_CHUNK := "0\r\n"

  /** The coding of a payload written in pieces, ended without a trailer. */
  function Encoding(writes: seq<string>): string {
    Chunks(writes) + (LAST_CHUNK + CRLF)
  }

  // ---------------------------------------------------------------- reading

  /** What a C string function sees of a buffer. */
  function CString(s: string): string { s[..IndexOf(s, '\0')] }

  datatype Dechunked = Dechunked(ok: bool, payload: string, rest: string, trailer: seq<string>)

  /** A read that fails after delivering `payload`. */
  function Failed(payload: string): Dechunked { Dechunked(false, payload, "", []) }

  function After(payload: string, d: Dechunked): Dechunked { d.(payload := payload + d.payload) }

  function Rest(s: string): (r: string)
    ensures s != "" ==> |r| < |s|
  {
    FirstLineNonEmpty(s);
    s[|FirstLine(s)|..]
  }

  lemma FirstLineNonEmpty(s: string)
    ensures s != "" ==> FirstLine(s) != ""
  {
  }

  /** The trailer part, up to the empty line. */
  function ReadTrailer(s: string): Dechunked
    decreases |s|
  {
    if s == "" then Failed("")
    else if CString(FirstLine(s)) == CRLF then Dechunked(true, "", Rest(s), [])
    else if |FirstLine(s)| > HEADER_MAX_LENGTH then Failed("")
    else
      var r := ReadTrailer(Rest(s));
      r.(trailer := [FirstLine(s)] + r.trailer)
  }

  /** `read_content_chunked` once it has read the chunk-size line `line`, with `s` after it. */
  function DechunkLine(line: string, s: string): Dechunked
    decreases |s|
  {
    var n := Strtoul(CString(line));
    if !n.any || n.value == ULONG_MAX then Failed("")
    else if n.value == 0 then ReadTrailer(s)
    else if |s| < n.value then Failed(s)
    else After(s[..n.value], DechunkEnd(s[n.value..]))
  }

  /** From the end of a chunk's data on: its CRLF, then the next chunk-size line. */
  function DechunkEnd(s: string): Dechunked
    decreases |s|
  {
    if s == "" || CString(FirstLine(s)) != CRLF then Failed("")
    else if Rest(s) == "" then Failed("")
    else
      FirstLineNonEmpty(Rest(s));
      DechunkLine(FirstLine(Rest(s)), Rest(Rest(s)))
  }

  function Dechunk(s: string): Dechunked {
    if s == "" then Failed("") else DechunkLine(FirstLine(s), Rest(s))
  }

  // ---------------------------------------------------------------- round trip

  lemma CStringIs(s: string)
    requires '\0' !in s
    ensures CString(s) == s
  {
    IndexOfIs(s, '\0', |s|);
  }

  lemma LineRead(line: string, s: string)
    requires line != "" && line[|line| - 1] == '\n' && '\n' !in line[..|line| - 1] && '\0' !in line
    ensures FirstLine(line + s) == line && Rest(line + s) == s && CString(line) == line
  {
    FirstLineIs(line, s);
    CStringIs(line);
  }

  lemma SizeLineRead(n: nat, s: string)
    requires n < ULONG_MAX
    ensures var line := ToHex(n) + CRLF;
            FirstLine(line + s) == line && Rest(line + s) == s && Strtoul(CString(line)) == Number(n, true, 2)
  {
    var line := ToHex(n) + CRLF;
    ToHexDigits(n);
    var h := |ToHex(n)|;
    assert line[..|line| - 1] == ToHex(n) + "\r";
    assert '\n' !in ToHex(n) && '\0' !in ToHex(n);
    LineRead(line, s);
    StrtoulToHex(n, CRLF);
  }

  lemma CrlfRead(s: string)
    ensures FirstLine(CRLF + s) == CRLF && Rest(CRLF + s) == s && CString(CRLF) == CRLF && CRLF + s != ""
  {
    assert CRLF[..1] == "\r";
    LineRead(CRLF, s);
  }

  lemma LastChunkRead(rest: string)
    ensures Dechunk(LAST_CHUNK + CRLF + rest) == Dechunked(true, "", rest, [])
  {
    var s := LAST_CHUNK + CRLF + rest;
    assert s == LAST_CHUNK + (CRLF + rest);
    assert ToHex(0) == "0" && ToHex(0) + CRLF == LAST_CHUNK;
    SizeLineRead(0, CRLF + rest);
    CrlfRead(rest);
  }

  lemma Regroup(h: string, x: string, p: string, s: string)
    ensures h + x + p + x + s == h + x + (p + (x + s)) && (p + (x + s))[..|p|] == p && (p + (x + s))[|p|..] == x + s
  {
  }

  /** The end of a chunk's data, with `s` after its CRLF. */
  lemma EndRead(s: string)
    ensures DechunkEnd(CRLF + s) == Dechunk(s)
  {
    CrlfRead(s);
  }

  /** The length line and the data of a chunk. */
  lemma ChunkFront(payload: string, s: string)
    requires payload != "" && |payload| < ULONG_MAX
    ensures Dechunk(Chunk(payload) + s) == After(payload, DechunkEnd(CRLF + s))
  {
    var line, t := ToHex(|payload|) + CRLF, payload + (CRLF + s);
    Regroup(ToHex(|payload|), CRLF, payload, s);
    SizeLineRead(|payload|, t);
    SizeLineDechunks(line, t, |payload|);
  }

  lemma SizeLineDechunks(line: string, t: string, n: nat)
    requires line != "" && FirstLine(line + t) == line && Rest(line + t) == t
             && Strtoul(CString(line)) == Number(n, true, 2)
    requires 0 < n < ULONG_MAX && n <= |t|
    ensures Dechunk(line + t) == After(t[..n], DechunkEnd(t[n..]))
  {
  }

  /** A chunk followed by more of the coding. */
  lemma ChunkRead(payload: string, s: string)
    requires payload != "" && |payload| < ULONG_MAX && s != ""
    ensures Dechunk(Chunk(payload) + s) == After(payload, Dechunk(s))
  {
    ChunkFront(payload, s);
    EndRead(s);
  }

  predicate Writable(writes: seq<string>) {
    forall i :: 0 <= i < |writes| ==> writes[i] != "" && |writes[i]| < ULONG_MAX
  }

  /** The reader delivers exactly the payload and stops at the first byte after the coding. */
  lemma {:induction false} ChunkedRoundTrip(writes: seq<string>, rest: string)
    requires Writable(writes)
    ensures Dechunk(Encoding(writes) + rest) == Dechunked(true, Joined(writes), rest, [])
  {
    var fin := LAST_CHUNK + CRLF;
    if writes == [] {
      assert Encoding(writes) == fin;
      LastChunkRead(rest);
    } else {
      ChunkedRoundTrip(writes[1..], rest);
      var s := Encoding(writes[1..]) + rest;
      Assoc(Chunk(writes[0]), Chunks(writes[1..]), fin);
      Assoc(Chunk(writes[0]), Encoding(writes[1..]), rest);
      assert Encoding(writes[1..]) != "";
      ChunkRead(writes[0], s);
    }
  }

  // ---------------------------------------------------------------- a coding that breaks off

  /** A last line, with or without its line feed, is no coding. */
  lemma LastLineRejected(line: string)
    requires line != "" && '\n' !in line[..|line| - 1]
    ensures Dechunk(line) == Failed("")
  {
    FirstLineIs(line, "");
    assert line + "" == line;
    assert Rest(line) == "";
  }

  /** Chunks and then something else. */
  lemma {:induction false} ChunksThen(writes: seq<string>, t: string)
    requires Writable(writes) && t != ""
    ensures Dechunk(Chunks(writes) + t) == After(Joined(writes), Dechunk(t))
  {
    hide Dechunk, Chunk;
    if writes == [] {
      assert Chunks(writes) + t == t && "" + Dechunk(t).payload == Dechunk(t).payload;
    } else {
      ChunksThen(writes[1..], t);
      Assoc(Chunk(writes[0]), Chunks(writes[1..]), t);
      ChunkRead(writes[0], Chunks(writes[1..]) + t);
      Assoc(writes[0], Joined(writes[1..]), Dechunk(t).payload);
    }
  }

  /** A chunk that breaks off delivers a part of its data and is rejected. */
  lemma CutChunk(w: string, n: nat)
    requires w != "" && |w| < ULONG_MAX && n < |Chunk(w)|
    ensures var d := Dechunk(Chunk(w)[..n]); !d.ok && d.payload <= w
  {
    var line, t := ToHex(|w|) + CRLF, w + CRLF;
    assert Chunk(w) == line + t;
    if n < |line| {
      assert Chunk(w)[..n] == line[..n];
      CutLine(|w|, n);
    } else {
      var j := n - |line|;
      assert Chunk(w)[..n] == line + t[..j];
      SizeLineRead(|w|, t[..j]);
      assert t[..j] == if j <= |w| then w[..j] else w + CRLF[..j - |w|];
      CutData(line, w, j);
    }
  }

  lemma CutLine(size: nat, n: nat)
    requires n < |ToHex(size) + CRLF|
    ensures Dechunk((ToHex(size) + CRLF)[..n]) == Failed("")
  {
    var line := (ToHex(size) + CRLF)[..n];
    if n > 0 {
      ToHexDigits(size);
      assert '\n' !in ToHex(size);
      forall k | 0 <= k < n - 1 ensures line[k] != '\n' { assert k < |ToHex(size)| ==> line[k] == ToHex(size)[k]; }
      LastLineRejected(line);
    }
  }

  lemma CutData(line: string, w: string, j: nat)
    requires w != "" && |w| < ULONG_MAX && line != "" && j < |w| + 2
    requires var t := (w + CRLF)[..j];
             FirstLine(line + t) == line && Rest(line + t) == t && Strtoul(CString(line)) == Number(|w|, true, 2)
    ensures var d := Dechunk(line + (w + CRLF)[..j]); !d.ok && d.payload <= w
  {
    var t := (w + CRLF)[..j];
    if j >= |w| {
      var e := t[|w|..];
      assert t[..|w|] == w && e == CRLF[..j - |w|];
      assert !DechunkEnd(e).ok && DechunkEnd(e).payload == "" by { CutEnd(e); }
      assert w + "" == w;
    } else {
      assert t == w[..j];
    }
  }

  lemma CutEnd(e: string)
    requires e == "" || e == "\r"
    ensures DechunkEnd(e) == Failed("")
  {
    if e != "" {
      assert e[..0] == "" && e + "" == e;
      FirstLineIs(e, "");
      CStringIs(e);
    }
  }

  /** The part of the ending that was sent: a part of each of its two lines, not both whole. */
  lemma CutEnding(i: nat, j: nat)
    requires i <= 3 && j <= 2 && (i < 3 || j < 2)
    ensures var t := LAST_CHUNK[..i] + CRLF[..j]; t != "" ==> !Dechunk(t).ok && Dechunk(t).payload == ""
  {
    var t := LAST_CHUNK[..i] + CRLF[..j];
    if i == 3 && j == 1 {
      assert t == LAST_CHUNK + "\r" && ToHex(0) + CRLF == LAST_CHUNK;
      SizeLineRead(0, "\r");
      CutTrailer();
    } else if t != "" {
      assert i == 3 ==> t == LAST_CHUNK;
      assert '\n' !in t[..|t| - 1];
      LastLineRejected(t);
    }
  }

  lemma CutTrailer()
    ensures !ReadTrailer("\r").ok && ReadTrailer("\r").payload == ""
  {
    var e := "\r";
    assert e[..0] == "" && e + "" == e;
    FirstLineIs(e, "");
    CStringIs(e);
    assert Rest(e) == "";
  }

  /** A coding whose ending breaks off, even with its second line sent after a broken first, delivers its chunks and is
      rejected. */
  lemma BrokenEnding(writes: seq<string>, i: nat, j: nat)
    requires Writable(writes) && i <= 3 && j <= 2 && (i < 3 || j < 2)
    ensures var d := Dechunk(Chunks(writes) + (LAST_CHUNK[..i] + CRLF[..j])); !d.ok && d.payload == Joined(writes)
  {
    hide Dechunk;
    var t := LAST_CHUNK[..i] + CRLF[..j];
    if t == "" {
      assert Chunks(writes) + t == Chunks(writes);
      Unfinished(writes);
    } else {
      CutEnding(i, j);
      ChunksThen(writes, t);
      assert Joined(writes) + "" == Joined(writes);
    }
  }

  /** Chunks without the last chunk are delivered and rejected. */
  lemma Unfinished(writes: seq<string>)
    requires Writable(writes)
    ensures !Dechunk(Chunks(writes)).ok && Dechunk(Chunks(writes)).payload == Joined(writes)
  {
    hide Chunk, DechunkLine;
    if writes != [] {
      var n := |writes| - 1;
      var w := writes[n];
      assert writes == writes[..n] + [w];
      ChunksLast(writes[..n], w);
      JoinedAppend(writes[..n], w);
      ChunkAlone(w);
      ChunksThen(writes[..n], Chunk(w));
    }
  }

  lemma ChunkAlone(w: string)
    requires w != "" && |w| < ULONG_MAX
    ensures Chunk(w) != "" && !Dechunk(Chunk(w)).ok && Dechunk(Chunk(w)).payload == w
  {
    ChunkFront(w, "");
    EndRead("");
    assert Chunk(w) + "" == Chunk(w) && w + "" == w;
  }

  lemma {:induction false} ChunksLast(writes: seq<string>, w: string)
    ensures Chunks(writes + [w]) == Chunks(writes) + Chunk(w)
  {
    hide Chunk;
    if writes == [] {
      assert (writes + [w])[1..] == [] && Chunk(w) + "" == Chunk(w) && "" + Chunk(w) == Chunk(w);
    } else {
      assert (writes + [w])[1..] == writes[1..] + [w];
      ChunksLast(writes[1..], w);
      Assoc(Chunk(writes[0]), Chunks(writes[1..]), Chunk(w));
    }
  }

  /** Chunks and a part of one more. */
  lemma BrokenChunk(writes: seq<string>, w: string, n: nat)
    requires Writable(writes) && w != "" && |w| < ULONG_MAX && n < |Chunk(w)|
    ensures var d := Dechunk(Chunks(writes) + Chunk(w)[..n]); !d.ok && d.payload <= Joined(writes + [w])
  {
    hide Dechunk, Chunk;
    var t := Chunk(w)[..n];
    JoinedAppend(writes, w);
    if t == "" {
      assert Chunks(writes) + t == Chunks(writes);
      Unfinished(writes);
    } else {
      CutChunk(w, n);
      ChunksThen(writes, t);
    }
  }

  /** Wherever a coding breaks off, the reader rejects it, having delivered no more than a part of the payload. */
  lemma {:induction false} CutRejected(writes: seq<string>, n: nat)
    requires Writable(writes) && n < |Encoding(writes)|
    ensures var d := Dechunk(Encoding(writes)[..n]); !d.ok && d.payload <= Joined(writes)
  {
    hide Dechunk, Chunk;
    if writes == [] {
      assert Encoding(writes) == LAST_CHUNK + CRLF;
      var i, j := if n < 3 then n else 3, if n < 3 then 0 else n - 3;
      BrokenEnding([], i, j);
      assert Encoding(writes)[..n] == Chunks([]) + (LAST_CHUNK[..i] + CRLF[..j]);
    } else {
      var w, rest := writes[0], writes[1..];
      Assoc(Chunk(w), Chunks(rest), LAST_CHUNK + CRLF);
      if n < |Chunk(w)| {
        BrokenChunk([], w, n);
        assert Encoding(writes)[..n] == Chunks([]) + Chunk(w)[..n]
               && Joined([] + [w]) <= Joined(writes) by { FirstJoined(writes); }
      } else {
        var m := n - |Chunk(w)|;
        CutRejected(rest, m);
        assert Encoding(writes)[..n] == Chunk(w) + Encoding(rest)[..m];
        if m == 0 {
          assert Encoding(writes)[..n] == Chunks([w]) by { assert Chunk(w) + "" == Chunk(w); }
          Unfinished([w]);
          FirstJoined(writes);
        } else {
          ChunkRead(w, Encoding(rest)[..m]);
        }
      }
    }
  }

  lemma FirstJoined(writes: seq<string>)
    requires writes != []
    ensures Joined([] + [writes[0]]) == Joined([writes[0]]) == writes[0] <= Joined(writes)
  {
    assert [] + [writes[0]] == [writes[0]] && [writes[0]][1..] == [] && writes[0] + "" == writes[0];
  }

  // ---------------------------------------------------------------- sizes that are not what they seem

  /** A size line is read as far as its first NUL. */
  lemma NulEnds(x: string, y: string, s: string)
    requires '\0' !in x
    ensures DechunkLine(x + ['\0'] + y, s) == DechunkLine(x, s)
  {
    hide Strtoul;
    CStringIs(x);
    IndexOfIs(x + ['\0'] + y, '\0', |x|);
    assert (x + ['\0'] + y)[..|x|] == x;
  }

  /** A chunk whose size does not fit is rejected, however much data follows. */
  lemma HugeRejected(n: nat, s: string)
    requires n >= ULONG_MAX
    ensures Dechunk(ToHex(n) + CRLF + s) == Failed("")
  {
    hide Strtoul;
    var line := ToHex(n) + CRLF;
    ToHexDigits(n);
    assert line[..|line| - 1] == ToHex(n) + "\r" && '\n' !in ToHex(n) && '\0' !in ToHex(n);
    LineRead(line, s);
    StrtoulSpelled("", "", "", n, CRLF);
    assert "" + ("" + ("" + line)) == line;
  }
}
