/** Header fields in the trailer of a chunked body: `parse_header` of httplib.h and the field lines it reads. */
module Trailer {
  import opened Text
  import opened Percent
  import opened HexLength
  import opened Stream
  import opened Chunked

  type Field = (string, string)

  // ---------------------------------------------------------------- one field

  /** `compare_case_ignore`. */
  predicate SameIgnoringCase(a: string, b: string) {
    |a| == |b| && StartsWithIgnoringCase(a, b)
  }

  /** A value as it is read: percent-decoded, except that of Location. */
  function ReadValue(key: string, text: string): string {
    if SameIgnoringCase(key, "Location") then text else DecodeUrl(text, false)
  }

  /** The field in a line without its line end. */
  function FieldIn(s: string): Option<Field> {
    var t := TrimRight(s);
    var i := IndexOf(t, ':');
    if i == |t| then None else
    var text := TrimLeft(t[i + 1..]);
    if text == "" then None else Some((t[..i], ReadValue(t[..i], text)))
  }

  /** The field in a line, whose last two characters count as its end. */
  function FieldOf(line: string): Option<Field> {
    if |line| < 2 then None else FieldIn(line[..|line| - 2])
  }

  /** Trailing blanks of a line are skipped. */
  method SkipTrailing(line: string, end0: nat) returns (end: nat)
    requires end0 <= |line|
    ensures end <= end0 && line[..end] == TrimRight(line[..end0])
  {
    end := end0;
    while 0 < end && IsSpaceOrTab(line[end - 1])
      invariant end <= end0
      invariant TrimRight(line[..end]) == TrimRight(line[..end0])
    {
      assert line[..end][..end - 1] == line[..end - 1];
      end := end - 1;
    }
  }

  /** And so are those before a value. */
  method SkipLeading(line: string, p0: nat, end: nat) returns (p: nat)
    requires p0 <= end <= |line|
    ensures p0 <= p <= end && line[p..end] == TrimLeft(line[p0..end])
  {
    p := p0;
    while p < end && IsSpaceOrTab(line[p])
      invariant p0 <= p <= end
      invariant TrimLeft(line[p..end]) == TrimLeft(line[p0..end])
    {
      assert line[p..end][1..] == line[p + 1..end];
      p := p + 1;
    }
  }

  /** `parse_header` on a line of the trailer. */
  method ParseHeader(line: string) returns (r: Option<Field>)
    ensures r == FieldOf(line)
  {
    hide DecodeUrl, StartsWithIgnoringCase, TrimLeft, TrimRight;
    if |line| < 2 { return None; }
    var end := SkipTrailing(line, |line| - 2);
    ghost var t := line[..end];
    var p := 0;
    while p < end && line[p] != ':'
      invariant p <= end
      invariant forall k :: 0 <= k < p ==> t[k] != ':'
    {
      p := p + 1;
    }
    IndexOfIs(t, ':', p);
    if p == end { return None; }
    var keyEnd := p;
    p := SkipLeading(line, keyEnd + 1, end);
    assert t[keyEnd + 1..] == line[keyEnd + 1..end] && t[..keyEnd] == line[..keyEnd];
    if p < end {
      var key, val := line[..keyEnd], line[p..end];
      if !SameIgnoringCase(key, "Location") { val := DecodeUrlLoop(val, false); }
      return Some((key, val));
    }
    return None;
  }

  // ---------------------------------------------------------------- which fields survive

  /** A field as `done_with_trailer` writes it. */
  function FieldLine(f: Field): string { f.0 + ": " + f.1 + CRLF }

  /** Fields whose value is neither blank nor changed by trimming and decoding. */
  predicate PlainField(f: Field) {
    ':' !in f.0 && f.1 != "" && Trimmed(f.1) && ReadValue(f.0, f.1) == f.1
  }

  /** What of a written value is read: it without the blanks around it. */
  lemma ValueText(k: string, v: string) returns (w: string)
    requires ':' !in k
    ensures |w| <= |v| && (|w| == |v| ==> w == v) && Trimmed(w) && (Trimmed(v) ==> w == v)
    ensures FieldIn(k + ": " + v) == if w == "" then None else Some((k, ReadValue(k, w)))
  {
    hide ReadValue, TrimRight, TrimLeft;
    var tail := LineTail(k, v);
    var t := k + ":" + tail;
    IndexOfIs(t, ':', |k|);
    assert t[..|k|] == k && t[|k| + 1..] == tail;
    w := TrimLeft(tail);
    TailText(tail, v, w);
  }

  /** What trimming leaves behind the colon. */
  lemma LineTail(k: string, v: string) returns (tail: string)
    ensures TrimRight(k + ": " + v) == k + ":" + tail && tail <= " " + v
    ensures tail != "" ==> !IsSpaceOrTab(tail[|tail| - 1])
    ensures v != "" && Trimmed(v) ==> tail == " " + v
  {
    var a, b := k + ":", " " + v;
    assert k + ": " + v == a + b;
    TrimRightKeeps(a, b);
    TrimRightPrefix(a + b);
    var t := TrimRight(a + b);
    tail := t[|a|..];
    assert t == a + tail;
    assert tail == b[..|tail|];
  }

  lemma TailText(tail: string, v: string, w: string)
    requires tail <= " " + v && w == TrimLeft(tail)
    requires (tail != "" ==> !IsSpaceOrTab(tail[|tail| - 1])) && (v != "" && Trimmed(v) ==> tail == " " + v)
    ensures |w| <= |v| && (|w| == |v| ==> w == v) && Trimmed(w) && (Trimmed(v) ==> w == v)
  {
    if tail != "" {
      assert tail[0] == (" " + v)[0] && tail[1..] <= v;
      TrimLeftSuffix(tail[1..]);
      assert |w| == |v| ==> tail[1..] == v && w == v;
    }
  }

  /** A field survives its line if and only if it is plain. */
  lemma FieldRoundTrip(f: Field)
    ensures FieldOf(FieldLine(f)) == Some(f) <==> PlainField(f)
  {
    hide DecodeUrl, StartsWithIgnoringCase, FieldIn;
    var k, v := f.0, f.1;
    var s := k + ": " + v;
    assert FieldLine(f)[..|FieldLine(f)| - 2] == s;
    if ':' in k {
      NoColonInKey(s);
    } else {
      var w := ValueText(k, v);
      DecodeShrinks(w, false);
    }
  }

  lemma NoColonInKey(s: string)
    ensures FieldIn(s).Some? ==> ':' !in FieldIn(s).value.0
  {
    hide ReadValue;
  }

  // ---------------------------------------------------------------- whole trailers

  /** The fields of the lines that hold one, in order. */
  function Fields(lines: seq<string>): (r: seq<Field>)
    ensures |r| <= |lines|
  {
    if lines == [] then [] else FieldsIn(FieldOf(lines[0])) + Fields(lines[1..])
  }

  function FieldsIn(f: Option<Field>): seq<Field> { if f.None? then [] else [f.value] }

  lemma {:induction false} FieldsAppend(lines: seq<string>, line: string)
    ensures Fields(lines + [line]) == Fields(lines) + FieldsIn(FieldOf(line))
  {
    hide FieldOf;
    if lines == [] {
      assert lines + [line] == [line] && [line][1..] == [];
    } else {
      assert (lines + [line])[1..] == lines[1..] + [line];
      FieldsAppend(lines[1..], line);
    }
  }

  function LinesFor(fs: seq<Field>): (r: seq<string>)
    ensures |r| == |fs|
  {
    if fs == [] then [] else [FieldLine(fs[0])] + LinesFor(fs[1..])
  }

  predicate AllPlainFields(fs: seq<Field>) {
    forall i :: 0 <= i < |fs| ==> PlainField(fs[i])
  }

  lemma {:induction false} FieldsSurvive(fs: seq<Field>)
    ensures Fields(LinesFor(fs)) == fs <==> AllPlainFields(fs)
  {
    hide FieldOf, PlainField, FieldLine;
    if fs != [] {
      var f, rest := fs[0], fs[1..];
      FieldRoundTrip(f);
      FieldsSurvive(rest);
      assert LinesFor(fs)[1..] == LinesFor(rest);
      assert fs == [f] + rest;
      assert AllPlainFields(fs) <==> PlainField(f) && AllPlainFields(rest);
    }
  }

  /** A field that keeps to its line, which the reader does not refuse for its length. */
  predicate OneLineField(f: Field) {
    '\n' !in f.0 && '\n' !in f.1 && |FieldLine(f)| <= HEADER_MAX_LENGTH
  }

  predicate OneLineFields(fs: seq<Field>) {
    forall i :: 0 <= i < |fs| ==> OneLineField(fs[i])
  }

  lemma FieldLineRead(f: Field, s: string)
    requires OneLineField(f)
    ensures var line := FieldLine(f);
            FirstLine(line + s) == line && Rest(line + s) == s && CString(line) != CRLF && line + s != ""
  {
    var line := FieldLine(f);
    assert line[..|line| - 1] == f.0 + ": " + f.1 + "\r";
    FirstLineIs(line, s);
    var c := CString(line);
    assert line[1] != '\n' && CRLF[1] == '\n' && (|c| >= 2 ==> c[1] == line[1]);
  }

  lemma {:induction false} TrailerRead(fs: seq<Field>, rest: string)
    requires OneLineFields(fs)
    ensures ReadTrailer(Joined(LinesFor(fs)) + (CRLF + rest)) == Dechunked(true, "", rest, LinesFor(fs))
  {
    hide FieldLine, FirstLine, CString, Rest;
    if fs == [] {
      CrlfRead(rest);
      assert "" + (CRLF + rest) == CRLF + rest;
    } else {
      var line, lines, more := FieldLine(fs[0]), LinesFor(fs), Joined(LinesFor(fs[1..])) + (CRLF + rest);
      assert lines[1..] == LinesFor(fs[1..]);
      Assoc(line, Joined(lines[1..]), CRLF + rest);
      FieldLineRead(fs[0], more);
      assert |line| <= HEADER_MAX_LENGTH by { LineLength(fs[0]); }
      TrailerRead(fs[1..], rest);
    }
  }

  lemma LineLength(f: Field)
    requires OneLineField(f)
    ensures |FieldLine(f)| <= HEADER_MAX_LENGTH
  {
  }

  /** The coding of a payload written in pieces, ended with a trailer. */
  function TrailerEnding(fs: seq<Field>): seq<string> { [LAST_CHUNK] + LinesFor(fs) + [CRLF] }

  lemma EndingJoined(fs: seq<Field>)
    ensures Joined(TrailerEnding(fs)) == LAST_CHUNK + (Joined(LinesFor(fs)) + CRLF)
  {
    hide LinesFor;
    JoinedAppend([LAST_CHUNK] + LinesFor(fs), CRLF);
    JoinedBoth([LAST_CHUNK], LinesFor(fs));
    JoinedAppend([], LAST_CHUNK);
    assert [] + [LAST_CHUNK] == [LAST_CHUNK] && "" + LAST_CHUNK == LAST_CHUNK;
    Assoc(LAST_CHUNK, Joined(LinesFor(fs)), CRLF);
  }

  /** The reader delivers the payload and stops behind the trailer, whose fields it gives back if and only if all of
      them are plain. */
  lemma TrailerRoundTrip(writes: seq<string>, fs: seq<Field>, rest: string)
    requires Writable(writes) && OneLineFields(fs)
    ensures var d := Dechunk(Chunks(writes) + Joined(TrailerEnding(fs)) + rest);
            && d.ok && d.payload == Joined(writes) && d.rest == rest
            && (Fields(d.trailer) == fs <==> AllPlainFields(fs))
  {
    hide Chunks, ReadTrailer, Fields, AllPlainFields, LinesFor, OneLineFields;
    var t := Joined(LinesFor(fs)) + (CRLF + rest);
    EndingJoined(fs);
    Reordered(Chunks(writes), LAST_CHUNK, Joined(LinesFor(fs)), CRLF, rest);
    TrailerRead(fs, rest);
    FieldsSurvive(fs);
    LastLineThen(t);
    ChunksThen(writes, LAST_CHUNK + t);
    assert Joined(writes) + "" == Joined(writes);
  }

  lemma Reordered(a: string, b: string, c: string, d: string, e: string)
    ensures a + (b + (c + d)) + e == a + (b + (c + (d + e)))
  {
  }

  lemma LastLineThen(t: string)
    ensures Dechunk(LAST_CHUNK + t) == ReadTrailer(t)
  {
    hide ReadTrailer;
    assert ToHex(0) == "0" && ToHex(0) + CRLF == LAST_CHUNK;
    SizeLineRead(0, t);
  }

  /** A value with a percent sign arrives decoded, because it is not encoded when it is written. */
  lemma DecodedField()
    ensures FieldOf(FieldLine(("Digest", "%41"))) == Some(("Digest", "A"))
  {
    hide FieldIn;
    var s := "Digest" + ": " + "%41";
    assert FieldLine(("Digest", "%41"))[..|FieldLine(("Digest", "%41"))| - 2] == s;
    var w := ValueText("Digest", "%41");
    assert |"Digest"| == 6 && |"Location"| == 8;
    DecodeEncodedA();
  }

  lemma DecodeEncodedA()
    ensures DecodeUrl("%41", false) == "A"
  {
    var s := "%41";
    assert HexDigits(s, 3, 0, 65) == Some(65);
    assert HexDigits(s, 2, 1, 4) == Some(65);
    assert HexDigits(s, 1, 2, 0) == Some(65);
    assert s[3..] == "" && "A" + "" == "A";
  }

  /** Only the value of Location is kept as it is, in whatever letter case the key is written. */
  lemma LocationKept(key: string, v: string)
    requires SameLetters(key, "Location") && v != "" && Trimmed(v)
    ensures FieldOf(FieldLine((key, v))) == Some((key, v))
  {
    hide SameLetters, DecodeUrl, StartsWithIgnoringCase;
    LocationKey(key);
    FieldRoundTrip((key, v));
  }

  lemma LocationKey(key: string)
    requires SameLetters(key, "Location")
    ensures SameIgnoringCase(key, "Location") && ':' !in key
  {
    hide SameLetter, StartsWithIgnoringCase;
    PrefixIff(key, "Location");
    assert key[..8] == key;
    forall i | 0 <= i < |key| ensures key[i] != ':' {
      LowerIff(key[i], "Location"[i]);
      assert SameLetter(key[i], "Location"[i]);
      assert "Location"[i] != ':';
    }
  }

  /** A field line beyond the limit makes the reader fail, whatever follows. */
  lemma {:induction false} LongFieldRejected(fs: seq<Field>, f: Field, rest: string)
    requires OneLineFields(fs) && '\n' !in f.0 && '\n' !in f.1 && |FieldLine(f)| > HEADER_MAX_LENGTH
    ensures !ReadTrailer(Joined(LinesFor(fs)) + (FieldLine(f) + rest)).ok
  {
    hide FieldLine, FirstLine, CString, Rest;
    if fs == [] {
      assert "" + (FieldLine(f) + rest) == FieldLine(f) + rest;
      LongLineRead(f, rest);
    } else {
      var line, lines, more := FieldLine(fs[0]), LinesFor(fs), Joined(LinesFor(fs[1..])) + (FieldLine(f) + rest);
      assert lines[1..] == LinesFor(fs[1..]);
      Assoc(line, Joined(lines[1..]), FieldLine(f) + rest);
      FieldLineRead(fs[0], more);
      LongFieldRejected(fs[1..], f, rest);
    }
  }

  lemma LongLineRead(f: Field, s: string)
    requires '\n' !in f.0 && '\n' !in f.1
    ensures var line := FieldLine(f); FirstLine(line + s) == line && CString(line) != CRLF && line + s != ""
  {
    var line := FieldLine(f);
    assert line[..|line| - 1] == f.0 + ": " + f.1 + "\r";
    FirstLineIs(line, s);
    var c := CString(line);
    assert line[1] != '\n' && CRLF[1] == '\n' && (|c| >= 2 ==> c[1] == line[1]);
  }
}
