/** Bodies that `MultipartFormDataParser` does not take: refused callbacks, rejected header lines, and garbage. */
module MultipartReject {
  import opened Text
  import opened MultipartHeader
  import opened MultipartSpec

  // ---------------------------------------------------------------- refused callbacks

  /** Every callback so far was accepted. */
  ghost predicate Accepted(accept: Receiver, log: seq<Event>) {
    forall n :: 0 < n <= |log| ==> accept(log[..n])
  }

  /** All callbacks were accepted, or the last was refused, the call failed and the parser is invalid. */
  ghost predicate Heard(accept: Receiver, p: Parser, ok: bool) {
    Accepted(accept, p.log)
    || (!ok && !p.valid && p.log != [] && !accept(p.log) && Accepted(accept, p.log[..|p.log| - 1]))
  }

  lemma OneMore(accept: Receiver, p: Parser, e: Event, log: seq<Event>)
    requires Accepted(accept, p.log) && log == p.log + [e]
    ensures accept(log) ==> Accepted(accept, log)
    ensures !accept(log) ==> log[..|log| - 1] == p.log
  {
    forall n | 0 < n <= |log| && accept(log) ensures accept(log[..n]) {
      if n <= |p.log| { assert log[..n] == p.log[..n]; } else { assert log[..n] == log; }
    }
    assert log[..|log| - 1] == p.log;
  }

  lemma {:induction false} HeaderHeard(accept: Receiver, p: Parser)
    requires Accepted(accept, p.log)
    ensures var t := HeaderLines(accept, p);
            if t.Next? then Accepted(accept, t.p.log) else Heard(accept, t.p, t.ok)
    decreases |p.buf|
  {
    hide Find, ReadHeader, Accepted;
    var pos := Find(p.buf, CRLF);
    if pos < |p.buf| {
      if pos == 0 {
        OneMore(accept, p, Header(p.file), p.log + [Header(p.file)]);
      } else {
        var r := ReadHeader(p.buf[..pos], p.file);
        if r.ok { HeaderHeard(accept, p.(file := r.file, buf := p.buf[pos + 2..])); }
      }
    }
  }

  lemma BodyHeard(b: string, accept: Receiver, p: Parser)
    requires Accepted(accept, p.log)
    ensures var t := BodyTurn(b, accept, p);
            if t.Next? then Accepted(accept, t.p.log) else Heard(accept, t.p, t.ok)
  {
    hide Find, Accepted, Delimiter;
    var d := Delimiter(b);
    if |d| <= |p.buf| {
      var pos := Find(p.buf, d);
      var n := if pos < |p.buf| then pos else |p.buf| - |d|;
      OneMore(accept, p, Content(p.buf[..n]), p.log + [Content(p.buf[..n])]);
    }
  }

  lemma TurnHeard(b: string, accept: Receiver, p: Parser)
    requires Accepted(accept, p.log)
    ensures var t := TakeTurn(b, accept, p);
            if t.Next? then Accepted(accept, t.p.log) else Heard(accept, t.p, t.ok)
  {
    hide Find, Accepted, HeaderLines, BodyTurn;
    if p.state == 2 { HeaderHeard(accept, p); }
    if p.state == 3 { BodyHeard(b, accept, p); }
  }

  lemma {:induction false} LoopHeard(b: string, accept: Receiver, p: Parser)
    requires Accepted(accept, p.log)
    ensures var o := Loop(b, accept, p); Heard(accept, o.p, o.ok)
    decreases |p.buf|, Rank(p)
  {
    hide Accepted, TakeTurn;
    if p.buf != "" {
      TurnShrinks(b, accept, p);
      TurnHeard(b, accept, p);
      var t := TakeTurn(b, accept, p);
      if t.Next? { LoopHeard(b, accept, t.p); }
    }
  }

  /** Whatever the body and its cut: after a refused callback there is no other, the calls end in failure, and the
      parser is invalid. */
  lemma {:induction false} RefusalHeard(b: string, accept: Receiver, p: Parser, chunks: seq<string>)
    requires Accepted(accept, p.log)
    ensures var o := Feed(b, accept, p, chunks); Heard(accept, o.p, o.ok)
    decreases |chunks|
  {
    hide Accepted, Loop;
    if chunks != [] {
      LoopHeard(b, accept, p.(buf := p.buf + chunks[0]));
      var o := Parse(b, accept, p, chunks[0]);
      if o.ok { RefusalHeard(b, accept, o.p, chunks[1..]); }
    }
  }

  // ---------------------------------------------------------------- header lines

  /** A header line that is not understood ends the run in failure, with the parser invalid and no callback made. */
  lemma BadLineRejected(b: string, accept: Receiver, p: Parser, line: string, rest: string, chunks: seq<string>)
    requires p.state == 2 && chunks != [] && p.buf + chunks[0] == line + CRLF + rest
    requires line != "" && Find(line, CRLF) == |line| && |line| <= HEADER_MAX_LENGTH && !ReadHeader(line, p.file).ok
    ensures var o := Feed(b, accept, p, chunks); !o.ok && !o.p.valid && o.p.log == p.log
  {
    hide ReadHeader, Find;
    FindSpec(line, CRLF);
    FindAfter(line, CRLF, rest);
    assert (line + CRLF + rest)[..|line|] == line;
    var q := p.(buf := line + CRLF + rest);
    assert HeaderLines(accept, q) == Return(q.(valid := false, file := ReadHeader(line, p.file).file), false);
    assert TakeTurn(b, accept, q) == HeaderLines(accept, q);
  }

  /** The same goes for a header line that is too long; the parser keeps its validity then. */
  lemma LongLineRejected(b: string, accept: Receiver, p: Parser, line: string, rest: string, chunks: seq<string>)
    requires p.state == 2 && chunks != [] && p.buf + chunks[0] == line + CRLF + rest
    requires Find(line, CRLF) == |line| > HEADER_MAX_LENGTH
    ensures var o := Feed(b, accept, p, chunks); !o.ok && o.p.valid == p.valid && o.p.log == p.log
  {
    hide Find, HeaderLines;
    FindSpec(line, CRLF);
    FindAfter(line, CRLF, rest);
    var q := p.(buf := line + CRLF + rest);
    assert TakeTurn(b, accept, q) == Return(q, false);
  }

  // ---------------------------------------------------------------- garbage behind a boundary

  /** The parser stands behind a boundary, before something that neither ends it nor starts a part. */
  predicate Stuck(p: Parser) {
    p.state == 4 && |p.buf| >= 2 && !(CRLF <= p.buf) && !("--" <= p.buf)
  }

  /** It then takes everything that follows without a word. */
  lemma {:induction false} GarbageIgnored(b: string, accept: Receiver, p: Parser, chunks: seq<string>)
    requires Stuck(p)
    ensures Feed(b, accept, p, chunks) == Outcome(p.(buf := p.buf + Joined(chunks)), true)
    decreases |chunks|
  {
    if chunks == [] {
      assert p.buf + Joined(chunks) == p.buf;
    } else {
      var q := p.(buf := p.buf + chunks[0]);
      assert q.buf[..2] == p.buf[..2];
      assert TakeTurn(b, accept, q) == Return(q, true);
      GarbageIgnored(b, accept, q, chunks[1..]);
      Assoc(p.buf, chunks[0], Joined(chunks[1..]));
    }
  }
}
