/** `MultipartFormDataParser::parse` on values: one function for each case of its switch. */
module MultipartSpec {
  import opened Text
  import opened MultipartHeader

  /** A call of the header callback or of the content callback. */
  datatype Event = Header(file: FileInfo) | Content(data: string)

  /** The callbacks: given every call so far, the last one included, does the last one return true? */
  type Receiver = seq<Event> -> bool

  /** `state_`, `is_valid_`, `file_`, the unread part of `buf_`, and the callbacks made so far. */
  datatype Parser = Parser(state: nat, valid: bool, file: FileInfo, buf: string, log: seq<Event>)

  const INITIAL := Parser(0, false, EMPTY_FILE, "", [])

  /** One turn of the loop of `parse`: go round again, or return `ok`. */
  datatype Turn = Next(p: Parser) | Return(p: Parser, ok: bool)

  /** `dash_boundary_crlf_`. */
  function Opening(b: string): string { "--" + b + CRLF }

  /** `crlf_dash_boundary_`. */
  function Delimiter(b: string): string { CRLF + "--" + b }

  /** Case 0: everything before the first boundary line goes, the whole buffer when there is none. */
  function InitialTurn(b: string, p: Parser): Turn {
    var rest := p.buf[Find(p.buf, Opening(b))..];
    if |Opening(b)| > |rest| then Return(p.(buf := rest), true)
    else if !(Opening(b) <= rest) then Return(p.(buf := rest), false)
    else Next(p.(buf := rest[|Opening(b)|..], state := 1))
  }

  /** The inner loop of case 2, from the next line on. */
  function HeaderLines(accept: Receiver, p: Parser): (t: Turn)
    ensures t.Next? ==> |t.p.buf| < |p.buf| && t.p.state == 3
    decreases |p.buf|
  {
    var pos := Find(p.buf, CRLF);
    if pos >= |p.buf| then Return(p, true)
    else if pos == 0 then
      var log := p.log + [Header(p.file)];
      if accept(log) then Next(p.(buf := p.buf[2..], state := 3, log := log))
      else Return(p.(valid := false, log := log), false)
    else
      var r := ReadHeader(p.buf[..pos], p.file);
      if r.ok then HeaderLines(accept, p.(file := r.file, buf := p.buf[pos + 2..]))
      else Return(p.(valid := false, file := r.file), false)
  }

  /** Case 2: the length limit is checked once, for the line at the front. */
  function HeaderTurn(accept: Receiver, p: Parser): Turn {
    if Find(p.buf, CRLF) > HEADER_MAX_LENGTH then Return(p, false) else HeaderLines(accept, p)
  }

  /** Case 3: content up to the delimiter, or all but one delimiter length of the buffer. */
  function BodyTurn(b: string, accept: Receiver, p: Parser): Turn {
    var d := Delimiter(b);
    if |d| > |p.buf| then Return(p, true) else
    var pos := Find(p.buf, d);
    if pos < |p.buf| then
      var log := p.log + [Content(p.buf[..pos])];
      if !accept(log) then Return(p.(valid := false, log := log), false)
      else Next(p.(buf := p.buf[pos + |d|..], state := 4, log := log))
    else
      var n := |p.buf| - |d|;
      if n == 0 then Return(p, true) else
      var log := p.log + [Content(p.buf[..n])];
      if accept(log) then Return(p.(buf := p.buf[n..], log := log), true)
      else Return(p.(valid := false, log := log), false)
  }

  /** Case 4: another part, the end (which drops the rest of the buffer), or not yet enough. */
  function BoundaryTurn(p: Parser): Turn {
    if 2 > |p.buf| then Return(p, true)
    else if CRLF <= p.buf then Next(p.(buf := p.buf[2..], state := 1))
    else if "--" <= p.buf then Next(p.(valid := true, buf := ""))
    else Return(p, true)
  }

  function TakeTurn(b: string, accept: Receiver, p: Parser): Turn {
    match p.state
    case 0 => InitialTurn(b, p)
    case 1 => Next(p.(file := EMPTY_FILE, state := 2))
    case 2 => HeaderTurn(accept, p)
    case 3 => BodyTurn(b, accept, p)
    case 4 => BoundaryTurn(p)
    case _ => Return(p, true)
  }

  function Rank(p: Parser): nat { if p.state == 1 then 1 else 0 }

  lemma TurnShrinks(b: string, accept: Receiver, p: Parser)
    requires p.buf != ""
    ensures var t := TakeTurn(b, accept, p);
            t.Next? ==> |t.p.buf| < |p.buf| || (|t.p.buf| == |p.buf| && Rank(t.p) < Rank(p))
  {
  }

  datatype Outcome = Outcome(p: Parser, ok: bool)

  /** The loop of `parse`. */
  function Loop(b: string, accept: Receiver, p: Parser): Outcome
    decreases |p.buf|, Rank(p)
  {
    if p.buf == "" then Outcome(p, true) else
    TurnShrinks(b, accept, p);
    match TakeTurn(b, accept, p)
    case Next(q) => Loop(b, accept, q)
    case Return(q, ok) => Outcome(q, ok)
  }

  /** One call of `parse`. */
  function Parse(b: string, accept: Receiver, p: Parser, data: string): Outcome {
    Loop(b, accept, p.(buf := p.buf + data))
  }

  /** Calls of `parse` on one piece of the body after another, until one returns false. */
  function Feed(b: string, accept: Receiver, p: Parser, chunks: seq<string>): Outcome
    decreases |chunks|
  {
    if chunks == [] then Outcome(p, true) else
    var o := Parse(b, accept, p, chunks[0]);
    if o.ok then Feed(b, accept, o.p, chunks[1..]) else o
  }
}
