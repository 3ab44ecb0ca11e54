/** `MultipartFormDataParser` of httplib.h: the state machine over its compacting buffer. */
module MultipartParser {
  import opened Text
  import opened Params
  import opened Percent
  import opened MultipartHeader
  import opened MultipartSpec

  class MultipartFormDataParser {
    const boundary: string
    const dashBoundaryCrlf: string
    const crlfDashBoundary: string
    var state: nat
    var isValid: bool
    var file: FileInfo
    var buf: array<char>
    var spos: nat
    var epos: nat
    /** The callbacks made so far. */
    var log: seq<Event>

    ghost predicate Valid()
      reads this
    {
      spos <= epos <= buf.Length && state <= 4
      && dashBoundaryCrlf == Opening(boundary) && crlfDashBoundary == Delimiter(boundary)
    }

    /** The part of the buffer not read yet. */
    ghost function Unread(): string
      reads this, buf
      requires Valid()
    {
      buf[spos..epos]
    }

    ghost function Abstract(): Parser
      reads this, buf
      requires Valid()
    {
      Parser(state, isValid, file, Unread(), log)
    }

    constructor (boundary: string)
      ensures Valid() && fresh(buf) && this.boundary == boundary && Abstract() == INITIAL
    {
      this.boundary := boundary;
      dashBoundaryCrlf := "--" + boundary + "\r\n";
      crlfDashBoundary := "\r\n" + "--" + boundary;
      state, isValid, file, log := 0, false, EMPTY_FILE, [];
      buf := new char[0];
      spos, epos := 0, 0;
    }

    // -------------------------------------------------------------- the buffer

    function BufSize(): (n: nat)
      reads this, buf
      requires Valid()
      ensures n == |Unread()|
    {
      epos - spos
    }

    /** `start_with` on the buffer contents from `pos`. */
    method StartsWith(pos: nat, s: string) returns (r: bool)
      requires Valid() && spos <= pos <= epos
      ensures r == MatchAt(Unread(), s, pos - spos)
    {
      if epos - pos < |s| { return false; }
      for i := 0 to |s|
        invariant forall k :: 0 <= k < i ==> buf[pos + k] == s[k]
      {
        if buf[pos + i] != s[i] {
          assert Unread()[pos - spos..pos - spos + |s|][i] != s[i];
          return false;
        }
      }
      assert forall k :: 0 <= k < |s| ==> Unread()[pos - spos + k] == s[k];
      assert Unread()[pos - spos..pos - spos + |s|] == s;
      return true;
    }

    method BufStartsWith(s: string) returns (r: bool)
      requires Valid()
      ensures r == (s <= Unread())
    {
      r := StartsWith(spos, s);
    }

    /** `buf_find`: scan for the first character of `s`, then compare. */
    method BufFind(s: string) returns (r: nat)
      requires Valid() && s != ""
      ensures r == Find(Unread(), s)
    {
      var off := spos;
      while off < epos
        invariant spos <= off <= epos
        invariant NoMatchIn(Unread(), s, 0, off - spos)
      {
        var pos := ScanFor(s, off);
        if |s| > epos - pos {
          TooShort(Unread(), s, pos - spos);
          return epos - spos;
        }
        var found := StartsWith(pos, s);
        if found {
          FindIs(Unread(), s, pos - spos);
          return pos - spos;
        }
        off := pos + 1;
      }
      FindNone(Unread(), s);
      return epos - spos;
    }

    /** The inner loop of `buf_find`: the next place where `s` could start, or the end. */
    method ScanFor(s: string, off: nat) returns (pos: nat)
      requires Valid() && s != "" && spos <= off <= epos && NoMatchIn(Unread(), s, 0, off - spos)
      ensures off <= pos <= epos && NoMatchIn(Unread(), s, 0, pos - spos)
    {
      pos := off;
      while pos != epos && buf[pos] != s[0]
        invariant off <= pos <= epos
        invariant NoMatchIn(Unread(), s, 0, pos - spos)
      {
        SkipOther(Unread(), s, pos - spos);
        pos := pos + 1;
      }
    }

    static lemma SkipOther(u: string, s: string, i: nat)
      requires s != "" && i < |u| && u[i] != s[0] && NoMatchIn(u, s, 0, i)
      ensures NoMatchIn(u, s, 0, i + 1)
    {
      if i + |s| <= |u| {
        assert u[i..i + |s|][0] != s[0];
      }
    }

    static lemma TooShort(u: string, s: string, i: nat)
      requires s != "" && i <= |u| < i + |s| && NoMatchIn(u, s, 0, i)
      ensures Find(u, s) == |u|
    {
      FindNone(u, s);
    }

    /** `buf_append`: move the unread part to the front, grow if needed, copy the new data behind it. */
    method BufAppend(data: string)
      requires Valid()
      modifies this`buf, this`spos, this`epos, buf
      ensures Valid() && Unread() == old(Unread()) + data
      ensures buf == old(buf) || fresh(buf)
    {
      var remaining := epos - spos;
      if remaining > 0 && spos > 0 {
        MoveDown(buf, spos, remaining);
      }
      assert buf[..remaining] == old(Unread());
      spos, epos := 0, remaining;
      if remaining + |data| > buf.Length {
        buf := Grown(buf, remaining, remaining + |data|);
      }
      CopyIn(buf, data, remaining);
      epos := epos + |data|;
    }

    /** The compaction loop of `buf_append`, source and target overlapping. */
    static method MoveDown(a: array<char>, from: nat, n: nat)
      requires from + n <= a.Length
      modifies a
      ensures a[..n] == old(a[from..from + n])
    {
      for i := 0 to n
        invariant forall k :: 0 <= k < i ==> a[k] == old(a[from + k])
        invariant forall k :: i <= k < a.Length ==> a[k] == old(a[k])
      {
        a[i] := a[from + i];
      }
    }

    /** `resize`, keeping the first `n` characters. */
    static method Grown(a: array<char>, n: nat, size: nat) returns (r: array<char>)
      requires n <= a.Length && n <= size
      ensures fresh(r) && r.Length == size && r[..n] == a[..n]
    {
      r := new char[size];
      for i := 0 to n
        invariant forall k :: 0 <= k < i ==> r[k] == a[k]
      {
        r[i] := a[i];
      }
    }

    /** The copy loop of `buf_append`. */
    static method CopyIn(a: array<char>, data: string, at: nat)
      requires at + |data| <= a.Length
      modifies a
      ensures a[..at + |data|] == old(a[..at]) + data
    {
      for i := 0 to |data|
        invariant forall k :: 0 <= k < i ==> a[at + k] == data[k]
        invariant forall k :: 0 <= k < at ==> a[k] == old(a[k])
      {
        a[at + i] := data[i];
      }
    }

    method BufErase(n: nat)
      requires Valid() && n <= |Unread()|
      modifies this`spos
      ensures Valid() && Abstract() == old(Abstract()).(buf := old(Unread())[n..])
    {
      spos := spos + n;
    }

    // -------------------------------------------------------------- the cases of the switch

    /** What a case did, against the turn it stands for. */
    ghost predicate Did(t: Turn, done: bool, ok: bool)
      reads this, buf
    {
      Valid() && Abstract() == t.p && done == t.Return? && (t.Return? ==> ok == t.ok)
    }

    /** Case 0. */
    method InitialBoundary() returns (done: bool, ok: bool)
      requires Valid() && state == 0
      modifies this`spos, this`state
      ensures Did(InitialTurn(boundary, old(Abstract())), done, ok)
    {
      var i := BufFind(dashBoundaryCrlf);
      BufErase(i);
      if |dashBoundaryCrlf| > BufSize() { return true, true; }
      var starts := BufStartsWith(dashBoundaryCrlf);
      if !starts { return true, false; }
      PassBoundary();
      return false, true;
    }

    method PassBoundary()
      requires Valid() && |dashBoundaryCrlf| <= |Unread()|
      modifies this`spos, this`state
      ensures Valid() && Abstract() == old(Abstract()).(buf := old(Unread())[|dashBoundaryCrlf|..], state := 1)
    {
      BufErase(|dashBoundaryCrlf|);
      state := 1;
    }

    /** The header of a line that is not empty, into `file`. */
    method ReadHeaderLine(header: string) returns (ok: bool)
      modifies this`file
      ensures HeaderResult(file, ok) == ReadHeader(header, old(file))
    {
      if StartsWithIgnoringCase(header, "content-type:") {
        file := file.(contentType := Trim(header[13..]));
        return true;
      }
      var text := DispositionText(header);
      if text.None? { return false; }
      var params := ParseListLoop(text.value, ';', UNQUOTE_TEXT);
      var name := Lookup(params, "name");
      if name.None? { return false; }
      file := file.(name := name.value);
      var filename := Lookup(params, "filename");
      if filename.Some? { file := file.(filename := filename.value); }
      var extended := Lookup(params, "filename*");
      if extended.Some? {
        var encoded := Rfc5987Text(extended.value);
        if encoded.None? { return false; }
        var decoded := DecodeUrlLoop(encoded.value, false);
        file := file.(filename := decoded);
      }
      return true;
    }

    /** A callback; a refused one leaves the parser invalid. */
    method Call(e: Event, accept: Receiver) returns (ok: bool)
      requires Valid()
      modifies this`log, this`isValid
      ensures Valid() && ok == accept(log)
      ensures var p := old(Abstract()).(log := old(log) + [e]);
              Abstract() == if ok then p else p.(valid := false)
    {
      log := log + [e];
      ok := accept(log);
      if !ok { isValid := false; }
    }

    /** Case 2. */
    method Headers(accept: Receiver) returns (done: bool, ok: bool)
      requires Valid() && state == 2
      modifies this`spos, this`state, this`file, this`log, this`isValid
      ensures Did(HeaderTurn(accept, old(Abstract())), done, ok)
    {
      hide ReadHeader, FindFrom;
      var pos := BufFind(CRLF);
      if pos > HEADER_MAX_LENGTH { return true, false; }
      ghost var t := HeaderLines(accept, Abstract());
      while pos < BufSize()
        invariant Valid() && state == 2
        invariant pos == Find(Unread(), CRLF)
        invariant HeaderLines(accept, Abstract()) == t
        decreases epos - spos
      {
        if pos == 0 {
          done, ok := BlankLine(accept);
          return;
        }
        ok := HeaderLine(pos);
        if !ok { return true, false; }
        pos := BufFind(CRLF);
      }
      return true, true;
    }

    /** The empty line that ends the headers. */
    method BlankLine(accept: Receiver) returns (done: bool, ok: bool)
      requires Valid() && state == 2 && Unread() != "" && Find(Unread(), CRLF) == 0
      modifies this`spos, this`state, this`log, this`isValid
      ensures Did(HeaderLines(accept, old(Abstract())), done, ok)
    {
      ok := Call(Header(file), accept);
      if !ok { return true, false; }
      BufErase(2);
      state := 3;
      return false, true;
    }

    /** A header line of `pos` characters. */
    method HeaderLine(pos: nat) returns (ok: bool)
      requires Valid() && 0 < pos && pos + 2 <= |Unread()|
      modifies this`spos, this`file, this`isValid
      ensures Valid() && var p := old(Abstract()); var r := ReadHeader(p.buf[..pos], p.file);
              ok == r.ok
              && Abstract() == if ok then p.(file := r.file, buf := p.buf[pos + 2..])
                               else p.(file := r.file, valid := false)
    {
      var header := buf[spos..spos + pos];
      assert header == Unread()[..pos];
      ok := ReadHeaderLine(header);
      if !ok {
        isValid := false;
        return;
      }
      BufErase(pos + 2);
    }

    /** Case 3. */
    method Body(accept: Receiver) returns (done: bool, ok: bool)
      requires Valid() && state == 3
      modifies this`spos, this`state, this`log, this`isValid
      ensures Did(BodyTurn(boundary, accept, old(Abstract())), done, ok)
    {
      if |crlfDashBoundary| > BufSize() { return true, true; }
      var pos := BufFind(crlfDashBoundary);
      if pos < BufSize() {
        ok := DeliverContent(pos, pos + |crlfDashBoundary|, accept);
        if !ok { return true, false; }
        state := 4;
        return false, true;
      }
      var n := BufSize() - |crlfDashBoundary|;
      if n > 0 {
        ok := DeliverContent(n, n, accept);
        return true, ok;
      }
      return true, true;
    }

    /** The content callback on the first `n` characters, then the erasure of `used`. */
    method DeliverContent(n: nat, used: nat, accept: Receiver) returns (ok: bool)
      requires Valid() && n <= used <= |Unread()|
      modifies this`spos, this`log, this`isValid
      ensures Valid() && var p := old(Abstract()); var log := p.log + [Content(p.buf[..n])];
              ok == accept(log)
              && Abstract() == if ok then p.(buf := p.buf[used..], log := log) else p.(valid := false, log := log)
    {
      var data := buf[spos..spos + n];
      assert data == Unread()[..n];
      ok := Call(Content(data), accept);
      if ok { BufErase(used); }
    }

    /** Case 4. */
    method Boundary() returns (done: bool, ok: bool)
      requires Valid() && state == 4
      modifies this`spos, this`state, this`isValid
      ensures Did(BoundaryTurn(old(Abstract())), done, ok)
    {
      if 2 > BufSize() { return true, true; }
      var crlf := BufStartsWith(CRLF);
      if crlf {
        BufErase(2);
        state := 1;
        return false, true;
      }
      var dash := BufStartsWith("--");
      if !dash { return true, true; }
      BufErase(2);
      isValid := true;
      BufErase(BufSize());
      return false, true;
    }

    /** `parse`: append the data, then take turns until one returns or the buffer is used up. */
    method ParseCall(data: string, accept: Receiver) returns (ok: bool)
      requires Valid()
      modifies this, buf
      ensures Valid() && (buf == old(buf) || fresh(buf))
      ensures Outcome(Abstract(), ok) == Parse(boundary, accept, old(Abstract()), data)
    {
      hide InitialTurn, HeaderTurn, BodyTurn, BoundaryTurn;
      BufAppend(data);
      ghost var target := Parse(boundary, accept, old(Abstract()), data);
      var done: bool;
      while BufSize() > 0
        invariant Valid() && (buf == old(buf) || fresh(buf))
        invariant Loop(boundary, accept, Abstract()) == target
        decreases epos - spos, Rank(Abstract())
      {
        TurnShrinks(boundary, accept, Abstract());
        match state {
          case 0 => done, ok := InitialBoundary();
          case 1 => file, state, done, ok := EMPTY_FILE, 2, false, true;
          case 2 => done, ok := Headers(accept);
          case 3 => done, ok := Body(accept);
          case _ => done, ok := Boundary();
        }
        if done { return ok; }
      }
      return true;
    }

    /** The body of a request, piece by piece, as the receiver gets it. */
    method ParseBody(chunks: seq<string>, accept: Receiver) returns (ok: bool)
      requires Valid()
      modifies this, buf
      ensures Valid() && (buf == old(buf) || fresh(buf))
      ensures Outcome(Abstract(), ok) == Feed(boundary, accept, old(Abstract()), chunks)
    {
      hide Parse;
      ghost var target := Feed(boundary, accept, Abstract(), chunks);
      for i := 0 to |chunks|
        invariant Valid() && (buf == old(buf) || fresh(buf))
        invariant Feed(boundary, accept, Abstract(), chunks[i..]) == target
      {
        assert chunks[i..][0] == chunks[i] && chunks[i..][1..] == chunks[i + 1..];
        ok := ParseCall(chunks[i], accept);
        if !ok { return false; }
      }
      assert chunks[|chunks|..] == [];
      return true;
    }
  }
}
