/** Buffered reading: `SocketStream::read` and `stream_line_reader` of httplib.h over a socket that hands out its
    bytes in arbitrary pieces. */
module Stream {
  import opened Text

  /** What the network does at one call of recv: deliver at most this many bytes (at least one), or fail. */
  datatype Delivery = Piece(size: nat) | Fault

  /** The receiving end of a connection: bytes still to come, how they will be cut, whether recv has failed. */
  class Socket {
    var incoming: string
    var plan: seq<Delivery>
    var failed: bool
    /** The plan at the start. */
    ghost const origin: seq<Delivery>

    /** The socket fails only where the network does. */
    ghost predicate Valid()
      reads this
    {
      failed || Fault in plan ==> Fault in origin
    }

    constructor (incoming: string, plan: seq<Delivery>)
      ensures Valid() && this.incoming == incoming && this.plan == plan == origin && !failed
    {
      this.incoming, this.plan, this.failed := incoming, plan, false;
      this.origin := plan;
    }

    /** is_readable and recv: the next piece, nothing at the end of the stream, or a failure. */
    method Recv(max: nat) returns (n: int, data: string)
      requires Valid() && max > 0
      modifies this
      ensures Valid()
      ensures n == |data| || (n == -1 && data == "")
      ensures n == -1 ==> failed && incoming == old(incoming)
      ensures n >= 0 ==> failed == old(failed) && |data| <= max && old(incoming) == data + incoming
      ensures n == 0 ==> incoming == ""
    {
      var first := if plan == [] then Piece(max) else plan[0];
      if plan != [] { plan := plan[1..]; }
      if first.Fault? {
        failed := true;
        return -1, "";
      }
      var k := if first.size == 0 then 1 else first.size;
      if k > max { k := max; }
      if k > |incoming| { k := |incoming|; }
      data := incoming[..k];
      incoming := incoming[k..];
      n := k;
    }
  }

  const READ_BUFF_SIZE: nat := 4096

  class SocketStream {
    const sock: Socket
    const buff: array<char>
    var off: nat
    var contentSize: nat

    ghost predicate Valid()
      reads this, sock
    {
      off <= contentSize <= buff.Length == READ_BUFF_SIZE && sock.Valid()
    }

    /** Everything that can still be read: what is left in the buffer, then what the socket will deliver. */
    ghost function Unread(): string
      reads this, buff, sock
      requires Valid()
    {
      buff[off..contentSize] + sock.incoming
    }

    constructor (sock: Socket)
      requires sock.Valid()
      ensures Valid() && this.sock == sock && fresh(buff) && Unread() == sock.incoming
    {
      this.sock := sock;
      buff := new char[READ_BUFF_SIZE];
      off, contentSize := 0, 0;
    }

    /** `read`: up to `size` bytes, 0 at the end, -1 on failure; nothing is lost or reordered. */
    method Read(size: nat) returns (n: int, data: string)
      requires Valid() && size > 0
      modifies this, buff, sock
      ensures Valid()
      ensures n == |data| || (n == -1 && data == "")
      ensures n == -1 ==> sock.failed && Unread() == old(Unread())
      ensures n >= 0 ==> sock.failed == old(sock.failed) && |data| <= size && old(Unread()) == data + Unread()
      ensures n == 0 ==> Unread() == ""
    {
      if off < contentSize {
        n, data := FromBuffer(size);
        return;
      }
      assert buff[off..contentSize] == "";
      if size < READ_BUFF_SIZE {
        n, data := Refill(size);
      } else {
        off, contentSize := 0, 0;
        n, data := sock.Recv(size);
      }
    }

    /** Some bytes are left in the buffer. */
    method FromBuffer(size: nat) returns (n: int, data: string)
      requires Valid() && size > 0 && off < contentSize
      modifies this`off
      ensures Valid() && 0 < n == |data| <= size && old(Unread()) == data + Unread()
    {
      var remaining := contentSize - off;
      var k := if size <= remaining then size else remaining;
      data := buff[off..off + k];
      off := off + k;
      n := k;
    }

    /** The buffer is used up: fill it, and hand out the front. */
    method Refill(size: nat) returns (n: int, data: string)
      requires Valid() && 0 < size < READ_BUFF_SIZE && off == contentSize
      modifies this, buff, sock
      ensures Valid()
      ensures n == |data| || (n == -1 && data == "")
      ensures n == -1 ==> sock.failed && Unread() == old(Unread())
      ensures n >= 0 ==> sock.failed == old(sock.failed) && |data| <= size && old(Unread()) == data + Unread()
      ensures n == 0 ==> Unread() == ""
    {
      assert old(Unread()) == sock.incoming;
      off, contentSize := 0, 0;
      var got;
      n, got := sock.Recv(READ_BUFF_SIZE);
      if n <= 0 { return n, ""; }
      if n <= size { return n, got; }
      Store(buff, got);
      off, contentSize := size, |got|;
      assert got == got[..size] + got[size..];
      return size, got[..size];
    }

    static method Store(a: array<char>, s: string)
      requires |s| <= a.Length
      modifies a
      ensures a[..|s|] == s
    {
      for i := 0 to |s|
        invariant a[..i] == s[..i]
      {
        a[i] := s[i];
      }
    }
  }

  /** The text up to and including the first line feed, or all of it when there is none. */
  function FirstLine(s: string): (line: string)
    ensures line <= s
  {
    var i := IndexOf(s, '\n');
    if i < |s| then s[..i + 1] else s
  }

  lemma FirstLineIs(line: string, rest: string)
    requires line != "" && '\n' !in line[..|line| - 1]
    requires line[|line| - 1] == '\n' || rest == ""
    ensures FirstLine(line + rest) == line
  {
    var s, n := line + rest, |line| - 1;
    assert forall k :: 0 <= k < n ==> line[..n][k] == s[k];
    if line[n] == '\n' {
      IndexOfIs(s, '\n', n);
    } else {
      assert s == line;
      IndexOfIs(s, '\n', |s|);
    }
  }

  class LineReader {
    const strm: SocketStream
    const fixed: array<char>
    var used: nat
    var growable: string

    ghost predicate Valid()
      reads this, fixed, strm, strm.sock
    {
      && strm.Valid() && fixed != strm.buff && 2 <= fixed.Length && used < fixed.Length
      && (growable != "" ==> used == fixed.Length - 1)
      && (used > 0 ==> fixed[used] == '\0')
    }

    /** The bytes that `ptr` and `size` describe. */
    function Line(): string
      reads this, fixed, strm, strm.sock
      requires Valid()
    {
      if growable == "" then fixed[..used] else growable
    }

    constructor (strm: SocketStream, size: nat)
      requires strm.Valid() && size >= 2
      ensures Valid() && this.strm == strm && fresh(fixed)
    {
      this.strm := strm;
      fixed := new char[size];
      used, growable := 0, "";
    }

    /** `append`: the fixed buffer first, with its terminating NUL, then the growable one. */
    method Append(c: char)
      requires Valid()
      modifies this, fixed
      ensures Valid() && Line() == old(Line()) + [c]
    {
      if used < fixed.Length - 1 {
        fixed[used] := c;
        used := used + 1;
        fixed[used] := '\0';
        assert fixed[..used] == old(fixed[..used]) + [c];
      } else {
        if growable == "" {
          assert fixed[used] == '\0';
          growable := fixed[..used];
        }
        growable := growable + [c];
      }
    }

    /** One byte from the stream into the line; 0 at the end of the stream, -1 on failure. */
    method TakeByte() returns (n: int, c: char)
      requires Valid() && !strm.sock.failed
      modifies this, fixed, strm, strm.buff, strm.sock
      ensures Valid() && (n == -1 || n == 0 || n == 1) && (strm.sock.failed <==> n == -1)
      ensures n == 0 ==> Line() == old(Line()) && old(strm.Unread()) == strm.Unread() == ""
      ensures n == 1 ==> Line() == old(Line()) + [c] && old(strm.Unread()) == [c] + strm.Unread()
    {
      var data;
      n, data := strm.Read(1);
      c := '\0';
      if n > 0 {
        c := data[0];
        assert data == [c];
        Append(c);
      }
    }

    /** `getline`: the next line, complete with its line feed unless the stream ends first. */
    method GetLine() returns (ok: bool)
      requires Valid() && !strm.sock.failed
      modifies this, fixed, strm, strm.buff, strm.sock
      ensures Valid() && (strm.sock.failed ==> !ok)
      ensures !strm.sock.failed ==>
                var s := old(strm.Unread());
                ok == (s != "") && (ok ==> Line() == FirstLine(s)) && strm.Unread() == s[|FirstLine(s)|..]
    {
      used, growable := 0, "";
      ghost var s := strm.Unread();
      assert s == Line() + strm.Unread();
      while true
        invariant Valid() && !strm.sock.failed
        invariant s == Line() + strm.Unread() && '\n' !in Line()
        decreases |strm.Unread()|
      {
        ghost var line := Line();
        var n, c := TakeByte();
        if n < 0 { return false; }
        if n == 0 {
          LastLine(s, line);
          return |Line()| != 0;
        }
        NextByte(s, line, c, strm.Unread());
        if c == '\n' {
          WholeLine(s, Line(), strm.Unread());
          return true;
        }
      }
    }

    static lemma NextByte(s: string, line: string, c: char, rest: string)
      requires s == line + ([c] + rest) && '\n' !in line
      ensures s == line + [c] + rest && (line + [c])[..|line|] == line && (c != '\n' ==> '\n' !in line + [c])
    {
    }

    static lemma LastLine(s: string, line: string)
      requires s == line + "" && '\n' !in line
      ensures FirstLine(s) == s == line && s[|s|..] == ""
    {
      IndexOfIs(s, '\n', |s|);
    }

    static lemma WholeLine(s: string, line: string, rest: string)
      requires s == line + rest && line != "" && line[|line| - 1] == '\n' && '\n' !in line[..|line| - 1]
      ensures FirstLine(s) == line && s[|line|..] == rest && s != ""
    {
      FirstLineIs(line, rest);
    }
  }
}
