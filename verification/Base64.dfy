/** `base64_encode` of httplib.h, with its wrapping accumulator, against section 4 of RFC 4648. */
module Base64 {
  import opened Text
  import opened Words

  // ---------------------------------------------------------------- section 4 of RFC 4648

  /** The character of a 6-bit value: upper case, lower case, digits, plus and slash. */
  function Symbol(i: nat): (c: char)
    requires i < 64
    ensures c != '='
  {
    if i < 26 then (i + 'A' as int) as char
    else if i < 52 then (i - 26 + 'a' as int) as char
    else if i < 62 then (i - 52 + '0' as int) as char
    else if i == 62 then '+' else '/'
  }

  function SymbolValue(c: char): Option<nat> {
    if 'A' <= c <= 'Z' then Some(c as int - 'A' as int)
    else if 'a' <= c <= 'z' then Some(c as int - 'a' as int + 26)
    else if '0' <= c <= '9' then Some(c as int - '0' as int + 52)
    else if c == '+' then Some(62) else if c == '/' then Some(63) else None
  }

  lemma ValueBack(i: nat)
    requires i < 64
    ensures SymbolValue(Symbol(i)) == Some(i)
  {
  }

  function First(a: Byte): char { Symbol(a / 4) }
  function Second(a: Byte, b: Byte): char { Symbol(a % 4 * 16 + b / 16) }
  function Third(b: Byte, c: Byte): char { Symbol(b % 16 * 4 + c / 64) }
  function Fourth(c: Byte): char { Symbol(c % 64) }

  /** Three bytes make four characters; a shorter last group is filled with zero bits and padded. */
  function Encoding(s: seq<Byte>): string {
    if s == [] then ""
    else if |s| == 1 then [First(s[0]), Second(s[0], 0), '=', '=']
    else if |s| == 2 then [First(s[0]), Second(s[0], s[1]), Third(s[1], 0), '=']
    else [First(s[0]), Second(s[0], s[1]), Third(s[1], s[2]), Fourth(s[2])] + Encoding(s[3..])
  }

  /** A decoder: four characters at a time, padding only in the last group. */
  function Decoding(t: string): Option<seq<Byte>> {
    if t == "" then Some([])
    else if |t| < 4 then None
    else
      var a, b, c, d := SymbolValue(t[0]), SymbolValue(t[1]), SymbolValue(t[2]), SymbolValue(t[3]);
      if a.None? || b.None? then None
      else if |t| == 4 && t[2] == '=' && t[3] == '=' then Some([Byte1(a.value, b.value)])
      else if c.None? then None
      else if |t| == 4 && t[3] == '=' then Some([Byte1(a.value, b.value), Byte2(b.value, c.value)])
      else if d.None? then None
      else
        var rest := Decoding(t[4..]);
        if rest.None? then None
        else Some([Byte1(a.value, b.value), Byte2(b.value, c.value), Byte3(c.value, d.value)] + rest.value)
  }

  function Byte1(a: nat, b: nat): Byte { (a * 4 + b / 16) % 256 }
  function Byte2(b: nat, c: nat): Byte { (b % 16 * 16 + c / 4) % 256 }
  function Byte3(c: nat, d: nat): Byte { (c % 4 * 64 + d) % 256 }

  lemma Byte1Back(a: Byte, b: Byte)
    ensures Byte1(a / 4, a % 4 * 16 + b / 16) == a
  {
    assert (a % 4 * 16 + b / 16) / 16 == a % 4;
  }

  lemma Byte2Back(a: Byte, b: Byte, c: Byte)
    ensures Byte2(a % 4 * 16 + b / 16, b % 16 * 4 + c / 64) == b
  {
    assert (a % 4 * 16 + b / 16) % 16 == b / 16;
    assert (b % 16 * 4 + c / 64) / 4 == b % 16;
  }

  lemma Byte3Back(b: Byte, c: Byte)
    ensures Byte3(b % 16 * 4 + c / 64, c % 64) == c
  {
    assert (b % 16 * 4 + c / 64) % 4 == c / 64;
  }

  lemma GroupBack(a: Byte, b: Byte, c: Byte)
    ensures SymbolValue(First(a)) == Some(a / 4) && SymbolValue(Second(a, b)) == Some(a % 4 * 16 + b / 16)
    ensures SymbolValue(Third(b, c)) == Some(b % 16 * 4 + c / 64) && SymbolValue(Fourth(c)) == Some(c % 64)
    ensures First(a) != '=' && Second(a, b) != '=' && Third(b, c) != '=' && Fourth(c) != '=' && SymbolValue('=') == None
    ensures Byte1(a / 4, a % 4 * 16 + b / 16) == a && Byte2(a % 4 * 16 + b / 16, b % 16 * 4 + c / 64) == b
    ensures Byte3(b % 16 * 4 + c / 64, c % 64) == c
  {
    hide Symbol;
    ValueBack(a / 4);
    ValueBack(a % 4 * 16 + b / 16);
    ValueBack(b % 16 * 4 + c / 64);
    ValueBack(c % 64);
    hide Byte1, Byte2, Byte3;
    Byte1Back(a, b);
    Byte2Back(a, b, c);
    Byte3Back(b, c);
  }

  /** Decoding gives back every byte string. */
  lemma {:induction false} DecodesBack(s: seq<Byte>)
    ensures Decoding(Encoding(s)) == Some(s)
    decreases |s|
  {
    hide First, Second, Third, Fourth, Byte1, Byte2, Byte3, SymbolValue;
    if |s| == 1 {
      GroupBack(s[0], 0, 0);
      assert s == [s[0]];
    } else if |s| == 2 {
      GroupBack(s[0], s[1], 0);
      assert s == [s[0], s[1]];
    } else if |s| >= 3 {
      GroupBack(s[0], s[1], s[2]);
      var e := Encoding(s);
      assert e[4..] == Encoding(s[3..]);
      DecodesBack(s[3..]);
      assert s == [s[0], s[1], s[2]] + s[3..];
    }
  }

  // ---------------------------------------------------------------- the encoder

  /** Six bits of the accumulator, from bit `shift` up. */
  function Bits(val: int, shift: nat): (b: nat)
    ensures b < 64
  {
    val / Power2(shift) % 64
  }

  lemma Powers()
    ensures Power2(0) == 1 && Power2(2) == 4 && Power2(4) == 16 && Power2(6) == 64
  {
    assert Power2(4) == 16;
  }

  /** The bits read depend only on the last two bytes shifted in, however much the accumulator has wrapped. */
  lemma BitsOf(val: int, a: Byte, b: Byte)
    requires val % 0x1_0000 == 256 * a + b
    ensures Bits(val, 2) == b / 4 && Bits(val, 4) == a % 4 * 16 + b / 16
    ensures Bits(val, 6) == a % 16 * 4 + b / 64 && Bits(val, 0) == b % 64
  {
    Powers();
    var q, w := val / 0x1_0000, 256 * a + b;
    assert val == q * 0x1_0000 + w;
    Over1(q, a, b);
    Over4(q, a, b);
    Over16(q, a, b);
    Over64(q, a, b);
  }

  lemma Over4(q: int, a: Byte, b: Byte)
    ensures (q * 0x1_0000 + (256 * a + b)) / 4 % 64 == b / 4
  {
    assert (q * 0x1_0000 + (256 * a + b)) / 4 == 64 * (q * 256 + a) + b / 4;
  }

  lemma Over1(q: int, a: Byte, b: Byte)
    ensures (q * 0x1_0000 + (256 * a + b)) % 64 == b % 64
  {
    Drop64(q * 1024 + 4 * a, b);
  }

  lemma Drop64(k: int, b: nat)
    ensures (64 * k + b) % 64 == b % 64
  {
  }

  lemma Over16(q: int, a: Byte, b: Byte)
    ensures (q * 0x1_0000 + (256 * a + b)) / 16 % 64 == a % 4 * 16 + b / 16
  {
    assert (q * 0x1_0000 + (256 * a + b)) / 16 == 64 * (q * 64 + a / 4) + (a % 4 * 16 + b / 16);
  }

  lemma Over64(q: int, a: Byte, b: Byte)
    ensures (q * 0x1_0000 + (256 * a + b)) / 64 % 64 == a % 16 * 4 + b / 64
  {
    var w := a % 16 * 4 + b / 64;
    assert 256 * a + b == 4096 * (a / 16) + (64 * w + b % 64) by { Nibbles(a); }
    Shift6(q * 16 + a / 16, w, b % 64);
  }

  lemma Nibbles(a: nat)
    ensures a == 16 * (a / 16) + a % 16
  {
  }

  lemma Shift6(k: int, w: nat, r: nat)
    requires w < 64 && r < 64
    ensures (4096 * k + (64 * w + r)) / 64 % 64 == w
  {
    assert (4096 * k + (64 * w + r)) / 64 == 64 * k + w;
  }

  lemma ShiftedIn(val: int, a: Byte, b: Byte)
    requires val % 256 == a
    ensures ToS32(val * 256 + b) % 0x1_0000 == 256 * a + b
  {
    hide ToS32;
    var x := val * 256 + b;
    var r := ToS32(x);
    var k := (r - x) / WORD;
    assert r == x + WORD * k;
    Low16(0x1_0000 * k + val / 256, 256 * a + b);
  }

  lemma Low16(k: int, w: nat)
    requires w < 0x1_0000
    ensures (0x1_0000 * k + w) % 0x1_0000 == w
  {
  }

  /** What has been written after the whole groups and the first bytes of the next one. */
  function Begun(s: seq<Byte>): string
    requires |s| < 3
  {
    if |s| == 0 then "" else if |s| == 1 then [First(s[0])] else [First(s[0]), Second(s[0], s[1])]
  }

  function BitCount(r: nat): int { if r == 0 then -6 else if r == 1 then -4 else -2 }

  lemma {:induction false} WholeGroups(s: seq<Byte>, t: seq<Byte>)
    requires |s| % 3 == 0
    ensures Encoding(s + t) == Encoding(s) + Encoding(t)
    decreases |s|
  {
    hide First, Second, Third, Fourth;
    if s == [] {
      assert s + t == t;
    } else {
      assert (s + t)[3..] == s[3..] + t;
      WholeGroups(s[3..], t);
    }
  }

  lemma {:induction false} EncodingLength(s: seq<Byte>)
    ensures |Encoding(s)| % 4 == 0
    decreases |s|
  {
    hide First, Second, Third, Fourth;
    if |s| >= 3 { EncodingLength(s[3..]); }
  }

  /** The inner loop: as many characters as there are whole groups of six bits. */
  method PushBits(out: string, val: int, bits: int) returns (more: string, left: int)
    requires bits == 2 || bits == 4 || bits == 6
    ensures bits < 6 ==> more == out + [Symbol(Bits(val, bits))] && left == bits - 6
    ensures bits == 6 ==> more == out + [Symbol(Bits(val, 6)), Symbol(Bits(val, 0))] && left == -6
  {
    hide Bits;
    more, left := out, bits;
    while left >= 0
      invariant || (left == bits && more == out)
                || (bits == 6 && left == 0 && more == out + [Symbol(Bits(val, 6))])
                || (bits < 6 && left == bits - 6 && more == out + [Symbol(Bits(val, bits))])
                || (bits == 6 && left == -6 && more == out + [Symbol(Bits(val, 6)), Symbol(Bits(val, 0))])
      decreases left
    {
      more := more + [Symbol(Bits(val, left))];
      left := left - 6;
    }
  }

  /** Where the loop stands behind `g` bytes in whole groups and `r` bytes of the next. */
  ghost predicate Standing(s: seq<Byte>, g: nat, r: nat, out: string, val: int, bits: int) {
    && g + r <= |s| && r < 3 && g % 3 == 0
    && out == Encoding(s[..g]) + Begun(s[g..g + r]) && bits == BitCount(r)
    && val % 256 == if g + r > 0 then s[g + r - 1] else 0
  }

  lemma StandingNext(s: seq<Byte>, g: nat, r: nat, out: string, val: int, bits: int, now: int, more: string, left: int)
    requires g + r < |s| && Standing(s, g, r, out, val, bits) && now == ToS32(val * 256 + s[g + r])
    requires bits + 8 < 6 ==> more == out + [Symbol(Bits(now, bits + 8))] && left == bits + 2
    requires bits + 8 == 6 ==> more == out + [Symbol(Bits(now, 6)), Symbol(Bits(now, 0))] && left == -6
    ensures if r < 2 then Standing(s, g, r + 1, more, now, left) else Standing(s, g + 3, 0, more, now, left)
  {
    hide Encoding, Symbol, Bits, ToS32, First, Second, Third, Fourth;
    var b := s[g + r];
    var a: Byte := if g + r == 0 then 0 else s[g + r - 1];
    NewSymbols(val, a, b);
    if r == 0 {
      assert s[g..g] == [] && s[g..g + 1] == [b] && out == Encoding(s[..g]);
    } else if r == 1 {
      assert s[g..g + 1] == [a] && s[g..g + 2] == [a, b];
      assert out + [Second(a, b)] == Encoding(s[..g]) + [First(a), Second(a, b)];
    } else {
      GroupDone(s, g, out);
    }
  }

  /** What each shift reads once byte `b` has followed byte `a` into the accumulator. */
  lemma NewSymbols(val: int, a: Byte, b: Byte)
    requires val % 256 == a
    ensures var now := ToS32(val * 256 + b);
            && now % 256 == b && Symbol(Bits(now, 2)) == First(b) && Symbol(Bits(now, 4)) == Second(a, b)
            && Symbol(Bits(now, 6)) == Third(a, b) && Symbol(Bits(now, 0)) == Fourth(b)
  {
    hide Symbol, Bits, ToS32;
    var now := ToS32(val * 256 + b);
    ShiftedIn(val, a, b);
    BitsOf(now, a, b);
    LowByte(now, a, b);
  }

  lemma LowByte(now: int, a: Byte, b: Byte)
    requires now % 0x1_0000 == 256 * a + b
    ensures now % 256 == b
  {
    var q := now / 0x1_0000;
    assert now == 256 * (q * 256 + a) + b;
  }

  lemma GroupDone(s: seq<Byte>, g: nat, out: string)
    requires g % 3 == 0 && g + 3 <= |s| && out == Encoding(s[..g]) + Begun(s[g..g + 2])
    ensures out + [Third(s[g + 1], s[g + 2]), Fourth(s[g + 2])] == Encoding(s[..g + 3]) + Begun(s[g + 3..g + 3])
  {
    hide First, Second, Third, Fourth;
    var x := s[g..g + 3];
    assert s[..g + 3] == s[..g] + x && x == [s[g], s[g + 1], s[g + 2]] && s[g..g + 2] == [s[g], s[g + 1]];
    WholeGroups(s[..g], x);
    assert Encoding(x[3..]) == "";
  }

  /** The encoder is the encoding of RFC 4648, for inputs of every length. */
  method Base64Encode(s: seq<Byte>) returns (out: string)
    ensures out == Encoding(s)
  {
    hide Encoding, Bits;
    out := "";
    var val, bits := 0, -6;
    ghost var g, r := 0, 0;
    assert Standing(s, 0, 0, out, val, bits) by { EncodingEmpty(s); }
    for i := 0 to |s|
      invariant Standing(s, g, r, out, val, bits) && g + r == i
    {
      var now := ToS32(val * 256 + s[i]);
      var more, left := PushBits(out, now, bits + 8);
      StandingNext(s, g, r, out, val, bits, now, more, left);
      out, val, bits := more, now, left;
      if r < 2 { r := r + 1; } else { g, r := g + 3, 0; }
    }
    FinishAt(s, g, r, out, val, bits);
    if bits > -6 {
      out := out + [Symbol(Bits(ToS32(val * 256), bits + 8))];
    }
    EncodingLength(s);
    ghost var pad := Pad(r);
    while |out| % 4 != 0
      invariant |pad| <= 2 && out + pad == Encoding(s) && (forall k :: 0 <= k < |pad| ==> pad[k] == '=')
      decreases |pad|
    {
      assert out + pad == out + ['='] + pad[1..];
      out, pad := out + ['='], pad[1..];
    }
  }

  lemma EncodingEmpty(s: seq<Byte>)
    ensures Encoding(s[..0]) == ""
  {
  }

  function Pad(r: nat): string { if r == 1 then "==" else if r == 2 then "=" else "" }

  /** One more character, then the padding, completes the encoding of the last partial group. */
  lemma LastGroup(x: seq<Byte>, val: int)
    requires |x| < 3 && (x != [] ==> val % 256 == x[|x| - 1])
    ensures var more := if x == [] then "" else [Symbol(Bits(ToS32(val * 256), BitCount(|x|) + 8))];
            Begun(x) + more + Pad(|x|) == Encoding(x)
  {
    hide Symbol, Bits, ToS32, First, Second, Third;
    if x != [] { LastSymbols(val, x[|x| - 1]); }
  }

  lemma LastSymbols(val: int, b: Byte)
    requires val % 256 == b
    ensures var v := ToS32(val * 256); Symbol(Bits(v, 4)) == Second(b, 0) && Symbol(Bits(v, 6)) == Third(b, 0)
  {
    hide Symbol, Bits, ToS32;
    ShiftedIn(val, b, 0);
    BitsOf(ToS32(val * 256), b, 0);
  }

  /** After the loop, one more character and the padding complete the encoding. */
  lemma FinishAt(s: seq<Byte>, g: nat, r: nat, out: string, val: int, bits: int)
    requires g + r == |s| && Standing(s, g, r, out, val, bits)
    ensures var full := if bits > -6 then out + [Symbol(Bits(ToS32(val * 256), bits + 8))] else out;
            full + Pad(r) == Encoding(s)
  {
    hide Symbol, Bits, ToS32, Encoding, Begun, Pad;
    var x := s[g..g + r];
    assert s == s[..g] + x;
    WholeGroups(s[..g], x);
    LastGroup(x, val);
    var more := if r == 0 then "" else [Symbol(Bits(ToS32(val * 256), bits + 8))];
    Regrouped(Encoding(s[..g]), Begun(x), more, Pad(r));
    assert r == 0 ==> out + more == out;
  }

  lemma Regrouped(e: string, b: string, m: string, p: string)
    ensures e + b + m + p == e + (b + m + p)
  {
  }
}
