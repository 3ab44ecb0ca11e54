/** Chunk lengths: `from_i_to_hex` of httplib.h and the C library's `strtoul` in base 16. */
module HexLength {
  import opened Text
  import opened Percent

  /** The largest `unsigned long`, which `strtoul` also returns when the number is too large. */
  const ULONG_MAX: nat := 0xFFFF_FFFF_FFFF_FFFF

  function LowerHex(n: nat): (c: char)
    requires n < 16
    ensures HexValue(c) == n
  {
    if n < 10 then (n + '0' as int) as char else (n - 10 + 'a' as int) as char
  }

  function ToHex(n: nat): string {
    if n < 16 then [LowerHex(n)] else ToHex(n / 16) + [LowerHex(n % 16)]
  }

  /** Lengths are written in lower case. */
  lemma LowerDigits(n: nat)
    requires n < 16
    ensures LowerHex(n) == SMALL_DIGITS[n]
  {
    assert SMALL_DIGITS[n] == (if n < 10 then n + '0' as int else n - 10 + 'a' as int) as char;
  }

  /** The loop of `from_i_to_hex`. */
  method FromIToHex(n0: nat) returns (ret: string)
    ensures ret == ToHex(n0)
  {
    ret := "";
    var n := n0;
    assert ToHex(n0) + "" == ToHex(n0);
    while true
      invariant ToHex(n) + ret == ToHex(n0)
      decreases n
    {
      PushDigit(n, ret);
      ret := [LowerHex(n % 16)] + ret;
      n := n / 16;
      if n == 0 { break; }
    }
  }

  lemma PushDigit(n: nat, ret: string)
    ensures ToHex(n) + ret == if n < 16 then [LowerHex(n % 16)] + ret else ToHex(n / 16) + ([LowerHex(n % 16)] + ret)
  {
    if n >= 16 {
      Assoc(ToHex(n / 16), [LowerHex(n % 16)], ret);
    }
  }

  // ---------------------------------------------------------------- strtoul

  /** Value of the digits at the front of `s`, with `acc` the value of those before, and their number. */
  datatype Digits = Digits(value: nat, count: nat)

  function ReadDigits(s: string, acc: nat): (d: Digits)
    ensures d.count <= |s|
    decreases |s|
  {
    if s == "" || HexValue(s[0]) < 0 then Digits(acc, 0) else
    var d := ReadDigits(s[1..], acc * 16 + HexValue(s[0]));
    Digits(d.value, d.count + 1)
  }

  /** The number `strtoul` reads, whether it read any digits at all, and how much of the text it leaves unread. */
  datatype Number = Number(value: nat, any: bool, left: nat)

  /** An optional "0x" that is followed by a digit. */
  function SkipPrefix(s: string): string {
    if |s| > 2 && s[0] == '0' && (s[1] == 'x' || s[1] == 'X') && HexValue(s[2]) >= 0 then s[2..] else s
  }

  function Strtoul(s0: string): Number {
    var s := SkipSpace(s0);
    var negative := s != "" && s[0] == '-';
    var t := if s != "" && (s[0] == '-' || s[0] == '+') then s[1..] else s;
    var u := SkipPrefix(t);
    var d := ReadDigits(u, 0);
    var left := |u| - d.count;
    if d.count == 0 then Number(0, false, |s0|)
    else if d.value > ULONG_MAX then Number(ULONG_MAX, true, left)
    else if negative && d.value != 0 then Number(ULONG_MAX + 1 - d.value, true, left)
    else Number(d.value, true, left)
  }

  // ---------------------------------------------------------------- round trip

  lemma {:induction false} ToHexDigits(n: nat)
    ensures ToHex(n) != "" && forall k :: 0 <= k < |ToHex(n)| ==> HexValue(ToHex(n)[k]) >= 0
  {
    if n >= 16 {
      ToHexDigits(n / 16);
    }
  }

  lemma {:induction false} ReadAppended(a: string, c: char, tail: string, acc: nat)
    requires forall k :: 0 <= k < |a| ==> HexValue(a[k]) >= 0
    requires HexValue(c) >= 0 && (tail == "" || HexValue(tail[0]) < 0)
    ensures ReadDigits(a + [c] + tail, acc)
            == Digits(ReadDigits(a + tail, acc).value * 16 + HexValue(c), |a| + 1)
    decreases |a|
  {
    if a == "" {
      assert (a + [c] + tail)[1..] == tail && a + tail == tail;
      assert ReadDigits(tail, acc * 16 + HexValue(c)) == Digits(acc * 16 + HexValue(c), 0);
    } else {
      assert (a + [c] + tail)[1..] == a[1..] + [c] + tail && (a + tail)[1..] == a[1..] + tail;
      ReadAppended(a[1..], c, tail, acc * 16 + HexValue(a[0]));
    }
  }

  lemma {:induction false} ReadToHex(n: nat, tail: string)
    requires tail == "" || HexValue(tail[0]) < 0
    ensures ReadDigits(ToHex(n) + tail, 0) == Digits(n, |ToHex(n)|)
  {
    if n < 16 {
      assert ([LowerHex(n)] + tail)[1..] == tail;
    } else {
      ReadToHex(n / 16, tail);
      ToHexDigits(n / 16);
      ReadAppended(ToHex(n / 16), LowerHex(n % 16), tail, 0);
    }
  }

  /** Nothing is skipped before digits. */
  lemma DigitsFirst(h: string, tail: string)
    requires h != "" && forall k :: 0 <= k < |h| ==> HexValue(h[k]) >= 0
    requires tail == "" || (tail[0] != 'x' && tail[0] != 'X')
    ensures var s := h + tail; SkipSpace(s) == s && SkipPrefix(s) == s && s[0] != '-' && s[0] != '+'
  {
    var s := h + tail;
    assert s[0] == h[0];
    assert |s| > 1 ==> s[1] == if |h| > 1 then h[1] else tail[0];
  }

  /** A printed length is read back, whatever follows it that is no digit and no 'x'. */
  lemma StrtoulToHex(n: nat, tail: string)
    requires n <= ULONG_MAX
    requires tail == "" || (HexValue(tail[0]) < 0 && tail[0] != 'x' && tail[0] != 'X')
    ensures Strtoul(ToHex(n) + tail) == Number(n, true, |tail|)
  {
    ToHexDigits(n);
    ReadToHex(n, tail);
    DigitsFirst(ToHex(n), tail);
  }

  // ---------------------------------------------------------------- every spelling of a number

  /** What `strtoul` reads: white space, a sign, a prefix 0x and the digits of `n`. A negative number wraps around,
      one that is too large is the largest there is. */
  lemma StrtoulSpelled(space: string, sign: string, prefix: string, n: nat, tail: string)
    requires forall c :: c in space ==> c in " \t\n\r" || c as int == 11 || c as int == 12
    requires sign in {"", "+", "-"} && prefix in {"", "0x", "0X"}
    requires tail == "" || (HexValue(tail[0]) < 0 && tail[0] != 'x' && tail[0] != 'X')
    ensures Strtoul(space + (sign + (prefix + (ToHex(n) + tail))))
            == Number(if n > ULONG_MAX then ULONG_MAX else if sign == "-" && n > 0 then ULONG_MAX + 1 - n else n,
                      true, |tail|)
  {
    hide ToHex, SkipSpace, ReadDigits, SkipPrefix, HexValue;
    var digits := ToHex(n) + tail;
    var t := sign + (prefix + digits);
    ToHexDigits(n);
    ReadToHex(n, tail);
    PrefixSkipped(prefix, ToHex(n), tail);
    NumberStarts(sign, prefix, ToHex(n), tail);
    SpaceSkipped(space, t);
    assert sign == "" ==> t == prefix + digits;
    assert sign != "" ==> t[1..] == prefix + digits;
  }

  lemma NumberStarts(sign: string, prefix: string, h: string, tail: string)
    requires sign in {"", "+", "-"} && prefix in {"", "0x", "0X"} && h != "" && HexValue(h[0]) >= 0
    ensures var u := prefix + (h + tail); var t := sign + u;
            && u != "" && u[0] != '-' && u[0] != '+' && t != ""
            && t[0] !in " \t\n\r" && t[0] as int != 11 && t[0] as int != 12
            && (t[0] == '-' <==> sign == "-") && (t[0] == '+' <==> sign == "+")
  {
    var u := prefix + (h + tail);
    assert u[0] == (if prefix == "" then h[0] else '0');
    assert (sign + u)[0] == (if sign == "" then u[0] else sign[0]);
  }

  lemma PrefixSkipped(prefix: string, h: string, tail: string)
    requires prefix in {"", "0x", "0X"} && h != "" && forall k :: 0 <= k < |h| ==> HexValue(h[k]) >= 0
    requires tail == "" || (HexValue(tail[0]) < 0 && tail[0] != 'x' && tail[0] != 'X')
    ensures SkipPrefix(prefix + (h + tail)) == h + tail
  {
    var s := prefix + (h + tail);
    if prefix == "" {
      assert s == h + tail;
      assert |s| > 1 ==> s[1] == if |h| > 1 then h[1] else tail[0];
    } else {
      assert s[2] == h[0] && s[2..] == h + tail;
    }
  }
}
