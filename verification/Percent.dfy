/** Percent-coding of query parameters: `encode_query_param` and `decode_url` of httplib.h. */
module Percent {
  import opened Text

  /** Every character is one byte. */
  predicate IsBytes(s: string) {
    forall k :: 0 <= k < |s| ==> s[k] as int < 256
  }

  // ---------------------------------------------------------------- hexadecimal digits

  /** The value `is_hex` gives a hexadecimal digit, -1 for any other character. */
  function HexValue(c: char): (v: int)
    ensures -1 <= v < 16
  {
    if '0' <= c <= '9' then c as int - '0' as int
    else if 'A' <= c <= 'F' then c as int - 'A' as int + 10
    else if 'a' <= c <= 'f' then c as int - 'a' as int + 10
    else -1
  }

  /** `from_hex_to_i`, with `acc` the value so far: the end of the string reads as NUL, no digit. */
  function HexDigits(s: string, i: nat, cnt: nat, acc: nat): (r: Option<nat>)
    ensures r.Some? ==> i + cnt <= |s| || cnt == 0
    decreases cnt
  {
    if cnt == 0 then Some(acc)
    else if i >= |s| || HexValue(s[i]) < 0 then None
    else HexDigits(s, i + 1, cnt - 1, acc * 16 + HexValue(s[i]))
  }

  /** The loop of `from_hex_to_i`. */
  method FromHexToI(s: string, i0: nat, cnt0: nat) returns (r: Option<nat>)
    requires cnt0 > 0
    ensures r == HexDigits(s, i0, cnt0, 0)
  {
    if i0 >= |s| { return None; }
    var i: nat, cnt: nat, val: nat := i0, cnt0, 0;
    while cnt > 0
      invariant HexDigits(s, i, cnt, val) == HexDigits(s, i0, cnt0, 0)
    {
      if i >= |s| { return None; }
      var v := HexValue(s[i]);
      if v < 0 { return None; }
      val := val * 16 + v;
      i, cnt := i + 1, cnt - 1;
    }
    return Some(val);
  }

  /** One upper-case hexadecimal digit. */
  function UpperHex(n: nat): (c: char)
    requires n < 16
    ensures HexValue(c) == n && !IsSpaceOrTab(c) && c != 'u' && c != '&' && c != '='
  {
    if n < 10 then (n + '0' as int) as char else (n - 10 + 'A' as int) as char
  }

  // ---------------------------------------------------------------- encoding

  predicate IsAlnum(c: char) {
    '0' <= c <= '9' || 'A' <= c <= 'Z' || 'a' <= c <= 'z'
  }

  /** The characters `encode_query_param` copies through. */
  predicate Unreserved(c: char) {
    IsAlnum(c) || c in "-_.!~*'()"
  }

  function EncodeChar(c: char): string
    requires c as int < 256
  {
    if Unreserved(c) then [c] else ['%', UpperHex(c as int / 16), UpperHex(c as int % 16)]
  }

  function EncodeQueryParam(s: string): string
    requires IsBytes(s)
  {
    if s == "" then "" else EncodeChar(s[0]) + EncodeQueryParam(s[1..])
  }

  lemma {:induction false} EncodeAppend(a: string, c: char)
    requires IsBytes(a) && c as int < 256
    ensures EncodeQueryParam(a + [c]) == EncodeQueryParam(a) + EncodeChar(c)
  {
    if a == "" {
      assert a + [c] == [c] && [c][1..] == "";
    } else {
      assert (a + [c])[1..] == a[1..] + [c];
      EncodeAppend(a[1..], c);
    }
  }

  /** The loop of `encode_query_param`. */
  method EncodeQueryParamLoop(s: string) returns (escaped: string)
    requires IsBytes(s)
    ensures escaped == EncodeQueryParam(s)
  {
    escaped := "";
    for i := 0 to |s|
      invariant escaped == EncodeQueryParam(s[..i])
    {
      assert s[..i + 1] == s[..i] + [s[i]];
      EncodeAppend(s[..i], s[i]);
      var c := s[i];
      if Unreserved(c) {
        escaped := escaped + [c];
      } else {
        escaped := escaped + ['%', UpperHex(c as int / 16), UpperHex(c as int % 16)];
      }
    }
    assert s[..|s|] == s;
  }

  // ---------------------------------------------------------------- decoding

  /** `to_utf8`: the bytes of a code point, none for a surrogate or a value past U+10FFFF. */
  function ToUtf8(code: nat): string {
    if code < 0x80 then [code as char]
    else if code < 0x800 then [(0xC0 + code / 0x40 % 0x20) as char, (0x80 + code % 0x40) as char]
    else if code < 0xD800 || 0xE000 <= code < 0x10000 then
      [(0xE0 + code / 0x1000 % 0x10) as char, (0x80 + code / 0x40 % 0x40) as char, (0x80 + code % 0x40) as char]
    else if code < 0xE000 then ""
    else if code < 0x110000 then
      [(0xF0 + code / 0x40000 % 8) as char, (0x80 + code / 0x1000 % 0x40) as char,
       (0x80 + code / 0x40 % 0x40) as char, (0x80 + code % 0x40) as char]
    else ""
  }

  datatype Piece = Piece(text: string, used: nat)

  /** What `decode_url` appends for the text at the front of `s`, and how much of `s` that uses. */
  function DecodeFront(s: string, plus: bool): (p: Piece)
    requires s != ""
    ensures 1 <= p.used <= |s|
  {
    if s[0] == '%' && |s| > 1 then
      if s[1] == 'u' then
        match HexDigits(s, 2, 4, 0)
        case Some(v) => Piece(ToUtf8(v), 6)
        case None => Piece("%", 1)
      else
        match HexDigits(s, 1, 2, 0)
        case Some(v) => Piece([(v % 256) as char], 3)
        case None => Piece("%", 1)
    else if plus && s[0] == '+' then Piece(" ", 1)
    else Piece([s[0]], 1)
  }

  function DecodeUrl(s: string, plus: bool): string
    decreases |s|
  {
    if s == "" then "" else
    var p := DecodeFront(s, plus);
    p.text + DecodeUrl(s[p.used..], plus)
  }

  /** One turn of the loop of `decode_url`: what it appends and the index it moves to. */
  method DecodeTurn(s: string, i: nat, plus: bool) returns (text: string, next: nat)
    requires i < |s|
    ensures text == DecodeFront(s[i..], plus).text && next == i + DecodeFront(s[i..], plus).used
  {
    text, next := [s[i]], i + 1;
    if s[i] == '%' && i + 1 < |s| {
      if s[i + 1] == 'u' {
        HexShift(s, i, 2, 4, 0);
        var val := FromHexToI(s, i + 2, 4);
        if val.Some? { text, next := ToUtf8(val.value), i + 6; }
      } else {
        HexShift(s, i, 1, 2, 0);
        var val := FromHexToI(s, i + 1, 2);
        if val.Some? { text, next := [(val.value % 256) as char], i + 3; }
      }
    } else if plus && s[i] == '+' {
      text := " ";
    }
  }

  /** The loop of `decode_url`. */
  method DecodeUrlLoop(s: string, plus: bool) returns (result: string)
    ensures result == DecodeUrl(s, plus)
  {
    hide DecodeFront;
    result := "";
    var i := 0;
    assert s[i..] == s && "" + DecodeUrl(s, plus) == DecodeUrl(s, plus);
    while i < |s|
      invariant i <= |s|
      invariant result + DecodeUrl(s[i..], plus) == DecodeUrl(s, plus)
    {
      var text, next := DecodeTurn(s, i, plus);
      DecodeStep(s, i, plus, text, next);
      Assoc(result, text, DecodeUrl(s[next..], plus));
      result, i := result + text, next;
    }
    assert s[i..] == "" && result + "" == result;
  }

  lemma DecodeStep(s: string, i: nat, plus: bool, text: string, next: nat)
    requires i < |s| && text == DecodeFront(s[i..], plus).text && next == i + DecodeFront(s[i..], plus).used
    ensures next <= |s| && DecodeUrl(s[i..], plus) == text + DecodeUrl(s[next..], plus)
  {
    hide DecodeFront;
    assert s[i..][next - i..] == s[next..];
  }

  lemma {:induction false} HexShift(s: string, off: nat, i: nat, cnt: nat, acc: nat)
    requires off <= |s|
    ensures HexDigits(s, off + i, cnt, acc) == HexDigits(s[off..], i, cnt, acc)
    decreases cnt
  {
    if cnt > 0 && off + i < |s| && HexValue(s[off + i]) >= 0 {
      HexShift(s, off, i + 1, cnt - 1, acc * 16 + HexValue(s[off + i]));
    }
  }

  // ---------------------------------------------------------------- round trip

  lemma DecodeEncodedChar(c: char, rest: string, plus: bool)
    requires c as int < 256
    ensures var s := EncodeChar(c) + rest; DecodeFront(s, plus) == Piece([c], |EncodeChar(c)|)
  {
    var s := EncodeChar(c) + rest;
    if !Unreserved(c) {
      var hi, lo := c as int / 16, c as int % 16;
      assert s[0] == '%' && s[1] == UpperHex(hi) && s[2] == UpperHex(lo);
      assert HexDigits(s, 3, 0, hi * 16 + lo) == Some(c as int);
      assert HexDigits(s, 2, 1, hi) == Some(c as int);
      assert HexDigits(s, 1, 2, 0) == Some(c as int);
    }
  }

  /** `decode_url` inverts `encode_query_param` on every byte string, with either plus flag. */
  lemma {:induction false} DecodeInvertsEncode(s: string, plus: bool)
    requires IsBytes(s)
    ensures DecodeUrl(EncodeQueryParam(s), plus) == s
  {
    if s != "" {
      var rest := EncodeQueryParam(s[1..]);
      var e := EncodeChar(s[0]) + rest;
      DecodeEncodedChar(s[0], rest, plus);
      assert e[|EncodeChar(s[0])|..] == rest;
      DecodeInvertsEncode(s[1..], plus);
    }
  }

  /** The encoding holds no separator, blank or plus sign. */
  lemma {:induction false} EncodedChars(s: string)
    requires IsBytes(s)
    ensures forall c :: c in EncodeQueryParam(s) ==> Unreserved(c) || c == '%'
  {
    if s != "" {
      EncodedChars(s[1..]);
    }
  }

  /** Text without '%' and '+' decodes to itself. */
  lemma {:induction false} DecodePlain(s: string, plus: bool)
    requires '%' !in s && (plus ==> '+' !in s)
    ensures DecodeUrl(s, plus) == s
  {
    if s != "" {
      assert DecodeFront(s, plus) == Piece([s[0]], 1);
      DecodePlain(s[1..], plus);
    }
  }

  /** Decoding never lengthens the text. */
  lemma {:induction false} DecodeShrinks(s: string, plus: bool)
    ensures |DecodeUrl(s, plus)| <= |s|
    decreases |s|
  {
    if s != "" {
      var p := DecodeFront(s, plus);
      assert |p.text| <= p.used by {
        if p.used == 6 { FourDigits(s); }
      }
      DecodeShrinks(s[p.used..], plus);
    }
  }

  /** Four hexadecimal digits give a code point of at most three bytes. */
  lemma FourDigits(s: string)
    requires HexDigits(s, 2, 4, 0).Some?
    ensures HexDigits(s, 2, 4, 0).value < 0x10000
  {
    HexBound(s, 2, 4, 0);
  }

  lemma {:induction false} HexBound(s: string, i: nat, cnt: nat, acc: nat)
    requires cnt <= 4 && HexDigits(s, i, cnt, acc).Some?
    ensures HexDigits(s, i, cnt, acc).value
            < (acc + 1) * (if cnt == 0 then 1 else if cnt == 1 then 16 else if cnt == 2 then 256
                           else if cnt == 3 then 4096 else 65536)
    decreases cnt
  {
    if cnt > 0 {
      HexBound(s, i + 1, cnt - 1, acc * 16 + HexValue(s[i]));
    }
  }

  // ---------------------------------------------------------------- plus signs and Unicode escapes

  /** Text without percent signs, its plus signs read as blanks. */
  lemma {:induction false} DecodePlus(s: string)
    requires '%' !in s
    ensures |DecodeUrl(s, true)| == |s|
    ensures forall i :: 0 <= i < |s| ==> DecodeUrl(s, true)[i] == if s[i] == '+' then ' ' else s[i]
  {
    if s != "" {
      DecodePlus(s[1..]);
      assert DecodeFront(s, true) == Piece(if s[0] == '+' then " " else [s[0]], 1);
    }
  }

  /** The values of code points that UTF-8 codes. */
  predicate IsScalar(code: nat) { code < 0xD800 || 0xE000 <= code < 0x11_0000 }

  predicate IsTail(c: char) { 0x80 <= c as int < 0xC0 }

  /** The code point at the start of a text, by section 3 of RFC 3629: its value and its length. */
  function ReadUtf8(s: string): (nat, nat)
    requires s != ""
  {
    var b0 := s[0] as int;
    if b0 < 0x80 then (b0, 1)
    else if 0xC0 <= b0 < 0xE0 && |s| > 1 && IsTail(s[1]) then (b0 % 32 * 64 + s[1] as int % 64, 2)
    else if 0xE0 <= b0 < 0xF0 && |s| > 2 && IsTail(s[1]) && IsTail(s[2]) then
      (b0 % 16 * 4096 + s[1] as int % 64 * 64 + s[2] as int % 64, 3)
    else if 0xF0 <= b0 < 0xF8 && |s| > 3 && IsTail(s[1]) && IsTail(s[2]) && IsTail(s[3]) then
      (b0 % 8 * 0x4_0000 + s[1] as int % 64 * 4096 + s[2] as int % 64 * 64 + s[3] as int % 64, 4)
    else (0, 0)
  }

  /** A UTF-8 decoder gives back every code point, and only a surrogate or a value out of range is coded as nothing. */
  lemma Utf8RoundTrip(code: nat, rest: string)
    ensures ToUtf8(code) == "" <==> !IsScalar(code)
    ensures IsScalar(code) ==> ReadUtf8(ToUtf8(code) + rest) == (code, |ToUtf8(code)|)
  {
    if code < 0x80 {
      assert (ToUtf8(code) + rest)[0] == ToUtf8(code)[0];
    } else if code < 0x800 {
      TwoBytes(code, rest);
    } else if code < 0x1_0000 {
      if IsScalar(code) { ThreeBytes(code, rest); }
    } else if code < 0x11_0000 {
      FourBytes(code, rest);
    }
  }

  lemma TwoBytes(code: nat, rest: string)
    requires 0x80 <= code < 0x800
    ensures ReadUtf8(ToUtf8(code) + rest) == (code, 2) && |ToUtf8(code)| == 2
  {
    var u := ToUtf8(code);
    var s := u + rest;
    assert s[0] == u[0] && s[1] == u[1];
    LeadByte(code / 64, 0xC0, 32);
    TailByte(code);
  }

  lemma ThreeBytes(code: nat, rest: string)
    requires 0x800 <= code < 0xD800 || 0xE000 <= code < 0x1_0000
    ensures ReadUtf8(ToUtf8(code) + rest) == (code, 3) && |ToUtf8(code)| == 3
  {
    var u := ToUtf8(code);
    var s := u + rest;
    assert s[0] == u[0] && s[1] == u[1] && s[2] == u[2];
    LeadByte(code / 4096, 0xE0, 16);
    TailByte(code / 64);
    TailByte(code);
    Quarters(code);
  }

  lemma FourBytes(code: nat, rest: string)
    requires 0x1_0000 <= code < 0x11_0000
    ensures ReadUtf8(ToUtf8(code) + rest) == (code, 4) && |ToUtf8(code)| == 4
  {
    var u := ToUtf8(code);
    var s := u + rest;
    assert s[0] == u[0] && s[1] == u[1] && s[2] == u[2] && s[3] == u[3];
    LeadByte(code / 0x4_0000, 0xF0, 8);
    TailByte(code / 4096);
    TailByte(code / 64);
    TailByte(code);
    Quarters(code);
  }

  lemma LeadByte(x: nat, mark: nat, n: nat)
    requires x < n && (mark, n) in {(0xC0, 32), (0xE0, 16), (0xF0, 8)}
    ensures x % n == x && (mark + x) % n == x
  {
  }

  lemma TailByte(x: nat)
    ensures 0x80 <= 0x80 + x % 64 < 0xC0 && (0x80 + x % 64) % 64 == x % 64 && x == x / 64 * 64 + x % 64
  {
  }

  lemma Quarters(x: nat)
    ensures x / 64 / 64 == x / 4096 && x / 4096 / 64 == x / 0x4_0000
  {
  }

  /** The four digits of a `%u` escape. */
  function UnicodeEscape(code: nat): string
    requires code < 0x1_0000
  {
    "%u" + [UpperHex(code / 4096), UpperHex(code / 256 % 16), UpperHex(code / 16 % 16), UpperHex(code % 16)]
  }

  /** A `%u` escape is read as the UTF-8 coding of its code point. */
  lemma UnicodeDecoded(code: nat, rest: string, plus: bool)
    requires code < 0x1_0000
    ensures DecodeUrl(UnicodeEscape(code) + rest, plus) == ToUtf8(code) + DecodeUrl(rest, plus)
  {
    hide ToUtf8, HexDigits, DecodeUrl;
    var s := UnicodeEscape(code) + rest;
    var a, b, c, d := code / 4096, code / 256 % 16, code / 16 % 16, code % 16;
    assert s[2] == UpperHex(a) && s[3] == UpperHex(b) && s[4] == UpperHex(c) && s[5] == UpperHex(d);
    hide UpperHex;
    FourHex(s, a, b, c, d);
    HexParts(code);
    assert s[6..] == rest;
    DecodeFirst(s, plus);
  }

  lemma FourHex(s: string, a: nat, b: nat, c: nat, d: nat)
    requires a < 16 && b < 16 && c < 16 && d < 16 && |s| >= 6
    requires HexValue(s[2]) == a && HexValue(s[3]) == b && HexValue(s[4]) == c && HexValue(s[5]) == d
    ensures HexDigits(s, 2, 4, 0) == Some(((a * 16 + b) * 16 + c) * 16 + d)
  {
    hide HexValue;
    assert HexDigits(s, 5, 1, (a * 16 + b) * 16 + c) == Some(((a * 16 + b) * 16 + c) * 16 + d);
    assert HexDigits(s, 3, 3, a) == HexDigits(s, 4, 2, a * 16 + b);
  }

  lemma HexParts(x: nat)
    requires x < 0x1_0000
    ensures x == ((x / 4096 * 16 + x / 256 % 16) * 16 + x / 16 % 16) * 16 + x % 16
  {
    assert x / 256 == x / 4096 * 16 + x / 256 % 16 && x / 16 == x / 256 * 16 + x / 16 % 16;
  }

  // ---------------------------------------------------------------- what is escaped, and how it is read

  const KEPT := UPPER + LOWER + "0123456789" + "-_.!~*'()"

  /** The characters that the encoder keeps, in full. */
  lemma KeptIff(c: char)
    requires c as int < 256
    ensures EncodeChar(c) == [c] <==> c in KEPT
  {
    hide UPPER, LOWER;
    LettersIn(c);
    DigitsIn(c);
    InParts(c, UPPER, LOWER, "0123456789", "-_.!~*'()");
  }

  lemma InParts(c: char, a: string, b: string, d: string, e: string)
    ensures c in a + b + d + e <==> c in a || c in b || c in d || c in e
  {
  }

  lemma LettersIn(c: char)
    ensures c in UPPER <==> 'A' <= c <= 'Z'
    ensures c in LOWER <==> 'a' <= c <= 'z'
  {
    hide UPPER, LOWER;
    LettersLength();
    forall k: nat | k < 26 ensures UPPER[k] == ('A' as int + k) as char && LOWER[k] == ('a' as int + k) as char {
      LettersAt(k);
    }
    if 'A' <= c <= 'Z' { assert UPPER[c as int - 'A' as int] == c; }
    if 'a' <= c <= 'z' { assert LOWER[c as int - 'a' as int] == c; }
  }

  lemma LettersLength()
    ensures |UPPER| == |LOWER| == 26
  {
  }

  lemma DigitsIn(c: char)
    ensures c in "0123456789" <==> '0' <= c <= '9'
  {
  }

  const DIGITS := "0123456789ABCDEF"
  const SMALL_DIGITS := "0123456789abcdef"

  /** The spellings of a hexadecimal digit. */
  predicate Spells(c: char, n: nat) { n < 16 && (c == DIGITS[n] || c == SMALL_DIGITS[n]) }

  lemma DigitValue(c: char, n: nat)
    requires n < 16
    ensures Spells(c, n) <==> HexValue(c) == n
  {
    assert DIGITS[n] == (if n < 10 then n + '0' as int else n - 10 + 'A' as int) as char;
    assert SMALL_DIGITS[n] == (if n < 10 then n + '0' as int else n - 10 + 'a' as int) as char;
  }

  /** The encoder writes digits in upper case. */
  lemma UpperDigits(n: nat)
    requires n < 16
    ensures UpperHex(n) == DIGITS[n]
  {
    UpperSpelling(n);
  }

  lemma UpperSpelling(n: nat)
    requires n < 16
    ensures DIGITS[n] == (if n < 10 then n + '0' as int else n - 10 + 'A' as int) as char
  {
  }

  /** Two digits behind a percent sign, in either spelling, are read as the byte they spell. */
  lemma EscapeDecoded(a: char, b: char, hi: nat, lo: nat, rest: string, plus: bool)
    requires Spells(a, hi) && Spells(b, lo)
    ensures DecodeUrl(['%', a, b] + rest, plus) == [(hi * 16 + lo) as char] + DecodeUrl(rest, plus)
  {
    hide HexValue, DecodeFront, DecodeUrl, DIGITS, SMALL_DIGITS;
    DigitValue(a, hi);
    DigitValue(b, lo);
    NotDigit();
    var s := ['%', a, b] + rest;
    assert s[1] == a && s[2] == b && s[3..] == rest;
    hide Spells;
    EscapeFront(s, hi, lo, plus);
    DecodeFirst(s, plus);
  }

  lemma EscapeFront(s: string, hi: nat, lo: nat, plus: bool)
    requires |s| >= 3 && s[0] == '%' && s[1] != 'u'
    requires hi < 16 && lo < 16 && HexValue(s[1]) == hi && HexValue(s[2]) == lo
    ensures DecodeFront(s, plus) == Piece([(hi * 16 + lo) as char], 3)
  {
    hide HexValue, HexDigits;
    TwoHex(s, hi, lo);
  }

  lemma DecodeFirst(s: string, plus: bool)
    requires s != ""
    ensures var p := DecodeFront(s, plus); DecodeUrl(s, plus) == p.text + DecodeUrl(s[p.used..], plus)
  {
  }

  lemma TwoHex(s: string, hi: nat, lo: nat)
    requires |s| >= 3 && hi < 16 && lo < 16 && HexValue(s[1]) == hi && HexValue(s[2]) == lo
    ensures HexDigits(s, 1, 2, 0) == Some(hi * 16 + lo)
  {
    hide HexValue;
    assert HexDigits(s, 2, 1, hi) == Some(hi * 16 + lo);
  }

  lemma NotDigit()
    ensures HexValue('u') == -1
  {
  }

  ghost predicate IsDigit(c: char) { exists n: nat :: Spells(c, n) }

  /** What follows a percent sign makes an escape of it: two digits, or a u and four digits. */
  ghost predicate Escapes(rest: string) {
    rest != "" &&
    if rest[0] == 'u' then |rest| > 4 && forall i :: 1 <= i < 5 ==> IsDigit(rest[i])
    else |rest| > 1 && IsDigit(rest[0]) && IsDigit(rest[1])
  }

  lemma DigitIff(c: char)
    ensures IsDigit(c) <==> HexValue(c) >= 0
  {
    hide Spells;
    forall n: nat | n < 16 ensures Spells(c, n) <==> HexValue(c) == n { DigitValue(c, n); }
    forall n: nat | Spells(c, n) ensures n < 16 { SpellsBelow(c, n); }
    if HexValue(c) >= 0 { assert Spells(c, HexValue(c)); }
  }

  lemma SpellsBelow(c: char, n: nat)
    requires Spells(c, n)
    ensures n < 16
  {
  }

  lemma {:induction false} AllDigits(s: string, i: nat, cnt: nat, acc: nat)
    ensures HexDigits(s, i, cnt, acc).Some?
            <==> cnt == 0 || (i + cnt <= |s| && forall k :: i <= k < i + cnt ==> IsDigit(s[k]))
    decreases cnt
  {
    hide IsDigit;
    if cnt > 0 && i < |s| {
      DigitIff(s[i]);
      if HexValue(s[i]) >= 0 { AllDigits(s, i + 1, cnt - 1, acc * 16 + HexValue(s[i])); }
    }
  }

  /** A percent sign that starts no escape stands for itself, and reading goes on behind it. */
  lemma StrayPercent(rest: string, plus: bool)
    requires !Escapes(rest)
    ensures DecodeUrl("%" + rest, plus) == "%" + DecodeUrl(rest, plus)
  {
    hide HexDigits, IsDigit, ToUtf8;
    var s := "%" + rest;
    assert s[1..] == rest;
    AllDigits(s, 2, 4, 0);
    AllDigits(s, 1, 2, 0);
    assert forall i :: 1 <= i < |s| ==> s[i] == rest[i - 1];
  }
}
