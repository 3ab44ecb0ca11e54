/** Machine words: ranges and conversions of the fixed-width integers of the audio code. */
module Words {
  const WORD: nat := 0x1_0000_0000

  type Byte = b: nat | b < 256
  type U16 = x: nat | x < 0x1_0000
  type U32 = x: nat | x < WORD
  type S16 = x: int | -0x8000 <= x < 0x8000

  predicate InS32(x: int) { -0x8000_0000 <= x < 0x8000_0000 }

  /** The conversion to a signed 16-bit value, which keeps the low 16 bits. */
  function ToS16(x: int): (r: S16)
    ensures (r - x) % 0x1_0000 == 0
  {
    if x % 0x1_0000 < 0x8000 then x % 0x1_0000 else x % 0x1_0000 - 0x1_0000
  }

  function ToU16(x: S16): U16 {
    if x < 0 then x + 0x1_0000 else x
  }

  /** The value that 32-bit signed arithmetic keeps of `x`. */
  function ToS32(x: int): (r: int)
    ensures InS32(r) && (InS32(x) ==> r == x) && (r - x) % WORD == 0
  {
    var m := x % WORD;
    if m < 0x8000_0000 then m else m - WORD
  }

  function Clamp16(x: int): S16 { if x < -0x8000 then -0x8000 else if x > 0x7FFF then 0x7FFF else x }

  function Power2(n: nat): (p: nat)
    ensures p >= 1
  {
    if n == 0 then 1 else 2 * Power2(n - 1)
  }

  lemma Scales(x: int, y: int, k: nat)
    requires x <= y
    ensures x * k <= y * k
  {
  }
}
