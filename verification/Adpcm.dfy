/** The GC-ADPCM decoder of codec.cpp: frames of 8 bytes that hold 14 samples of a second-order filter. */
module Adpcm {
  import opened Words

  const FRAME_LEN: nat := 8
  const SAMPLES_PER_FRAME: nat := 14

  /** Eight pairs of filter coefficients, with 11 fractional bits. */
  type Coefficients = s: seq<S16> | |s| == 16 witness [0, 0, 0, 0, 0, 0, 0, 0, 0, 0, 0, 0, 0, 0, 0, 0]

  /** The last two samples, newest first. */
  datatype Taps = Taps(y1: S16, y2: S16)

  function SignedNibble(x: nat): (n: int)
    requires x < 16
    ensures -8 <= n <= 7
  {
    if x < 8 then x else x - 16
  }

  /** The filter's sum, in 11-bit fixed point. */
  function FilterSum(xn: int, c1: S16, c2: S16, t: Taps): int {
    xn * 2048 + 0x400 + c1 * t.y1 + c2 * t.y2
  }

  /** The shift right by 11 rounds down; what the sum exceeds 32 bits by is lost. */
  function FilterSample(xn: int, c1: S16, c2: S16, t: Taps): S16 {
    Clamp16(ToS32(FilterSum(xn, c1, c2, t)) / 2048)
  }

  function ByteAt(data: seq<Byte>, i: nat): Byte { if i < |data| then data[i] else 0 }

  function Scale(header: Byte): nat { Power2(header % 16) }

  function Pair(coeff: Coefficients, header: Byte): (S16, S16) {
    var i := header / 16 % 8;
    (coeff[2 * i], coeff[2 * i + 1])
  }

  function HeaderOf(data: seq<Byte>, k: nat): Byte { ByteAt(data, k / SAMPLES_PER_FRAME * FRAME_LEN) }

  /** The place of sample `k` in the data, and its nibble: the high one first. */
  function PlaceOf(k: nat): nat { k / SAMPLES_PER_FRAME * FRAME_LEN + 1 + k % SAMPLES_PER_FRAME / 2 }

  function NibbleOf(data: seq<Byte>, k: nat): (n: nat)
    ensures n < 16
  {
    var b := ByteAt(data, PlaceOf(k));
    if k % 2 == 0 then b / 16 else b % 16
  }

  function SampleOf(data: seq<Byte>, coeff: Coefficients, t: Taps, k: nat): S16 {
    var h := HeaderOf(data, k);
    FilterSample(SignedNibble(NibbleOf(data, k)) * Scale(h), Pair(coeff, h).0, Pair(coeff, h).1, t)
  }

  /** The taps after the first `n` samples of the data. */
  function TapsAfter(data: seq<Byte>, coeff: Coefficients, t: Taps, n: nat): Taps {
    if n == 0 then t else
    var u := TapsAfter(data, coeff, t, n - 1);
    Taps(SampleOf(data, coeff, u, n - 1), u.y1)
  }

  /** Counts are rounded up to whole bytes. */
  function Even(n: nat): (m: nat)
    ensures n <= m <= n + 1
  {
    n + n % 2
  }

  function Decoded(data: seq<Byte>, coeff: Coefficients, t: Taps, n: nat): seq<S16> {
    seq(Even(n), k requires 0 <= k < Even(n) => TapsAfter(data, coeff, t, k + 1).y1)
  }

  // ---------------------------------------------------------------- split decoding

  lemma SampleInFrames(data: seq<Byte>, coeff: Coefficients, t: Taps, frames: nat, k: nat)
    requires FRAME_LEN * frames <= |data|
    ensures SampleOf(data, coeff, t, SAMPLES_PER_FRAME * frames + k)
            == SampleOf(data[FRAME_LEN * frames..], coeff, t, k)
  {
    hide FilterSample, Scale, Pair, SignedNibble, ByteAt;
    FrameShift(frames, k);
    var start := FRAME_LEN * frames;
    ByteShift(data, start, k / SAMPLES_PER_FRAME * FRAME_LEN);
    ByteShift(data, start, PlaceOf(k));
  }

  lemma FrameShift(frames: nat, k: nat)
    ensures var j := SAMPLES_PER_FRAME * frames + k;
            && j / SAMPLES_PER_FRAME * FRAME_LEN == FRAME_LEN * frames + k / SAMPLES_PER_FRAME * FRAME_LEN
            && j % SAMPLES_PER_FRAME == k % SAMPLES_PER_FRAME && j % 2 == k % 2
  {
    By14(frames, k);
    By2(7 * frames, k);
  }

  lemma By14(f: nat, k: nat)
    ensures (14 * f + k) / 14 == f + k / 14 && (14 * f + k) % 14 == k % 14
  {
  }

  lemma By2(a: nat, k: nat)
    ensures (2 * a + k) % 2 == k % 2
  {
  }

  lemma ByteShift(data: seq<Byte>, start: nat, i: nat)
    requires start <= |data|
    ensures ByteAt(data[start..], i) == ByteAt(data, start + i)
  {
  }

  lemma {:induction false} TapsInFrames(data: seq<Byte>, coeff: Coefficients, t: Taps, frames: nat, n: nat)
    requires FRAME_LEN * frames <= |data|
    ensures TapsAfter(data, coeff, t, SAMPLES_PER_FRAME * frames + n)
            == TapsAfter(data[FRAME_LEN * frames..], coeff, TapsAfter(data, coeff, t, SAMPLES_PER_FRAME * frames), n)
  {
    hide SampleOf;
    if n > 0 {
      TapsInFrames(data, coeff, t, frames, n - 1);
      SampleInFrames(data, coeff, TapsAfter(data, coeff, t, SAMPLES_PER_FRAME * frames + n - 1), frames, n - 1);
    }
  }

  lemma EvenSplit(frames: nat, n: nat)
    requires SAMPLES_PER_FRAME * frames <= n
    ensures var m := SAMPLES_PER_FRAME * frames; Even(m) == m && Even(n - m) == Even(n) - m
  {
    EvenShift(7 * frames, n);
  }

  lemma EvenShift(a: nat, n: nat)
    requires 2 * a <= n
    ensures Even(2 * a) == 2 * a && Even(n - 2 * a) == Even(n) - 2 * a
  {
  }

  /** Decoding whole frames first and the rest from the carried state is decoding everything at once. */
  lemma SplitDecoding(data: seq<Byte>, coeff: Coefficients, t: Taps, frames: nat, n: nat)
    requires FRAME_LEN * frames <= |data| && SAMPLES_PER_FRAME * frames <= n
    ensures var m := SAMPLES_PER_FRAME * frames; var u := TapsAfter(data, coeff, t, Even(m));
            var rest := data[FRAME_LEN * frames..];
            && Decoded(data, coeff, t, n) == Decoded(data, coeff, t, m) + Decoded(rest, coeff, u, n - m)
            && TapsAfter(data, coeff, t, Even(n)) == TapsAfter(rest, coeff, u, Even(n - m))
  {
    hide TapsAfter, Even;
    var m, rest := SAMPLES_PER_FRAME * frames, data[FRAME_LEN * frames..];
    EvenSplit(frames, n);
    var u := TapsAfter(data, coeff, t, m);
    TapsInFrames(data, coeff, t, frames, Even(n) - m);
    var whole, parts := Decoded(data, coeff, t, n), Decoded(data, coeff, t, m) + Decoded(rest, coeff, u, n - m);
    forall k | 0 <= k < Even(n) ensures whole[k] == parts[k] {
      if k >= m { TapsInFrames(data, coeff, t, frames, k - m + 1); }
    }
  }

  // ---------------------------------------------------------------- 32-bit range

  function Highest(c: S16): int { if c >= 0 then 0x7FFF * c else -0x8000 * c }
  function Lowest(c: S16): int { if c >= 0 then -0x8000 * c else 0x7FFF * c }

  lemma TermRange(c: S16, y: S16)
    ensures Lowest(c) <= c * y <= Highest(c) && Lowest(c) <= 0 <= Highest(c)
  {
    if c >= 0 {
      Scales(y, 0x7FFF, c);
      Scales(-0x8000, y, c);
    } else {
      var d: int := c;
      Scales(y, 0x7FFF, -d);
      Scales(-0x8000, y, -d);
      assert y * -d == -(d * y);
    }
  }

  lemma TermReaches(c: S16) returns (low: S16, high: S16)
    ensures c * low == Lowest(c) && c * high == Highest(c)
  {
    low, high := if c >= 0 then -0x8000 else 0x7FFF, if c >= 0 then 0x7FFF else -0x8000;
  }

  const HIGHEST_INPUT: int := 7 * 0x8000
  const LOWEST_INPUT: int := -8 * 0x8000

  /** The coefficient pairs for which the largest and the smallest possible sums fit 32 bits. */
  predicate PairFits(c1: S16, c2: S16) {
    && HIGHEST_INPUT * 2048 + 0x400 + Highest(c1) + Highest(c2) < 0x8000_0000
    && LOWEST_INPUT * 2048 + 0x400 + Lowest(c1) + Lowest(c2) >= -0x8000_0000
  }

  predicate IsInput(xn: int) { LOWEST_INPUT <= xn <= HIGHEST_INPUT }

  lemma {:induction false} PowerRange(n: nat)
    requires n <= 15
    ensures Power2(n) <= 0x8000
    decreases 15 - n
  {
    if n < 15 { PowerRange(n + 1); } else { assert Power2(15) == 0x8000 by { PowerFifteen(); } }
  }

  lemma PowerFifteen()
    ensures Power2(15) == 0x8000
  {
    assert Power2(4) == 16;
    assert Power2(8) == 256;
    assert Power2(12) == 4096;
  }

  /** A nibble times its frame's scale is an input of the filter. */
  lemma InputRange(nibble: nat, header: Byte)
    requires nibble < 16
    ensures IsInput(SignedNibble(nibble) * Scale(header))
  {
    PowerRange(header % 16);
    var s, x := Scale(header), SignedNibble(nibble);
    Scales(x, 7, s);
    Scales(-8, x, s);
  }

  /** Every partial sum of the filter fits 32 bits, whatever the input and the taps, if and only if the pair fits. */
  lemma FilterFits(c1: S16, c2: S16)
    ensures (forall xn: int, t: Taps :: IsInput(xn) ==> InS32(FilterSum(xn, c1, c2, t))) <==> PairFits(c1, c2)
  {
    var l1, h1 := TermReaches(c1);
    var l2, h2 := TermReaches(c2);
    assert FilterSum(HIGHEST_INPUT, c1, c2, Taps(h1, h2)) == HIGHEST_INPUT * 2048 + 0x400 + Highest(c1) + Highest(c2);
    assert FilterSum(LOWEST_INPUT, c1, c2, Taps(l1, l2)) == LOWEST_INPUT * 2048 + 0x400 + Lowest(c1) + Lowest(c2);
    assert IsInput(HIGHEST_INPUT) && IsInput(LOWEST_INPUT);
    if PairFits(c1, c2) {
      forall xn: int, t: Taps | IsInput(xn) ensures InS32(FilterSum(xn, c1, c2, t)) { SumFits(xn, c1, c2, t); }
    } else {
      TermRange(c1, 0);
      TermRange(c2, 0);
    }
  }

  lemma SumFits(xn: int, c1: S16, c2: S16, t: Taps)
    requires PairFits(c1, c2) && IsInput(xn)
    ensures InS32(FilterSum(xn, c1, c2, t)) && InS32(xn * 2048 + 0x400) && InS32(xn * 2048 + 0x400 + c1 * t.y1)
    ensures FilterSample(xn, c1, c2, t) == Clamp16(FilterSum(xn, c1, c2, t) / 2048)
  {
    TermRange(c1, t.y1);
    TermRange(c2, t.y2);
  }

  function Abs(x: int): nat { if x < 0 then -x else x }

  /** A simple sufficient bound. */
  lemma SmallPairFits(c1: S16, c2: S16)
    requires Abs(c1) + Abs(c2) <= 49152
    ensures PairFits(c1, c2)
  {
  }

  // ---------------------------------------------------------------- the filter on the output

  /** The samples around the output `y`: before it lie the two samples that decoding starts from. */
  function Out(y: seq<S16>, t: Taps, k: int): int
    requires -2 <= k < |y|
  {
    if k == -2 then t.y2 else if k == -1 then t.y1 else y[k]
  }

  /** The filter's output for input `x`, coefficients and the two samples before, with 32-bit arithmetic that wraps;
      where the pair fits, nothing wraps. */
  predicate IsFilter(x: int, c1: S16, c2: S16, y1: int, y2: int, y: int) {
    var sum := x * 2048 + 0x400 + c1 * y1 + c2 * y2;
    var v := ToS32(sum) / 2048;
    && y == (if v > 0x7FFF then 0x7FFF else if v < -0x8000 then -0x8000 else v)
    && (PairFits(c1, c2) ==> ToS32(sum) == sum)
  }

  /** The sample of a nibble, high or low, of byte `b`, in a frame with header `h`. */
  predicate IsSample(h: Byte, b: Byte, high: bool, coeff: Coefficients, y1: int, y2: int, y: int) {
    var nibble := if high then b / 16 else b % 16;
    var i := h / 16 % 8;
    IsFilter((if nibble >= 8 then nibble - 16 else nibble) * Power2(h % 16), coeff[2 * i], coeff[2 * i + 1], y1, y2, y)
  }

  /** Every sample is the filter of its nibble and of the two samples before it: frames of a header and seven bytes, two
      samples a byte, the high half first. */
  ghost predicate Filtered(data: seq<Byte>, coeff: Coefficients, t: Taps, y: seq<S16>) {
    forall k: nat :: k < |y| ==> FilteredAt(data, coeff, t, y, k)
  }

  predicate FilteredAt(data: seq<Byte>, coeff: Coefficients, t: Taps, y: seq<S16>, k: nat)
    requires k < |y|
  {
    && 8 * (k / 14) + 1 + k % 14 / 2 < |data|
    && IsSample(data[8 * (k / 14)], data[8 * (k / 14) + 1 + k % 14 / 2], k % 2 == 0, coeff,
                Out(y, t, k - 1), Out(y, t, k - 2), y[k])
  }

  lemma {:induction false} DecodedAt(data: seq<Byte>, coeff: Coefficients, t: Taps, n: nat, k: nat)
    requires k < Even(n)
    ensures var y, u := Decoded(data, coeff, t, n), TapsAfter(data, coeff, t, k);
            u.y1 == Out(y, t, k - 1) && u.y2 == Out(y, t, k - 2) && y[k] == SampleOf(data, coeff, u, k)
  {
    hide SampleOf;
    if k > 0 { DecodedAt(data, coeff, t, n, k - 1); }
  }

  lemma SampleFiltered(data: seq<Byte>, coeff: Coefficients, u: Taps, k: nat)
    requires 8 * (k / 14) + 1 + k % 14 / 2 < |data|
    ensures IsSample(data[8 * (k / 14)], data[8 * (k / 14) + 1 + k % 14 / 2], k % 2 == 0, coeff,
                     u.y1, u.y2, SampleOf(data, coeff, u, k))
  {
    hide IsFilter, FilterSample;
    var h := data[8 * (k / 14)];
    var x := SignedNibble(NibbleOf(data, k)) * Scale(h);
    InputRange(NibbleOf(data, k), h);
    FilterIs(x, Pair(coeff, h).0, Pair(coeff, h).1, u);
  }

  lemma FilterIs(x: int, c1: S16, c2: S16, u: Taps)
    requires IsInput(x)
    ensures IsFilter(x, c1, c2, u.y1, u.y2, FilterSample(x, c1, c2, u))
  {
    hide ToS32, PairFits;
    if PairFits(c1, c2) { SumFits(x, c1, c2, u); }
  }

  /** The bytes of a sample lie inside the data. */
  lemma PlaceInside(n: nat, k: nat)
    requires k < Even(n)
    ensures 8 * (k / 14) + 1 + k % 14 / 2 < Needed(n)
  {
    PlaceGrows(k, Even(n) - 1);
  }

  /** The decoder's output satisfies the filter's recurrence, and the state it leaves is its last two samples. */
  lemma OutputFiltered(data: seq<Byte>, coeff: Coefficients, t: Taps, n: nat)
    requires |data| >= Needed(n)
    ensures var y, u := Decoded(data, coeff, t, n), TapsAfter(data, coeff, t, Even(n));
            Filtered(data, coeff, t, y) && u.y1 == Out(y, t, |y| - 1) && u.y2 == Out(y, t, |y| - 2)
  {
    hide FilteredAt, Needed, SampleOf;
    var y := Decoded(data, coeff, t, n);
    forall k: nat | k < |y| ensures FilteredAt(data, coeff, t, y, k) { OutputFilteredAt(data, coeff, t, n, k); }
    if n > 0 { DecodedAt(data, coeff, t, n, Even(n) - 1); }
  }

  lemma OutputFilteredAt(data: seq<Byte>, coeff: Coefficients, t: Taps, n: nat, k: nat)
    requires |data| >= Needed(n) && k < Even(n)
    ensures FilteredAt(data, coeff, t, Decoded(data, coeff, t, n), k)
  {
    hide IsSample, Needed, SampleOf, TapsAfter;
    PlaceInside(n, k);
    DecodedAt(data, coeff, t, n, k);
    SampleFiltered(data, coeff, TapsAfter(data, coeff, t, k), k);
  }

  /** The recurrence determines the output. */
  lemma {:induction false} OnlyOutput(data: seq<Byte>, coeff: Coefficients, t: Taps, y: seq<S16>, z: seq<S16>, n: nat)
    requires n <= |y| && n <= |z| && Filtered(data, coeff, t, y) && Filtered(data, coeff, t, z)
    ensures y[..n] == z[..n]
  {
    if n > 0 {
      OnlyOutput(data, coeff, t, y, z, n - 1);
      SameNext(data, coeff, t, y, z, n - 1);
      assert y[..n] == y[..n - 1] + [y[n - 1]] && z[..n] == z[..n - 1] + [z[n - 1]];
    }
  }

  lemma SameNext(data: seq<Byte>, coeff: Coefficients, t: Taps, y: seq<S16>, z: seq<S16>, k: nat)
    requires k < |y| && k < |z| && y[..k] == z[..k] && FilteredAt(data, coeff, t, y, k)
             && FilteredAt(data, coeff, t, z, k)
    ensures y[k] == z[k]
  {
    hide Power2, ToS32, PairFits;
    assert k > 0 ==> y[k - 1] == y[..k][k - 1] && z[k - 1] == z[..k][k - 1];
    assert k > 1 ==> y[k - 2] == y[..k][k - 2] && z[k - 2] == z[..k][k - 2];
  }

  // ---------------------------------------------------------------- the decoder

  /** The caller's decoder state. */
  class State {
    var yn1: S16
    var yn2: S16

    constructor (yn1: S16, yn2: S16)
      ensures this.yn1 == yn1 && this.yn2 == yn2
    {
      this.yn1, this.yn2 := yn1, yn2;
    }

    function Contents(): Taps
      reads this
    {
      Taps(yn1, yn2)
    }
  }

  /** The bytes that `n` samples occupy. */
  function Needed(n: nat): nat { if n == 0 then 0 else PlaceOf(Even(n) - 1) + 1 }

  function FrameCount(n: nat): nat { (n + (SAMPLES_PER_FRAME - 1)) / SAMPLES_PER_FRAME }

  /** How many samples are decoded once `frames` frames are done. */
  function DoneAfter(n: nat, frames: nat): nat {
    if SAMPLES_PER_FRAME * frames < n then SAMPLES_PER_FRAME * frames else Even(n)
  }

  lemma FramesCover(n: nat)
    ensures DoneAfter(n, FrameCount(n)) == Even(n)
    ensures forall f :: 0 <= f < FrameCount(n) ==> SAMPLES_PER_FRAME * f < n
  {
  }

  /** Where pair `i / 2` of frame `f` lies, and that it lies inside the data. */
  lemma PairPlace(n: nat, f: nat, i: nat)
    requires i % 2 == 0 && i < SAMPLES_PER_FRAME && SAMPLES_PER_FRAME * f + i < n
    ensures var k := SAMPLES_PER_FRAME * f + i;
            && k % 2 == 0 && k + 1 < Even(n)
            && PlaceOf(k) == PlaceOf(k + 1) == f * FRAME_LEN + 1 + i / 2 < Needed(n)
            && k / SAMPLES_PER_FRAME == (k + 1) / SAMPLES_PER_FRAME == f
  {
    var k := SAMPLES_PER_FRAME * f + i;
    hide PlaceOf;
    InFrame(f, i);
    InFrame(f, i + 1);
    PlaceGrows(k + 1, Even(n) - 1);
    EvenPair(7 * f, i / 2, n);
  }

  lemma EvenPair(a: nat, b: nat, n: nat)
    requires 2 * a + 2 * b < n
    ensures (2 * a + 2 * b) % 2 == 0 && 2 * a + 2 * b + 1 < Even(n)
  {
  }

  lemma InFrame(f: nat, i: nat)
    requires i < SAMPLES_PER_FRAME
    ensures var k := SAMPLES_PER_FRAME * f + i; k / SAMPLES_PER_FRAME == f && PlaceOf(k) == f * FRAME_LEN + 1 + i / 2
  {
  }

  lemma LoopDone(n: nat, f: nat, i: nat)
    requires i % 2 == 0 && i <= SAMPLES_PER_FRAME && SAMPLES_PER_FRAME * f + i <= Even(n)
    requires i == SAMPLES_PER_FRAME || SAMPLES_PER_FRAME * f + i >= n
    ensures DoneAfter(n, f + 1) == SAMPLES_PER_FRAME * f + i
  {
    hide Even;
    By2(7 * f, i);
    if SAMPLES_PER_FRAME * f + i >= n { RoundedUp(n, SAMPLES_PER_FRAME * f + i); }
  }

  lemma RoundedUp(n: nat, k: nat)
    requires k % 2 == 0 && n <= k <= Even(n)
    ensures k == Even(n)
  {
  }

  lemma PlaceGrows(a: nat, b: nat)
    requires a <= b
    ensures PlaceOf(a) <= PlaceOf(b)
  {
    var f, g := a / SAMPLES_PER_FRAME, b / SAMPLES_PER_FRAME;
    assert f <= g;
    if f < g { assert PlaceOf(a) <= f * FRAME_LEN + 7; }
  }

  ghost predicate Written(data: seq<Byte>, coeff: Coefficients, t: Taps, ret: seq<(S16, S16)>, n: nat)
    requires n <= |ret|
  {
    forall k :: 0 <= k < n ==> ret[k] == (TapsAfter(data, coeff, t, k + 1).y1, TapsAfter(data, coeff, t, k + 1).y1)
  }

  /** The two samples of one byte. */
  lemma PairSamples(data: seq<Byte>, coeff: Coefficients, n: nat, f: nat, i: nat, v: Taps, w: Taps)
    requires |data| >= Needed(n) && i % 2 == 0 && i < SAMPLES_PER_FRAME && SAMPLES_PER_FRAME * f + i < n
    ensures f * FRAME_LEN + 1 + i / 2 < |data| && SAMPLES_PER_FRAME * f + i + 1 < Even(n)
    ensures var k, b, h := SAMPLES_PER_FRAME * f + i, data[f * FRAME_LEN + 1 + i / 2], data[f * FRAME_LEN];
            && SampleOf(data, coeff, v, k)
               == FilterSample(SignedNibble(b / 16) * Scale(h), Pair(coeff, h).0, Pair(coeff, h).1, v)
            && SampleOf(data, coeff, w, k + 1)
               == FilterSample(SignedNibble(b % 16) * Scale(h), Pair(coeff, h).0, Pair(coeff, h).1, w)
  {
    hide FilterSample, Scale, Pair, SignedNibble;
    PairPlace(n, f, i);
    hide PlaceOf, Needed;
  }

  lemma WrittenNext(data: seq<Byte>, coeff: Coefficients, t: Taps, ret: seq<(S16, S16)>, n: nat, s: S16)
    requires n < |ret| && Written(data, coeff, t, ret, n) && s == TapsAfter(data, coeff, t, n + 1).y1
    ensures Written(data, coeff, t, ret[n := (s, s)], n + 1)
  {
    hide TapsAfter;
  }

  /** The inner loop: the samples of one frame, two for each byte. */
  method DecodeFrame(data: seq<Byte>, n: nat, coeff: Coefficients, f: nat, ret: array<(S16, S16)>, ghost t: Taps,
                     u: Taps)
    returns (v: Taps)
    requires |data| >= Needed(n) && ret.Length == Even(n) && SAMPLES_PER_FRAME * f < n
    requires u == TapsAfter(data, coeff, t, SAMPLES_PER_FRAME * f)
             && Written(data, coeff, t, ret[..], SAMPLES_PER_FRAME * f)
    modifies ret
    ensures v == TapsAfter(data, coeff, t, DoneAfter(n, f + 1)) && Written(data, coeff, t, ret[..], DoneAfter(n, f + 1))
  {
    hide FilterSample, SampleOf, Scale, Pair, Needed, SignedNibble, Written, DoneAfter, TapsAfter, Even;
    PairSamples(data, coeff, n, f, 0, u, u);
    v := u;
    var header := data[f * FRAME_LEN];
    var scale, pair := Scale(header), Pair(coeff, header);
    var i, outputi := 0, SAMPLES_PER_FRAME * f;
    while i < SAMPLES_PER_FRAME && outputi < n
      invariant i <= SAMPLES_PER_FRAME && i % 2 == 0 && outputi == SAMPLES_PER_FRAME * f + i <= Even(n)
      invariant v == TapsAfter(data, coeff, t, outputi) && Written(data, coeff, t, ret[..], outputi)
    {
      v := DecodeByte(data, n, coeff, f, i, ret, outputi, t, v, scale, pair);
      i, outputi := i + 2, outputi + 2;
    }
    LoopDone(n, f, i);
  }

  /** The loop's body: one byte gives two samples, the high nibble first. */
  method DecodeByte(data: seq<Byte>, ghost n: nat, ghost coeff: Coefficients, f: nat, i: nat, ret: array<(S16, S16)>,
                    outputi: nat, ghost t: Taps, v: Taps, scale: nat, pair: (S16, S16))
    returns (w: Taps)
    requires |data| >= Needed(n) && i % 2 == 0 && i < SAMPLES_PER_FRAME && outputi == SAMPLES_PER_FRAME * f + i < n
    requires f * FRAME_LEN < |data| && scale == Scale(data[f * FRAME_LEN]) && pair == Pair(coeff, data[f * FRAME_LEN])
    requires ret.Length == Even(n)
    requires v == TapsAfter(data, coeff, t, outputi) && Written(data, coeff, t, ret[..], outputi)
    modifies ret
    ensures outputi + 2 <= Even(n) && w == TapsAfter(data, coeff, t, outputi + 2)
            && Written(data, coeff, t, ret[..], outputi + 2)
  {
    hide FilterSample, SampleOf, Scale, Pair, Needed, SignedNibble, Written, Even, TapsAfter;
    PairSamples(data, coeff, n, f, i, v, v);
    var b := data[f * FRAME_LEN + 1 + i / 2];
    var sample1 := FilterSample(SignedNibble(b / 16) * scale, pair.0, pair.1, v);
    Store(data, coeff, t, ret, outputi, v, sample1);
    w := Taps(sample1, v.y1);
    var sample2 := FilterSample(SignedNibble(b % 16) * scale, pair.0, pair.1, w);
    PairSamples(data, coeff, n, f, i, v, w);
    Store(data, coeff, t, ret, outputi + 1, w, sample2);
    w := Taps(sample2, w.y1);
  }

  /** `ret[k].fill(sample)`. */
  method Store(ghost data: seq<Byte>, ghost coeff: Coefficients, ghost t: Taps, ret: array<(S16, S16)>, k: nat,
               ghost v: Taps, sample: S16)
    requires k < ret.Length && Written(data, coeff, t, ret[..], k) && v == TapsAfter(data, coeff, t, k)
    requires sample == SampleOf(data, coeff, v, k)
    modifies ret
    ensures Written(data, coeff, t, ret[..], k + 1) && TapsAfter(data, coeff, t, k + 1) == Taps(sample, v.y1)
  {
    hide SampleOf;
    assert TapsAfter(data, coeff, t, k + 1) == Taps(sample, v.y1);
    WrittenNext(data, coeff, t, ret[..], k, sample);
    ret[k] := (sample, sample);
    assert ret[..] == old(ret[..])[k := (sample, sample)];
  }

  /** `DecodeADPCM`: all samples, each on both channels, and the state to carry on from. */
  method DecodeADPCM(data: seq<Byte>, n: nat, coeff: Coefficients, state: State) returns (ret: array<(S16, S16)>)
    requires |data| >= Needed(n)
    modifies state
    ensures fresh(ret) && ret.Length == Even(n)
    ensures var y := Decoded(data, coeff, old(state.Contents()), n);
            && (forall k :: 0 <= k < ret.Length ==> ret[k] == (y[k], y[k]))
            && Filtered(data, coeff, old(state.Contents()), y)
    ensures state.Contents() == TapsAfter(data, coeff, old(state.Contents()), Even(n))
  {
    hide SampleOf, Needed, Filtered, FrameCount;
    ghost var t := state.Contents();
    ret := new (S16, S16)[Even(n)](i => (0, 0));
    var u := state.Contents();
    FramesCover(n);
    for f := 0 to FrameCount(n)
      invariant u == TapsAfter(data, coeff, t, DoneAfter(n, f)) && Written(data, coeff, t, ret[..], DoneAfter(n, f))
    {
      u := DecodeFrame(data, n, coeff, f, ret, t, u);
    }
    OutputFiltered(data, coeff, t, n);
    state.yn1, state.yn2 := u.y1, u.y2;
  }
}
