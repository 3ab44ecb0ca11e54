/** The CSND mixer: what one output frame is made of, and when its clamps matter. */
module CsndMixer {
  import opened Words
  import opened CsndChannel
  import opened CsndTimer

  datatype Side = Left | Right

  function Volume(c: Channel, side: Side): U16 { if side == Left then c.volumeLeft else c.volumeRight }

  /** What a channel puts out: its interpolated sample while enabled, its last sample while holding, else silence. */
  function Output(c: Channel): S16 {
    if c.cnt.enable then Interpolated(c) else if c.holding then c.current else 0
  }

  /** The arithmetic shift right by 15, which rounds down. */
  function Shift15(x: int): int { x / 0x8000 }

  function Level(c: Channel, side: Side): int { Shift15(Output(c) * Volume(c, side)) }

  function Mix(cs: seq<Channel>, side: Side): int {
    if cs == [] then 0 else Mix(cs[..|cs| - 1], side) + Level(cs[|cs| - 1], side)
  }

  function Mixed(cs: seq<Channel>, master: nat, side: Side): int { Shift15(Mix(cs, side) * master) }

  function Frame(cs: seq<Channel>, master: nat): (S16, S16) {
    (Clamp16(Mixed(cs, master, Left)), Clamp16(Mixed(cs, master, Right)))
  }

  predicate AllSound(cs: seq<Channel>) {
    forall i :: 0 <= i < |cs| ==> Sound(cs[i])
  }

  // ---------------------------------------------------------------- nothing overflows

  lemma ScaledBounds(s: S16, v: nat)
    requires v <= MAX_VOLUME
    ensures InS32(s * v) && 0 <= Shift15(s * v) + v && 0x8000 * Shift15(s * v) <= 0x7FFF * v && Shift15(s * v) <= 0x7FFF
  {
    Scales(s, 0x7FFF, v);
    Scales(-0x8000, s, v);
  }

  /** Every product fits 32 bits, and so does the sum of the levels of 32 channels. */
  lemma {:induction false} MixFits(cs: seq<Channel>, side: Side)
    requires AllSound(cs) && |cs| <= 32
    ensures -0x8000 * |cs| <= Mix(cs, side) <= 0x7FFF * |cs| && InS32(Mix(cs, side))
    ensures forall i :: 0 <= i < |cs| ==> InS32(Output(cs[i]) * Volume(cs[i], side))
  {
    hide Output;
    if cs != [] {
      var n := |cs| - 1;
      MixFits(cs[..n], side);
      ScaledBounds(Output(cs[n]), Volume(cs[n], side));
      assert forall i :: 0 <= i < n ==> cs[..n][i] == cs[i];
    }
  }

  // ---------------------------------------------------------------- when the clamps matter

  function VolumeSum(cs: seq<Channel>, side: Side): nat {
    if cs == [] then 0 else VolumeSum(cs[..|cs| - 1], side) + Volume(cs[|cs| - 1], side)
  }

  lemma {:induction false} MixWithinVolume(cs: seq<Channel>, side: Side)
    requires AllSound(cs)
    ensures 0 <= Mix(cs, side) + VolumeSum(cs, side) && 0x8000 * Mix(cs, side) <= 0x7FFF * VolumeSum(cs, side)
  {
    hide Output;
    if cs != [] {
      var n := |cs| - 1;
      MixWithinVolume(cs[..n], side);
      ScaledBounds(Output(cs[n]), Volume(cs[n], side));
    }
  }

  /** Volumes that sum to at most 0x8000 on one side leave nothing to clamp on that side. */
  lemma ClampIdle(cs: seq<Channel>, master: nat, side: Side)
    requires AllSound(cs) && master <= MAX_VOLUME && VolumeSum(cs, side) <= 0x8000
    ensures Clamp16(Mixed(cs, master, side)) == Mixed(cs, master, side)
  {
    MixWithinVolume(cs, side);
    var m := Mix(cs, side);
    Scales(m, 0x7FFF, master);
    Scales(-0x8000, m, master);
  }

  predicate AllLowest(cs: seq<Channel>) {
    forall i :: 0 <= i < |cs| ==> Output(cs[i]) == -0x8000
  }

  lemma {:induction false} LowestMix(cs: seq<Channel>, side: Side)
    requires AllLowest(cs)
    ensures Mix(cs, side) + VolumeSum(cs, side) == 0
  {
    hide Output;
    if cs != [] { LowestMix(cs[..|cs| - 1], side); }
  }

  /** The bound is sharp: at full master volume, channels that all put out the lowest sample are clamped if and only if
      their volumes sum to more than 0x8000. */
  lemma ClampSharp(cs: seq<Channel>, side: Side)
    requires AllLowest(cs)
    ensures Clamp16(Mixed(cs, MAX_VOLUME, side)) == Mixed(cs, MAX_VOLUME, side) <==> VolumeSum(cs, side) <= 0x8000
  {
    LowestMix(cs, side);
  }

  // ---------------------------------------------------------------- the two sides

  /** With its left volumes down the first of the two samples is silent, with its right volumes down the second. */
  lemma {:induction false} MutedSide(cs: seq<Channel>, side: Side)
    requires forall i :: 0 <= i < |cs| ==> (if side == Left then cs[i].volumeLeft else cs[i].volumeRight) == 0
    ensures Mix(cs, side) == 0
  {
    hide Output;
    if cs != [] { MutedSide(cs[..|cs| - 1], side); }
  }

  lemma {:induction false} OtherSide(cs: seq<Channel>, ds: seq<Channel>, side: Side)
    requires |cs| == |ds|
    requires forall i :: 0 <= i < |cs| ==>
               ds[i] == if side == Left then cs[i].(volumeRight := ds[i].volumeRight)
                        else cs[i].(volumeLeft := ds[i].volumeLeft)
    ensures Mix(cs, side) == Mix(ds, side)
  {
    if cs != [] {
      var n := |cs| - 1;
      OtherSide(cs[..n], ds[..n], side);
      SameOutput(cs[n], ds[n].volumeLeft, ds[n].volumeRight);
    }
  }

  lemma SameOutput(c: Channel, left: U16, right: U16)
    ensures Output(c.(volumeLeft := left)) == Output(c) == Output(c.(volumeRight := right))
  {
  }

  /** Left volumes make the first sample of a frame and nothing else, right volumes the second. */
  lemma Sides(cs: seq<Channel>, ds: seq<Channel>, master: nat, side: Side)
    requires |cs| == |ds|
    requires forall i :: 0 <= i < |cs| ==>
               ds[i] == if side == Left then cs[i].(volumeLeft := 0) else cs[i].(volumeRight := 0)
    ensures var f, g := Frame(cs, master), Frame(ds, master);
            g == if side == Left then (0, f.1) else (f.0, 0)
  {
    MutedSide(ds, side);
    OtherSide(cs, ds, if side == Left then Right else Left);
  }

  /** A channel that is off and does not hold puts out nothing; one that holds goes on with its last sample, just as if
      it were enabled without interpolation. */
  lemma OffOrHeld(cs: seq<Channel>, c: Channel, master: nat)
    requires !c.cnt.enable
    ensures !c.holding ==> Frame(cs + [c], master) == Frame(cs, master)
    ensures c.holding ==>
              Frame(cs + [c], master) == Frame(cs + [c.(cnt := c.cnt.(enable := true, interpolate := false))], master)
  {
    var d := c.(cnt := c.cnt.(enable := true, interpolate := false));
    assert (cs + [c])[..|cs|] == cs && (cs + [d])[..|cs|] == cs;
  }

  /** The master volume scales the mix, in parts of 0x8000, rounded down: nothing at zero, all of it at full volume. */
  lemma MasterScales(cs: seq<Channel>, master: nat, side: Side)
    ensures 0x8000 * Mixed(cs, master, side) <= Mix(cs, side) * master < 0x8000 * (Mixed(cs, master, side) + 1)
    ensures Mixed(cs, 0, side) == 0 && Mixed(cs, MAX_VOLUME, side) == Mix(cs, side)
  {
  }
}
