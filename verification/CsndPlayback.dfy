/** Whole playbacks of a CSND channel: how long a block lasts, which samples it gives, and how it loops. */
module CsndPlayback {
  import opened Words
  import opened CsndChannel

  function StepN(mem: Memory, c: Channel, n: nat): (d: Channel)
    requires c.index <= 88
    ensures d.index <= 88
  {
    if n == 0 then c else Step(mem, StepN(mem, c, n - 1))
  }

  lemma {:induction false} StepsAdd(mem: Memory, c: Channel, m: nat, n: nat)
    requires c.index <= 88
    ensures StepN(mem, c, m + n) == StepN(mem, StepN(mem, c, m), n)
  {
    hide Step;
    if n > 0 { StepsAdd(mem, c, m, n - 1); }
  }

  // ---------------------------------------------------------------- how long a block lasts

  /** The channel plays samples out of a block that has an end. */
  predicate InBlock(c: Channel) {
    c.cnt.format != PsgNoise && c.cnt.loopMode != Manual && c.blockSize <= SIZE_MASK && c.index <= 88
  }

  /** The samples in a block of `bytes` bytes. */
  function PassLength(f: Format, bytes: nat): nat {
    match f case Pcm8 => bytes case Pcm16 => (bytes + 1) / 2 case ImaAdpcm => 2 * bytes case PsgNoise => 0
  }

  /** The samples left before the end of the block is reached. */
  function Remaining(c: Channel): nat {
    if c.position >= c.blockSize then 0
    else PassLength(c.cnt.format, c.blockSize - c.position) - if c.cnt.format == ImaAdpcm && c.highNibble then 1 else 0
  }

  /** Nothing but the place in the block, the decoder and the last two samples differs. */
  predicate SameBlock(c: Channel, d: Channel) {
    d == c.(position := d.position, highNibble := d.highNibble, previous := d.previous, current := d.current,
            predictor := d.predictor, index := d.index)
  }

  lemma StepInBlock(mem: Memory, c: Channel)
    requires InBlock(c) && Remaining(c) > 0
    ensures var d := Step(mem, c);
            InBlock(d) && SameBlock(c, d) && Remaining(d) == Remaining(c) - 1 && d.previous == c.current
    ensures Turned(c) == Fetching(c)
  {
    NotAtEnd(c);
    hide Turned;
    FetchCounts(mem, c);
    hide Fetch;
  }

  lemma FetchCounts(mem: Memory, c: Channel)
    requires InBlock(c) && Remaining(c) > 0
    ensures Remaining(Fetch(mem, c).0) == Remaining(c) - 1
  {
    hide ImaPredict, ImaDiff, ImaStep, IndexChange, NibbleAt, Pcm8Sample, Pcm16Sample, Address;
    Unwrapped(c.position);
    var left: nat := c.blockSize - c.position;
    match c.cnt.format {
      case Pcm8 =>
      case Pcm16 => HalfLess(left);
      case ImaAdpcm =>
    }
  }

  lemma HalfLess(n: nat)
    requires n > 0
    ensures (if n <= 2 then 0 else (n - 2 + 1) / 2) == (n + 1) / 2 - 1
  {
  }

  lemma {:induction false} StepsInBlock(mem: Memory, c: Channel, n: nat)
    requires InBlock(c) && n <= Remaining(c)
    ensures var d := StepN(mem, c, n); InBlock(d) && SameBlock(c, d) && Remaining(d) == Remaining(c) - n
    ensures n < Remaining(c) ==> Turned(StepN(mem, c, n)).Fetching?
  {
    hide Step, Turned, Remaining;
    if n > 0 {
      StepsInBlock(mem, c, n - 1);
      StepInBlock(mem, StepN(mem, c, n - 1));
    }
    if n < Remaining(c) { StepInBlock(mem, StepN(mem, c, n)); }
  }

  /** A OneShot channel fetches exactly the rest of its block; the step after that stops it, and it holds its last
      sample if and only if Hold is set. */
  lemma OneShotLength(mem: Memory, c: Channel, n: nat)
    requires InBlock(c) && c.cnt.loopMode == OneShot && c.cnt.enable
    ensures n < Remaining(c) ==> var d := StepN(mem, c, n); d.cnt == c.cnt && Turned(d).Fetching?
    ensures var last, d := StepN(mem, c, Remaining(c)), StepN(mem, c, Remaining(c) + 1);
            d == Stop(last).(holding := c.cnt.hold) && last.cnt == c.cnt && !d.cnt.enable && d.current == last.current
  {
    if n < Remaining(c) { StepsInBlock(mem, c, n); }
    StepsInBlock(mem, c, Remaining(c));
  }

  /** A started channel has the whole block of the size register ahead of it. */
  lemma StartedLength(c: Channel, v: U16)
    requires c.index <= 88 && !c.cnt.enable && CntOf(v).enable
    ensures Remaining(WriteCnt(c, v)) == PassLength(CntOf(v).format, c.size)
  {
  }

  // ---------------------------------------------------------------- which samples a block gives

  /** The decoder after `n` nibbles of the bytes at `base`, low nibbles first. */
  function ImaDecode(mem: Memory, base: U32, predictor: S16, index: nat, n: nat): (r: (S16, nat))
    requires index <= 88
    ensures r.1 <= 88
  {
    if n == 0 then (predictor, index) else
    var s := ImaDecode(mem, base, predictor, index, n - 1);
    var nibble := NibbleAt(mem((base + (n - 1) / 2) % WORD), n % 2 == 0);
    (ImaPredict(s.0, ImaDiff(ImaStep(s.1), nibble), nibble), ClampIndex(s.1 + IndexChange(nibble)))
  }

  /** Sample `k` of the block at `base`. */
  function SampleAt(mem: Memory, f: Format, base: U32, predictor: S16, index: nat, k: nat): S16
    requires index <= 88
  {
    match f
    case Pcm8 => Pcm8Sample(mem((base + k) % WORD))
    case Pcm16 => Pcm16Sample(mem((base + 2 * k) % WORD), mem((base + 2 * k + 1) % WORD))
    case ImaAdpcm => ImaDecode(mem, base, predictor, index, k + 1).0
    case PsgNoise => 0
  }

  /** The channel `n` samples into its block, which it entered as `c`. */
  ghost predicate PlacedAt(mem: Memory, c: Channel, d: Channel, n: nat)
    requires c.index <= 88
  {
    match c.cnt.format
    case Pcm8 => d.position == n
    case Pcm16 => d.position == 2 * n
    case ImaAdpcm => d.position == n / 2 && d.highNibble == (n % 2 == 1)
                     && (d.predictor, d.index) == ImaDecode(mem, c.blockAddress, c.predictor, c.index, n)
    case PsgNoise => true
  }

  lemma PlacedNextPcm(mem: Memory, c: Channel, d: Channel, n: nat)
    requires InBlock(c) && InBlock(d) && SameBlock(c, d) && PlacedAt(mem, c, d, n) && Remaining(d) > 0
    requires c.cnt.format != ImaAdpcm
    ensures PlacedAt(mem, c, Step(mem, d), n + 1)
    ensures Step(mem, d).current == SampleAt(mem, c.cnt.format, c.blockAddress, c.predictor, c.index, n)
  {
    hide Pcm8Sample, Pcm16Sample, ImaDecode, Turned;
    assert Turned(d) == Fetching(d) by { NotAtEnd(d); }
    Unwrapped(d.position);
    if c.cnt.format == Pcm16 { WrapSum(c.blockAddress, 2 * n); }
  }

  lemma PlacedNextIma(mem: Memory, c: Channel, d: Channel, n: nat)
    requires InBlock(c) && InBlock(d) && SameBlock(c, d) && PlacedAt(mem, c, d, n) && Remaining(d) > 0
    requires c.cnt.format == ImaAdpcm
    ensures PlacedAt(mem, c, Step(mem, d), n + 1)
    ensures Step(mem, d).current == SampleAt(mem, c.cnt.format, c.blockAddress, c.predictor, c.index, n)
  {
    hide ImaPredict, ImaDiff, ImaStep, IndexChange, ClampIndex, NibbleAt, Turned;
    NotAtEnd(d);
    Unwrapped(d.position);
    Odds(n);
  }

  lemma NotAtEnd(d: Channel)
    requires InBlock(d) && Remaining(d) > 0
    ensures Turned(d) == Fetching(d)
  {
  }

  lemma Unwrapped(position: nat)
    requires position <= SIZE_MASK
    ensures (position + 1) % WORD == position + 1 && (position + 2) % WORD == position + 2
  {
  }

  lemma Odds(n: nat)
    ensures (n + 1) % 2 == 1 - n % 2 && (n + 1) / 2 == n / 2 + n % 2
  {
  }

  lemma WrapSum(base: nat, k: nat)
    ensures ((base + k) % WORD + 1) % WORD == (base + k + 1) % WORD
  {
  }

  lemma PlacedFirst(mem: Memory, c: Channel)
    requires c.position == 0 && !c.highNibble && c.index <= 88
    ensures PlacedAt(mem, c, c, 0)
  {
  }

  /** From the start of a block, step by step, the channel gives the samples of the block in order. */
  lemma {:induction false} BlockSamples(mem: Memory, c: Channel, n: nat)
    requires InBlock(c) && c.position == 0 && !c.highNibble && n <= Remaining(c)
    ensures PlacedAt(mem, c, StepN(mem, c, n), n)
    ensures n > 0 ==>
              StepN(mem, c, n).current == SampleAt(mem, c.cnt.format, c.blockAddress, c.predictor, c.index, n - 1)
  {
    hide Step, SampleAt, PlacedAt, Remaining, SameBlock;
    if n == 0 {
      PlacedFirst(mem, c);
    } else {
      BlockSamples(mem, c, n - 1);
      StepsInBlock(mem, c, n - 1);
      if c.cnt.format == ImaAdpcm {
        PlacedNextIma(mem, c, StepN(mem, c, n - 1), n - 1);
      } else {
        PlacedNextPcm(mem, c, StepN(mem, c, n - 1), n - 1);
      }
    }
  }

  // ---------------------------------------------------------------- looping

  predicate Reloads(c: Channel) { Bit(c.loopAdpcmState, 0x8000_0000) }

  function LoopSize(c: Channel): nat { if c.cnt.loopMode == Normal then c.size else c.blockSize }

  /** A channel that loops for ever, over PCM data or over ADPCM data whose decoder is reloaded. */
  predicate Loops(c: Channel) {
    && InBlock(c) && c.cnt.enable && c.cnt.loopMode != OneShot && c.size <= SIZE_MASK && LoopSize(c) > 0
    && (c.cnt.format == ImaAdpcm ==> Reloads(c))
  }

  /** Sample `k` of the block at the loop address. */
  function LoopSample(mem: Memory, c: Channel, k: nat): S16 {
    SampleAt(mem, c.cnt.format, c.loopAddress, StatePredictor(c.loopAdpcmState), StateIndex(c.loopAdpcmState), k)
  }

  lemma Rewinds(mem: Memory, c: Channel, n: nat)
    requires Loops(c) && AtEnd(c)
    ensures var w := Rewound(c);
            InBlock(w) && Remaining(w) == PassLength(c.cnt.format, LoopSize(c)) > 0 && w.position == 0 && !w.highNibble
            && w.blockAddress == c.loopAddress && w.cnt == c.cnt
            && StepN(mem, c, n + 1) == StepN(mem, w, n + 1)
  {
    hide Step, StepN;
    SameStep(mem, c);
    StepsAdd(mem, c, 1, n);
    StepsAdd(mem, Rewound(c), 1, n);
  }

  lemma SameStep(mem: Memory, c: Channel)
    requires Loops(c) && AtEnd(c)
    ensures Rewound(c).index <= 88 && StepN(mem, c, 1) == StepN(mem, Rewound(c), 1)
  {
    hide Fetch;
    var w := Rewound(c);
    assert Turned(w) == Turned(c);
    assert StepN(mem, c, 0) == c && StepN(mem, w, 0) == w;
  }

  /** From the end of a block, one pass over the loop block leads to its end with the same registers. */
  lemma OnePass(mem: Memory, c: Channel)
    requires Loops(c) && AtEnd(c)
    ensures var p := PassLength(c.cnt.format, LoopSize(c)); var d := StepN(mem, c, p);
            p > 0 && Loops(d) && AtEnd(d) && d.cnt == c.cnt && LoopSize(d) == LoopSize(c)
            && d.loopAddress == c.loopAddress && d.loopAdpcmState == c.loopAdpcmState
  {
    var p := PassLength(c.cnt.format, LoopSize(c));
    Rewinds(mem, c, p - 1);
    StepsInBlock(mem, Rewound(c), p);
  }

  lemma FirstPass(mem: Memory, c: Channel, k: nat)
    requires Loops(c) && AtEnd(c) && k < PassLength(c.cnt.format, LoopSize(c))
    ensures StepN(mem, c, k + 1).current == LoopSample(mem, c, k)
  {
    Rewinds(mem, c, k);
    BlockSamples(mem, Rewound(c), k + 1);
  }

  function Phase(k: nat, period: nat): nat
    requires period > 0
  {
    k % period
  }

  lemma PhaseSteps(k: nat, p: nat)
    requires p > 0
    ensures k < p ==> Phase(k, p) == k
    ensures k >= p ==> Phase(k, p) == Phase(k - p, p)
  {
    if k >= p { OnePeriod(k, p); }
  }

  /** From the end of a block on, sample `k` is sample `k` modulo the pass length of the loop block. */
  lemma {:induction false} LoopSamples(mem: Memory, c: Channel, k: nat)
    requires Loops(c) && AtEnd(c)
    ensures var p := PassLength(c.cnt.format, LoopSize(c));
            p > 0 && StepN(mem, c, k + 1).current == LoopSample(mem, c, Phase(k, p))
              && StepN(mem, c, k + 1).cnt == c.cnt
    decreases k
  {
    hide StepN, Rewound, SampleAt, PassLength, LoopSize, Remaining, Phase;
    var p := PassLength(c.cnt.format, LoopSize(c));
    OnePass(mem, c);
    PhaseSteps(k, p);
    if k < p {
      FirstPass(mem, c, k);
      Rewinds(mem, c, k);
      StepsInBlock(mem, Rewound(c), k + 1);
    } else {
      LoopSamples(mem, StepN(mem, c, p), k - p);
      StepsAdd(mem, c, p, k - p + 1);
    }
  }

  lemma OnePeriod(k: nat, p: nat)
    requires 0 < p <= k
    ensures k % p == (k - p) % p
  {
    SameRemainder(k / p, k % p, (k - p) / p + 1, (k - p) % p, p);
  }

  lemma SameRemainder(q: int, r: nat, s: int, t: nat, p: nat)
    requires q * p + r == s * p + t && r < p && t < p
    ensures r == t
  {
    assert (q - s) * p == t - r;
    if q > s { Multiple(q - s, p); } else if q < s { Multiple(s - q, p); }
  }

  lemma Multiple(a: nat, p: nat)
    requires a >= 1
    ensures a * p >= p
  {
  }

  /** Registers and memory fixed, a looping channel that has played the rest of its block gives a stream of samples
      whose period is the pass length of the loop block. */
  lemma LoopPeriodic(mem: Memory, c: Channel, k: nat)
    requires Loops(c)
    ensures var r, p := Remaining(c), PassLength(c.cnt.format, LoopSize(c));
            && p > 0 && StepN(mem, c, r + k + 1).cnt.enable
            && StepN(mem, c, r + k + 1).current == LoopSample(mem, c, Phase(k, p))
            && StepN(mem, c, r + k + p + 1).current == StepN(mem, c, r + k + 1).current
  {
    var r, p := Remaining(c), PassLength(c.cnt.format, LoopSize(c));
    hide Step, SampleAt, Phase;
    StepsInBlock(mem, c, r);
    var e := StepN(mem, c, r);
    LoopSamples(mem, e, k);
    LoopSamples(mem, e, k + p);
    StepsAdd(mem, c, r, k + 1);
    StepsAdd(mem, c, r, k + p + 1);
    PhaseSteps(k + p, p);
  }

  /** A looping channel stops at the end of its block if and only if the loop block is empty. */
  lemma EmptyLoopStops(mem: Memory, c: Channel)
    requires InBlock(c) && c.cnt.enable && c.cnt.loopMode != OneShot
    ensures StepN(mem, c, Remaining(c) + 1).cnt.enable <==> LoopSize(c) > 0
  {
    hide Fetch;
    StepsInBlock(mem, c, Remaining(c));
  }
}
