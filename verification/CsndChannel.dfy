/** One channel of the CSND sound hardware, as in csnd.h and csnd.cpp: registers, playback state and one timer step. */
module CsndChannel {
  import opened Words

  const MAX_VOLUME: nat := 0x8000
  const SIZE_MASK: nat := 0x7FF_FFFF
  const MIN_TIMER_PERIOD: nat := 0x42
  const TICKS_PER_SAMPLE: nat := 2048

  /** Physical memory; addresses outside it read zero. */
  type Memory = U32 -> Byte

  // ---------------------------------------------------------------- the CNT register

  datatype Format = Pcm8 | Pcm16 | ImaAdpcm | PsgNoise
  datatype LoopMode = Manual | Normal | OneShot | NormalNoReload

  /** The fields of a CNT register; `low` and `mid` are the bits that carry no meaning here. */
  datatype Cnt = Cnt(low: nat, interpolate: bool, hold: bool, mid: nat, loopMode: LoopMode, format: Format, run: bool,
                     enable: bool)

  predicate Bit(x: nat, weight: nat)
    requires weight > 0
  {
    x / weight % 2 == 1
  }

  function LoopModeOf(x: nat): LoopMode {
    if x == 0 then Manual else if x == 1 then Normal else if x == 2 then OneShot else NormalNoReload
  }

  function FormatOf(x: nat): Format {
    if x == 0 then Pcm8 else if x == 1 then Pcm16 else if x == 2 then ImaAdpcm else PsgNoise
  }

  /** The fields, from the low and the high byte. */
  function CntOf(v: U16): (c: Cnt)
    ensures c.low < 64 && c.mid < 4
  {
    var low, high := v % 256, v / 256;
    Cnt(low % 64, Bit(low, 64), Bit(low, 128), high % 4, LoopModeOf(high / 4 % 4), FormatOf(high / 16 % 4),
        Bit(high, 64), Bit(high, 128))
  }

  function LoopModeBits(m: LoopMode): nat {
    match m case Manual => 0 case Normal => 1 case OneShot => 2 case NormalNoReload => 3
  }

  function FormatBits(f: Format): nat {
    match f case Pcm8 => 0 case Pcm16 => 1 case ImaAdpcm => 2 case PsgNoise => 3
  }

  function Weight(b: bool, weight: nat): nat { if b then weight else 0 }

  function CntValue(c: Cnt): nat {
    c.low + Weight(c.interpolate, 64) + Weight(c.hold, 128) + 256 * c.mid + 1024 * LoopModeBits(c.loopMode)
    + 4096 * FormatBits(c.format) + Weight(c.run, 0x4000) + Weight(c.enable, 0x8000)
  }

  lemma LowDigits(v: nat)
    requires v < 256
    ensures v == v % 64 + 64 * (v / 64 % 2) + 128 * (v / 128 % 2)
  {
  }

  lemma HighDigits(h: nat)
    requires h < 256
    ensures h == h % 4 + 4 * (h / 4 % 4) + 16 * (h / 16 % 4) + 64 * (h / 64 % 2) + 128 * (h / 128 % 2)
  {
    LowestDigit(h, 4);
    LowestDigit(h / 4, 4);
    LowestDigit(h / 16, 4);
    LowestDigit(h / 64, 2);
    assert h / 4 / 4 == h / 16 && h / 16 / 4 == h / 64 && h / 64 / 2 == h / 128 < 2;
  }

  lemma LowestDigit(x: nat, n: nat)
    requires n > 0
    ensures x == x % n + n * (x / n)
  {
  }

  /** Reading a CNT register gives back what was written. */
  lemma CntRoundTrip(v: U16)
    ensures CntValue(CntOf(v)) == v
  {
    var low, high := v % 256, v / 256;
    LowDigits(low);
    HighDigits(high);
    var m, f := high / 4 % 4, high / 16 % 4;
    assert LoopModeBits(LoopModeOf(m)) == m && FormatBits(FormatOf(f)) == f;
  }

  /** Every register value is read back as the fields it came from. */
  lemma FieldsRoundTrip(c: Cnt)
    requires c.low < 64 && c.mid < 4
    ensures CntValue(c) < 0x1_0000 && CntOf(CntValue(c)) == c
  {
    var m, f := LoopModeBits(c.loopMode), FormatBits(c.format);
    var low := c.low + Weight(c.interpolate, 64) + Weight(c.hold, 128);
    var high := c.mid + 4 * m + 16 * f + Weight(c.run, 64) + Weight(c.enable, 128);
    Bytes(CntValue(c), low, high);
    assert LoopModeOf(m) == c.loopMode && FormatOf(f) == c.format;
    LowFields(c.low, c.interpolate, c.hold);
    HighFields(c.mid, m, f, c.run, c.enable);
  }

  lemma Bytes(v: nat, low: nat, high: nat)
    requires v == low + 256 * high && low < 256 && high < 256
    ensures v < 0x1_0000 && v % 256 == low && v / 256 == high
  {
  }

  lemma LowFields(a: nat, b: bool, c: bool)
    requires a < 64
    ensures var x := a + Weight(b, 64) + Weight(c, 128); x < 256 && x % 64 == a && Bit(x, 64) == b && Bit(x, 128) == c
  {
  }

  lemma HighFields(a: nat, m: nat, f: nat, b: bool, c: bool)
    requires a < 4 && m < 4 && f < 4
    ensures var x := a + 4 * m + 16 * f + Weight(b, 64) + Weight(c, 128);
            x < 256 && x % 4 == a && x / 4 % 4 == m && x / 16 % 4 == f && Bit(x, 64) == b && Bit(x, 128) == c
  {
    var x := a + 4 * m + 16 * f + Weight(b, 64) + Weight(c, 128);
    assert x / 4 == m + 4 * f + Weight(b, 16) + Weight(c, 32);
    assert x / 16 == f + Weight(b, 4) + Weight(c, 8);
    assert x / 64 == Weight(b, 1) + Weight(c, 2);
  }

  // ---------------------------------------------------------------- the channel

  datatype Channel = Channel(
    cnt: Cnt, timer: U16, volumeLeft: U16, volumeRight: U16, captureLeft: U16, captureRight: U16,
    startAddress: U32, size: U32, loopAddress: U32, adpcmState: U32, loopAdpcmState: U32,
    blockAddress: U32, blockSize: U32, position: U32, highNibble: bool, holding: bool, counter: nat,
    previous: S16, current: S16, predictor: S16, index: nat)

  /** What every interleaving of register writes and rendering keeps. */
  predicate Sound(c: Channel) {
    && c.index <= 88 && c.cnt.low < 64 && c.cnt.mid < 4
    && c.volumeLeft <= MAX_VOLUME && c.volumeRight <= MAX_VOLUME && c.captureLeft <= MAX_VOLUME
       && c.captureRight <= MAX_VOLUME
    && c.size <= SIZE_MASK && c.blockSize <= SIZE_MASK
    && (c.holding ==> c.cnt.hold && !c.cnt.enable)
    && c.counter < 0x1_0000 + TICKS_PER_SAMPLE && (c.cnt.enable ==> c.counter < 0x1_0000)
  }

  const SILENT := Channel(CntOf(0), 0, 0, 0, 0, 0, 0, 0, 0, 0, 0, 0, 0, 0, false, false, 0, 0, 0, 0, 0)

  /** An ADPCM state register holds a sample in its low half and a table index in the seven bits above it. */
  function PackState(predictor: S16, index: nat): U32
    requires index <= 88
  {
    ToU16(predictor) + 0x1_0000 * index
  }

  function StatePredictor(v: U32): S16 { ToS16(v % 0x1_0000) }

  function StateIndex(v: U32): (i: nat)
    ensures i <= 88
  {
    var i := v / 0x1_0000 % 128;
    if i < 88 then i else 88
  }

  lemma StateRoundTrip(predictor: S16, index: nat)
    requires index <= 88
    ensures var v := PackState(predictor, index); StatePredictor(v) == predictor && StateIndex(v) == index
  {
    hide ToS16, ToU16;
    Halves(ToU16(predictor), index);
    SampleBits(predictor);
  }

  /** Where the two lie: sample -2 and index 3. */
  lemma StateLayout()
    ensures PackState(-2, 3) == 0x0003_FFFE && StatePredictor(0x0003_FFFE) == -2 && StateIndex(0x0003_FFFE) == 3
  {
  }

  lemma Halves(low: nat, high: nat)
    requires low < 0x1_0000 && high < 128
    ensures var v := low + 0x1_0000 * high; v % 0x1_0000 == low && v / 0x1_0000 == high && high % 128 == high
  {
  }

  lemma SampleBits(s: S16)
    ensures 0 <= ToU16(s) < 0x1_0000 && ToS16(ToU16(s)) == s
  {
  }

  function ClampVolume(v: U16): (r: U16)
    ensures r <= v && r <= MAX_VOLUME && (r == v || r == MAX_VOLUME)
  {
    if v < MAX_VOLUME then v else MAX_VOLUME
  }

  function Period(timer: U16): (p: nat)
    ensures MIN_TIMER_PERIOD <= p <= 0x1_0000
  {
    if 0x1_0000 - timer > MIN_TIMER_PERIOD then 0x1_0000 - timer else MIN_TIMER_PERIOD
  }

  // ---------------------------------------------------------------- start, stop, read-back

  function Start(c: Channel): Channel {
    c.(blockAddress := c.startAddress, blockSize := c.size, position := 0, highNibble := false, holding := false,
       counter := 0, previous := 0, current := 0, predictor := StatePredictor(c.adpcmState),
         index := StateIndex(c.adpcmState))
  }

  function Stop(c: Channel): Channel
    requires c.index <= 88
  {
    c.(adpcmState := PackState(c.predictor, c.index), cnt := c.cnt.(enable := false))
  }

  function WriteCnt(c: Channel, v: U16): Channel
    requires c.index <= 88
  {
    var d := c.(cnt := CntOf(v));
    var e := if !c.cnt.enable && d.cnt.enable then Start(d)
             else if c.cnt.enable && !d.cnt.enable then Stop(d).(holding := false)
             else d;
    if d.cnt.hold then e else e.(holding := false)
  }

  function ReadAdpcmState(c: Channel): U32
    requires c.index <= 88
  {
    if c.cnt.enable then PackState(c.predictor, c.index) else c.adpcmState
  }

  /** The state register reads the same just before and just after a stop, whether by register write or at a block's
      end. */
  lemma StopKeepsState(c: Channel, v: U16)
    requires c.index <= 88 && c.cnt.enable
    ensures ReadAdpcmState(Stop(c)) == ReadAdpcmState(c)
    ensures ReadAdpcmState(WriteCnt(c, v)) == ReadAdpcmState(c)
    ensures !CntOf(v).enable ==> !WriteCnt(c, v).holding
  {
  }

  /** Stopping a channel and starting it again, whatever else the two writes set, resumes the decoder where it was. */
  lemma StopStartRestores(c: Channel, off: U16, on: U16)
    requires c.index <= 88 && c.cnt.enable && !CntOf(off).enable && CntOf(on).enable
    ensures var d := WriteCnt(WriteCnt(c, off), on); d.predictor == c.predictor && d.index == c.index && d.cnt.enable
  {
    StateRoundTrip(c.predictor, c.index);
  }

  // ---------------------------------------------------------------- fetching a sample

  /** `ImaStepTable`, thirteen to a row. */
  const IMA_STEP_ROWS: seq<seq<nat>> := [
    [7, 8, 9, 10, 11, 12, 13, 14, 16, 17, 19, 21, 23],
    [25, 28, 31, 34, 37, 41, 45, 50, 55, 60, 66, 73, 80],
    [88, 97, 107, 118, 130, 143, 157, 173, 190, 209, 230, 253, 279],
    [307, 337, 371, 408, 449, 494, 544, 598, 658, 724, 796, 876, 963],
    [1060, 1166, 1282, 1411, 1552, 1707, 1878, 2066, 2272, 2499, 2749, 3024, 3327],
    [3660, 4026, 4428, 4871, 5358, 5894, 6484, 7132, 7845, 8630, 9493, 10442, 11487],
    [12635, 13899, 15289, 16818, 18500, 20350, 22385, 24623, 27086, 29794, 32767]]

  function ImaStep(index: nat): nat
    requires index <= 88
  {
    IMA_STEP_ROWS[index / 13][index % 13]
  }

  function IndexChange(nibble: nat): int {
    if nibble % 8 < 4 then -1 else 2 * (nibble % 8) - 6
  }

  function ClampIndex(i: int): (r: nat)
    ensures r <= 88
  {
    if i < 0 then 0 else if i > 88 then 88 else i
  }

  function ImaDiff(step: nat, nibble: nat): nat {
    step / 8 + Weight(Bit(nibble, 1), step / 4) + Weight(Bit(nibble, 2), step / 2) + Weight(Bit(nibble, 4), step)
  }

  /** The difference is the nibble's magnitude plus one half, in quarters of a step, up to what the shifts drop. */
  lemma ImaDiffIs(step: nat, nibble: nat)
    requires nibble < 16
    ensures (2 * (nibble % 8) + 1) * step - 17 <= 8 * ImaDiff(step, nibble) <= (2 * (nibble % 8) + 1) * step
  {
    var m := nibble % 8;
    var a, b, c := m % 2, m / 2 % 2, m / 4;
    NibbleBits(nibble);
    hide Bit;
    Shifts(step);
    Distributes(m, a, b, c, step);
  }

  lemma Distributes(m: nat, a: nat, b: nat, c: nat, step: nat)
    requires m == a + 2 * b + 4 * c && a < 2 && b < 2 && c < 2
    ensures (2 * m + 1) * step == step + (if a == 1 then 2 * step else 0) + (if b == 1 then 4 * step else 0)
            + (if c == 1 then 8 * step else 0)
  {
  }

  lemma Shifts(step: nat)
    ensures step - 7 <= 8 * (step / 8) <= step && 2 * step - 6 <= 8 * (step / 4) <= 2 * step
            && 4 * step - 4 <= 8 * (step / 2) <= 4 * step
  {
  }

  lemma NibbleBits(nibble: nat)
    requires nibble < 16
    ensures var m := nibble % 8;
            Bit(nibble, 1) == (m % 2 == 1) && Bit(nibble, 2) == (m / 2 % 2 == 1) && Bit(nibble, 4) == (m / 4 == 1)
              && m / 4 < 2
  {
  }

  /** The predictor after one nibble. */
  function ImaPredict(predictor: S16, diff: nat, nibble: nat): S16 {
    if Bit(nibble, 8) then (if predictor - diff > -0x7FFF then predictor - diff else -0x7FFF)
    else (if predictor + diff < 0x7FFF then predictor + diff else 0x7FFF)
  }

  /** The address `position` bytes into a block, in 32 bits. */
  function Address(block: U32, position: U32): U32 { (block + position) % WORD }

  function Pcm8Sample(b: Byte): S16 {
    256 * (if b < 128 then b else b - 256)
  }

  function Pcm16Sample(low: Byte, high: Byte): S16 { ToS16(low + 256 * high) }

  function NibbleAt(b: Byte, high: bool): nat { if high then b / 16 else b % 16 }

  /** `FetchSample`: the next sample and the channel moved past it; the caller stores the sample. */
  function Fetch(mem: Memory, c: Channel): (r: (Channel, S16))
    requires c.index <= 88
    ensures r.0.index <= 88
    ensures r.0 == c.(position := r.0.position, highNibble := r.0.highNibble, predictor := r.0.predictor,
                      index := r.0.index)
  {
    var address := Address(c.blockAddress, c.position);
    match c.cnt.format
    case Pcm8 => (c.(position := (c.position + 1) % WORD), Pcm8Sample(mem(address)))
    case Pcm16 => (c.(position := (c.position + 2) % WORD), Pcm16Sample(mem(address), mem((address + 1) % WORD)))
    case ImaAdpcm =>
      var nibble := NibbleAt(mem(address), c.highNibble);
      var p := ImaPredict(c.predictor, ImaDiff(ImaStep(c.index), nibble), nibble);
      (c.(position := if c.highNibble then (c.position + 1) % WORD else c.position, highNibble := !c.highNibble,
          predictor := p, index := ClampIndex(c.index + IndexChange(nibble))), p)
    case PsgNoise => (c, 0)
  }

  // ---------------------------------------------------------------- one timer step

  predicate AtEnd(c: Channel) {
    c.cnt.format != PsgNoise && c.cnt.loopMode != Manual && c.position >= c.blockSize
  }

  /** Where a looping channel continues at the end of a block. */
  function Rewound(c: Channel): Channel {
    var d := c.(blockAddress := c.loopAddress, blockSize := if c.cnt.loopMode == Normal then c.size else c.blockSize,
                position := 0, highNibble := false);
    if Bit(c.loopAdpcmState, 0x8000_0000) then
      d.(predictor := StatePredictor(c.loopAdpcmState), index := StateIndex(c.loopAdpcmState))
    else d
  }

  /** The channel as `FetchSample` finds it, unless the step stops the channel instead. */
  datatype Turn = Fetching(at: Channel) | Stopped(after: Channel)

  function Turned(c: Channel): (t: Turn)
    requires c.index <= 88
    ensures match t case Fetching(d) => d.index <= 88 case Stopped(d) => d.index <= 88 && !d.cnt.enable
  {
    if !AtEnd(c) then Fetching(c)
    else if c.cnt.loopMode == OneShot then Stopped(Stop(c).(holding := c.cnt.hold))
    else var d := Rewound(c);
         if d.blockSize == 0 then Stopped(Stop(d)) else Fetching(d)
  }

  function Step(mem: Memory, c: Channel): (d: Channel)
    requires c.index <= 88
    ensures d.index <= 88 && d.counter == c.counter && d.timer == c.timer
    ensures d.cnt == c.cnt.(enable := d.cnt.enable) && (d.cnt.enable ==> c.cnt.enable)
  {
    match Turned(c)
    case Stopped(d) => d
    case Fetching(d) => var r := Fetch(mem, d); r.0.(previous := d.current, current := r.1)
  }

  /** Every fetch outside Manual mode and PSG lies inside the block. */
  lemma FetchInsideBlock(c: Channel)
    requires c.index <= 88 && Turned(c).Fetching?
    ensures var d := Turned(c).at; d.cnt.format != PsgNoise && d.cnt.loopMode != Manual ==> d.position < d.blockSize
  {
  }

  /** A step keeps the invariant, apart from the counter, which the caller keeps. */
  lemma StepKeeps(mem: Memory, c: Channel)
    requires Sound(c) && c.cnt.enable
    ensures Sound(Step(mem, c))
  {
    hide Fetch, PackState, StatePredictor;
  }
}
