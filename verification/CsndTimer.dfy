/** The timer of a CSND channel over whole runs, and the interpolation between its last two samples. */
module CsndTimer {
  import opened Words
  import opened CsndChannel
  import opened CsndPlayback

  /** The inner loop of `Render`: one step for every whole period on the counter. */
  function Spin(mem: Memory, c: Channel, period: nat): (d: Channel)
    requires c.index <= 88 && period > 0
    ensures d.index <= 88
    decreases c.counter
  {
    if c.counter >= period && c.cnt.enable then Spin(mem, Step(mem, c.(counter := c.counter - period)), period) else c
  }

  /** One output sample's worth of time. */
  function Tick(mem: Memory, c: Channel): (d: Channel)
    requires c.index <= 88
    ensures d.index <= 88
  {
    if c.cnt.enable && c.cnt.run then Spin(mem, c.(counter := c.counter + TICKS_PER_SAMPLE), Period(c.timer)) else c
  }

  function TickN(mem: Memory, c: Channel, n: nat): (d: Channel)
    requires c.index <= 88
    ensures d.index <= 88
  {
    if n == 0 then c else Tick(mem, TickN(mem, c, n - 1))
  }

  // ---------------------------------------------------------------- the counter

  lemma {:induction false} SpinKeeps(mem: Memory, c: Channel, period: nat)
    requires Sound(c.(counter := 0)) && c.counter < 0x1_0000 + TICKS_PER_SAMPLE && 0 < period <= 0x1_0000
    ensures var d := Spin(mem, c, period); Sound(d) && (d.cnt.enable ==> d.counter < period)
    ensures var d := Spin(mem, c, period); d.cnt.run == c.cnt.run && d.timer == c.timer
    decreases c.counter
  {
    hide Step;
    if c.counter >= period && c.cnt.enable {
      var e := c.(counter := c.counter - period);
      StepIgnoresCounter(mem, e, 0);
      StepKeeps(mem, e.(counter := 0));
      SpinKeeps(mem, Step(mem, e), period);
    }
  }

  /** A tick keeps the invariant and leaves less than a period on the counter of a running channel. */
  lemma TickKeeps(mem: Memory, c: Channel)
    requires Sound(c)
    ensures var d := Tick(mem, c);
            Sound(d) && d.timer == c.timer && (d.cnt.enable && d.cnt.run ==> d.counter < Period(d.timer))
  {
    hide Spin, Period;
    if c.cnt.enable && c.cnt.run { SpinKeeps(mem, c.(counter := c.counter + TICKS_PER_SAMPLE), Period(c.timer)); }
  }

  lemma StepIgnoresCounter(mem: Memory, c: Channel, x: nat)
    requires c.index <= 88
    ensures Step(mem, c.(counter := x)) == Step(mem, c).(counter := x)
  {
    TurnIgnoresCounter(c, x);
    hide Turned;
    match Turned(c) {
      case Stopped(_) =>
      case Fetching(d) =>
        FetchIgnoresCounter(mem, d, x);
        hide Fetch;
    }
  }

  lemma TurnIgnoresCounter(c: Channel, x: nat)
    requires c.index <= 88
    ensures Turned(c.(counter := x)) == match Turned(c) case Fetching(d) => Fetching(d.(counter := x))
                                                          case Stopped(d) => Stopped(d.(counter := x))
  {
    hide PackState, StateIndex, StatePredictor, Rewound, Stop;
    RewoundIgnoresCounter(c, x);
    StopIgnoresCounter(c, x);
    StopIgnoresCounter(Rewound(c), x);
  }

  lemma RewoundIgnoresCounter(c: Channel, x: nat)
    requires c.index <= 88
    ensures Rewound(c.(counter := x)) == Rewound(c).(counter := x) && Rewound(c).index <= 88
  {
    hide StateIndex, StatePredictor;
  }

  lemma StopIgnoresCounter(c: Channel, x: nat)
    requires c.index <= 88
    ensures Stop(c.(counter := x)) == Stop(c).(counter := x)
  {
    hide PackState;
  }

  lemma FetchIgnoresCounter(mem: Memory, c: Channel, x: nat)
    requires c.index <= 88
    ensures Fetch(mem, c.(counter := x)) == (Fetch(mem, c).0.(counter := x), Fetch(mem, c).1)
  {
    hide ImaPredict, ImaDiff, ImaStep, IndexChange, ClampIndex, NibbleAt, Pcm8Sample, Pcm16Sample, Address;
  }

  lemma {:induction false} StepsIgnoreCounter(mem: Memory, c: Channel, x: nat, n: nat)
    requires c.index <= 88
    ensures StepN(mem, c.(counter := x), n) == StepN(mem, c, n).(counter := x) && StepN(mem, c, n).counter == c.counter
  {
    hide Step;
    if n > 0 {
      StepsIgnoreCounter(mem, c, x, n - 1);
      StepIgnoresCounter(mem, StepN(mem, c, n - 1), x);
    }
  }

  // ---------------------------------------------------------------- timer exactness

  ghost predicate StaysEnabled(mem: Memory, c: Channel, n: nat)
    requires c.index <= 88
  {
    forall j: nat :: j <= n ==> StepN(mem, c, j).cnt.enable
  }

  lemma {:induction false} SpinExact(mem: Memory, c: Channel, period: nat, k: nat, rest: nat)
    requires c.index <= 88 && period > 0 && c.counter == k * period + rest && rest < period && StaysEnabled(mem, c, k)
    ensures Spin(mem, c, period) == StepN(mem, c, k).(counter := rest)
    decreases k
  {
    hide Step;
    assert StepN(mem, c, 0).cnt.enable;
    if k > 0 {
      Unroll(k, period);
      var e := c.(counter := c.counter - period);
      var d := Step(mem, e);
      StepIgnoresCounter(mem, c, e.counter);
      assert d == Step(mem, c).(counter := e.counter);
      forall j: nat | j <= k - 1 ensures StepN(mem, d, j).cnt.enable
        && StepN(mem, d, j) == StepN(mem, c, j + 1).(counter := e.counter) {
        AfterOne(mem, c, e.counter, j);
      }
      SpinExact(mem, d, period, k - 1, rest);
    }
  }

  lemma AfterOne(mem: Memory, c: Channel, x: nat, j: nat)
    requires c.index <= 88
    ensures StepN(mem, Step(mem, c).(counter := x), j) == StepN(mem, c, j + 1).(counter := x)
  {
    hide Step;
    StepsAdd(mem, c, 1, j);
    assert StepN(mem, c, 0) == c;
    StepsIgnoreCounter(mem, Step(mem, c), x, j);
  }

  lemma Unroll(k: nat, period: nat)
    requires k > 0
    ensures k * period == (k - 1) * period + period
  {
  }

  /** While a channel stays enabled and running, `n` output samples take exactly the steps that the timer's period
      allows in `n` samples' time, and what is left over stays on the counter. */
  lemma TimerExact(mem: Memory, c: Channel, n: nat)
    requires c.index <= 88 && c.cnt.run && n >= 1
    requires StaysEnabled(mem, c, (c.counter + TICKS_PER_SAMPLE * n) / Period(c.timer))
    ensures var total, period := c.counter + TICKS_PER_SAMPLE * n, Period(c.timer);
            TickN(mem, c, n) == StepN(mem, c, total / period).(counter := total % period)
  {
    hide StepN, TickN, Period, StaysEnabled;
    var total, period := c.counter + TICKS_PER_SAMPLE * n, Period(c.timer);
    var k, rest := total / period, total % period;
    QuotientAndRest(total, period, k, rest);
    TimerRun(mem, c, n, k, rest);
  }

  lemma QuotientAndRest(x: nat, p: nat, q: nat, r: nat)
    requires p > 0 && q == x / p && r == x % p
    ensures x == q * p + r && r < p
  {
  }

  lemma {:induction false} TimerRun(mem: Memory, c: Channel, n: nat, k: nat, rest: nat)
    requires c.index <= 88 && c.cnt.run && n >= 1 && StaysEnabled(mem, c, k)
    requires c.counter + TICKS_PER_SAMPLE * n == k * Period(c.timer) + rest && rest < Period(c.timer)
    ensures TickN(mem, c, n) == StepN(mem, c, k).(counter := rest)
    decreases n
  {
    hide Step, Period, Tick;
    var period := Period(c.timer);
    if n == 1 {
      assert TickN(mem, c, 0) == c && StepN(mem, c, 0) == c;
      TickAfter(mem, c, 0, c.counter, k, rest);
    } else {
      var i, r := Divided(c.counter + TICKS_PER_SAMPLE * (n - 1), period);
      Quotients(TICKS_PER_SAMPLE, period, i, r, k, rest);
      TimerRun(mem, c, n - 1, i, r);
      TickAfter(mem, c, i, r, k - i, rest);
    }
  }

  lemma Divided(x: nat, p: nat) returns (q: nat, r: nat)
    requires p > 0
    ensures x == q * p + r && r < p
  {
    q, r := x / p, x % p;
  }

  lemma Quotients(more: nat, p: nat, k: nat, r: nat, q: nat, s: nat)
    requires p > 0 && k * p + r + more == q * p + s && s < p
    ensures q >= k && r + more == (q - k) * p + s
  {
    assert (q - k) * p == q * p - k * p;
    if q < k { Multiple(k - q, p); }
  }

  lemma TickAfter(mem: Memory, c: Channel, k: nat, r: nat, m: nat, rest: nat)
    requires c.index <= 88 && c.cnt.run && StaysEnabled(mem, c, k + m)
    requires r + TICKS_PER_SAMPLE == m * Period(c.timer) + rest && rest < Period(c.timer)
    ensures Tick(mem, StepN(mem, c, k).(counter := r)) == StepN(mem, c, k + m).(counter := rest)
  {
    hide Step, Period;
    SameTimer(mem, c, k);
    var d := StepN(mem, c, k).(counter := r + TICKS_PER_SAMPLE);
    forall j: nat | j <= m ensures StepN(mem, d, j) == StepN(mem, c, k + j).(counter := d.counter) {
      StepsAdd(mem, c, k, j);
      StepsIgnoreCounter(mem, StepN(mem, c, k), d.counter, j);
    }
    SpinExact(mem, d, Period(c.timer), m, rest);
  }

  lemma {:induction false} SameTimer(mem: Memory, c: Channel, n: nat)
    requires c.index <= 88
    ensures StepN(mem, c, n).timer == c.timer && StepN(mem, c, n).cnt.run == c.cnt.run
  {
    hide Step;
    if n > 0 { SameTimer(mem, c, n - 1); }
  }

  /** A running channel that loops never stops, so its timer is exact for ever. */
  lemma LoopingTimer(mem: Memory, c: Channel, n: nat)
    requires Loops(c) && c.cnt.run && n >= 1
    ensures var total, period := c.counter + TICKS_PER_SAMPLE * n, Period(c.timer);
            TickN(mem, c, n) == StepN(mem, c, total / period).(counter := total % period)
  {
    hide Step, Period, LoopSample, PassLength;
    var r := Remaining(c);
    forall j: nat ensures StepN(mem, c, j).cnt.enable {
      if j <= r { StepsInBlock(mem, c, j); } else { LoopPeriodic(mem, c, j - r - 1); }
    }
    TimerExact(mem, c, n);
  }

  // ---------------------------------------------------------------- interpolation

  /** Division that rounds toward zero. */
  function TruncDiv(a: int, b: nat): int
    requires b > 0
  {
    if a >= 0 then a / b else -(-a / b)
  }

  function Product(previous: S16, current: S16, counter: nat): int { (current - previous) * counter }

  /** The interpolated value as 32-bit arithmetic and the final conversion give it. */
  function Value(previous: S16, current: S16, counter: nat, period: nat): S16
    requires period > 0
  {
    ToS16(previous + TruncDiv(ToS32(Product(previous, current, counter)), period))
  }

  /** The interpolated value that is meant. */
  function Ideal(previous: S16, current: S16, counter: nat, period: nat): int
    requires period > 0
  {
    previous + TruncDiv(Product(previous, current, counter), period)
  }

  function Interpolated(c: Channel): S16 {
    if !c.cnt.interpolate then c.current else Value(c.previous, c.current, c.counter, Period(c.timer))
  }

  /** The product in the interpolation fits 32 bits for all samples if and only if the counter is at most 0x8000. */
  lemma ProductFits(counter: nat)
    ensures (forall a: S16, b: S16 :: InS32(Product(a, b, counter))) <==> counter <= 0x8000
  {
    if counter <= 0x8000 {
      forall a: S16, b: S16 ensures InS32(Product(a, b, counter)) { ProductBound(a, b, counter); }
    } else {
      var a: S16, b: S16 := -0x8000, 0x7FFF;
      assert Product(a, b, counter) == 0xFFFF * counter;
      assert !InS32(Product(a, b, counter));
    }
  }

  lemma ProductBound(a: S16, b: S16, counter: nat)
    requires counter <= 0x8000
    ensures InS32(Product(a, b, counter))
  {
    var delta := b - a;
    assert -0xFFFF * counter <= delta * counter <= 0xFFFF * counter by {
      Scales(delta, 0xFFFF, counter);
      Scales(-0xFFFF, delta, counter);
    }
  }

  predicate Between(x: int, a: int, b: int) { a <= x <= b || b <= x <= a }

  lemma TruncBetween(delta: int, counter: nat, period: nat)
    requires counter <= period && period > 0
    ensures Between(TruncDiv(delta * counter, period), 0, delta)
  {
    if delta >= 0 {
      Quotient(delta, counter, period);
    } else {
      assert -(delta * counter) == (-delta) * counter;
      Quotient(-delta, counter, period);
    }
  }

  lemma Quotient(d: nat, counter: nat, period: nat)
    requires counter <= period && period > 0
    ensures 0 <= d * counter && 0 <= d * counter / period <= d
  {
    Scales(counter, period, d);
    var q := d * counter / period;
    assert q * period <= d * counter <= d * period;
    if q > d { Scales(d + 1, q, period); }
  }

  /** The value is the one meant, and it lies between the two samples. */
  predicate Fine(a: S16, b: S16, counter: nat, period: nat)
    requires period > 0
  {
    Value(a, b, counter, period) == Ideal(a, b, counter, period) && Between(Ideal(a, b, counter, period), a, b)
  }

  lemma FineBelow(a: S16, b: S16, counter: nat, period: nat)
    requires 0 < period && counter <= period && counter <= 0x8000
    ensures Fine(a, b, counter, period)
  {
    ProductBound(a, b, counter);
    TruncBetween(b - a, counter, period);
    var v := Ideal(a, b, counter, period);
    assert Between(v, a, b);
    hide TruncDiv, Product;
    assert ToS16(v) == v;
  }

  /** The quotients of a number and of what it lacks to 2^32 do not add up to a multiple of 2^16. */
  lemma WrapDiffers(p: nat, c: nat, q: nat, r: nat)
    requires 0x8001 <= p <= 0x1_0000 && 0 < c < 0x1_0000 && q == 0xFFFF * c / p && r == (WORD - 0xFFFF * c) / p
    ensures (q + r) % 0x1_0000 != 0
  {
    var x := 0xFFFF * c;
    if p == 0x1_0000 {
      QuotientIs(x, p, c - 1, 0x1_0000 - c);
      QuotientIs(WORD - x, p, 0x1_0000 - c, c);
    } else if p == 0xFFFF {
      QuotientIs(x, p, c, 0);
      QuotientIs(WORD - x, p, 0x1_0001 - c, 1);
    } else {
      QuotientSum(x, WORD - x, p, q, r);
      if q + r <= 0x1_0000 { Scales(q + r + 2, 0x1_0002, p); }
      if q + r >= 0x2_0000 { Scales(0x2_0000, q + r, p); }
      NotMultiple(q + r);
    }
  }

  lemma NotMultiple(x: nat)
    requires 0x1_0000 < x < 0x2_0000
    ensures x % 0x1_0000 != 0
  {
  }

  lemma QuotientIs(x: nat, p: nat, q: nat, r: nat)
    requires p > 0 && x == q * p + r && r < p
    ensures x / p == q
  {
    Multiples(q, x / p, p, r, x % p);
  }

  lemma Multiples(q: int, s: int, p: nat, r: nat, t: nat)
    requires q * p + r == s * p + t && r < p && t < p
    ensures q == s
  {
    SameRemainder(q, r, s, t, p);
    assert (q - s) * p == 0;
  }

  lemma QuotientSum(x: nat, y: nat, p: nat, q: nat, r: nat)
    requires p > 0 && q == x / p && r == y / p
    ensures (q + r) * p <= x + y < (q + r + 2) * p
  {
    assert x == q * p + x % p && y == r * p + y % p;
    assert (q + r) * p == q * p + r * p && (q + r + 2) * p == q * p + r * p + 2 * p;
  }

  /** Past 0x8000, the value of the widest pair of samples is not the one meant, or it leaves the samples. */
  lemma WideFails(counter: nat, period: nat)
    requires 0 < period <= 0x1_0000 && counter < 0x1_0000 && (counter > 0x8000 || counter > period)
    ensures !Fine(-0x8000, 0x7FFF, counter, period)
  {
    if counter > period { WideLeaves(counter, period); } else { WideWraps(counter, period); }
  }

  lemma WideLeaves(counter: nat, period: nat)
    requires 0 < period < counter < 0x1_0000
    ensures !Between(Ideal(-0x8000, 0x7FFF, counter, period), -0x8000, 0x7FFF)
  {
    var x := 0xFFFF * counter;
    assert Product(-0x8000, 0x7FFF, counter) == x;
    hide Product;
    Scales(period + 1, counter, 0xFFFF);
    Exceeds(x, period);
  }

  lemma WideWraps(counter: nat, period: nat)
    requires 0x8000 < counter <= period <= 0x1_0000 && counter < 0x1_0000
    ensures Value(-0x8000, 0x7FFF, counter, period) != Ideal(-0x8000, 0x7FFF, counter, period)
  {
    var x := 0xFFFF * counter;
    assert Product(-0x8000, 0x7FFF, counter) == x;
    hide Product, ToS32, ToS16;
    Wrapped(x);
    var q, r := x / period, (WORD - x) / period;
    WrapDiffers(period, counter, q, r);
    ValueDiffers(q, r);
  }

  lemma ValueDiffers(q: nat, r: nat)
    requires (q + r) % 0x1_0000 != 0
    ensures ToS16(-0x8000 - r) != -0x8000 + q
  {
    var v := ToS16(-0x8000 - r);
    if v == -0x8000 + q { Congruent(v, -0x8000 - r, q + r); }
  }

  lemma Wrapped(x: nat)
    requires 0x8000_0000 <= x < WORD
    ensures ToS32(x) == x - WORD
  {
  }

  lemma Congruent(x: int, y: int, z: int)
    requires (x - y) % 0x1_0000 == 0 && x - y == z
    ensures z % 0x1_0000 == 0
  {
  }

  lemma Exceeds(x: nat, period: nat)
    requires 0 < period <= 0xFFFF && x >= 0xFFFF * (period + 1)
    ensures x / period > 0xFFFF
  {
    var q := x / period;
    assert x == q * period + x % period;
    if q <= 0xFFFF { Scales(q, 0xFFFF, period); }
  }

  /** For every counter of an enabled channel and every period, running or paused: the interpolation is fine for all
      samples if and only if the counter is at most the period and at most 0x8000. */
  lemma FineIff(counter: nat, period: nat)
    requires 0 < period <= 0x1_0000 && counter < 0x1_0000
    ensures (forall a: S16, b: S16 :: Fine(a, b, counter, period)) <==> counter <= period && counter <= 0x8000
  {
    if counter <= period && counter <= 0x8000 {
      forall a: S16, b: S16 ensures Fine(a, b, counter, period) { FineBelow(a, b, counter, period); }
    } else {
      WideFails(counter, period);
    }
  }

  /** The interpolation of a channel, for the samples it has. */
  predicate FineChannel(d: Channel) {
    Fine(d.previous, d.current, d.counter, Period(d.timer))
  }

  predicate Running(c: Channel) { Sound(c) && c.cnt.enable && c.cnt.run }

  /** For every timer: every running channel interpolates as meant and between its last two samples after every output
      sample, if and only if the period is at most 0x8001. */
  lemma RunningFineIff(timer: U16)
    ensures (forall mem: Memory, c: Channel :: Running(c) && c.timer == timer && Tick(mem, c).cnt.enable ==>
               FineChannel(Tick(mem, c)))
            <==> Period(timer) <= 0x8001
  {
    hide Tick, Fine, Period;
    if Period(timer) <= 0x8001 {
      forall mem: Memory, c: Channel | Running(c) && c.timer == timer && Tick(mem, c).cnt.enable
        ensures FineChannel(Tick(mem, c))
      {
        TickKeeps(mem, c);
        StillRunning(mem, c);
        var d := Tick(mem, c);
        FineBelow(d.previous, d.current, d.counter, Period(timer));
      }
    } else {
      var mem: Memory, c := WideRunning(timer);
      WideFails(0x8001, Period(timer));
      assert !FineChannel(Tick(mem, c));
    }
  }

  /** A running channel that has the widest pair of samples and 0x8001 on its counter after the next output sample. */
  lemma WideRunning(timer: U16) returns (mem: Memory, c: Channel)
    requires Period(timer) > 0x8001
    ensures Running(c) && c.timer == timer
    ensures Tick(mem, c) == c.(counter := 0x8001) && c.previous == -0x8000 && c.current == 0x7FFF
  {
    mem := (a: U32) => 0;
    c := SILENT.(cnt := CntOf(0).(run := true, enable := true), timer := timer, counter := 0x8001 - TICKS_PER_SAMPLE,
                 previous := -0x8000, current := 0x7FFF);
  }

  lemma StillRunning(mem: Memory, c: Channel)
    requires c.index <= 88
    ensures Tick(mem, c).cnt.run == c.cnt.run && (Tick(mem, c).cnt.enable ==> c.cnt.enable)
  {
    hide Spin, Period;
    if c.cnt.enable && c.cnt.run { SpinRuns(mem, c.(counter := c.counter + TICKS_PER_SAMPLE), Period(c.timer)); }
  }

  lemma {:induction false} SpinRuns(mem: Memory, c: Channel, period: nat)
    requires c.index <= 88 && period > 0
    ensures Spin(mem, c, period).cnt.run == c.cnt.run
    decreases c.counter
  {
    hide Step;
    if c.counter >= period && c.cnt.enable { SpinRuns(mem, Step(mem, c.(counter := c.counter - period)), period); }
  }

  // ---------------------------------------------------------------- two runs that go wrong

  /** A memory whose first bytes are the lowest and the highest 8-bit samples. */
  const EXTREMES: Memory := (a: U32) => if a == 0 then 0x80 else if a == 1 then 0x7F else 0

  /** CNT values: enabled and running with interpolation, in Manual mode on 8-bit samples; and the same paused. */
  const PLAY: U16 := 0xC040
  const PAUSE: U16 := 0x8040

  function Playing(run: bool): Cnt { Cnt(0, true, false, 0, Manual, Pcm8, run, true) }

  lemma PlayBits()
    ensures CntOf(PLAY) == Playing(true) && CntOf(PAUSE) == Playing(false)
  {
  }

  /** A fresh channel started with a period of one output sample. */
  function Started(): (c: Channel)
    ensures c.index <= 88
  {
    WriteCnt(SILENT.(timer := 0x1_0000 - TICKS_PER_SAMPLE), PLAY)
  }

  /** That channel `n` samples into its block, with its last two samples. */
  function PlayingAt(n: U32, previous: S16, current: S16): (c: Channel)
    ensures c.index <= 88
  {
    Channel(Playing(true), 0x1_0000 - TICKS_PER_SAMPLE, 0, 0, 0, 0, 0, 0, 0, 0, 0, 0, 0, n, false, false, 0, previous,
            current, 0, 0)
  }

  lemma StartIs(c: Channel, v: U16)
    requires c.index <= 88 && !c.cnt.enable && CntOf(v) == Playing(true) && c.adpcmState == 0
    ensures WriteCnt(c, v)
            == c.(cnt := Playing(true), blockAddress := c.startAddress, blockSize := c.size, position := 0,
                  highNibble := false,
                  holding := false, counter := 0, previous := 0, current := 0, predictor := 0, index := 0)
  {
    hide CntOf;
    assert ToS16(0) == 0;
  }

  lemma StartedIs()
    ensures Started() == PlayingAt(0, 0, 0)
  {
    PlayBits();
    assert !CntOf(0).enable;
    hide CntOf, WriteCnt;
    StartIs(SILENT.(timer := 0x1_0000 - TICKS_PER_SAMPLE), PLAY);
  }

  lemma PlayStep(n: U32, a: S16, b: S16)
    requires n < 2
    ensures Step(EXTREMES, PlayingAt(n, a, b)) == PlayingAt(n + 1, b, Pcm8Sample(EXTREMES(n)))
  {
    hide Pcm8Sample;
    assert Address(0, n) == n && (n + 1) % WORD == n + 1;
  }

  /** Its first two output samples fetch the two extremes. */
  lemma TwoSamples()
    ensures TickN(EXTREMES, Started(), 1) == PlayingAt(1, 0, -0x8000)
    ensures TickN(EXTREMES, Started(), 2) == PlayingAt(2, -0x8000, 0x7F00)
  {
    hide Started, Step, TickN, StepN;
    StartedIs();
    PlaySteps(PlayingAt(0, 0, 0), PlayingAt(1, 0, -0x8000), PlayingAt(2, -0x8000, 0x7F00));
    assert Period(0x1_0000 - TICKS_PER_SAMPLE) == TICKS_PER_SAMPLE;
    hide Period;
    TimerRun(EXTREMES, PlayingAt(0, 0, 0), 1, 1, 0);
    TimerRun(EXTREMES, PlayingAt(0, 0, 0), 2, 2, 0);
  }

  lemma PlaySteps(c: Channel, c1: Channel, c2: Channel)
    requires c == PlayingAt(0, 0, 0) && c1 == PlayingAt(1, 0, -0x8000) && c2 == PlayingAt(2, -0x8000, 0x7F00)
    ensures StepN(EXTREMES, c, 1) == c1 && StepN(EXTREMES, c, 2) == c2 && StaysEnabled(EXTREMES, c, 1)
            && StaysEnabled(EXTREMES, c, 2)
  {
    PlayStep(0, 0, 0);
    PlayStep(1, 0, -0x8000);
    hide Step;
    assert StepN(EXTREMES, c, 0) == c && StepN(EXTREMES, c, 1) == c1 && StepN(EXTREMES, c, 2) == c2;
  }

  /** A channel that has not yet reached its period only counts. */
  lemma OnlyCounts(mem: Memory, c: Channel, n: nat)
    requires c.index <= 88 && c.cnt.enable && c.cnt.run && n >= 1 && c.counter + TICKS_PER_SAMPLE * n < Period(c.timer)
    ensures TickN(mem, c, n) == c.(counter := c.counter + TICKS_PER_SAMPLE * n)
  {
    hide Step, Period;
    assert StepN(mem, c, 0) == c;
    TimerRun(mem, c, n, 0, c.counter + TICKS_PER_SAMPLE * n);
  }

  /** A fresh channel, two samples, then a timer write to a period of 60000: after 17 more output samples the product
      has left 32 bits, and the channel puts out -934 where 5111 is meant. */
  lemma InterpolationWraps()
    ensures var d := TickN(EXTREMES, Started(), 2).(timer := 5536); var e := TickN(EXTREMES, d, 17);
            e.cnt.enable && Interpolated(e) == -934 && Ideal(e.previous, e.current, e.counter, Period(e.timer)) == 5111
  {
    hide TickN, Started;
    TwoSamples();
    var d := TickN(EXTREMES, Started(), 2).(timer := 5536);
    assert Period(5536) == 60000;
    OnlyCounts(EXTREMES, d, 17);
    WrappedValue();
  }

  lemma WrappedValue()
    ensures Value(-0x8000, 0x7F00, 34816, 60000) == -934 && Ideal(-0x8000, 0x7F00, 34816, 60000) == 5111
  {
    assert Product(-0x8000, 0x7F00, 34816) == 2272788480;
    assert ToS32(2272788480) == -2022178816;
    assert TruncDiv(-2022178816, 60000) == -33702 && TruncDiv(2272788480, 60000) == 37879;
    assert ToS16(-66470) == -934;
  }

  /** A fresh channel, one sample, two timer writes around one more output sample, and a pause: the counter is past the
      period, and the channel puts out 31776, which is not between its samples 0 and -0x8000. */
  lemma PausedLeaves()
    ensures var d := TickN(EXTREMES, TickN(EXTREMES, Started(), 1).(timer := 0), 1);
            var e := WriteCnt(d, PAUSE).(timer := 0xFFFF);
            Sound(e) && e.cnt.enable && Interpolated(e) == 31776 && !Between(31776, e.previous, e.current)
  {
    hide TickN, CntOf, Started;
    TwoSamples();
    PlayBits();
    var c := TickN(EXTREMES, Started(), 1).(timer := 0);
    assert Period(0) == 0x1_0000 && Period(0xFFFF) == 0x42;
    OnlyCounts(EXTREMES, c, 1);
    PausedValue();
  }

  lemma PausedValue()
    ensures Value(0, -0x8000, 2048, 0x42) == 31776
  {
    assert Product(0, -0x8000, 2048) == -67108864;
    assert TruncDiv(-67108864, 0x42) == -1016800;
    assert ToS16(-1016800) == 31776;
  }
}
