/** Log entries of microprofile.h: 2 bits of kind, 14 bits of timer, 48 bits of wrapping tick count. */
module ProfilerEntry {

  const TICKS: nat := 0x1_0000_0000_0000            // 2 to the 48: ticks wrap here
  const TIMERS: nat := 0x4000                        // 2 to the 14
  const WORD: nat := 0x1_0000_0000_0000_0000         // 2 to the 64
  const KIND: nat := 0x4000_0000_0000_0000           // 2 to the 62

  const META: nat := 2
  const ENTER: nat := 1
  const LEAVE: nat := 0

  /** A `MicroProfileLogEntry`. */
  type Entry = e: nat | e < WORD

  /** `MicroProfileMakeLogIndex`. */
  function MakeLogIndex(kind: nat, token: nat, tick: nat): Entry
    requires kind < 4
  {
    kind * KIND + token % TIMERS * TICKS + tick % TICKS
  }

  /** `MicroProfileLogType`. */
  function LogType(e: Entry): nat { e / KIND % 4 }

  /** `MicroProfileLogTimerIndex`. */
  function TimerIndex(e: Entry): (t: nat)
    ensures t < TIMERS
  {
    e / TICKS % TIMERS
  }

  /** `MicroProfileLogGetTick`. */
  function GetTick(e: Entry): (t: nat)
    ensures t < TICKS
  {
    e % TICKS
  }

  /** The three parts of an entry are read back: the asserts of `MicroProfileMakeLogIndex`, and the tick. */
  lemma EntryRoundTrip(kind: nat, token: nat, tick: nat)
    requires kind < 4
    ensures var e := MakeLogIndex(kind, token, tick);
            LogType(e) == kind && TimerIndex(e) == token % TIMERS && GetTick(e) == tick % TICKS
  {
    var a, b := token % TIMERS, tick % TICKS;
    var e := kind * KIND + a * TICKS + b;
    assert KIND == TIMERS * TICKS;
    assert e == (kind * TIMERS + a) * TICKS + b;
    DivMod(kind * TIMERS + a, TICKS, b);
    DivMod(kind, TIMERS, a);
    assert a * TICKS + b < KIND;
    DivMod(kind, KIND, a * TICKS + b);
  }

  lemma DivMod(q: nat, n: nat, r: nat)
    requires r < n
    ensures (q * n + r) / n == q && (q * n + r) % n == r
  {
    var x := q * n + r;
    assert x == (x / n) * n + x % n;
    SameQuotient(n, q, r, x / n, x % n);
  }

  lemma SameQuotient(n: nat, q1: int, r1: nat, q2: int, r2: nat)
    requires r1 < n && r2 < n && q1 * n + r1 == q2 * n + r2
    ensures q1 == q2 && r1 == r2
  {
    assert (q1 - q2) * n == r2 - r1;
    assert q1 - q2 >= 1 ==> (q1 - q2) * n >= n;
    assert q2 - q1 >= 1 ==> (q2 - q1) * n >= n;
  }

  /** A 64-bit word as a signed number. */
  function Signed(w: int): int {
    if w % WORD >= WORD / 2 then w % WORD - WORD else w % WORD
  }

  /** `MicroProfileLogTickDifference`: the ticks in the upper 48 bits of words, subtracted and shifted back. */
  function TickDifference(start: Entry, end: Entry): int {
    Signed(end * 65536 % WORD - start * 65536 % WORD) / 65536
  }

  /** The difference nearest to zero that two wrapped tick counts allow. */
  function Nearest(d: int): int {
    if d % TICKS >= TICKS / 2 then d % TICKS - TICKS else d % TICKS
  }

  lemma ShiftedTick(e: Entry)
    ensures e * 65536 % WORD == GetTick(e) * 65536
  {
    var q, t := e / TICKS, GetTick(e);
    assert e == q * TICKS + t;
    assert e * 65536 == q * WORD + t * 65536 by { assert WORD == TICKS * 65536; }
    DivMod(q, WORD, t * 65536);
  }

  /** Only the ticks matter, and they are compared modulo their wrap. */
  lemma TickDifferenceIs(start: Entry, end: Entry)
    ensures TickDifference(start, end) == Nearest(GetTick(end) - GetTick(start))
  {
    hide Signed, Nearest, GetTick;
    ShiftedTick(start);
    ShiftedTick(end);
    ScaledNearest(GetTick(end) - GetTick(start));
  }

  lemma ScaledNearest(d: int)
    requires -d < TICKS && d < TICKS
    ensures Signed(d * 65536) / 65536 == Nearest(d)
  {
  }

  /** Whatever the wrap, the difference of two logged ticks is their true distance while that is below 2 to the 47. */
  lemma TickDifferenceExact(k1: nat, k2: nat, token1: nat, token2: nat, t1: nat, t2: nat)
    requires k1 < 4 && k2 < 4 && -(TICKS / 2) <= t2 - t1 < TICKS / 2
    ensures TickDifference(MakeLogIndex(k1, token1, t1), MakeLogIndex(k2, token2, t2)) == t2 - t1
  {
    hide MakeLogIndex, TickDifference, GetTick, Nearest;
    EntryRoundTrip(k1, token1, t1);
    EntryRoundTrip(k2, token2, t2);
    TickDifferenceIs(MakeLogIndex(k1, token1, t1), MakeLogIndex(k2, token2, t2));
    ModDifference(t2, t1);
    NearestIs(t2 % TICKS - t1 % TICKS, t2 - t1);
  }

  lemma NearestIs(d: int, e: int)
    requires d % TICKS == e % TICKS && -(TICKS / 2) <= e < TICKS / 2
    ensures Nearest(d) == e
  {
  }

  lemma ModDifference(a: nat, b: nat)
    ensures (a % TICKS - b % TICKS) % TICKS == (a - b) % TICKS
  {
    var qa, qb := a / TICKS, b / TICKS;
    var d := a % TICKS - b % TICKS;
    assert a - b == (qa - qb) * TICKS + d;
    AddMultiple(d, qa - qb);
  }

  lemma {:induction false} AddMultiple(d: int, q: int)
    ensures (q * TICKS + d) % TICKS == d % TICKS
    decreases if q < 0 then -q else q
  {
    if q > 0 {
      AddMultiple(d, q - 1);
      assert q * TICKS + d == (q - 1) * TICKS + d + TICKS;
    } else if q < 0 {
      AddMultiple(d, q + 1);
      assert q * TICKS + d + TICKS == (q + 1) * TICKS + d;
    }
  }

  /** How entries of timer 5 at tick 7 lie in their words: enter, leave and metadata. */
  lemma EntryLayout()
    ensures MakeLogIndex(ENTER, 5, 7) == 0x4005_0000_0000_0007 && MakeLogIndex(LEAVE, 5, 7) == 0x0005_0000_0000_0007
    ensures MakeLogIndex(META, 5, 7) == 0x8005_0000_0000_0007
  {
  }
}
