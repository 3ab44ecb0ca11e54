/** The log ring of a thread and the flips that replay it, frame by frame and some frames late, as in microprofile.h. */
module ProfilerLog {
  import opened ProfilerEntry
  import opened ProfilerReplay
  import opened ProfilerScopes

  /** Entries in the ring of a thread: the repository sets its size to 2048 << 13 bytes of eight-byte entries. */
  const BUFFER_SIZE: nat := 2097152
  const FRAME_HISTORY: nat := 512
  const FRAME_DELAY: nat := 3

  // ---------------------------------------------------------------- frame totals add up

  function AddSeq(a: seq<int>, b: seq<int>): (r: seq<int>)
    requires |a| == |b|
    ensures |r| == |a|
  {
    seq(|a|, i requires 0 <= i < |a| => a[i] + b[i])
  }

  predicate TotalsShape(t: Totals) {
    |t.ticks| == |t.exclusive| == |t.count| == TIMERS && |t.group| == MAX_GROUPS
  }

  function AddTotals(a: Totals, b: Totals): (r: Totals)
    requires TotalsShape(a) && TotalsShape(b)
    ensures TotalsShape(r)
  {
    Totals(AddSeq(a.ticks, b.ticks), AddSeq(a.exclusive, b.exclusive), AddSeq(a.count, b.count),
           AddSeq(a.group, b.group))
  }

  lemma AddCommutes(a: seq<int>, b: seq<int>, i: nat, v: int)
    requires |a| == |b| && i < |b|
    ensures AddSeq(a, Add(b, i, v)) == Add(AddSeq(a, b), i, v)
  {
  }

  lemma FinishCommutes(groupOf: seq<nat>, base: Totals, t: Totals, timer: nat, ticks: int, inner: int, outermost: bool)
    requires Grouping(groupOf) && TotalsShape(base) && TotalsShape(t) && timer < TIMERS
    ensures Finish(groupOf, AddTotals(base, t), timer, ticks, inner, outermost)
            == AddTotals(base, Finish(groupOf, t, timer, ticks, inner, outermost))
  {
    AddCommutes(base.ticks, t.ticks, timer, ticks);
    AddCommutes(base.exclusive, t.exclusive, timer, ticks - inner);
    AddCommutes(base.count, t.count, timer, 1);
    AddCommutes(base.group, t.group, groupOf[timer], ticks);
  }

  /** `r` with `base` added to its totals. */
  function Onto(base: Totals, r: Replay): (q: Replay)
    requires TotalsShape(base) && Shape(r)
    ensures Shape(q)
  {
    r.(totals := AddTotals(base, r.totals))
  }

  /** A frame replayed from zeroed totals and added to the accumulated ones is the frame replayed from those. */
  lemma {:induction false} FrameAddsUp(groupOf: seq<nat>, base: Totals, r: Replay, log: seq<Entry>)
    requires Grouping(groupOf) && TotalsShape(base) && Shape(r)
    ensures ReplayAll(groupOf, Onto(base, r), log) == Onto(base, ReplayAll(groupOf, r, log))
    decreases |log|
  {
    if log != [] {
      var n := |log| - 1;
      FrameAddsUp(groupOf, base, r, log[..n]);
      OneAddsUp(groupOf, base, ReplayAll(groupOf, r, log[..n]), log[n]);
    }
  }

  lemma OneAddsUp(groupOf: seq<nat>, base: Totals, q: Replay, e: Entry)
    requires Grouping(groupOf) && TotalsShape(base) && Shape(q)
    ensures ReplayOne(groupOf, Onto(base, q), e) == Onto(base, ReplayOne(groupOf, q, e))
  {
    if LogType(e) == LEAVE && q.open != [] {
      var n, timer := |q.open| - 1, TimerIndex(e);
      FinishCommutes(groupOf, base, q.totals, timer, TickDifference(q.open[n], e), q.child[n + 1],
                     q.groupPos[groupOf[timer]] == 1);
    }
  }

  function ZeroTotals(): (t: Totals)
    ensures TotalsShape(t)
  {
    Totals(Zeros(TIMERS), Zeros(TIMERS), Zeros(TIMERS), Zeros(MAX_GROUPS))
  }

  lemma {:induction false} SumAdds(a: seq<int>, b: seq<int>)
    requires |a| == |b|
    ensures Sum(AddSeq(a, b)) == Sum(a) + Sum(b)
  {
    if a != [] {
      assert AddSeq(a, b)[1..] == AddSeq(a[1..], b[1..]);
      SumAdds(a[1..], b[1..]);
    }
  }

  lemma AddZero(t: Totals)
    requires TotalsShape(t)
    ensures AddTotals(t, ZeroTotals()) == t
  {
    AddZeros(t.ticks);
    AddZeros(t.exclusive);
    AddZeros(t.count);
    AddZeros(t.group);
  }

  lemma AddZeros(s: seq<int>)
    ensures AddSeq(s, Zeros(|s|)) == s
  {
  }

  /** The accumulation loop at the end of a flip. */
  method Accumulate(a: seq<int>, b: seq<int>) returns (r: seq<int>)
    requires |a| == |b|
    ensures r == AddSeq(a, b)
  {
    r := a;
    for i := 0 to |a|
      invariant |r| == |a|
      invariant forall k :: 0 <= k < i ==> r[k] == a[k] + b[k]
      invariant forall k :: i <= k < |a| ==> r[k] == a[k]
    {
      r := r[i := r[i] + b[i]];
    }
  }

  // ---------------------------------------------------------------- the ring

  /** The ring holds the latest entries of the history, each at its position modulo the size. */
  ghost predicate RingHolds(ring: seq<Entry>, history: seq<Entry>) {
    |ring| == BUFFER_SIZE
    && forall j: nat :: |history| - BUFFER_SIZE <= j < |history| ==> ring[Cell(j)] == history[j]
  }

  function Cell(j: nat): (i: nat)
    ensures i < BUFFER_SIZE
  {
    j % BUFFER_SIZE
  }

  lemma CellDistinct(i: nat, j: nat)
    requires i < j < i + BUFFER_SIZE
    ensures Cell(i) != Cell(j)
  {
  }

  lemma RingPut(ring: seq<Entry>, history: seq<Entry>, e: Entry)
    requires RingHolds(ring, history)
    ensures RingHolds(ring[Cell(|history|) := e], history + [e])
  {
    var i := |history|;
    forall j: nat | i + 1 - BUFFER_SIZE <= j < i + 1 ensures ring[Cell(i) := e][Cell(j)] == (history + [e])[j] {
      if j < i { CellDistinct(j, i); }
    }
  }

  /** The two index ranges of `MicroProfileGetRange`. */
  datatype Ranges = Ranges(from0: nat, to0: nat, from1: nat, to1: nat)

  function GetRange(put: nat, get: nat): Ranges
    requires put < BUFFER_SIZE && get < BUFFER_SIZE
  {
    if put > get then Ranges(get, put, 0, 0)
    else if put != get then Ranges(get, BUFFER_SIZE, 0, put)
    else Ranges(0, 0, 0, 0)
  }

  /** The entries that a flip replays when its frame lies between the cursors `get` and `put`. */
  function Between(ring: seq<Entry>, put: nat, get: nat): (r: seq<Entry>)
    requires |ring| == BUFFER_SIZE && put < BUFFER_SIZE && get < BUFFER_SIZE
    ensures put == get ==> r == []
  {
    var r := GetRange(put, get);
    ring[r.from0..r.to0] + ring[r.from1..r.to1]
  }

  lemma CellDistance(a: nat, b: nat)
    requires a <= b < a + BUFFER_SIZE
    ensures Cell(b) == if Cell(a) + (b - a) < BUFFER_SIZE then Cell(a) + (b - a) else Cell(a) + (b - a) - BUFFER_SIZE
  {
  }

  /** The ranges hold exactly the entries of the history from `a` to `b`, while these are still in the ring. */
  lemma RangeHolds(ring: seq<Entry>, history: seq<Entry>, a: nat, b: nat)
    requires RingHolds(ring, history) && a <= b <= |history| && b - a < BUFFER_SIZE && |history| - a <= BUFFER_SIZE
    ensures var r := GetRange(Cell(b), Cell(a));
            r.from0 <= r.to0 <= BUFFER_SIZE && r.from1 <= r.to1 <= BUFFER_SIZE
            && Between(ring, Cell(b), Cell(a)) == history[a..b]
  {
    var r, n := GetRange(Cell(b), Cell(a)), b - a;
    CellDistance(a, b);
    var s := ring[r.from0..r.to0] + ring[r.from1..r.to1];
    assert |s| == n;
    forall i | 0 <= i < n ensures s[i] == history[a..b][i] {
      CellDistance(a, a + i);
      assert ring[Cell(a + i)] == history[a + i];
    }
  }

  /** The latest position that shares its cell with position `p`. */
  lemma LatestInCell(p: nat, n: nat) returns (j: nat)
    requires p < n
    ensures p <= j < n && n - j <= BUFFER_SIZE && Cell(j) == Cell(p) && (n - p > BUFFER_SIZE ==> p < j)
  {
    var d := n - 1 - p;
    j := n - 1 - d % BUFFER_SIZE;
    CellAgain(p, d / BUFFER_SIZE);
  }

  lemma CellAgain(p: nat, k: nat)
    ensures Cell(p + BUFFER_SIZE * k) == Cell(p)
  {
  }

  /** Among distinct entries, one is still in the ring if and only if it is one of the latest BUFFER_SIZE. */
  lemma HeldIff(ring: seq<Entry>, history: seq<Entry>, p: nat)
    requires RingHolds(ring, history) && p < |history| && AllDistinct(history)
    ensures ring[Cell(p)] == history[p] <==> |history| - p <= BUFFER_SIZE
  {
    var j := LatestInCell(p, |history|);
    assert ring[Cell(j)] == history[j];
  }

  predicate AllDistinct(history: seq<Entry>) {
    forall i, j :: 0 <= i < j < |history| ==> history[i] != history[j]
  }

  /** Among distinct entries, the two ranges hold the entries from `a` to `b` if and only if the first is still there.
      */
  lemma RangeHoldsIff(ring: seq<Entry>, history: seq<Entry>, a: nat, b: nat)
    requires RingHolds(ring, history) && AllDistinct(history) && a < b <= |history| && b - a < BUFFER_SIZE
    ensures var r := GetRange(Cell(b), Cell(a));
            && r.from0 <= r.to0 <= BUFFER_SIZE && r.from1 <= r.to1 <= BUFFER_SIZE
            && (Between(ring, Cell(b), Cell(a)) == history[a..b] <==> |history| - a <= BUFFER_SIZE)
  {
    CellDistinct(a, b);
    HeldIff(ring, history, a);
    var r := GetRange(Cell(b), Cell(a));
    var s := ring[r.from0..r.to0] + ring[r.from1..r.to1];
    assert s[0] == ring[Cell(a)] && history[a..b][0] == history[a];
    if |history| - a <= BUFFER_SIZE { RangeHolds(ring, history, a, b); }
  }
}
