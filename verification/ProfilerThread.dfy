/** `MicroProfileThreadLog` and the part of `MicroProfileFlip` that replays it, updated in place. */
module ProfilerThread {
  import opened ProfilerEntry
  import opened ProfilerReplay
  import opened ProfilerScopes
  import opened ProfilerLog

  predicate Indices(idx: seq<nat>) {
    forall i :: 0 <= i < |idx| ==> idx[i] < BUFFER_SIZE
  }

  /** The entries of the ring at some indices. */
  function EntriesAt(ring: seq<Entry>, idx: seq<nat>): (r: seq<Entry>)
    requires |ring| == BUFFER_SIZE && Indices(idx)
    ensures |r| == |idx|
  {
    seq(|idx|, i requires 0 <= i < |idx| => ring[idx[i]])
  }

  /** The nesting stays below the depth of the stacks, at every entry of the log. */
  predicate Shallow(depth: nat, log: seq<Entry>)
    decreases |log|
  {
    depth < STACK_MAX
    && (log == [] ||
        Shallow(if LogType(log[0]) == ENTER then depth + 1
                else if LogType(log[0]) == LEAVE && depth > 0 then depth - 1 else depth, log[1..]))
  }

  lemma {:induction false} ShallowSplit(groupOf: seq<nat>, r: Replay, x: seq<Entry>, y: seq<Entry>)
    requires Grouping(groupOf) && Shape(r) && Shallow(|r.open|, x + y)
    ensures Shallow(|r.open|, x) && Shallow(|ReplayAll(groupOf, r, x).open|, y)
    decreases |x|
  {
    if x == [] {
      assert x + y == y;
      assert Shallow(|r.open|, y) ==> |r.open| < STACK_MAX;
    } else {
      assert (x + y)[1..] == x[1..] + y && x == [x[0]] + x[1..];
      assert [x[0]][..0] == [];
      ReplayFrames(groupOf, r, [x[0]], x[1..]);
      ShallowSplit(groupOf, ReplayOne(groupOf, r, x[0]), x[1..], y);
    }
  }

  /** The positions of the open scopes after `log`, whose first entry is at position `base`. */
  function OpenPositions(pos: seq<nat>, log: seq<Entry>, base: nat): seq<nat>
    decreases |log|
  {
    if log == [] then pos else
    var n := |log| - 1;
    OpenStep(OpenPositions(pos, log[..n], base), log[n], base + n)
  }

  function OpenStep(p: seq<nat>, e: Entry, at: nat): seq<nat> {
    if LogType(e) == ENTER then p + [at] else if LogType(e) == LEAVE && p != [] then p[..|p| - 1] else p
  }

  lemma {:induction false} PositionsSplit(pos: seq<nat>, x: seq<Entry>, y: seq<Entry>, base: nat)
    ensures OpenPositions(pos, x + y, base) == OpenPositions(OpenPositions(pos, x, base), y, base + |x|)
    decreases |y|
  {
    if y == [] {
      assert x + y == x;
    } else {
      var n := |y| - 1;
      assert (x + y)[..|x + y| - 1] == x + y[..n] && (x + y)[|x + y| - 1] == y[n];
      PositionsSplit(pos, x, y[..n], base);
    }
  }

  /** The ring indices of some positions of the history. */
  predicate Mirrors(idx: seq<nat>, pos: seq<nat>) {
    |idx| == |pos| && forall i :: 0 <= i < |pos| ==> idx[i] == Cell(pos[i])
  }

  /** Positions in the history and indices in the ring go together while the ring does not wrap. */
  lemma {:induction false} PositionsInRing(idx: seq<nat>, pos: seq<nat>, log: seq<Entry>, base: nat)
    requires Mirrors(idx, pos) && Cell(base) + |log| <= BUFFER_SIZE
    ensures Mirrors(OpenPositions(idx, log, Cell(base)), OpenPositions(pos, log, base))
    decreases |log|
  {
    if log != [] {
      var n := |log| - 1;
      PositionsInRing(idx, pos, log[..n], base);
      CellDistance(base, base + n);
    }
  }

  /** The open positions are those of the open scopes' enter entries. */
  lemma {:induction false} PositionsAreOpen(log: seq<Entry>)
    ensures var p := OpenPositions([], log, 0);
            |p| == |OpenAfter(log)| && forall i :: 0 <= i < |p| ==> p[i] < |log| && log[p[i]] == OpenAfter(log)[i]
  {
    if log != [] {
      var n := |log| - 1;
      PositionsAreOpen(log[..n]);
    }
  }

  /** The stack of ring indices after the entries of two ranges. */
  function Pushed(idx: seq<nat>, ring: seq<Entry>, r: Ranges): seq<nat>
    requires r.from0 <= r.to0 <= |ring| && r.from1 <= r.to1 <= |ring|
  {
    OpenPositions(OpenPositions(idx, ring[r.from0..r.to0], r.from0), ring[r.from1..r.to1], r.from1)
  }

  /** The stack of ring indices after the two ranges, against the open positions in the history. */
  lemma PositionsOverRanges(idx: seq<nat>, pos: seq<nat>, ring: seq<Entry>, history: seq<Entry>, a: nat, b: nat)
    requires Mirrors(idx, pos)
    requires RingHolds(ring, history) && a <= b <= |history| && b - a < BUFFER_SIZE && |history| - a <= BUFFER_SIZE
    ensures var r := GetRange(Cell(b), Cell(a));
            r.from0 <= r.to0 <= BUFFER_SIZE && r.from1 <= r.to1 <= BUFFER_SIZE
            && Mirrors(Pushed(idx, ring, r), OpenPositions(pos, history[a..b], a))
  {
    var r := GetRange(Cell(b), Cell(a));
    RangeHolds(ring, history, a, b);
    CellDistance(a, b);
    var x, y := ring[r.from0..r.to0], ring[r.from1..r.to1];
    PositionsSplit(pos, x, y, a);
    if Cell(b) != Cell(a) {
      PositionsInRing(idx, pos, x, a);
      if Cell(b) < Cell(a) {
        CellDistance(a, a + |x|);
        PositionsInRing(OpenPositions(idx, x, Cell(a)), OpenPositions(pos, x, a), y, a + |x|);
      }
    }
  }

  /** The open scopes' enter entries, read from the ring while they are still there. */
  lemma OpenStillHeld(ring: seq<Entry>, history: seq<Entry>, n: nat, m: nat, idx: seq<nat>)
    requires RingHolds(ring, history) && n <= |history| && HeldFrom(history, n, m)
    requires Mirrors(idx, OpenPositions([], history[..n], 0)) && Indices(idx)
    ensures |idx| == |OpenAfter(history[..n])|
    ensures forall i :: m <= i < |idx| ==> EntriesAt(ring, idx)[i] == OpenAfter(history[..n])[i]
  {
    var p := OpenPositions([], history[..n], 0);
    PositionsAreOpen(history[..n]);
    forall i | m <= i < |p| ensures EntriesAt(ring, idx)[i] == OpenAfter(history[..n])[i] {
      assert history[..n][p[i]] == history[p[i]] && |history| - p[i] <= BUFFER_SIZE;
      assert idx[i] == Cell(p[i]);
    }
  }

  /** The enter entries of the scopes open at `n`, from the `m`-th on, are still in the ring. */
  ghost predicate HeldFrom(history: seq<Entry>, n: nat, m: nat)
    requires n <= |history|
  {
    var p := OpenPositions([], history[..n], 0);
    forall i :: m <= i < |p| ==> |history| - p[i] <= BUFFER_SIZE
  }

  /** The least number of scopes open at any time during a log that starts with those at `pos`. */
  function Floor(pos: seq<nat>, log: seq<Entry>, base: nat): nat
    decreases |log|
  {
    if log == [] then |pos| else
    var n := |log| - 1;
    var f, d := Floor(pos, log[..n], base), |OpenPositions(pos, log, base)|;
    if d < f then d else f
  }

  /** The two differ only in open scopes below the `m`-th. */
  predicate Agree(r: Replay, q: Replay, m: nat) {
    r == q.(open := r.open) && |r.open| == |q.open| && forall i :: m <= i < |q.open| ==> r.open[i] == q.open[i]
  }

  lemma AgreeOne(groupOf: seq<nat>, r: Replay, q: Replay, m: nat, e: Entry)
    requires Grouping(groupOf) && Shape(r) && Shape(q) && Agree(r, q, m) && m <= |ReplayOne(groupOf, q, e).open|
    ensures Agree(ReplayOne(groupOf, r, e), ReplayOne(groupOf, q, e), m)
  {
    hide Finish, TickDifference, Add;
    if LogType(e) == LEAVE && q.open != [] {
      var n := |q.open| - 1;
      assert r.open[n] == q.open[n];
    }
  }

  /** A log never looks at the scopes that stay open below it all the while. */
  lemma {:induction false} AgreeAll(groupOf: seq<nat>, r: Replay, q: Replay, m: nat, pos: seq<nat>, log: seq<Entry>,
                                    base: nat)
    requires Grouping(groupOf) && Shape(r) && Shape(q) && Agree(r, q, m) && |pos| == |q.open|
             && m <= Floor(pos, log, base)
    ensures Agree(ReplayAll(groupOf, r, log), ReplayAll(groupOf, q, log), m)
    ensures |OpenPositions(pos, log, base)| == |ReplayAll(groupOf, q, log).open|
    decreases |log|
  {
    hide Enter, Leave;
    if log != [] {
      var n := |log| - 1;
      AgreeAll(groupOf, r, q, m, pos, log[..n], base);
      var q' := ReplayAll(groupOf, q, log[..n]);
      DepthStep(groupOf, q', OpenPositions(pos, log[..n], base), log[n], base + n);
      AgreeOne(groupOf, ReplayAll(groupOf, r, log[..n]), q', m, log[n]);
    }
  }

  lemma DepthStep(groupOf: seq<nat>, q: Replay, p: seq<nat>, e: Entry, at: nat)
    requires Grouping(groupOf) && Shape(q) && |p| == |q.open|
    ensures |OpenStep(p, e, at)| == |ReplayOne(groupOf, q, e).open|
  {
    hide Finish;
  }

  class Stacks {
    const groupOf: seq<nat>
    const log: array<Entry>
    const stack: array<nat>
    const child: array<int>
    var stackPos: nat
    var groupPos: seq<int>
    var frame: Totals

    ghost predicate Valid()
      reads this, stack
    {
      && Grouping(groupOf) && log.Length == BUFFER_SIZE && stack.Length == STACK_MAX && child.Length == STACK_MAX
      && stackPos < STACK_MAX && Indices(stack[..stackPos]) && |groupPos| == MAX_GROUPS && TotalsShape(frame)
    }

    /** The state of the replay that the stacks stand for. */
    ghost function Live(): (r: Replay)
      reads this, log, stack, child
      requires Valid()
      ensures Shape(r)
    {
      Replay(EntriesAt(log[..], stack[..stackPos]), child[..stackPos + 1], groupPos, frame)
    }

    constructor (groupOf: seq<nat>, log: array<Entry>)
      requires Grouping(groupOf) && log.Length == BUFFER_SIZE
      ensures Valid() && this.groupOf == groupOf && this.log == log && fresh(stack) && fresh(child)
      ensures Live() == FRESH
    {
      this.groupOf, this.log := groupOf, log;
      stack := new nat[STACK_MAX];
      var c := new int[STACK_MAX](i => 0);
      child := c;
      stackPos := 0;
      groupPos := Zeros(MAX_GROUPS);
      frame := ZeroTotals();
      new;
      assert child[..1] == [0] && stack[..0] == [];
    }

    /** An enter entry at index `k` of the ring. */
    method EnterScope(k: nat)
      requires Valid() && k < BUFFER_SIZE && LogType(log[k]) == ENTER && stackPos + 1 < STACK_MAX
      modifies this`stackPos, this`groupPos, stack, child
      ensures Valid() && Live() == ReplayOne(groupOf, old(Live()), log[k])
      ensures stack[..stackPos] == old(stack[..stackPos]) + [k]
    {
      var g := groupOf[TimerIndex(log[k])];
      groupPos := groupPos[g := groupPos[g] + 1];
      stack[stackPos] := k;
      stackPos := stackPos + 1;
      child[stackPos] := 0;
      assert stack[..stackPos] == old(stack[..stackPos]) + [k];
      assert child[..stackPos + 1] == old(child[..stackPos + 1]) + [0];
      assert EntriesAt(log[..], stack[..stackPos]) == old(EntriesAt(log[..], stack[..stackPos])) + [log[k]];
    }

    /** A leave entry at index `k` of the ring, with a scope open. */
    method LeaveScope(k: nat)
      requires Valid() && k < BUFFER_SIZE && LogType(log[k]) == LEAVE && stackPos > 0
      modifies this`stackPos, this`groupPos, this`frame, child
      ensures Valid() && Live() == ReplayOne(groupOf, old(Live()), log[k])
      ensures stack[..stackPos] == old(stack[..stackPos])[..old(stackPos) - 1]
    {
      var timer := TimerIndex(log[k]);
      var g := groupOf[timer];
      var ticks := TickDifference(log[stack[stackPos - 1]], log[k]);
      var inner := child[stackPos];
      stackPos := stackPos - 1;
      child[stackPos] := child[stackPos] + ticks;
      var outermost := false;
      if groupPos[g] > 0 {
        outermost := groupPos[g] == 1;
        groupPos := groupPos[g := groupPos[g] - 1];
      }
      frame := Finish(groupOf, frame, timer, ticks, inner, outermost);
      LeftStacks(old(EntriesAt(log[..], stack[..stackPos])), EntriesAt(log[..], stack[..stackPos]), stackPos);
      assert child[..stackPos + 1] == Add(old(child[..stackPos + 1])[..stackPos + 1], stackPos, ticks);
    }

    static lemma LeftStacks(a: seq<Entry>, b: seq<Entry>, n: nat)
      requires n < |a| && |b| == n && forall i :: 0 <= i < n ==> b[i] == a[i]
      ensures b == a[..n]
    {
    }

    /** One entry of the ring. */
    method ReplayEntry(k: nat)
      requires Valid() && k < BUFFER_SIZE && Shallow(stackPos, [log[k]])
      modifies this`stackPos, this`groupPos, this`frame, stack, child
      ensures Valid() && Live() == ReplayOne(groupOf, old(Live()), log[k])
      ensures stack[..stackPos] == OpenStep(old(stack[..stackPos]), log[k], k)
    {
      if LogType(log[k]) == ENTER {
        DeepEnough(stackPos, [log[k]]);
        EnterScope(k);
      } else if LogType(log[k]) == LEAVE && stackPos > 0 {
        LeaveScope(k);
      }
    }

    /** The replay loop over one range of the ring. */
    method ReplayRange(from: nat, to: nat)
      requires Valid() && from <= to <= BUFFER_SIZE && Shallow(stackPos, log[from..to])
      modifies this`stackPos, this`groupPos, this`frame, stack, child
      ensures Valid() && Live() == ReplayAll(groupOf, old(Live()), log[from..to])
      ensures stack[..stackPos] == OpenPositions(old(stack[..stackPos]), log[from..to], from)
    {
      hide ReplayOne, OpenStep;
      ghost var ring, r, p := log[..], Live(), stack[..stackPos];
      for k := from to to
        invariant Valid() && log[..] == ring && Shallow(stackPos, ring[k..to])
        invariant Live() == ReplayAll(groupOf, r, ring[from..k])
        invariant stack[..stackPos] == OpenPositions(p, ring[from..k], from)
      {
        ReplayNext(groupOf, r, ring, from, k);
        PositionsNext(p, ring, from, k);
        ShallowNext(stack[..stackPos], ring, k, to);
        ReplayEntry(k);
      }
      assert ring[from..to] == log[from..to];
    }

    static lemma PositionsNext(p: seq<nat>, ring: seq<Entry>, from: nat, k: nat)
      requires from <= k < |ring|
      ensures OpenPositions(p, ring[from..k + 1], from) == OpenStep(OpenPositions(p, ring[from..k], from), ring[k], k)
    {
      hide OpenStep;
      LastOfRange(ring, from, k);
    }

    static lemma ShallowNext(p: seq<nat>, ring: seq<Entry>, k: nat, to: nat)
      requires k < to <= |ring| && Shallow(|p|, ring[k..to])
      ensures Shallow(|p|, [ring[k]]) && Shallow(|OpenStep(p, ring[k], k)|, ring[k + 1..to])
    {
      assert ring[k..to][1..] == ring[k + 1..to] && ring[k..to][0] == ring[k];
      var d := |OpenStep(p, ring[k], k)|;
      assert Shallow(d, ring[k + 1..to]) && d < STACK_MAX;
      assert [ring[k]][1..] == [] && Shallow(d, []);
    }

    /** The replay loop over both ranges. */
    method ReplayRanges(r: Ranges)
      requires Valid() && r.from0 <= r.to0 <= BUFFER_SIZE && r.from1 <= r.to1 <= BUFFER_SIZE
      requires Shallow(stackPos, log[r.from0..r.to0] + log[r.from1..r.to1])
      modifies this`stackPos, this`groupPos, this`frame, stack, child
      ensures Valid() && Live() == ReplayAll(groupOf, old(Live()), log[r.from0..r.to0] + log[r.from1..r.to1])
      ensures stack[..stackPos] == Pushed(old(stack[..stackPos]), log[..], r)
    {
      assert log[..][r.from0..r.to0] == log[r.from0..r.to0] && log[..][r.from1..r.to1] == log[r.from1..r.to1];
      ShallowSplit(groupOf, Live(), log[r.from0..r.to0], log[r.from1..r.to1]);
      ReplayFrames(groupOf, Live(), log[r.from0..r.to0], log[r.from1..r.to1]);
      ReplayRange(r.from0, r.to0);
      ReplayRange(r.from1, r.to1);
    }

    /** One frame, between two cursors of the ring, replayed with its own totals. */
    method ReplayFrame(put: nat, get: nat)
      requires Valid() && put < BUFFER_SIZE && get < BUFFER_SIZE && Shallow(stackPos, Between(log[..], put, get))
      modifies this`stackPos, this`groupPos, this`frame, stack, child
      ensures Valid()
      ensures Live() == ReplayAll(groupOf, old(Live()).(totals := ZeroTotals()), Between(log[..], put, get))
      ensures stack[..stackPos] == Pushed(old(stack[..stackPos]), log[..], GetRange(put, get))
    {
      hide ReplayAll, OpenPositions, Shallow;
      var range := GetRange(put, get);
      assert log[range.from0..range.to0] == log[..][range.from0..range.to0];
      assert log[range.from1..range.to1] == log[..][range.from1..range.to1];
      frame := ZeroTotals();
      ReplayRanges(range);
    }

    static lemma LastOfRange(ring: seq<Entry>, from: nat, k: nat)
      requires from <= k < |ring|
      ensures var log := ring[from..k + 1];
              |log| == k - from + 1 && log[..k - from] == ring[from..k] && log[k - from] == ring[k]
    {
    }

    static lemma ReplayNext(groupOf: seq<nat>, r: Replay, ring: seq<Entry>, from: nat, k: nat)
      requires Grouping(groupOf) && Shape(r) && from <= k < |ring|
      ensures ReplayAll(groupOf, r, ring[from..k + 1])
              == ReplayOne(groupOf, ReplayAll(groupOf, r, ring[from..k]), ring[k])
    {
      hide ReplayOne, Grouping, Shape;
      LastOfRange(ring, from, k);
    }

    static lemma DeepEnough(depth: nat, log: seq<Entry>)
      requires log != [] && Shallow(depth, log) && LogType(log[0]) == ENTER
      ensures depth + 1 < STACK_MAX
    {
    }
  }

  // ---------------------------------------------------------------- the log of a thread

  function Slot(j: int): (i: nat)
    ensures i < FRAME_HISTORY
  {
    j % FRAME_HISTORY
  }

  /** How much had been logged at flip `j`; before the first flip there was nothing. */
  function StartAt(starts: seq<nat>, j: int): nat
    requires j < |starts|
  {
    if j < 0 then 0 else starts[j]
  }

  /** How much of the history the flips so far have replayed. */
  function Processed(starts: seq<nat>): nat
    requires starts != []
  {
    StartAt(starts, |starts| - 1 - FRAME_DELAY)
  }

  /** Flips follow one another with less than a ring of entries in between. */
  predicate StartsOk(starts: seq<nat>, logged: nat) {
    && starts != [] && starts[0] == 0
    && starts[|starts| - 1] <= logged < starts[|starts| - 1] + BUFFER_SIZE
    && (forall j :: 0 <= j < |starts| - 1 ==> starts[j] <= starts[j + 1] < starts[j] + BUFFER_SIZE)
    && forall j :: 0 <= j < |starts| ==> starts[j] <= logged
  }

  /** Stacks and accumulated totals are those of a replay of everything processed so far. */
  ghost predicate Replayed(groupOf: seq<nat>, done: seq<Entry>, stack: seq<nat>, child: seq<int>, groupPos: seq<int>,
                           accum: Totals)
    requires Grouping(groupOf)
  {
    var q := ReplayAll(groupOf, FRESH, done);
    Mirrors(stack, OpenPositions([], done, 0)) && child == q.child && groupPos == q.groupPos && accum == q.totals
  }

  /** The ring, its two cursors and the flips so far, against the history. */
  ghost predicate Logged(ring: seq<Entry>, history: seq<Entry>, starts: seq<nat>, put: nat, get: nat) {
    StartsOk(starts, |history|) && RingHolds(ring, history) && put == Cell(|history|)
      && get == Cell(starts[|starts| - 1])
  }

  /** The slots of the last flips hold where their frames start in the ring. */
  ghost predicate StartsHeld(slots: seq<nat>, starts: seq<nat>) {
    |slots| == FRAME_HISTORY
    && forall j :: |starts| - 1 - FRAME_DELAY <= j < |starts| ==> slots[Slot(j)] == Cell(StartAt(starts, j))
  }

  /** The ring is full when one more entry would reach the start of the frame. */
  lemma FullRing(start: nat, logged: nat)
    requires start <= logged < start + BUFFER_SIZE
    ensures (Cell(logged) + 1) % BUFFER_SIZE == Cell(logged + 1)
    ensures Cell(logged + 1) == Cell(start) <==> logged + 1 == start + BUFFER_SIZE
  {
  }

  lemma PutKeeps(ring: seq<Entry>, history: seq<Entry>, starts: seq<nat>, put: nat, get: nat, e: Entry)
    requires Logged(ring, history, starts, put, get) && |history| + 1 < starts[|starts| - 1] + BUFFER_SIZE
    ensures Logged(ring[put := e], history + [e], starts, Cell(|history| + 1), get)
    ensures (history + [e])[..Processed(starts)] == history[..Processed(starts)]
  {
    RingPut(ring, history, e);
  }

  lemma FlipKeeps(ring: seq<Entry>, history: seq<Entry>, starts: seq<nat>, put: nat, get: nat, slots: seq<nat>)
    requires Logged(ring, history, starts, put, get) && StartsHeld(slots, starts)
    ensures Logged(ring, history, starts + [|history|], put, put)
    ensures var now, after := slots[Slot(|starts|) := put], starts + [|history|];
            StartsHeld(now, after) && now[Slot(|starts| - FRAME_DELAY)] == Cell(Processed(after))
            && now[Slot(|starts| - 1 - FRAME_DELAY)] == Cell(Processed(starts))
  {
    var now, after := slots[Slot(|starts|) := put], starts + [|history|];
    forall j | |starts| - 1 - FRAME_DELAY <= j < |after| ensures now[Slot(j)] == Cell(StartAt(after, j)) {
      SlotsApart(j, |starts|);
    }
  }

  lemma SlotsApart(i: int, j: nat)
    requires j - FRAME_HISTORY < i <= j
    ensures Slot(i) == Slot(j) <==> i == j
  {
  }

  /** The frame that a flip replays is the one the slots around `cur` delimit. */
  lemma FlipSlots(framePut: nat, flips: nat, next: nat, cur: nat)
    requires framePut == Slot(flips) && next == (framePut + 1) % FRAME_HISTORY
    requires cur == (next + FRAME_HISTORY - FRAME_DELAY - 1) % FRAME_HISTORY
    ensures next == Slot(flips + 1)
    ensures cur == Slot(flips - FRAME_DELAY) && (cur + 1) % FRAME_HISTORY == Slot(flips + 1 - FRAME_DELAY)
  {
    SlotSum(flips, 1);
    SlotSum(flips + 1, FRAME_HISTORY - FRAME_DELAY - 1);
    SlotSum(flips - FRAME_DELAY, FRAME_HISTORY);
    SlotSum(flips - FRAME_DELAY, 1);
  }

  lemma FrameBounds(starts: seq<nat>, logged: nat)
    requires StartsOk(starts, logged)
    ensures Processed(starts) <= Processed(starts + [logged]) <= logged
    ensures Processed(starts + [logged]) < Processed(starts) + BUFFER_SIZE
    ensures Processed(starts + [logged]) == StartAt(starts, |starts| - FRAME_DELAY)
  {
  }

  lemma SlotSum(j: int, d: nat)
    requires d <= FRAME_HISTORY
    ensures (Slot(j) + d) % FRAME_HISTORY == Slot(j + d) && (d == FRAME_HISTORY ==> Slot(j + d) == Slot(j))
  {
  }

  /** A frame replayed on its own, its totals added to the accumulated ones, continues the replay of the history. */
  lemma FlipReplays(groupOf: seq<nat>, ring: seq<Entry>, history: seq<Entry>, a: nat, b: nat, stack: seq<nat>,
                    before: Replay, accum: Totals, after: Replay, now: seq<nat>)
    requires Grouping(groupOf) && RingHolds(ring, history)
    requires a <= b <= |history| && Retained(history, a, b)
    requires Shape(before) && TotalsShape(accum) && before.totals == ZeroTotals()
    requires Replayed(groupOf, history[..a], stack, before.child, before.groupPos, accum) && Indices(stack)
    requires before.open == EntriesAt(ring, stack) && b - a < BUFFER_SIZE
    requires after == ReplayAll(groupOf, before, Between(ring, Cell(b), Cell(a)))
    requires now == Pushed(stack, ring, GetRange(Cell(b), Cell(a)))
    ensures Replayed(groupOf, history[..b], now, after.child, after.groupPos, AddTotals(accum, after.totals))
  {
    hide ReplayAll, OpenPositions, Pushed, Between, Cell, Floor, OpenAfter, AddTotals, RingHolds, EntriesAt, Mirrors;
    var done, log := history[..a], history[a..b];
    var p := OpenPositions([], done, 0);
    var m := if a == b then |p| else Floor(p, log, a);
    RangesRead(stack, p, ring, history, a, b);
    PositionsAreOpen(done);
    ReplayOpen(groupOf, done);
    OpenStillHeld(ring, history, a, m, stack);
    var whole := before.(open := OpenAfter(done));
    AddZero(accum);
    FloorBelow(p, log, a);
    AgreeAll(groupOf, before, whole, m, p, log, a);
    FrameReplayed(groupOf, done, log, whole, accum, now);
    assert history[..b] == done + log;
  }

  /** Whatever a flip replays, the accumulated exclusive ticks keep their balance with the child-tick stack. */
  lemma FlipConserves(groupOf: seq<nat>, before: Replay, accum: Totals, log: seq<Entry>)
    requires Grouping(groupOf) && Shape(before) && TotalsShape(accum) && before.totals == ZeroTotals()
    ensures var after := ReplayAll(groupOf, before, log);
            Sum(AddTotals(accum, after.totals).exclusive) - Sum(after.child) == Sum(accum.exclusive) - Sum(before.child)
  {
    hide ReplayAll, Sum;
    ExclusiveConserved(groupOf, before, log);
    SumZeros(before.totals.exclusive);
    SumAdds(accum.exclusive, ReplayAll(groupOf, before, log).totals.exclusive);
  }

  lemma {:induction false} FloorBelow(pos: seq<nat>, log: seq<Entry>, base: nat)
    ensures Floor(pos, log, base) <= |pos| && (log == [] ==> Floor(pos, log, base) == |pos|)
    decreases |log|
  {
    if log != [] { FloorBelow(pos, log[..|log| - 1], base); }
  }

  lemma FrameReplayed(groupOf: seq<nat>, done: seq<Entry>, log: seq<Entry>, before: Replay, accum: Totals,
                      now: seq<nat>)
    requires Grouping(groupOf) && Shape(before) && TotalsShape(accum)
    requires Onto(accum, before) == ReplayAll(groupOf, FRESH, done)
    requires Mirrors(now, OpenPositions(OpenPositions([], done, 0), log, |done|))
    ensures var after := ReplayAll(groupOf, before, log);
            Replayed(groupOf, done + log, now, after.child, after.groupPos, AddTotals(accum, after.totals))
  {
    hide ReplayAll, OpenPositions, AddTotals;
    FrameContinues(groupOf, done, log, before, accum);
    PositionsSplit([], done, log, 0);
  }

  lemma FrameContinues(groupOf: seq<nat>, done: seq<Entry>, log: seq<Entry>, before: Replay, accum: Totals)
    requires Grouping(groupOf) && Shape(before) && TotalsShape(accum)
    requires Onto(accum, before) == ReplayAll(groupOf, FRESH, done)
    ensures ReplayAll(groupOf, FRESH, done + log) == Onto(accum, ReplayAll(groupOf, before, log))
  {
    FrameAddsUp(groupOf, accum, before, log);
    ReplayFrames(groupOf, FRESH, done, log);
  }

  /** What a flip is to replay is still in the ring: its entries, and the enter entries of the scopes that they close.
      */
  ghost predicate Retained(history: seq<Entry>, a: nat, b: nat)
    requires a <= b <= |history|
  {
    a == b || (|history| - a <= BUFFER_SIZE
               && HeldFrom(history, a, Floor(OpenPositions([], history[..a], 0), history[a..b], a)))
  }

  /** The two ranges of a flip: the entries of its frame, and the stack of ring indices behind them. */
  lemma RangesRead(idx: seq<nat>, pos: seq<nat>, ring: seq<Entry>, history: seq<Entry>, a: nat, b: nat)
    requires Mirrors(idx, pos) && RingHolds(ring, history) && a <= b <= |history| && b - a < BUFFER_SIZE
             && Retained(history, a, b)
    ensures var r := GetRange(Cell(b), Cell(a));
            && r.from0 <= r.to0 <= BUFFER_SIZE && r.from1 <= r.to1 <= BUFFER_SIZE
            && Between(ring, Cell(b), Cell(a)) == history[a..b]
            && Mirrors(Pushed(idx, ring, r), OpenPositions(pos, history[a..b], a))
  {
    if a < b {
      RangeHolds(ring, history, a, b);
      PositionsOverRanges(idx, pos, ring, history, a, b);
    }
  }

  /** The ring with its cursors, and where the frames of the last flips start in it. */
  class Ring {
    const log: array<Entry>
    const logStart: array<nat>
    var put: nat
    var get: nat
    var overflow: bool
    var framePut: nat
    /** Every entry ever logged, and how many there were at each flip. */
    ghost var history: seq<Entry>
    ghost var starts: seq<nat>

    ghost predicate Valid()
      reads this, log, logStart
    {
      && Logged(log[..], history, starts, put, get)
      && framePut == Slot(|starts| - 1) && StartsHeld(logStart[..], starts)
    }

    constructor ()
      ensures Valid() && history == [] && starts == [0] && fresh(log) && fresh(logStart)
    {
      log := new Entry[BUFFER_SIZE];
      var slots := new nat[FRAME_HISTORY](i => 0);
      logStart := slots;
      put, get, overflow, framePut := 0, 0, false, 0;
      history, starts := [], [0];
    }

    /** `MicroProfileLogPut`: an entry is stored unless that would overtake the start of the current frame. */
    method Put(kind: nat, token: nat, tick: nat) returns (stored: bool)
      requires Valid() && kind < 4
      modifies this`put, this`overflow, this`history, log
      ensures Valid()
      ensures stored <==> |old(history)| + 1 < starts[|starts| - 1] + BUFFER_SIZE
      ensures history == if stored then old(history) + [MakeLogIndex(kind, token, tick)] else old(history)
      ensures overflow == (!stored || old(overflow))
    {
      var next := (put + 1) % BUFFER_SIZE;
      FullRing(starts[|starts| - 1], |history|);
      stored := next != get;
      if stored {
        Store(MakeLogIndex(kind, token, tick), next);
      } else {
        overflow := true;
      }
    }

    method Store(e: Entry, next: nat)
      requires Valid() && next == Cell(|history| + 1) && |history| + 1 < starts[|starts| - 1] + BUFFER_SIZE
      modifies this`put, this`history, log
      ensures Valid() && history == old(history) + [e]
    {
      PutKeeps(log[..], history, starts, put, get, e);
      log[put] := e;
      assert log[..] == old(log[..])[put := e];
      put := next;
      history := history + [e];
    }

    /** The bookkeeping of a flip: a new frame starts here; the frame to replay lies between two slots. */
    method StartFrame() returns (from: nat, to: nat)
      requires Valid()
      modifies this`get, this`framePut, this`starts, logStart
      ensures Valid() && starts == old(starts) + [|history|]
      ensures from == Cell(old(Processed(starts))) && to == Cell(Processed(starts))
    {
      hide Cell, RingHolds;
      FlipKeeps(log[..], history, starts, put, get, logStart[..]);
      var next := (framePut + 1) % FRAME_HISTORY;
      var cur := (next + FRAME_HISTORY - FRAME_DELAY - 1) % FRAME_HISTORY;
      FlipSlots(framePut, |starts| - 1, next, cur);
      framePut := next;
      logStart[framePut] := put;
      assert logStart[..] == old(logStart[..])[framePut := put];
      get := put;
      starts := starts + [|history|];
      from, to := logStart[cur], logStart[(cur + 1) % FRAME_HISTORY];
    }
  }

  /** A thread's log together with what the flips have made of it. */
  class ThreadLog {
    const ring: Ring
    const stacks: Stacks
    var accum: Totals
    /** Every flip so far found what it was to replay still in the ring. */
    ghost var intact: bool

    ghost predicate Valid()
      reads this, ring, ring.log, ring.logStart, stacks, stacks.stack, stacks.child
    {
      && ring.Valid() && stacks.Valid() && stacks.log == ring.log && ring.logStart != stacks.stack && TotalsShape(accum)
      && Sum(accum.exclusive) == Sum(stacks.child[..stacks.stackPos + 1])
      && (intact ==> Replayed(stacks.groupOf, ring.history[..Processed(ring.starts)], stacks.stack[..stacks.stackPos],
                              stacks.child[..stacks.stackPos + 1], stacks.groupPos, accum))
    }

    /** The frame that the next flip replays: what the ring holds between two of the frame starts. */
    ghost function NextFrame(): seq<Entry>
      requires Valid()
      reads this, ring, ring.log, ring.logStart, stacks, stacks.stack, stacks.child
    {
      Between(ring.log[..], Cell(StartAt(ring.starts, |ring.starts| - FRAME_DELAY)), Cell(Processed(ring.starts)))
    }

    constructor (groupOf: seq<nat>)
      requires Grouping(groupOf)
      ensures Valid() && intact && ring.history == [] && ring.starts == [0] && stacks.groupOf == groupOf
      ensures fresh(ring) && fresh(ring.log) && fresh(ring.logStart) && fresh(stacks) && fresh(stacks.stack)
              && fresh(stacks.child)
    {
      hide Replayed, Sum, Cell, Slot, StartsHeld, Grouping, EntriesAt;
      var r := new Ring();
      ring := r;
      stacks := new Stacks(groupOf, r.log);
      accum, intact := ZeroTotals(), true;
      new;
      NothingReplayed(groupOf, stacks.Live(), stacks.stack[..stacks.stackPos]);
      assert ring.history[..Processed(ring.starts)] == [];
    }

    static lemma NothingReplayed(groupOf: seq<nat>, r: Replay, stack: seq<nat>)
      requires Grouping(groupOf) && r == FRESH && |stack| == |r.open|
      ensures Replayed(groupOf, [], stack, r.child, r.groupPos, ZeroTotals())
      ensures Sum(ZeroTotals().exclusive) == Sum(r.child)
    {
      SumZeros(ZeroTotals().exclusive);
      SumZeros([0]);
    }

    /** An entry logged between flips. */
    method Put(kind: nat, token: nat, tick: nat) returns (stored: bool)
      requires Valid() && kind < 4
      modifies ring`put, ring`overflow, ring`history, ring.log
      ensures Valid()
      ensures stored <==> |old(ring.history)| + 1 < ring.starts[|ring.starts| - 1] + BUFFER_SIZE
      ensures ring.history == if stored then old(ring.history) + [MakeLogIndex(kind, token, tick)]
              else old(ring.history)
    {
      hide ReplayAll, OpenPositions, RingHolds, Slot, StartsHeld;
      stored := ring.Put(kind, token, tick);
      assert ring.history[..Processed(ring.starts)] == old(ring.history)[..Processed(ring.starts)];
    }

    /** `MicroProfileFlip`: a new frame starts, and the one that started some flips ago is replayed, from whatever the
        ring then holds, and accumulated. */
    method Flip()
      requires Valid() && Shallow(stacks.stackPos, NextFrame())
      modifies this`accum, this`intact, ring`get, ring`framePut, ring`starts, ring.logStart
      modifies stacks`stackPos, stacks`groupPos, stacks`frame, stacks.stack, stacks.child
      ensures Valid() && ring.starts == old(ring.starts) + [|ring.history|]
      ensures stacks.Live() == ReplayAll(stacks.groupOf, old(stacks.Live()).(totals := ZeroTotals()), old(NextFrame()))
      ensures accum == AddTotals(old(accum), stacks.frame)
      ensures intact <==> old(intact) && Retained(ring.history, old(Processed(ring.starts)), Processed(ring.starts))
    {
      hide ReplayAll, OpenPositions, Shallow, RingHolds, Slot, StartsHeld, Cell, Between, Pushed, Retained, Replayed,
           Sum;
      ghost var a, b := Processed(ring.starts), StartAt(ring.starts, |ring.starts| - FRAME_DELAY);
      ghost var before, was := stacks.Live().(totals := ZeroTotals()), stacks.stack[..stacks.stackPos];
      FrameBounds(ring.starts, |ring.history|);
      var from, to := ring.StartFrame();
      stacks.ReplayFrame(to, from);
      FlipConserves(stacks.groupOf, before, accum, Between(ring.log[..], to, from));
      if intact && Retained(ring.history, a, b) {
        FlipReplays(stacks.groupOf, ring.log[..], ring.history, a, b, was, before, accum, stacks.Live(),
                    stacks.stack[..stacks.stackPos]);
      }
      intact := intact && Retained(ring.history, a, b);
      Accumulated();
    }

    /** The loop over all timers and groups at the end of a flip. */
    method Accumulated()
      requires TotalsShape(accum) && TotalsShape(stacks.frame)
      modifies this`accum
      ensures accum == AddTotals(old(accum), stacks.frame)
    {
      var ticks := Accumulate(accum.ticks, stacks.frame.ticks);
      var exclusive := Accumulate(accum.exclusive, stacks.frame.exclusive);
      var count := Accumulate(accum.count, stacks.frame.count);
      var group := Accumulate(accum.group, stacks.frame.group);
      accum := Totals(ticks, exclusive, count, group);
    }

    /** After any puts and flips, the accumulated exclusive ticks are those waiting on the live child-tick stack, even
        if flips came too late for some entries. If none did, and every processed scope is closed, they are the
        inclusive ticks of the processed top-level scopes. */
    lemma ExclusiveAccounted()
      requires Valid()
      ensures Sum(accum.exclusive) == Sum(stacks.child[..stacks.stackPos + 1])
      ensures intact && stacks.stackPos == 0 ==>
                Sum(accum.exclusive) == TopLevelTicks(ring.history[..Processed(ring.starts)])
    {
      hide RingHolds, Slot, StartsHeld, ReplayAll, TopLevelTicks, Cell, Sum;
      ExclusiveTime(stacks.groupOf, ring.history[..Processed(ring.starts)]);
      PositionsAreOpen(ring.history[..Processed(ring.starts)]);
    }

    /** And the accumulated ticks of a group are the total duration of exactly those processed scopes of the group that
        lie in no other scope of the group. */
    lemma GroupAccounted(g: nat)
      requires Valid() && intact && g < MAX_GROUPS && Labelled(ring.history[..Processed(ring.starts)])
      ensures accum.group[g] == OutermostTicks(stacks.groupOf, ring.history[..Processed(ring.starts)], g)
    {
      hide RingHolds, Slot, StartsHeld, ReplayAll, OutermostTicks, OpenPositions;
      GroupTime(stacks.groupOf, ring.history[..Processed(ring.starts)], g);
    }
  }

  // ---------------------------------------------------------------- a run that loses entries

  /** Entry `j` was logged at tick `j`. */
  predicate Ticking(history: seq<Entry>) {
    |history| <= TICKS && forall j :: 0 <= j < |history| ==> history[j] == MakeLogIndex(META, 0, j)
  }

  lemma TicksDiffer(history: seq<Entry>, i: nat, j: nat)
    requires Ticking(history) && i < j < |history|
    ensures history[i] != history[j]
  {
    EntryRoundTrip(META, 0, i);
    EntryRoundTrip(META, 0, j);
  }

  /** A frame of `n` entries, logged at ticks from `tick` on: a frame takes up to BUFFER_SIZE - 1 of them. */
  method LogFrame(t: ThreadLog, tick: nat, n: nat)
    requires t.Valid() && Ticking(t.ring.history) && n < BUFFER_SIZE && tick + n <= TICKS
    requires tick == |t.ring.history| == t.ring.starts[|t.ring.starts| - 1]
    modifies t.ring`put, t.ring`overflow, t.ring`history, t.ring.log
    ensures t.Valid() && Ticking(t.ring.history) && |t.ring.history| == tick + n
  {
    hide Replayed, RingHolds, StartsHeld, MakeLogIndex, Slot, Cell;
    for i := 0 to n
      invariant t.Valid() && Ticking(t.ring.history) && |t.ring.history| == tick + i
    {
      var stored := t.Put(META, 0, tick + i);
      assert stored;
    }
  }

  /** The first flips have no frame to replay. */
  lemma NothingYet(t: ThreadLog)
    requires t.Valid() && |t.ring.starts| <= FRAME_DELAY
    ensures Shallow(t.stacks.stackPos, t.NextFrame())
    ensures Processed(t.ring.starts) == 0 && StartAt(t.ring.starts, |t.ring.starts| - FRAME_DELAY) == 0
  {
    hide Replayed, RingHolds, StartsHeld, Slot, Cell, Sum, Between;
    assert t.NextFrame() == [];
  }

  method LogAndFlip(t: ThreadLog, tick: nat, n: nat)
    requires t.Valid() && Ticking(t.ring.history) && n < BUFFER_SIZE && tick + n <= TICKS
             && |t.ring.starts| <= FRAME_DELAY
    requires tick == |t.ring.history| == t.ring.starts[|t.ring.starts| - 1] && t.intact
    modifies t`accum, t`intact, t.ring, t.ring.log, t.ring.logStart
    modifies t.stacks`stackPos, t.stacks`groupPos, t.stacks`frame, t.stacks.stack, t.stacks.child
    ensures t.Valid() && t.intact && Ticking(t.ring.history) && |t.ring.history| == tick + n
    ensures t.ring.starts == old(t.ring.starts) + [tick + n]
  {
    hide Replayed, RingHolds, StartsHeld, MakeLogIndex, Slot, Cell, Sum, ReplayAll, Shallow, Between, Indices;
    hide Floor, OpenPositions, HeldFrom, AddTotals, ZeroTotals, EntriesAt, Ticking, Grouping, TotalsShape;
    LogFrame(t, tick, n);
    NothingYet(t);
    t.Flip();
  }

  /** Three frames, every entry of which is stored, and the next flip is to replay a frame whose first entry is gone
      from the ring: keeping the current frame is not enough for replaying frames late. */
  method Overrun(groupOf: seq<nat>) returns (t: ThreadLog)
    requires Grouping(groupOf)
    ensures fresh(t) && fresh(t.ring) && fresh(t.ring.log) && t.Valid()
    ensures |t.ring.history| == 3 * (BUFFER_SIZE - 1)
            && t.ring.starts == [0, BUFFER_SIZE - 1, 2 * (BUFFER_SIZE - 1), 3 * (BUFFER_SIZE - 1)]
    ensures var a, b := Processed(t.ring.starts), StartAt(t.ring.starts, |t.ring.starts| - FRAME_DELAY);
            a < b && !Retained(t.ring.history, a, b) && t.ring.log[Cell(a)] != t.ring.history[a]
  {
    hide MakeLogIndex, Replayed, StartsHeld, RingHolds, Slot, Cell, OpenPositions, Floor, Retained;
    t := new ThreadLog(groupOf);
    var n := BUFFER_SIZE - 1;
    LogAndFlip(t, 0, n);
    LogAndFlip(t, n, n);
    LogAndFlip(t, 2 * n, n);
    FirstLost(t.ring.log[..], t.ring.history);
  }

  lemma FirstLost(ring: seq<Entry>, history: seq<Entry>)
    requires RingHolds(ring, history) && Ticking(history) && |history| == 3 * (BUFFER_SIZE - 1)
    ensures !Retained(history, 0, BUFFER_SIZE - 1) && ring[Cell(0)] != history[0]
  {
    forall i, j | 0 <= i < j < |history| ensures history[i] != history[j] {
      TicksDiffer(history, i, j);
    }
    HeldIff(ring, history, 0);
  }
}
