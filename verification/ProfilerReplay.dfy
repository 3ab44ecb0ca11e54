/** The replay of a thread's log in `MicroProfileFlip` of microprofile.h, on values, and what its totals add up to. */
module ProfilerReplay {
  import opened ProfilerEntry

  const MAX_GROUPS: nat := 48
  const STACK_MAX: nat := 32

  // ---------------------------------------------------------------- sums

  function Sum(s: seq<int>): int {
    if s == [] then 0 else s[0] + Sum(s[1..])
  }

  lemma {:induction false} SumUpdate(s: seq<int>, i: nat, v: int)
    requires i < |s|
    ensures Sum(s[i := v]) == Sum(s) - s[i] + v
  {
    if i == 0 {
      assert s[0 := v][1..] == s[1..];
    } else {
      assert s[i := v][1..] == s[1..][i - 1 := v];
      SumUpdate(s[1..], i - 1, v);
    }
  }

  lemma {:induction false} SumAppend(s: seq<int>, v: int)
    ensures Sum(s + [v]) == Sum(s) + v
  {
    if s == [] {
      assert s + [v] == [v];
    } else {
      assert (s + [v])[1..] == s[1..] + [v];
      SumAppend(s[1..], v);
    }
  }

  // ---------------------------------------------------------------- one entry

  /** Inclusive and exclusive ticks and calls by timer, ticks by group. */
  datatype Totals = Totals(ticks: seq<int>, exclusive: seq<int>, count: seq<int>, group: seq<int>)

  /** The scopes open on the thread, by their enter entries; the ticks of finished children of each, with those of
      finished top-level scopes first; the open scopes of each group; and the totals. */
  datatype Replay = Replay(open: seq<Entry>, child: seq<int>, groupPos: seq<int>, totals: Totals)

  /** `TimerToGroup`. */
  predicate Grouping(groupOf: seq<nat>) {
    |groupOf| == TIMERS && forall i :: 0 <= i < |groupOf| ==> groupOf[i] < MAX_GROUPS
  }

  predicate Shape(r: Replay) {
    && |r.child| == |r.open| + 1 && |r.groupPos| == MAX_GROUPS
    && |r.totals.ticks| == |r.totals.exclusive| == |r.totals.count| == TIMERS && |r.totals.group| == MAX_GROUPS
  }

  function Add(s: seq<int>, i: nat, v: int): (r: seq<int>)
    requires i < |s|
    ensures |r| == |s|
  {
    s[i := s[i] + v]
  }

  function Enter(groupOf: seq<nat>, r: Replay, e: Entry, timer: nat): Replay
    requires Grouping(groupOf) && Shape(r) && timer < TIMERS
  {
    r.(open := r.open + [e], child := r.child + [0], groupPos := Add(r.groupPos, groupOf[timer], 1))
  }

  /** What a finished scope of `ticks` ticks, `inner` of them in children, adds to the totals. */
  function Finish(groupOf: seq<nat>, t: Totals, timer: nat, ticks: int, inner: int, outermost: bool): Totals
    requires Grouping(groupOf) && timer < TIMERS
    requires |t.ticks| == |t.exclusive| == |t.count| == TIMERS && |t.group| == MAX_GROUPS
  {
    Totals(Add(t.ticks, timer, ticks), Add(t.exclusive, timer, ticks - inner), Add(t.count, timer, 1),
           if outermost then Add(t.group, groupOf[timer], ticks) else t.group)
  }

  /** The innermost scope ends after `ticks` ticks. */
  function Leave(groupOf: seq<nat>, r: Replay, timer: nat, ticks: int): Replay
    requires Grouping(groupOf) && Shape(r) && r.open != [] && timer < TIMERS
  {
    var n, g := |r.open| - 1, groupOf[timer];
    Replay(r.open[..n], Add(r.child[..n + 1], n, ticks),
           if r.groupPos[g] > 0 then Add(r.groupPos, g, -1) else r.groupPos,
           Finish(groupOf, r.totals, timer, ticks, r.child[n + 1], r.groupPos[g] == 1))
  }

  /** One turn of the replay loop; metadata and other entries, and a leave with no scope open, change nothing here. */
  function ReplayOne(groupOf: seq<nat>, r: Replay, e: Entry): (q: Replay)
    requires Grouping(groupOf) && Shape(r)
    ensures Shape(q)
  {
    if LogType(e) == ENTER then Enter(groupOf, r, e, TimerIndex(e))
    else if LogType(e) == LEAVE && r.open != [] then
      Leave(groupOf, r, TimerIndex(e), TickDifference(r.open[|r.open| - 1], e))
    else r
  }

  function ReplayAll(groupOf: seq<nat>, r: Replay, log: seq<Entry>): (q: Replay)
    requires Grouping(groupOf) && Shape(r)
    ensures Shape(q)
    decreases |log|
  {
    if log == [] then r else ReplayOne(groupOf, ReplayAll(groupOf, r, log[..|log| - 1]), log[|log| - 1])
  }

  /** However a log is cut into frames, replaying the frames one after the other replays the log. */
  lemma {:induction false} ReplayFrames(groupOf: seq<nat>, r: Replay, a: seq<Entry>, b: seq<Entry>)
    requires Grouping(groupOf) && Shape(r)
    ensures ReplayAll(groupOf, r, a + b) == ReplayAll(groupOf, ReplayAll(groupOf, r, a), b)
    decreases |b|
  {
    if b == [] {
      assert a + b == a;
    } else {
      var n := |b| - 1;
      assert (a + b)[..|a + b| - 1] == a + b[..n] && (a + b)[|a + b| - 1] == b[n];
      ReplayFrames(groupOf, r, a, b[..n]);
    }
  }

  // ---------------------------------------------------------------- exclusive time is conserved

  lemma ConservedByLeave(groupOf: seq<nat>, r: Replay, timer: nat, ticks: int)
    requires Grouping(groupOf) && Shape(r) && r.open != [] && timer < TIMERS
    ensures var q := Leave(groupOf, r, timer, ticks);
            Sum(q.totals.exclusive) - Sum(q.child) == Sum(r.totals.exclusive) - Sum(r.child)
  {
    var n := |r.open| - 1;
    var inner := r.child[n + 1];
    SumUpdate(r.totals.exclusive, timer, r.totals.exclusive[timer] + (ticks - inner));
    SumUpdate(r.child[..n + 1], n, r.child[n] + ticks);
    SumAppend(r.child[..n + 1], inner);
    assert r.child == r.child[..n + 1] + [inner];
  }

  /** No entry changes the balance between exclusive ticks and the ticks waiting on the child-tick stack. */
  lemma ConservedByOne(groupOf: seq<nat>, r: Replay, e: Entry)
    requires Grouping(groupOf) && Shape(r)
    ensures var q := ReplayOne(groupOf, r, e);
            Sum(q.totals.exclusive) - Sum(q.child) == Sum(r.totals.exclusive) - Sum(r.child)
  {
    if LogType(e) == ENTER {
      SumAppend(r.child, 0);
    } else if LogType(e) == LEAVE && r.open != [] {
      ConservedByLeave(groupOf, r, TimerIndex(e), TickDifference(r.open[|r.open| - 1], e));
    }
  }

  /** Exclusive ticks never get lost: whatever the log, they add up to the ticks of finished scopes still waiting on
      the child-tick stack. */
  lemma {:induction false} ExclusiveConserved(groupOf: seq<nat>, r: Replay, log: seq<Entry>)
    requires Grouping(groupOf) && Shape(r)
    ensures var q := ReplayAll(groupOf, r, log);
            Sum(q.totals.exclusive) - Sum(q.child) == Sum(r.totals.exclusive) - Sum(r.child)
    decreases |log|
  {
    if log != [] {
      var n := |log| - 1;
      ExclusiveConserved(groupOf, r, log[..n]);
      ConservedByOne(groupOf, ReplayAll(groupOf, r, log[..n]), log[n]);
    }
  }
}
