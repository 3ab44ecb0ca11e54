/** What the replayed totals mean in terms of the scopes that were logged. */
module ProfilerScopes {
  import opened ProfilerEntry
  import opened ProfilerReplay

  // ---------------------------------------------------------------- any log

  /** The scopes open after a log, by their enter entries: a leave ends the innermost one. */
  function OpenAfter(log: seq<Entry>): seq<Entry> {
    if log == [] then [] else
    var open, e := OpenAfter(log[..|log| - 1]), log[|log| - 1];
    if LogType(e) == ENTER then open + [e]
    else if LogType(e) == LEAVE && open != [] then open[..|open| - 1]
    else open
  }

  /** The total duration of the finished scopes that no other scope encloses. */
  function TopLevelTicks(log: seq<Entry>): int {
    if log == [] then 0 else
    var before, e := log[..|log| - 1], log[|log| - 1];
    var open := OpenAfter(before);
    TopLevelTicks(before) + if LogType(e) == LEAVE && |open| == 1 then TickDifference(open[0], e) else 0
  }

  /** Every leave names the timer of the scope it ends. */
  predicate Labelled(log: seq<Entry>) {
    log == [] ||
    var before, e := log[..|log| - 1], log[|log| - 1];
    var open := OpenAfter(before);
    Labelled(before) && (LogType(e) == LEAVE && open != [] ==> TimerIndex(e) == TimerIndex(open[|open| - 1]))
  }

  predicate InGroup(groupOf: seq<nat>, e: Entry, g: nat)
    requires Grouping(groupOf)
  {
    groupOf[TimerIndex(e)] == g
  }

  predicate NoneInGroup(groupOf: seq<nat>, open: seq<Entry>, g: nat)
    requires Grouping(groupOf)
  {
    forall i :: 0 <= i < |open| ==> !InGroup(groupOf, open[i], g)
  }

  /** The total duration of the finished scopes of group `g` that no other scope of the group encloses. */
  function OutermostTicks(groupOf: seq<nat>, log: seq<Entry>, g: nat): int
    requires Grouping(groupOf)
  {
    if log == [] then 0 else
    var before, e := log[..|log| - 1], log[|log| - 1];
    var open := OpenAfter(before);
    var n := |open| - 1;
    OutermostTicks(groupOf, before, g)
    + if LogType(e) == LEAVE && open != [] && InGroup(groupOf, open[n], g) && NoneInGroup(groupOf, open[..n], g)
      then TickDifference(open[n], e) else 0
  }

  function Zeros(n: nat): seq<int> { seq(n, i => 0) }

  const FRESH := Replay([], [0], Zeros(MAX_GROUPS),
                        Totals(Zeros(TIMERS), Zeros(TIMERS), Zeros(TIMERS), Zeros(MAX_GROUPS)))

  lemma {:induction false} SumZeros(s: seq<int>)
    requires forall i :: 0 <= i < |s| ==> s[i] == 0
    ensures Sum(s) == 0
  {
    if s != [] {
      SumZeros(s[1..]);
    }
  }

  lemma {:induction false} ReplayOpen(groupOf: seq<nat>, log: seq<Entry>)
    requires Grouping(groupOf)
    ensures var q := ReplayAll(groupOf, FRESH, log); q.open == OpenAfter(log) && q.child[0] == TopLevelTicks(log)
    decreases |log|
  {
    if log != [] {
      ReplayOpen(groupOf, log[..|log| - 1]);
    }
  }

  /** Summed over all timers, exclusive ticks are the ticks waiting on the child-tick stack; once every scope is
      closed, they are the inclusive ticks of the top-level scopes. */
  lemma ExclusiveTime(groupOf: seq<nat>, log: seq<Entry>)
    requires Grouping(groupOf)
    ensures var q := ReplayAll(groupOf, FRESH, log);
            Sum(q.totals.exclusive) == Sum(q.child)
            && (OpenAfter(log) == [] ==> Sum(q.totals.exclusive) == TopLevelTicks(log))
  {
    var q := ReplayAll(groupOf, FRESH, log);
    ExclusiveConserved(groupOf, FRESH, log);
    SumZeros(FRESH.totals.exclusive);
    SumZeros([0]);
    ReplayOpen(groupOf, log);
    if q.open == [] {
      assert q.child == [q.child[0]];
      SumAppend([], q.child[0]);
      assert [] + [q.child[0]] == [q.child[0]];
    }
  }

  // ---------------------------------------------------------------- group time

  function CountGroup(groupOf: seq<nat>, open: seq<Entry>, g: nat): nat
    requires Grouping(groupOf)
  {
    if open == [] then 0
    else CountGroup(groupOf, open[..|open| - 1], g) + if InGroup(groupOf, open[|open| - 1], g) then 1 else 0
  }

  lemma {:induction false} CountZero(groupOf: seq<nat>, open: seq<Entry>, g: nat)
    requires Grouping(groupOf)
    ensures CountGroup(groupOf, open, g) == 0 <==> NoneInGroup(groupOf, open, g)
    decreases |open|
  {
    if open != [] {
      var n := |open| - 1;
      CountZero(groupOf, open[..n], g);
      assert open == open[..n] + [open[n]];
    }
  }

  /** The counters of open scopes by group, and the group totals, for one group. */
  ghost predicate GroupHolds(groupOf: seq<nat>, q: Replay, log: seq<Entry>, g: nat)
    requires Grouping(groupOf) && Shape(q) && g < MAX_GROUPS
  {
    q.groupPos[g] == CountGroup(groupOf, q.open, g) && q.totals.group[g] == OutermostTicks(groupOf, log, g)
  }

  lemma CountAppend(groupOf: seq<nat>, open: seq<Entry>, e: Entry, g: nat)
    requires Grouping(groupOf)
    ensures CountGroup(groupOf, open + [e], g) == CountGroup(groupOf, open, g) + if InGroup(groupOf, e, g) then 1 else 0
  {
    assert (open + [e])[..|open|] == open;
  }

  /** What one more entry adds to the outermost time of a group. */
  lemma OutermostNext(groupOf: seq<nat>, log: seq<Entry>, e: Entry, g: nat)
    requires Grouping(groupOf)
    ensures var open := OpenAfter(log); var n := |open| - 1;
            OutermostTicks(groupOf, log + [e], g) - OutermostTicks(groupOf, log, g)
            == if LogType(e) == LEAVE && open != [] && InGroup(groupOf, open[n], g)
              && CountGroup(groupOf, open[..n], g) == 0
               then TickDifference(open[n], e) else 0
  {
    hide CountGroup, TickDifference, LogType;
    var open := OpenAfter(log);
    assert (log + [e])[..|log|] == log && (log + [e])[|log|] == e;
    if open != [] { CountZero(groupOf, open[..|open| - 1], g); }
  }

  lemma GroupEnter(groupOf: seq<nat>, r: Replay, log: seq<Entry>, e: Entry, g: nat)
    requires Grouping(groupOf) && Shape(r) && g < MAX_GROUPS && LogType(e) == ENTER && GroupHolds(groupOf, r, log, g)
    ensures GroupHolds(groupOf, ReplayOne(groupOf, r, e), log + [e], g)
  {
    CountAppend(groupOf, r.open, e, g);
    OutermostNext(groupOf, log, e, g);
  }

  lemma GroupLeave(groupOf: seq<nat>, r: Replay, log: seq<Entry>, e: Entry, g: nat)
    requires Grouping(groupOf) && Shape(r) && g < MAX_GROUPS && LogType(e) == LEAVE && GroupHolds(groupOf, r, log, g)
    requires r.open == OpenAfter(log) && r.open != [] && TimerIndex(e) == TimerIndex(r.open[|r.open| - 1])
    ensures GroupHolds(groupOf, ReplayOne(groupOf, r, e), log + [e], g)
  {
    var n := |r.open| - 1;
    OutermostNext(groupOf, log, e, g);
    assert InGroup(groupOf, e, g) <==> InGroup(groupOf, r.open[n], g);
  }

  /** However scopes of a group nest, its ticks are the total duration of exactly those of its scopes that lie in no
      other scope of the group: nothing is counted twice. */
  lemma {:induction false} GroupTime(groupOf: seq<nat>, log: seq<Entry>, g: nat)
    requires Grouping(groupOf) && Labelled(log) && g < MAX_GROUPS
    ensures GroupHolds(groupOf, ReplayAll(groupOf, FRESH, log), log, g)
    decreases |log|
  {
    hide Enter, Leave, TickDifference;
    if log != [] {
      var n := |log| - 1;
      var before, e := log[..n], log[n];
      GroupTime(groupOf, before, g);
      ReplayOpen(groupOf, before);
      var r := ReplayAll(groupOf, FRESH, before);
      assert log == before + [e];
      if LogType(e) == ENTER {
        GroupEnter(groupOf, r, before, e, g);
      } else if LogType(e) == LEAVE && r.open != [] {
        GroupLeave(groupOf, r, before, e, g);
      } else {
        OutermostNext(groupOf, before, e, g);
      }
    }
  }

  /** A leave whose group has no scope open, or more than one, adds nothing to the group; with exactly one it adds its
      ticks. No other entry, and no leave of another group, adds anything. */
  lemma GroupOnLeave(groupOf: seq<nat>, r: Replay, e: Entry, g: nat)
    requires Grouping(groupOf) && Shape(r) && g < MAX_GROUPS
    ensures var q := ReplayOne(groupOf, r, e);
            q.totals.group[g] - r.totals.group[g]
            == if LogType(e) == LEAVE && r.open != [] && groupOf[TimerIndex(e)] == g && r.groupPos[g] == 1
               then TickDifference(r.open[|r.open| - 1], e) else 0
  {
    hide TickDifference, LogType;
  }
}
