/** Replaying the log of properly nested scopes gives every timer and group its time. */
module ProfilerForest {
  import opened ProfilerEntry
  import opened ProfilerReplay

  /** Scopes one after another on a thread, each with the scopes inside it; ticks are true, unwrapped ones. */
  datatype Forest = Empty | Scope(timer: nat, start: nat, end: nat, inner: Forest, next: Forest)

  /** The entries the scopes leave in the log. */
  function LogOf(f: Forest): seq<Entry> {
    if f.Empty? then []
    else
      [MakeLogIndex(ENTER, f.timer, f.start)] + LogOf(f.inner) + [MakeLogIndex(LEAVE, f.timer, f.end)] + LogOf(f.next)
  }

  /** Timers exist, and no scope is so long that its tick difference wraps. */
  predicate Measurable(f: Forest) {
    f.Scope? ==>
      f.timer < TIMERS && -(TICKS / 2) <= f.end - f.start < TICKS / 2 && Measurable(f.inner) && Measurable(f.next)
  }

  // ---------------------------------------------------------------- the time of timers and groups

  /** The duration of the outermost scopes. */
  function Total(f: Forest): int {
    if f.Empty? then 0 else f.end - f.start + Total(f.next)
  }

  function Inclusive(f: Forest, t: nat): int {
    if f.Empty? then 0
    else (if f.timer == t then f.end - f.start else 0) + Inclusive(f.inner, t) + Inclusive(f.next, t)
  }

  /** Time in scopes of `t` that is not in a scope inside them. */
  function Exclusive(f: Forest, t: nat): int {
    if f.Empty? then 0
    else (if f.timer == t then f.end - f.start - Total(f.inner) else 0) + Exclusive(f.inner, t) + Exclusive(f.next, t)
  }

  function Calls(f: Forest, t: nat): nat {
    if f.Empty? then 0 else (if f.timer == t then 1 else 0) + Calls(f.inner, t) + Calls(f.next, t)
  }

  /** Time in scopes of group `g`, looking inside a scope only when it is of another group. */
  function OfGroup(groupOf: seq<nat>, f: Forest, g: nat): int
    requires Grouping(groupOf) && Measurable(f)
  {
    if f.Empty? then 0
    else (if groupOf[f.timer] == g then f.end - f.start else OfGroup(groupOf, f.inner, g)) + OfGroup(groupOf, f.next, g)
  }

  // ---------------------------------------------------------------- the replay

  /** What replaying the scopes turns `r` into, for the timer `t` and the group `g`. */
  ghost predicate Accounts(groupOf: seq<nat>, f: Forest, r: Replay, q: Replay, t: nat, g: nat)
    requires Grouping(groupOf) && Measurable(f) && Shape(r) && Shape(q) && t < TIMERS && g < MAX_GROUPS
  {
    var n, a, b := |r.open|, r.totals, q.totals;
    && q.open == r.open && q.groupPos == r.groupPos && q.child == r.child[n := r.child[n] + Total(f)]
    && b.ticks[t] == a.ticks[t] + Inclusive(f, t)
    && b.exclusive[t] == a.exclusive[t] + Exclusive(f, t)
    && b.count[t] == a.count[t] + Calls(f, t)
    && b.group[g] == a.group[g] + if r.groupPos[g] == 0 then OfGroup(groupOf, f, g) else 0
  }

  predicate NonNegative(s: seq<int>) {
    forall i :: 0 <= i < |s| ==> s[i] >= 0
  }

  /** A scope without what follows it. */
  function Alone(f: Forest): Forest
    requires f.Scope?
  {
    f.(next := Empty)
  }

  /** The stacks at the end of a scope: those at its start, with its duration added to its parent's children. */
  lemma ScopeEndsStacks(groupOf: seq<nat>, r: Replay, e: Entry, timer: nat, r2: Replay, inner: int, ticks: int)
    requires Grouping(groupOf) && timer < TIMERS && Shape(r) && Shape(r2) && NonNegative(r.groupPos)
    requires var r1 := Enter(groupOf, r, e, timer); var n := |r1.open|;
             r2.open == r1.open && r2.groupPos == r1.groupPos && r2.child == r1.child[n := r1.child[n] + inner]
    ensures var q, g := Leave(groupOf, r2, timer, ticks), groupOf[timer]; var n := |r.open|;
            && q.open == r.open && q.groupPos == r.groupPos && q.child == r.child[n := r.child[n] + ticks]
            && q.totals == Finish(groupOf, r2.totals, timer, ticks, inner, r.groupPos[g] == 0)
  {
    var n, g := |r.open|, groupOf[timer];
    assert r2.open[..n] == r.open;
    assert r2.child[..n + 1] == r.child && r2.child[n + 1] == inner;
    assert r2.groupPos[g := r2.groupPos[g] - 1] == r.groupPos;
  }

  /** From the state after the inner scopes to the state after the scope itself. */
  lemma ScopeEnds(groupOf: seq<nat>, f: Forest, r: Replay, e: Entry, r2: Replay, t: nat, g: nat)
    requires Grouping(groupOf) && Measurable(f) && f.Scope? && Shape(r) && Shape(r2) && NonNegative(r.groupPos)
    requires t < TIMERS && g < MAX_GROUPS && Shape(Enter(groupOf, r, e, f.timer))
    requires Accounts(groupOf, f.inner, Enter(groupOf, r, e, f.timer), r2, t, g)
    ensures Measurable(Alone(f)) && Shape(Leave(groupOf, r2, f.timer, f.end - f.start))
    ensures Accounts(groupOf, Alone(f), r, Leave(groupOf, r2, f.timer, f.end - f.start), t, g)
  {
    ScopeEndsStacks(groupOf, r, e, f.timer, r2, Total(f.inner), f.end - f.start);
    UnfoldAlone(groupOf, f, t, g);
    FinishAt(groupOf, r2.totals, f.timer, f.end - f.start, Total(f.inner), r.groupPos[groupOf[f.timer]] == 0, t, g);
    var pos := Enter(groupOf, r, e, f.timer).groupPos;
    assert pos[g] == r.groupPos[g] + if groupOf[f.timer] == g then 1 else 0;
  }

  lemma FinishAt(groupOf: seq<nat>, a: Totals, timer: nat, ticks: int, inner: int, outermost: bool, t: nat, g: nat)
    requires Grouping(groupOf) && timer < TIMERS && t < TIMERS && g < MAX_GROUPS
    requires |a.ticks| == |a.exclusive| == |a.count| == TIMERS && |a.group| == MAX_GROUPS
    ensures var b := Finish(groupOf, a, timer, ticks, inner, outermost);
            && b.ticks[t] == a.ticks[t] + (if timer == t then ticks else 0)
            && b.exclusive[t] == a.exclusive[t] + (if timer == t then ticks - inner else 0)
            && b.count[t] == a.count[t] + (if timer == t then 1 else 0)
            && b.group[g] == a.group[g] + if outermost && groupOf[timer] == g then ticks else 0
  {
  }

  lemma UnfoldAlone(groupOf: seq<nat>, f: Forest, t: nat, g: nat)
    requires Grouping(groupOf) && Measurable(f) && f.Scope?
    ensures Measurable(Alone(f)) && Total(Alone(f)) == f.end - f.start
    ensures Inclusive(Alone(f), t) == (if f.timer == t then f.end - f.start else 0) + Inclusive(f.inner, t)
    ensures Exclusive(Alone(f), t)
            == (if f.timer == t then f.end - f.start - Total(f.inner) else 0) + Exclusive(f.inner, t)
    ensures Calls(Alone(f), t) == (if f.timer == t then 1 else 0) + Calls(f.inner, t)
    ensures OfGroup(groupOf, Alone(f), g)
            == if groupOf[f.timer] == g then f.end - f.start else OfGroup(groupOf, f.inner, g)
  {
  }

  /** Scopes one after the other. */
  lemma ScopesFollow(groupOf: seq<nat>, f: Forest, r: Replay, r3: Replay, q: Replay, t: nat, g: nat)
    requires Grouping(groupOf) && Measurable(f) && f.Scope? && Shape(r) && Shape(r3) && Shape(q)
    requires t < TIMERS && g < MAX_GROUPS
    requires Accounts(groupOf, Alone(f), r, r3, t, g) && Accounts(groupOf, f.next, r3, q, t, g)
    ensures Accounts(groupOf, f, r, q, t, g)
  {
    UnfoldAlone(groupOf, f, t, g);
  }

  /** For every log of properly nested scopes, from any point of a run: each timer gets its inclusive time, its
      exclusive time and its calls, each group its time without double counting, and the state is as before. */
  lemma {:induction false} ForestReplay(groupOf: seq<nat>, f: Forest, r: Replay, t: nat, g: nat)
    requires Grouping(groupOf) && Measurable(f) && Shape(r) && NonNegative(r.groupPos)
    requires t < TIMERS && g < MAX_GROUPS
    ensures Accounts(groupOf, f, r, ReplayAll(groupOf, r, LogOf(f)), t, g)
    decreases f
  {
    if f.Empty? {
      assert r.child[|r.open| := r.child[|r.open|] + 0] == r.child;
    } else {
      var enter, leave := MakeLogIndex(ENTER, f.timer, f.start), MakeLogIndex(LEAVE, f.timer, f.end);
      var r1 := ReplayOne(groupOf, r, enter);
      Enters(groupOf, f, r);
      ForestReplay(groupOf, f.inner, r1, t, g);
      var r2 := ReplayAll(groupOf, r1, LogOf(f.inner));
      ScopeEnds(groupOf, f, r, enter, r2, t, g);
      Leaves(groupOf, f, r2);
      var r3 := ReplayOne(groupOf, r2, leave);
      ForestReplay(groupOf, f.next, r3, t, g);
      ScopesFollow(groupOf, f, r, r3, ReplayAll(groupOf, r3, LogOf(f.next)), t, g);
      ReplayParts(groupOf, r, enter, LogOf(f.inner), leave, LogOf(f.next));
    }
  }

  lemma Enters(groupOf: seq<nat>, f: Forest, r: Replay)
    requires Grouping(groupOf) && Measurable(f) && f.Scope? && Shape(r) && NonNegative(r.groupPos)
    ensures var e := MakeLogIndex(ENTER, f.timer, f.start);
            ReplayOne(groupOf, r, e) == Enter(groupOf, r, e, f.timer) && NonNegative(ReplayOne(groupOf, r, e).groupPos)
  {
    EntryRoundTrip(ENTER, f.timer, f.start);
  }

  lemma Leaves(groupOf: seq<nat>, f: Forest, r2: Replay)
    requires Grouping(groupOf) && Measurable(f) && f.Scope? && Shape(r2)
    requires r2.open != [] && r2.open[|r2.open| - 1] == MakeLogIndex(ENTER, f.timer, f.start)
    ensures ReplayOne(groupOf, r2, MakeLogIndex(LEAVE, f.timer, f.end)) == Leave(groupOf, r2, f.timer, f.end - f.start)
  {
    EntryRoundTrip(LEAVE, f.timer, f.end);
    TickDifferenceExact(ENTER, LEAVE, f.timer, f.timer, f.start, f.end);
  }

  lemma ReplaySingle(groupOf: seq<nat>, r: Replay, e: Entry)
    requires Grouping(groupOf) && Shape(r)
    ensures ReplayAll(groupOf, r, [e]) == ReplayOne(groupOf, r, e)
  {
    assert [e][..0] == [];
  }

  lemma ReplayParts(groupOf: seq<nat>, r: Replay, a: Entry, x: seq<Entry>, b: Entry, y: seq<Entry>)
    requires Grouping(groupOf) && Shape(r)
    ensures ReplayAll(groupOf, r, [a] + x + [b] + y)
            == ReplayAll(groupOf, ReplayOne(groupOf, ReplayAll(groupOf, ReplayOne(groupOf, r, a), x), b), y)
  {
    ReplayFrames(groupOf, r, [a] + x + [b], y);
    ReplayFrames(groupOf, r, [a] + x, [b]);
    ReplayFrames(groupOf, r, [a], x);
    ReplaySingle(groupOf, r, a);
    ReplaySingle(groupOf, ReplayAll(groupOf, r, [a] + x), b);
  }

  /** Exclusive times of all timers make up the whole time: what a reader of a profile takes for granted. */
  lemma ExclusiveAddsUp(groupOf: seq<nat>, f: Forest, r: Replay)
    requires Grouping(groupOf) && Measurable(f) && Shape(r) && NonNegative(r.groupPos)
    requires r.open == [] && r.child == [0] && Sum(r.totals.exclusive) == 0
    ensures Sum(ReplayAll(groupOf, r, LogOf(f)).totals.exclusive) == Total(f)
  {
    hide ReplayAll, LogOf, Total, Inclusive, Exclusive, Calls, OfGroup;
    ForestReplay(groupOf, f, r, 0, 0);
    ExclusiveConserved(groupOf, r, LogOf(f));
    SumOne(0);
    SumOne(Total(f));
    assert [0][0 := 0 + Total(f)] == [Total(f)];
  }

  lemma SumOne(v: int)
    ensures Sum([v]) == v
  {
    assert [v][1..] == [];
  }
}
