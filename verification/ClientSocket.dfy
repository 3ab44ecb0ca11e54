/** The socket of `ClientImpl` in httplib.h, shared by sends and stops on any number of threads.

    All shared fields are read and written under `socket_mutex_`, so each critical section is one atomic action here;
    `request_mutex_` is recursive and held for the whole of a send. */
module ClientSocket {

  import opened Text

  type Thread = nat

  /** Where a send stands: about to enter `send_`, in flight, or out of `send_` again. */
  datatype Phase = Entering | InFlight | Left(ret: bool)

  datatype Frame = Frame(retried: bool, phase: Phase)

  datatype Client = Client(
    owner: Option<Thread>,               // holder of request_mutex_
    depth: nat,                          // how often it holds it
    stacks: map<Thread, seq<Frame>>,     // the open sends of each thread, the outermost first
    inFlight: int,                       // socket_requests_in_flight_
    from: Option<Thread>,                // socket_requests_are_from_thread_
    shouldClose: bool,                   // socket_should_be_closed_when_request_is_done_
    sock: Option<nat>,                   // socket_.sock, None when invalid
    ssl: bool,                           // socket_.ssl is set
    created: nat)                         // sockets created so far; each gets a new number

  const INITIAL := Client(None, 0, map[], 0, None, false, None, false, 0)

  function StackOf(c: Client, t: Thread): seq<Frame> {
    if t in c.stacks then c.stacks[t] else []
  }

  function SetStack(c: Client, t: Thread, s: seq<Frame>): Client {
    c.(stacks := c.stacks[t := s])
  }

  function Top(c: Client, t: Thread): Frame
    requires StackOf(c, t) != []
  {
    StackOf(c, t)[|StackOf(c, t)| - 1]
  }

  function SetPhase(c: Client, t: Thread, p: Phase): Client
    requires StackOf(c, t) != []
  {
    var s := StackOf(c, t);
    SetStack(c, t, s[|s| - 1 := s[|s| - 1].(phase := p)])
  }

  // ---------------------------------------------------------------- the asserts

  /** The assert of `shutdown_ssl` and of `close_socket`, made by thread `t`. */
  predicate MayClose(c: Client, t: Thread) {
    c.inFlight == 0 || c.from == Some(t)
  }

  /** shutdown_ssl, shutdown_socket, close_socket. */
  function CloseAll(c: Client): Client {
    c.(sock := None, ssl := false)
  }

  // ---------------------------------------------------------------- actions

  /** How connecting ends: a usable socket, with or without TLS; none; or one that is closed again because the proxy
      or the TLS handshake failed, with `send_` returning true if the proxy's refusal is to be the response. */
  datatype Connect = Connected(tls: bool) | NotCreated | SetUpFailed(refused: bool)

  datatype Action =
    | Send(t: Thread)                                              // a call of send: lock request_mutex_
    | Enter(t: Thread, alive: bool, connect: Connect)              // the locked part at the start of send_
    | ServerCloses(t: Thread)                                      // "Connection: close" in handle_request
    | Exit(t: Thread, ret: bool, closeConnection: bool)            // the scope_exit of send_
    | Retry(t: Thread)                                             // the second send_ of send
    | Return(t: Thread)                                            // send returns: unlock request_mutex_
    | Stop(t: Thread)                                              // a call of stop

  predicate Enabled(c: Client, a: Action) {
    var s := StackOf(c, a.t);
    match a
    case Send(t) => (c.owner == None || c.owner == Some(t)) && (s == [] || Top(c, t).phase == InFlight)
    case Enter(t, _, _) => s != [] && Top(c, t).phase == Entering
    case ServerCloses(t) => s != [] && Top(c, t).phase == InFlight
    case Exit(t, _, _) => s != [] && Top(c, t).phase == InFlight
    case Retry(t) => s != [] && Top(c, t).phase == Left(false) && !Top(c, t).retried
    case Return(t) => s != [] && Top(c, t).phase.Left?
    case Stop(t) => s == [] || Top(c, t).phase == InFlight
  }

  /** The socket after the liveness check of `send_`. */
  function Checked(c: Client, alive: bool): Client {
    var c1 := c.(shouldClose := false);
    if c.sock.Some? && !alive then CloseAll(c1) else c1
  }

  function Connecting(c: Client, k: Connect): Client {
    match k
    case Connected(tls) => c.(sock := Some(c.created), ssl := tls, created := c.created + 1)
    case NotCreated => c
    case SetUpFailed(_) => CloseAll(c.(created := c.created + 1))
  }

  /** What `send_` returns when it does not get a socket. */
  predicate WithoutSocket(k: Connect) {
    k.SetUpFailed? && k.refused
  }

  function Entered(c: Client, t: Thread, alive: bool, k: Connect): Client
    requires StackOf(c, t) != []
  {
    var c1 := Checked(c, alive);
    var c2 := if c1.sock.Some? then c1 else Connecting(c1, k);
    if c2.sock.None? then SetPhase(c2, t, Left(WithoutSocket(k)))
    else SetPhase(c2.(inFlight := c2.inFlight + 1, from := Some(t)), t, InFlight)
  }

  /** The count after the decrement at the end of `send_`. */
  function Landed(c: Client): Client {
    c.(inFlight := c.inFlight - 1, from := if c.inFlight - 1 <= 0 then None else c.from)
  }

  function Exited(c: Client, t: Thread, ret: bool, closeConnection: bool): Client
    requires StackOf(c, t) != []
  {
    var c1 := Landed(c);
    SetPhase(if c.shouldClose || closeConnection || !ret then CloseAll(c1) else c1, t, Left(ret))
  }

  function Step(c: Client, a: Action): Client
    requires Enabled(c, a)
  {
    var s := StackOf(c, a.t);
    match a
    case Send(t) => SetStack(c.(owner := Some(t), depth := c.depth + 1), t, s + [Frame(false, Entering)])
    case Enter(t, alive, connect) => Entered(c, t, alive, connect)
    case ServerCloses(t) => CloseAll(c)
    case Exit(t, ret, closeConnection) => Exited(c, t, ret, closeConnection)
    case Retry(t) => SetStack(c, t, s[|s| - 1 := Frame(true, Entering)])
    case Return(t) =>
      var d := if c.depth == 0 then 0 else c.depth - 1;
      SetStack(c.(depth := d, owner := if d == 0 then None else c.owner), t, s[..|s| - 1])
    case Stop(t) => if c.inFlight > 0 then c.(shouldClose := true) else CloseAll(c)
  }

  /** Every assert that the action runs into holds. */
  predicate AssertsHold(c: Client, a: Action)
    requires Enabled(c, a)
  {
    match a
    case Enter(t, alive, connect) =>
      var c1 := Checked(c, alive);
      && (c.sock.Some? && !alive ==> MayClose(c, t))
      && (c1.sock.None? ==> !c1.ssl && (connect.SetUpFailed? ==> MayClose(c1, t)))
      && (c1.inFlight > 1 ==> c1.from == Some(t))
    case ServerCloses(t) => MayClose(c, t)
    case Exit(t, ret, closeConnection) =>
      && (Landed(c).inFlight <= 0 ==> Landed(c).inFlight == 0)
      && (c.shouldClose || closeConnection || !ret ==> MayClose(Landed(c), t))
    case Stop(t) => c.inFlight <= 0 ==> MayClose(c, t)
    case _ => true
  }

  // ---------------------------------------------------------------- interleavings

  /** A sequence of actions that can happen in this order, on whatever threads. */
  predicate Possible(c: Client, run: seq<Action>)
    decreases |run|
  {
    run == [] || (Enabled(c, run[0]) && Possible(Step(c, run[0]), run[1..]))
  }

  function After(c: Client, run: seq<Action>): Client
    requires Possible(c, run)
    decreases |run|
  {
    if run == [] then c else After(Step(c, run[0]), run[1..])
  }

  /** Every assert on the way holds. */
  predicate AllAssertsHold(c: Client, run: seq<Action>)
    requires Possible(c, run)
    decreases |run|
  {
    run == [] || (AssertsHold(c, run[0]) && AllAssertsHold(Step(c, run[0]), run[1..]))
  }

  // ---------------------------------------------------------------- the invariant

  /** The sends of a stack that are in flight. */
  function Flying(s: seq<Frame>): nat {
    if s == [] then 0 else Flying(s[..|s| - 1]) + if s[|s| - 1].phase == InFlight then 1 else 0
  }

  /** Only the innermost send of a thread may be out of flight. */
  predicate WellNested(s: seq<Frame>) {
    forall i :: 0 <= i < |s| - 1 ==> s[i].phase == InFlight
  }

  ghost predicate Inv(c: Client) {
    && (forall t: Thread :: c.owner != Some(t) ==> StackOf(c, t) == [])
    && (c.owner == None ==> c.depth == 0 && c.inFlight == 0 && c.from == None)
    && (c.owner.Some? ==>
          var s := StackOf(c, c.owner.value);
          c.depth == |s| > 0 && WellNested(s) && c.inFlight == Flying(s)
          && c.from == if c.inFlight == 0 then None else c.owner)
    && (c.sock == None ==> !c.ssl)
    && (c.sock.Some? ==> c.sock.value + 1 == c.created)
  }

  lemma {:induction false} FlyingLast(s: seq<Frame>, f: Frame)
    ensures Flying(s + [f]) == Flying(s) + if f.phase == InFlight then 1 else 0
  {
    assert (s + [f])[..|s|] == s;
  }

  lemma FlyingTop(s: seq<Frame>, f: Frame)
    requires s != []
    ensures var n := |s| - 1;
            Flying(s) == Flying(s[..n]) + (if s[n].phase == InFlight then 1 else 0)
            && Flying(s[n := f]) == Flying(s[..n]) + (if f.phase == InFlight then 1 else 0)
  {
    var n := |s| - 1;
    assert s[n := f][..n] == s[..n];
  }

  // ---------------------------------------------------------------- every action keeps it

  /** A thread with an open send is the owner. */
  lemma OpenIsOwner(c: Client, t: Thread)
    requires Inv(c) && StackOf(c, t) != []
    ensures c.owner == Some(t) && WellNested(StackOf(c, t)) && c.inFlight == Flying(StackOf(c, t))
  {
  }

  /** Changing the owner's stack and count together. */
  lemma InvOfOwner(c: Client, d: Client, t: Thread, s: seq<Frame>)
    requires Inv(c) && c.owner in {None, Some(t)} && s != [] && WellNested(s)
    requires d.owner == Some(t) && d.depth == |s| && d.stacks == c.stacks[t := s] && d.inFlight == Flying(s)
    requires d.from == (if d.inFlight == 0 then None else Some(t))
    requires (d.sock == None ==> !d.ssl) && (d.sock.Some? ==> d.sock.value + 1 == d.created)
    ensures Inv(d)
  {
    forall u: Thread | d.owner != Some(u) ensures StackOf(d, u) == [] {
      assert StackOf(c, u) == [];
    }
  }

  lemma KeptBySend(c: Client, t: Thread)
    requires Inv(c) && Enabled(c, Send(t))
    ensures Inv(Step(c, Send(t)))
  {
    var s := StackOf(c, t);
    FlyingLast(s, Frame(false, Entering));
    InvOfOwner(c, Step(c, Send(t)), t, s + [Frame(false, Entering)]);
  }

  /** Replacing the innermost frame. */
  lemma TopReplaced(s: seq<Frame>, f: Frame)
    requires s != [] && WellNested(s)
    ensures var n := |s| - 1;
            s[n := f] != [] && WellNested(s[n := f])
            && Flying(s[n := f]) == Flying(s) - (if s[n].phase == InFlight then 1 else 0)
                                    + (if f.phase == InFlight then 1 else 0)
            && (s[n].phase == InFlight ==> Flying(s) >= 1)
  {
    FlyingTop(s, f);
  }

  lemma EnterAsserts(c: Client, t: Thread, alive: bool, k: Connect)
    requires Inv(c) && Enabled(c, Enter(t, alive, k))
    ensures AssertsHold(c, Enter(t, alive, k))
  {
    OpenIsOwner(c, t);
  }

  /** What entering does to the counts and to the socket. */
  lemma EnterEffect(c: Client, t: Thread, alive: bool, k: Connect)
    requires Enabled(c, Enter(t, alive, k)) && (c.sock == None ==> !c.ssl)
             && (c.sock.Some? ==> c.sock.value + 1 == c.created)
    ensures var d, s := Step(c, Enter(t, alive, k)), StackOf(c, t);
            var f := s[|s| - 1].(phase := if d.sock.None? then Left(WithoutSocket(k)) else InFlight);
            && d.owner == c.owner && d.depth == c.depth && d.stacks == c.stacks[t := s[|s| - 1 := f]]
            && d.inFlight == (if d.sock.None? then c.inFlight else c.inFlight + 1)
            && d.from == (if d.sock.None? then c.from else Some(t))
            && (d.sock == None ==> !d.ssl) && (d.sock.Some? ==> d.sock.value + 1 == d.created)
  {
    hide Checked, Connecting;
    SocketFor(c, alive, k);
  }

  /** The socket that a send finds or makes; nothing else changes but the close flag. */
  lemma SocketFor(c: Client, alive: bool, k: Connect)
    requires (c.sock == None ==> !c.ssl) && (c.sock.Some? ==> c.sock.value + 1 == c.created)
    ensures var c1 := Checked(c, alive); var d := if c1.sock.Some? then c1 else Connecting(c1, k);
            && d.owner == c.owner && d.depth == c.depth && d.stacks == c.stacks
            && d.inFlight == c.inFlight && d.from == c.from
            && (d.sock == None ==> !d.ssl) && (d.sock.Some? ==> d.sock.value + 1 == d.created)
  {
  }

  lemma KeptByEnter(c: Client, t: Thread, alive: bool, k: Connect)
    requires Inv(c) && Enabled(c, Enter(t, alive, k))
    ensures Inv(Step(c, Enter(t, alive, k)))
  {
    OpenIsOwner(c, t);
    var s := StackOf(c, t);
    var d := Step(c, Enter(t, alive, k));
    var f := s[|s| - 1].(phase := if d.sock.None? then Left(WithoutSocket(k)) else InFlight);
    EnterEffect(c, t, alive, k);
    TopReplaced(s, f);
    InvOfOwner(c, d, t, s[|s| - 1 := f]);
  }

  lemma KeptByExit(c: Client, t: Thread, ret: bool, close: bool)
    requires Inv(c) && Enabled(c, Exit(t, ret, close))
    ensures Inv(Step(c, Exit(t, ret, close))) && AssertsHold(c, Exit(t, ret, close))
  {
    OpenIsOwner(c, t);
    var s := StackOf(c, t);
    var f := s[|s| - 1].(phase := Left(ret));
    TopReplaced(s, f);
    InvOfOwner(c, Step(c, Exit(t, ret, close)), t, s[|s| - 1 := f]);
  }

  lemma KeptByRetry(c: Client, t: Thread)
    requires Inv(c) && Enabled(c, Retry(t))
    ensures Inv(Step(c, Retry(t)))
  {
    OpenIsOwner(c, t);
    var s := StackOf(c, t);
    TopReplaced(s, Frame(true, Entering));
    InvOfOwner(c, Step(c, Retry(t)), t, s[|s| - 1 := Frame(true, Entering)]);
  }

  lemma KeptByReturn(c: Client, t: Thread)
    requires Inv(c) && Enabled(c, Return(t))
    ensures Inv(Step(c, Return(t)))
  {
    OpenIsOwner(c, t);
    var s := StackOf(c, t);
    var n := |s| - 1;
    FlyingTop(s, s[n]);
    var d := Step(c, Return(t));
    if n == 0 {
      assert s[..0] == [];
      forall u: Thread ensures StackOf(d, u) == [] {
        assert u != t ==> StackOf(c, u) == [];
      }
    } else {
      InvOfOwner(c, d, t, s[..n]);
    }
  }

  /** Every action keeps the invariant, and every assert it runs into holds. */
  lemma StepKeeps(c: Client, a: Action)
    requires Inv(c) && Enabled(c, a)
    ensures Inv(Step(c, a)) && AssertsHold(c, a)
  {
    match a {
      case Send(t) => KeptBySend(c, t);
      case Enter(t, alive, k) =>
        KeptByEnter(c, t, alive, k);
        EnterAsserts(c, t, alive, k);
      case ServerCloses(t) =>
        OpenIsOwner(c, t);
        var s := StackOf(c, t);
        FlyingTop(s, s[|s| - 1]);
        SameStacks(c, Step(c, a));
      case Exit(t, ret, close) => KeptByExit(c, t, ret, close);
      case Retry(t) => KeptByRetry(c, t);
      case Return(t) => KeptByReturn(c, t);
      case Stop(t) => SameStacks(c, Step(c, a));
    }
  }

  lemma SameStacks(c: Client, d: Client)
    requires Inv(c) && d.(shouldClose := c.shouldClose, sock := c.sock, ssl := c.ssl) == c
    requires (d.sock == None ==> !d.ssl) && (d.sock.Some? ==> d.sock == c.sock)
    ensures Inv(d)
  {
    forall u: Thread | d.owner != Some(u) ensures StackOf(d, u) == [] {
      assert StackOf(c, u) == [];
    }
  }

  lemma InitialInv()
    ensures Inv(INITIAL)
  {
  }

  lemma {:induction false} SafetyFrom(c: Client, run: seq<Action>)
    requires Inv(c) && Possible(c, run)
    ensures AllAssertsHold(c, run) && Inv(After(c, run))
    decreases |run|
  {
    if run != [] {
      StepKeeps(c, run[0]);
      SafetyFrom(Step(c, run[0]), run[1..]);
    }
  }

  /** In every interleaving of sends, nested sends and stops, every assert holds, and the count of requests in flight
      is the number of open sends of the thread that holds the request mutex. */
  lemma SocketSafety(run: seq<Action>)
    requires Possible(INITIAL, run)
    ensures AllAssertsHold(INITIAL, run) && Inv(After(INITIAL, run))
  {
    InitialInv();
    SafetyFrom(INITIAL, run);
  }

  /** While a request is in flight, no other thread changes the socket it uses. */
  lemma SocketNotTaken(c: Client, a: Action, t: Thread)
    requires Inv(c) && Enabled(c, a) && c.inFlight > 0 && c.owner == Some(t) && a.t != t
    ensures Step(c, a).sock == c.sock && Step(c, a).inFlight == c.inFlight && Step(c, a).from == c.from == Some(t)
  {
    assert StackOf(c, a.t) == [];
  }

  // ---------------------------------------------------------------- one retry

  /** All along the run the thread has at least `n` sends open. */
  ghost predicate KeepsOpen(c: Client, run: seq<Action>, t: Thread, n: nat)
    requires Possible(c, run)
    decreases |run|
  {
    |StackOf(c, t)| >= n && (run == [] || KeepsOpen(Step(c, run[0]), run[1..], t, n))
  }

  lemma RetriedStep(c: Client, a: Action, t: Thread, n: nat)
    requires Enabled(c, a) && 0 < n <= |StackOf(c, t)| && StackOf(c, t)[n - 1].retried && n <= |StackOf(Step(c, a), t)|
    ensures StackOf(Step(c, a), t)[n - 1].retried
  {
    var p := StackStep(c, a);
  }

  /** The stack of the acting thread: one frame more, one frame less, or another top frame that has been retried if this
      one has; the other stacks stay. */
  lemma StackStep(c: Client, a: Action) returns (f: Frame)
    requires Enabled(c, a)
    ensures var d, s := Step(c, a), StackOf(c, a.t); var r, n := StackOf(d, a.t), |s| - 1;
            && (r == s || r == s + [f] || (s != [] && r == s[..n])
                || (s != [] && r == s[n := f] && (s[n].retried ==> f.retried)))
            && forall u: Thread :: u != a.t ==> StackOf(d, u) == StackOf(c, u)
  {
    hide Checked, Connecting, Landed;
    var d := Step(c, a);
    f := if StackOf(d, a.t) == [] then Frame(false, Entering) else Top(d, a.t);
    EnterStack(c, a);
  }

  lemma EnterStack(c: Client, a: Action)
    requires Enabled(c, a)
    ensures a.Enter? ==>
              var k := Connecting(Checked(c, a.alive), a.connect);
              k.stacks == c.stacks && Checked(c, a.alive).stacks == c.stacks
    ensures Landed(c).stacks == c.stacks
  {
  }

  /** A send that has been retried is not retried again. */
  lemma {:induction false} RetriedOnce(c: Client, run: seq<Action>, t: Thread, n: nat)
    requires 0 < n <= |StackOf(c, t)| && StackOf(c, t)[n - 1].retried && Possible(c, run) && KeepsOpen(c, run, t, n)
    ensures |StackOf(After(c, run), t)| == n ==> !Enabled(After(c, run), Retry(t))
    decreases |run|
  {
    hide Step;
    if run != [] {
      RetriedStep(c, run[0], t, n);
      RetriedOnce(Step(c, run[0]), run[1..], t, n);
    }
  }

  lemma RetryMarks(c: Client, t: Thread)
    requires Enabled(c, Retry(t))
    ensures var s := StackOf(Step(c, Retry(t)), t); |s| == |StackOf(c, t)| && s[|s| - 1].retried
  {
  }

  // ---------------------------------------------------------------- a stop during a request

  predicate NoEntry(run: seq<Action>) {
    forall i :: 0 <= i < |run| ==> !run[i].Enter?
  }

  /** Action `i` of the run is a stop that met a request in flight, and no send has entered since. */
  ghost predicate PendingStop(c: Client, run: seq<Action>, i: nat)
    requires Possible(c, run)
  {
    i < |run| && run[i].Stop? && Possible(c, run[..i]) && After(c, run[..i]).inFlight > 0 && NoEntry(run[i + 1..])
  }

  lemma PendingShift(c: Client, run: seq<Action>, i: nat)
    requires Possible(c, run) && run != []
    ensures PendingStop(c, run, i + 1) <==> PendingStop(Step(c, run[0]), run[1..], i)
  {
    if i < |run| - 1 {
      assert run[..i + 1][1..] == run[1..][..i] && run[1..][i + 1..] == run[i + 2..];
    }
  }

  lemma FlagStep(c: Client, a: Action)
    requires Enabled(c, a)
    ensures Step(c, a).shouldClose == if a.Enter? then false else c.shouldClose || (a.Stop? && c.inFlight > 0)
  {
  }

  /** The close flag is set if and only if some stop met a request in flight and no send has entered since, or it was
      set before and no send has entered at all. */
  lemma {:induction false} FlagIsPendingStop(c: Client, run: seq<Action>)
    requires Possible(c, run)
    ensures After(c, run).shouldClose <==> (exists i: nat :: PendingStop(c, run, i)) || (c.shouldClose && NoEntry(run))
    decreases |run|
  {
    hide Step, Enabled;
    if run != [] {
      var d, rest := Step(c, run[0]), run[1..];
      FlagStep(c, run[0]);
      FlagIsPendingStop(d, rest);
      assert run[..0] == [] && run[0 + 1..] == rest;
      assert PendingStop(c, run, 0) <==> run[0].Stop? && c.inFlight > 0 && NoEntry(rest);
      assert NoEntry(run) <==> !run[0].Enter? && NoEntry(rest) by { assert run == [run[0]] + rest; }
      forall i: nat ensures PendingStop(c, run, i + 1) <==> PendingStop(d, rest, i) { PendingShift(c, run, i); }
      if exists i: nat :: PendingStop(d, rest, i) {
        var i: nat :| PendingStop(d, rest, i);
        assert PendingStop(c, run, i + 1);
      }
      if exists i: nat :: PendingStop(c, run, i) {
        var i: nat :| PendingStop(c, run, i);
        if i > 0 { assert PendingStop(d, rest, i - 1) by { PendingShift(c, run, i - 1); } }
      }
    }
  }

  /** A successful request on a connection to be kept alive closes the socket at its exit if and only if some stop met a
      request in flight and no send has entered since; any other exit closes it always. */
  lemma ExitCloses(run: seq<Action>, t: Thread, ret: bool, closeConnection: bool)
    requires Possible(INITIAL, run) && Enabled(After(INITIAL, run), Exit(t, ret, closeConnection))
    ensures var c := After(INITIAL, run); var d := Step(c, Exit(t, ret, closeConnection));
            d.sock == if (exists i: nat :: PendingStop(INITIAL, run, i)) || closeConnection || !ret then None
              else c.sock
  {
    FlagIsPendingStop(INITIAL, run);
  }

  // ---------------------------------------------------------------- when there is a socket

  /** Action `a`, made in state `c`, gets rid of the socket: a stop that finds no request in flight, the server's
      "Connection: close", an exit that closes, or an entry that finds the connection dead and makes no new one. The
      close flag of an exit is given. */
  predicate Drops(a: Action, idle: bool, flag: bool) {
    match a
    case Stop(_) => idle
    case ServerCloses(_) => true
    case Exit(_, ret, closeConnection) => flag || closeConnection || !ret
    case Enter(_, alive, connect) => !alive && !connect.Connected?
    case _ => false
  }

  /** Action `i` of the run gets rid of the socket. */
  ghost predicate DropsAt(run: seq<Action>, i: nat)
    requires Possible(INITIAL, run) && i < |run|
  {
    PrefixPossible(INITIAL, run, i);
    Drops(run[i], After(INITIAL, run[..i]).inFlight <= 0, exists j: nat :: PendingStop(INITIAL, run[..i], j))
  }

  /** Action `i` is an entry with a connection, and nothing gets rid of the socket after it. */
  ghost predicate StillOpen(run: seq<Action>, i: nat)
    requires Possible(INITIAL, run)
  {
    && i < |run| && run[i].Enter? && run[i].connect.Connected?
    && forall j: nat :: i < j < |run| ==> !DropsAt(run, j)
  }

  lemma {:induction false} PrefixPossible(c: Client, run: seq<Action>, n: nat)
    requires Possible(c, run) && n <= |run|
    ensures Possible(c, run[..n]) && (n < |run| ==> Enabled(After(c, run[..n]), run[n]))
    ensures n < |run| ==> Possible(c, run[..n + 1]) && After(c, run[..n + 1]) == Step(After(c, run[..n]), run[n])
    decreases |run|
  {
    hide Step, Enabled;
    if n > 0 {
      assert run[..n][1..] == run[1..][..n - 1];
      PrefixPossible(Step(c, run[0]), run[1..], n - 1);
      if n < |run| { assert run[..n + 1][1..] == run[1..][..n]; }
    } else if run != [] {
      assert run[..0] == [] && run[..1] == [run[0]] && run[..1][1..] == [];
    }
  }

  /** One action: whether there is a socket after it. */
  lemma SocketStep(c: Client, a: Action)
    requires Enabled(c, a)
    ensures Step(c, a).sock.Some?
            <==> (a.Enter? && a.connect.Connected?) || (!Drops(a, c.inFlight <= 0, c.shouldClose) && c.sock.Some?)
  {
  }

  /** Along every run there is a socket if and only if some entry connected and nothing has got rid of it since. */
  lemma {:induction false} SocketOpenIff(run: seq<Action>)
    requires Possible(INITIAL, run)
    ensures After(INITIAL, run).sock.Some? <==> exists i: nat :: StillOpen(run, i)
    decreases |run|
  {
    hide Step, Enabled, Drops;
    if run != [] {
      var n := |run| - 1;
      var before, a := run[..n], run[n];
      PrefixPossible(INITIAL, run, n);
      assert run[..n + 1] == run;
      SocketOpenIff(before);
      FlagIsPendingStop(INITIAL, before);
      SocketStep(After(INITIAL, before), a);
      assert After(INITIAL, before).shouldClose == exists j: nat :: PendingStop(INITIAL, before, j);
      OpenExtends(run, n);
    }
  }

  /** What stands open after one more action. */
  lemma OpenExtends(run: seq<Action>, n: nat)
    requires Possible(INITIAL, run) && n == |run| - 1 && Possible(INITIAL, run[..n])
    ensures (exists i: nat :: StillOpen(run, i))
            <==> (run[n].Enter? && run[n].connect.Connected?)
                 || (!DropsAt(run, n) && exists i: nat :: StillOpen(run[..n], i))
  {
    hide Step, Enabled, Drops;
    forall i: nat | i < n ensures StillOpen(run, i) <==> !DropsAt(run, n) && StillOpen(run[..n], i) {
      OpenBefore(run, n, i);
    }
    if run[n].Enter? && run[n].connect.Connected? { assert StillOpen(run, n); }
    if !DropsAt(run, n) && exists i: nat :: StillOpen(run[..n], i) {
      var i: nat :| StillOpen(run[..n], i);
      assert StillOpen(run, i);
    }
    if exists i: nat :: StillOpen(run, i) {
      var i: nat :| StillOpen(run, i);
      assert i == n || StillOpen(run[..n], i);
    }
  }

  lemma OpenBefore(run: seq<Action>, n: nat, i: nat)
    requires Possible(INITIAL, run) && n == |run| - 1 && Possible(INITIAL, run[..n]) && i < n
    ensures StillOpen(run, i) <==> !DropsAt(run, n) && StillOpen(run[..n], i)
  {
    hide Step, Enabled, Drops, Possible, After;
    forall j: nat | j < n ensures DropsAt(run, j) <==> DropsAt(run[..n], j) {
      assert run[..n][..j] == run[..j];
    }
  }

  // ---------------------------------------------------------------- and when it has TLS

  /** An entry that finds no live socket and connects. */
  predicate NewSocket(c: Client, a: Action) {
    a.Enter? && a.connect.Connected? && (c.sock.None? || !a.alive)
  }

  ghost predicate MakesAt(run: seq<Action>, i: nat)
    requires Possible(INITIAL, run) && i < |run|
  {
    PrefixPossible(INITIAL, run, i);
    NewSocket(After(INITIAL, run[..i]), run[i])
  }

  /** Action `i` makes a socket with TLS, and after it nothing gets rid of it or makes another. */
  ghost predicate StillSecure(run: seq<Action>, i: nat)
    requires Possible(INITIAL, run)
  {
    && i < |run| && MakesAt(run, i) && run[i].connect.tls
    && forall j: nat :: i < j < |run| ==> !DropsAt(run, j) && !MakesAt(run, j)
  }

  lemma TlsStep(c: Client, a: Action)
    requires Enabled(c, a) && (c.sock == None ==> !c.ssl)
    ensures Step(c, a).ssl
            <==> if NewSocket(c, a) then a.connect.tls else c.ssl && !Drops(a, c.inFlight <= 0, c.shouldClose)
  {
  }

  /** Along every run the socket has TLS if and only if the entry that made it set TLS up. */
  lemma {:induction false} TlsIff(run: seq<Action>)
    requires Possible(INITIAL, run)
    ensures After(INITIAL, run).ssl <==> exists i: nat :: StillSecure(run, i)
    decreases |run|
  {
    hide Step, Enabled, Drops, NewSocket;
    if run != [] {
      var n := |run| - 1;
      var before := run[..n];
      PrefixPossible(INITIAL, run, n);
      assert run[..n + 1] == run;
      TlsIff(before);
      InitialInv();
      SafetyFrom(INITIAL, before);
      NoSocketNoTls(After(INITIAL, before));
      FlagIsPendingStop(INITIAL, before);
      TlsStep(After(INITIAL, before), run[n]);
      hide Inv;
      SecureExtends(run, n);
    }
  }

  lemma SecureExtends(run: seq<Action>, n: nat)
    requires Possible(INITIAL, run) && n == |run| - 1 && Possible(INITIAL, run[..n])
    ensures (exists i: nat :: StillSecure(run, i))
            <==> if MakesAt(run, n) then run[n].connect.tls
                 else !DropsAt(run, n) && exists i: nat :: StillSecure(run[..n], i)
  {
    hide Step, Enabled, Drops;
    forall i: nat | i < n
      ensures StillSecure(run, i) <==> !DropsAt(run, n) && !MakesAt(run, n) && StillSecure(run[..n], i)
    {
      SecureBefore(run, n, i);
    }
    if MakesAt(run, n) && run[n].connect.tls { assert StillSecure(run, n); }
    if !MakesAt(run, n) && !DropsAt(run, n) && exists i: nat :: StillSecure(run[..n], i) {
      var i: nat :| StillSecure(run[..n], i);
      assert StillSecure(run, i);
    }
    if exists i: nat :: StillSecure(run, i) {
      var i: nat :| StillSecure(run, i);
      assert i == n || StillSecure(run[..n], i);
    }
  }

  lemma SecureBefore(run: seq<Action>, n: nat, i: nat)
    requires Possible(INITIAL, run) && n == |run| - 1 && Possible(INITIAL, run[..n]) && i < n
    ensures StillSecure(run, i) <==> !DropsAt(run, n) && !MakesAt(run, n) && StillSecure(run[..n], i)
  {
    hide Step, Enabled, Drops, Possible, After, NewSocket;
    forall j: nat | j < n
      ensures (DropsAt(run, j) <==> DropsAt(run[..n], j)) && (MakesAt(run, j) <==> MakesAt(run[..n], j))
    {
      assert run[..n][..j] == run[..j];
    }
  }

  /** In particular a stop that finds no request in flight leaves no socket and no TLS, and there is none until some
      send enters with a connection. */
  lemma IdleStopCloses(run: seq<Action>, t: Thread, more: seq<Action>)
    requires Possible(INITIAL, run + ([Stop(t)] + more)) && Possible(INITIAL, run) && After(INITIAL, run).inFlight <= 0
    requires forall i :: 0 <= i < |more| ==> !(more[i].Enter? && more[i].connect.Connected?)
    ensures var c := After(INITIAL, run + ([Stop(t)] + more)); c.sock == None && !c.ssl
  {
    hide Step, Enabled, Possible, After;
    var all, n := run + ([Stop(t)] + more), |run|;
    InitialInv();
    SafetyFrom(INITIAL, all);
    hide Inv;
    SocketOpenIff(all);
    assert all[..n] == run && all[n] == Stop(t);
    assert DropsAt(all, n);
    forall i: nat | i < |all| ensures !StillOpen(all, i) {
      if i > n { assert all[i] == more[i - n - 1]; }
    }
    NoSocketNoTls(After(INITIAL, all));
  }

  lemma NoSocketNoTls(c: Client)
    requires Inv(c)
    ensures c.sock == None ==> !c.ssl
  {
  }

  /** Without a new entry a pending stop stays pending, and a closed socket stays closed. */
  lemma {:induction false} NoEntryKeeps(c: Client, run: seq<Action>)
    requires Possible(c, run) && NoEntry(run)
    ensures c.shouldClose ==> After(c, run).shouldClose
    ensures c.sock == None ==> After(c, run).sock == None
    decreases |run|
  {
    if run != [] {
      NoEntryKeeps(Step(c, run[0]), run[1..]);
    }
  }

  lemma {:induction false} ClosedAtExit(c: Client, run: seq<Action>, i: nat)
    requires c.shouldClose && Possible(c, run) && NoEntry(run) && i < |run| && run[i].Exit?
    ensures After(c, run).sock == None
    decreases |run|
  {
    if i == 0 {
      NoEntryKeeps(Step(c, run[0]), run[1..]);
    } else {
      ClosedAtExit(Step(c, run[0]), run[1..], i - 1);
    }
  }

  /** A stop that finds a request in flight gets the socket closed by the exit of that request, and closed it stays,
      if no send enters in between. */
  lemma StopTakesEffect(c: Client, u: Thread, run: seq<Action>, i: nat)
    requires Enabled(c, Stop(u)) && c.inFlight > 0
    requires Possible(Step(c, Stop(u)), run) && NoEntry(run) && i < |run| && run[i].Exit?
    ensures After(Step(c, Stop(u)), run).sock == None
  {
    ClosedAtExit(Step(c, Stop(u)), run, i);
  }

  lemma Then(c: Client, a: Action, d: Client, rest: seq<Action>)
    requires Enabled(c, a) && Step(c, a) == d && Possible(d, rest)
    ensures Possible(c, [a] + rest) && After(c, [a] + rest) == After(d, rest)
  {
    assert ([a] + rest)[1..] == rest;
  }

  /** A client with one request of thread 1 in flight on socket `id`. */
  function Busy(id: nat, shouldClose: bool): Client {
    Client(Some(1), 1, map[1 := [Frame(false, InFlight)]], 1, Some(1), shouldClose, Some(id), false, id + 1)
  }

  const NESTED: seq<Action> := [Send(1)]
    + ([Enter(1, false, Connected(false))] + ([Exit(1, true, false)] + ([Return(1)] + [])))

  /** A nested send on a connection that turned out dead, back to the outer request. */
  lemma NestedSend()
    ensures Possible(Busy(0, true), NESTED) && After(Busy(0, true), NESTED) == Busy(1, false)
  {
    var f := Frame(false, InFlight);
    var c := Busy(0, true);
    var c1 := Step(c, Send(1));
    assert StackOf(c1, 1) == [f, Frame(false, Entering)];
    var c2 := Step(c1, Enter(1, false, Connected(false)));
    assert StackOf(c2, 1) == [f, f];
    var c3 := Step(c2, Exit(1, true, false));
    assert StackOf(c3, 1) == [f, Frame(false, Left(true))];
    var c4 := Step(c3, Return(1));
    assert [f, Frame(false, Left(true))][..1] == [f];
    assert c4.stacks == map[1 := [f]];
    Then(c3, Return(1), c4, []);
    Then(c2, Exit(1, true, false), c3, [Return(1)] + []);
    Then(c1, Enter(1, false, Connected(false)), c2, [Exit(1, true, false)] + ([Return(1)] + []));
    Then(c, Send(1), c1, [Enter(1, false, Connected(false))] + ([Exit(1, true, false)] + ([Return(1)] + [])));
  }

  const OPENING: seq<Action> := [Send(1)] + ([Enter(1, true, Connected(false))] + [])

  /** A first request of thread 1 on a fresh client. */
  lemma FirstRequest()
    ensures Possible(INITIAL, OPENING) && After(INITIAL, OPENING) == Busy(0, false)
  {
    var c1 := Step(INITIAL, Send(1));
    assert StackOf(c1, 1) == [Frame(false, Entering)];
    var c2 := Step(c1, Enter(1, true, Connected(false)));
    assert StackOf(c2, 1) == [Frame(false, InFlight)];
    assert c2.stacks == map[1 := [Frame(false, InFlight)]];
    Then(c1, Enter(1, true, Connected(false)), c2, []);
    Then(INITIAL, Send(1), c1, [Enter(1, true, Connected(false))] + []);
  }

  lemma {:induction false} RunsJoin(c: Client, a: seq<Action>, b: seq<Action>)
    requires Possible(c, a) && Possible(After(c, a), b)
    ensures Possible(c, a + b) && After(c, a + b) == After(After(c, a), b)
    decreases |a|
  {
    hide Step, Enabled;
    if a == [] {
      assert a + b == b;
    } else {
      assert (a + b)[1..] == a[1..] + b;
      RunsJoin(Step(c, a[0]), a[1..], b);
    }
  }

  const FORGOTTEN: seq<Action> := OPENING + ([Stop(2)] + NESTED)

  /** A nested send after the stop forgets it: the stop met a request in flight, and yet the socket is open after the
      exit of that request. */
  lemma StopForgotten()
    ensures Possible(INITIAL, OPENING) && After(INITIAL, OPENING).inFlight > 0
    ensures Possible(INITIAL, FORGOTTEN) && Enabled(After(INITIAL, FORGOTTEN), Exit(1, true, false))
    ensures Step(After(INITIAL, FORGOTTEN), Exit(1, true, false)).sock == Some(1)
  {
    FirstRequest();
    NestedSend();
    Then(Busy(0, false), Stop(2), Busy(0, true), NESTED);
    RunsJoin(INITIAL, OPENING, [Stop(2)] + NESTED);
  }
}
