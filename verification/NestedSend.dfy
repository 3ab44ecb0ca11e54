/** Redirects and digest retries of `ClientImpl` in httplib.h: sends nested in sends, against every server. */
module NestedSend {
  const REDIRECT_MAX_COUNT: nat := 20
  const AUTHORIZATION_MAX: nat := 5

  /** The counters of a request. */
  datatype Request = Request(redirectCount: nat, authorizationCount: nat)

  const DEFAULT_REQUEST := Request(REDIRECT_MAX_COUNT, 0)

  /** What comes of one attempt to send: no connection or no usable answer (either may leave the error that says the
      peer could have closed an idle TLS connection), or a response. */
  datatype Reply =
    | NoConnection(peerCouldBeClosed: bool)
    | NoAnswer(peerCouldBeClosed: bool)
    | Response(status: int, location: Location, challenge: bool)

  /** The Location header of a response, as `redirect` judges it. */
  datatype Location = Missing | Unusable | Usable

  /** The settings of the client that matter here. */
  datatype Settings = Settings(followLocation: bool, credentials: bool)

  /** A server: its reply to the k-th attempt. */
  type Server = nat -> Reply

  /** How a send ended: result, request and response as the caller finds them, whether the error is
      SSLPeerCouldBeClosed_, attempts so far, and how deep sends were nested, this one included. */
  datatype Sent = Sent(ret: bool, req: Request, res: Reply, peerClosed: bool, attempts: nat, depth: nat)

  /** How many more nested sends the counters of a request allow. */
  function Budget(req: Request): nat {
    req.redirectCount + if req.authorizationCount < AUTHORIZATION_MAX then AUTHORIZATION_MAX - req.authorizationCount
      else 0
  }

  function Max(a: nat, b: nat): nat { if a < b then b else a }

  predicate IsRedirect(status: int) { 300 < status < 400 }

  /** What holds of the end of every send: progress, a budget that never grows, a depth within the budget, and the
      assert in `send`, that the error which asks for a second try comes with a failure. */
  predicate Within(r: Sent, req: Request, k: nat) {
    r.attempts >= k && Budget(r.req) <= Budget(req) && 1 <= r.depth <= 1 + Budget(req) && (r.peerClosed ==> !r.ret)
  }

  /** `send`: a second try after a connection that could have been closed by the peer. */
  function Send(cfg: Settings, server: Server, req: Request, k: nat): (r: Sent)
    ensures Within(r, req, k + 1)
    decreases Budget(req), 2
  {
    var a := Attempt(cfg, server, req, k);
    if a.peerClosed then
      var b := Attempt(cfg, server, a.req, a.attempts);
      b.(depth := Max(a.depth, b.depth))
    else a
  }

  /** `send_` and `handle_request`. */
  function Attempt(cfg: Settings, server: Server, req: Request, k: nat): (r: Sent)
    ensures Within(r, req, k + 1)
    decreases Budget(req), 1
  {
    match server(k)
    case NoConnection(closed) => Sent(false, req, NoConnection(closed), closed, k + 1, 1)
    case NoAnswer(closed) => Sent(false, req, NoAnswer(closed), closed, k + 1, 1)
    case Response(status, location, challenge) =>
      var reply := Response(status, location, challenge);
      var a := if IsRedirect(status) && cfg.followLocation then Redirect(cfg, server, req, reply, k + 1)
               else Sent(true, req, reply, false, k + 1, 1);
      Authenticate(cfg, server, req, a)
  }

  /** `redirect`: a nested send of the request with one redirect fewer to go. */
  function Redirect(cfg: Settings, server: Server, req: Request, reply: Reply, k: nat): (r: Sent)
    ensures Within(r, req, k)
    decreases Budget(req), 0
  {
    if req.redirectCount == 0 || !reply.Response? || reply.location != Usable then Sent(false, req, reply, false, k, 1)
    else
      var s := Send(cfg, server, req.(redirectCount := req.redirectCount - 1), k);
      if s.ret then s.(depth := 1 + s.depth) else s.(req := req, res := reply, depth := 1 + s.depth)
  }

  /** The digest retry: a nested send of the request with one authorization more. */
  function Authenticate(cfg: Settings, server: Server, req: Request, a: Sent): (r: Sent)
    requires Within(a, req, 0)
    ensures Within(r, req, a.attempts)
    decreases Budget(req), 0
  {
    if a.res.Response? && (a.res.status == 401 || a.res.status == 407) && a.res.challenge && cfg.credentials
       && a.req.authorizationCount < AUTHORIZATION_MAX
    then
      var s := Send(cfg, server, a.req.(authorizationCount := a.req.authorizationCount + 1), a.attempts);
      Sent(s.ret, a.req, if s.ret then s.res else a.res, s.peerClosed, s.attempts, Max(a.depth, 1 + s.depth))
    else a
  }

  // ---------------------------------------------------------------- the bound is reached

  /** A server that redirects while it can and then keeps asking for credentials. */
  function Teasing(redirects: nat): Server {
    (k: nat) => if k < redirects then Response(302, Usable, false) else Response(401, Missing, true)
  }

  const EAGER := Settings(true, true)

  lemma {:induction false} TeasingAuthorization(n: nat, req: Request, k: nat)
    requires n <= k && req.redirectCount == 0
    ensures Send(EAGER, Teasing(n), req, k).depth == 1 + Budget(req)
    decreases Budget(req)
  {
    var server := Teasing(n);
    assert server(k) == Response(401, Missing, true);
    if req.authorizationCount < AUTHORIZATION_MAX {
      TeasingAuthorization(n, req.(authorizationCount := req.authorizationCount + 1), k + 1);
      var a := Sent(true, req, server(k), false, k + 1, 1);
      assert Attempt(EAGER, server, req, k) == Authenticate(EAGER, server, req, a);
      NeverClosed(n, req.(authorizationCount := req.authorizationCount + 1), k + 1);
    }
  }

  lemma {:induction false} NeverClosed(n: nat, req: Request, k: nat)
    ensures !Send(EAGER, Teasing(n), req, k).peerClosed
    decreases Budget(req)
  {
    var server := Teasing(n);
    if req.redirectCount > 0 { NeverClosed(n, req.(redirectCount := req.redirectCount - 1), k + 1); }
    var reply := server(k);
    var a := if IsRedirect(reply.status) then Redirect(EAGER, server, req, reply, k + 1)
             else Sent(true, req, reply, false, k + 1, 1);
    if a.req.authorizationCount < AUTHORIZATION_MAX {
      NeverClosed(n, a.req.(authorizationCount := a.req.authorizationCount + 1), a.attempts);
    }
    assert Attempt(EAGER, server, req, k) == Authenticate(EAGER, server, req, a);
  }

  /** For every request there is a server that nests its sends to the full depth the counters allow. */
  lemma {:induction false} BudgetIsReached(req: Request, k: nat)
    ensures Send(EAGER, Teasing(k + req.redirectCount), req, k).depth == 1 + Budget(req)
    decreases req.redirectCount
  {
    if req.redirectCount == 0 {
      TeasingAuthorization(k, req, k);
    } else {
      BudgetIsReached(req.(redirectCount := req.redirectCount - 1), k + 1);
      var server := Teasing(k + req.redirectCount);
      var s := Send(EAGER, server, req.(redirectCount := req.redirectCount - 1), k + 1);
      assert server(k) == Response(302, Usable, false);
      var r := Redirect(EAGER, server, req, server(k), k + 1);
      assert r.depth == 1 + s.depth;
      assert Attempt(EAGER, server, req, k) == Authenticate(EAGER, server, req, r);
      NeverClosed(k + req.redirectCount, req, k);
    }
  }

  /** With the default counters, sends nest at most 26 deep against every server, and 26 deep against some. */
  lemma DefaultNesting(cfg: Settings, server: Server, req: Request, k: nat)
    requires req == DEFAULT_REQUEST
    ensures Send(cfg, server, req, k).depth <= 26
    ensures Send(EAGER, Teasing(k + 20), req, k).depth == 26
  {
    BudgetIsReached(req, k);
  }

  // ---------------------------------------------------------------- the second try

  /** A reply that ends an attempt at once: no redirect to follow and no challenge to answer. */
  predicate Final(cfg: Settings, reply: Reply) {
    reply.Response? ==>
      && !(IsRedirect(reply.status) && cfg.followLocation)
      && !((reply.status == 401 || reply.status == 407) && reply.challenge && cfg.credentials)
  }

  lemma FinalAttempt(cfg: Settings, server: Server, req: Request, k: nat)
    requires Final(cfg, server(k))
    ensures Attempt(cfg, server, req, k)
            == Sent(server(k).Response?, req, server(k), !server(k).Response? && server(k).peerCouldBeClosed, k + 1, 1)
  {
    if server(k).Response? {
      var a := Sent(true, req, server(k), false, k + 1, 1);
      assert Authenticate(cfg, server, req, a) == a;
    }
  }

  /** A first attempt on a connection that the peer could have closed is made good by a second; any other failure
      stands, and there is no third attempt. */
  lemma SecondTry(cfg: Settings, server: Server, req: Request, k: nat)
    requires !server(k).Response? && Final(cfg, server(k + 1))
    ensures var r, again := Send(cfg, server, req, k), server(k).peerCouldBeClosed;
            && r.attempts == (if again then k + 2 else k + 1) && r.res == server(r.attempts - 1) && r.req == req
            && (r.ret <==> again && server(k + 1).Response?)
  {
    hide Attempt;
    FinalAttempt(cfg, server, req, k);
    FinalAttempt(cfg, server, req, k + 1);
  }

  // ---------------------------------------------------------------- one redirect, one challenge

  lemma FinalSend(cfg: Settings, server: Server, req: Request, k: nat)
    requires Final(cfg, server(k)) && (server(k).Response? || !server(k).peerCouldBeClosed)
    ensures Send(cfg, server, req, k) == Sent(server(k).Response?, req, server(k), false, k + 1, 1)
  {
    hide Attempt;
    FinalAttempt(cfg, server, req, k);
  }

  /** A response with a status from 301 to 399, and only such a one, is followed if the client is to follow. Then the
      answer to the new request is the response if there is one; without one, without a usable place to go, or with no
      redirect left, the send fails and the redirecting response is what the caller finds. */
  lemma OneRedirect(cfg: Settings, server: Server, req: Request, k: nat, status: int, location: Location)
    requires server(k) == Response(status, location, false) && cfg.followLocation
    requires Final(cfg, server(k + 1)) && (server(k + 1).Response? || !server(k + 1).peerCouldBeClosed)
    ensures var r := Send(cfg, server, req, k);
            if 301 <= status <= 399 then
              if location == Usable && req.redirectCount > 0 then
                && r.ret == server(k + 1).Response? && r.attempts == k + 2
                && r.res == (if r.ret then server(k + 1) else server(k))
                && r.req == (if r.ret then req.(redirectCount := req.redirectCount - 1) else req)
              else !r.ret && r.res == server(k) && r.req == req && r.attempts == k + 1
            else r.ret && r.res == server(k) && r.req == req && r.attempts == k + 1
  {
    hide Send;
    if IsRedirect(status) {
      if location == Usable && req.redirectCount > 0 {
        FinalSend(cfg, server, req.(redirectCount := req.redirectCount - 1), k + 1);
      }
      var a := Redirect(cfg, server, req, server(k), k + 1);
      assert Attempt(cfg, server, req, k) == Authenticate(cfg, server, req, a);
      NoChallenge(cfg, server, req, a);
      SendIs(cfg, server, req, k);
    } else {
      FinalSend(cfg, server, req, k);
    }
  }

  lemma SendIs(cfg: Settings, server: Server, req: Request, k: nat)
    ensures var a := Attempt(cfg, server, req, k); !a.peerClosed ==> Send(cfg, server, req, k) == a
  {
  }

  lemma NoChallenge(cfg: Settings, server: Server, req: Request, a: Sent)
    requires Within(a, req, 0) && (a.res.Response? ==> Final(cfg, a.res) || !a.res.challenge)
    ensures Authenticate(cfg, server, req, a) == a
  {
  }

  /** A challenge is answered, while attempts are left, by a request with one authorization more; if that gets no
      response, the send fails and the challenge is what the caller finds. */
  lemma OneChallenge(cfg: Settings, server: Server, req: Request, k: nat, status: int, location: Location)
    requires server(k) == Response(status, location, true) && status in {401, 407} && cfg.credentials
    requires Final(cfg, server(k + 1)) && (server(k + 1).Response? || !server(k + 1).peerCouldBeClosed)
    ensures var r := Send(cfg, server, req, k);
            && r.req == req
            && if req.authorizationCount < AUTHORIZATION_MAX then
                 && r.ret == server(k + 1).Response? && r.attempts == k + 2
                 && r.res == (if r.ret then server(k + 1) else server(k))
               else r.ret && r.res == server(k) && r.attempts == k + 1
  {
    hide Send;
    var a := Sent(true, req, server(k), false, k + 1, 1);
    assert Attempt(cfg, server, req, k) == Authenticate(cfg, server, req, a);
    if req.authorizationCount < AUTHORIZATION_MAX {
      FinalSend(cfg, server, req.(authorizationCount := req.authorizationCount + 1), k + 1);
    }
    SendIs(cfg, server, req, k);
  }
}
