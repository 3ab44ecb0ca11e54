/** The body state of the multipart parser: however the input is cut, the content callbacks add up to
    exactly the bytes before the first delimiter. */
module MultipartBody {
  import opened Text
  import opened MultipartSpec

  ghost predicate AcceptsAll(accept: Receiver) {
    forall log :: accept(log)
  }

  /** One turn in the body state, told from where the first delimiter of the whole stream lies. */
  lemma BodyTurnIs(b: string, accept: Receiver, p: Parser, rest: string)
    requires AcceptsAll(accept)
    ensures var d, s := Delimiter(b), p.buf + rest; var f, n, t := Find(s, d), |p.buf| - |d|, BodyTurn(b, accept, p);
            if n < 0 then t == Return(p, true)
            else if f < |s| && f <= n then
              t == Next(p.(buf := p.buf[f + |d|..], state := 4, log := p.log + [Content(p.buf[..f])]))
            else
              t == Return(p.(buf := p.buf[n..], log := p.log + if n == 0 then [] else [Content(p.buf[..n])]), true)
  {
    FindInPrefix(p.buf, rest, Delimiter(b));
    assert p.buf[0..] == p.buf && p.log + [] == p.log;
  }

  predicate AllContent(es: seq<Event>) {
    forall i :: 0 <= i < |es| ==> es[i].Content?
  }

  /** The concatenation of the data of content callbacks. */
  function ContentText(es: seq<Event>): string
    requires AllContent(es)
  {
    if es == [] then "" else es[0].data + ContentText(es[1..])
  }

  /** What is left of a run of calls in the middle of one: finish that call, then make the rest. */
  function Resume(b: string, accept: Receiver, p: Parser, chunks: seq<string>): Outcome {
    var o := Loop(b, accept, p);
    if o.ok then Feed(b, accept, o.p, chunks) else o
  }

  /** How a run uses the text `s`: by content callbacks `cs`, with `held` unread and `rest` not yet read, at
      the end when there is no delimiter, else at the moment the delimiter is found. */
  ghost predicate Delivered(d: string, s: string, cs: seq<Event>, held: string, rest: string) {
    var f := Find(s, d);
    AllContent(cs)
    && if f == |s| then ContentText(cs) + held == s
       else ContentText(cs) == s[..f] && held + rest == s[f + |d|..]
  }

  /** How much of the buffer a call without a delimiter delivers. */
  function Surplus(b: string, buf: string): nat {
    if |buf| <= |Delimiter(b)| then 0 else |buf| - |Delimiter(b)|
  }

  function Delivery(text: string): (es: seq<Event>)
    ensures AllContent(es) && ContentText(es) == text
  {
    if text == "" then [] else [Content(text)]
  }

  /** A call that starts in the body state, its data already in the buffer. */
  lemma BodyCall(b: string, accept: Receiver, q: Parser, later: string)
    requires q.state == 3 && AcceptsAll(accept)
    ensures var d, s := Delimiter(b), q.buf + later; var f, m := Find(s, d), Surplus(b, q.buf);
            if f < |s| && f + |d| <= |q.buf| then
              Loop(b, accept, q)
              == Loop(b, accept, q.(state := 4, buf := q.buf[f + |d|..], log := q.log + [Content(q.buf[..f])]))
            else
              && m <= f
              && Loop(b, accept, q) == Outcome(q.(buf := q.buf[m..], log := q.log + Delivery(q.buf[..m])), true)
  {
    if q.buf == "" {
      assert q.buf[0..] == q.buf && q.log + [] == q.log;
    } else {
      BodyTurnIs(b, accept, q, later);
      assert q.buf[0..] == q.buf && q.log + [] == q.log;
    }
  }

  /** Where the first delimiter lies once text before it has been delivered. */
  lemma AfterDelivery(s: string, d: string, m: nat)
    requires d != "" && m <= Find(s, d)
    ensures Find(s[m..], d) == Find(s, d) - m
  {
    FindSpec(s, d);
    if Find(s, d) < |s| {
      FindInSuffix(s, d, m);
    } else {
      forall j: nat | j + |d| <= |s| - m ensures !MatchAt(s[m..], d, j) {
        assert s[m..][j..j + |d|] == s[m + j..m + j + |d|];
        assert !MatchAt(s, d, m + j);
      }
      FindNone(s[m..], d);
    }
  }

  lemma ContentTextAppend(text: string, cs: seq<Event>)
    requires AllContent(cs)
    ensures AllContent(Delivery(text) + cs) && ContentText(Delivery(text) + cs) == text + ContentText(cs)
  {
    if text == "" {
      assert [] + cs == cs;
    } else {
      assert ([Content(text)] + cs)[1..] == cs;
    }
  }

  /** A delivery before the rest of the run. */
  lemma Prepend(d: string, s: string, m: nat, cs: seq<Event>, held: string, rest: string)
    requires d != "" && m <= Find(s, d) && Delivered(d, s[m..], cs, held, rest)
    ensures Delivered(d, s, Delivery(s[..m]) + cs, held, rest)
  {
    AfterDelivery(s, d, m);
    ContentTextAppend(s[..m], cs);
    var f := Find(s, d);
    if f == |s| {
      assert s == s[..m] + s[m..];
    } else {
      assert s[..f] == s[..m] + s[m..][..f - m];
      assert s[m..][f - m + |d|..] == s[f + |d|..];
    }
  }

  /** A run of calls from the body state, with outcome `o`, delivers `cs` and holds back `held`: at the end
      when no delimiter comes, else up to the point where the delimiter is found, before the calls from k on. */
  ghost predicate BodyRun(b: string, accept: Receiver, p: Parser, chunks: seq<string>, o: Outcome,
                          cs: seq<Event>, held: string, k: nat)
  {
    var d, s := Delimiter(b), p.buf + Joined(chunks);
    && k <= |chunks|
    && Delivered(d, s, cs, held, Joined(chunks[k..]))
    && if Find(s, d) == |s| then |held| <= |d| && o == Outcome(p.(buf := held, log := p.log + cs), true)
       else o == Resume(b, accept, p.(state := 4, buf := held, log := p.log + cs), chunks[k..])
  }

  /** From the body state, for every split of the input. */
  lemma {:induction false} BodyRefinement(b: string, accept: Receiver, p: Parser, chunks: seq<string>)
    returns (cs: seq<Event>, held: string, k: nat)
    requires p.state == 3 && AcceptsAll(accept)
    requires Find(p.buf, Delimiter(b)) == |p.buf| <= |Delimiter(b)|
    ensures BodyRun(b, accept, p, chunks, Feed(b, accept, p, chunks), cs, held, k)
    decreases |chunks|
  {
    if chunks == [] {
      assert p.buf + "" == p.buf && p.log + [] == p.log;
      return [], p.buf, 0;
    }
    var q := p.(buf := p.buf + chunks[0]);
    var later := Joined(chunks[1..]);
    Assoc(p.buf, chunks[0], later);
    if Find(q.buf, Delimiter(b)) < |q.buf| {
      cs, held := FoundInCall(b, accept, q, later);
      return cs, held, 1;
    }
    NotInCall(b, accept, q, later);
    var m := Surplus(b, q.buf);
    var q' := q.(buf := q.buf[m..], log := q.log + Delivery(q.buf[..m]));
    cs, held, k := BodyRefinement(b, accept, q', chunks[1..]);
    RunFromNext(b, accept, p, chunks, m, Feed(b, accept, q', chunks[1..]), cs, held, k);
    return Delivery(q.buf[..m]) + cs, held, k + 1;
  }

  /** One call without a delimiter, then the run of the remaining calls. */
  lemma RunFromNext(b: string, accept: Receiver, p: Parser, chunks: seq<string>, m: nat, o: Outcome,
                    cs: seq<Event>, held: string, k: nat)
    requires chunks != [] && m <= |p.buf + chunks[0]|
             && m <= Find(p.buf + chunks[0] + Joined(chunks[1..]), Delimiter(b))
    requires var buf := p.buf + chunks[0];
             BodyRun(b, accept, p.(buf := buf[m..], log := p.log + Delivery(buf[..m])), chunks[1..], o, cs, held, k)
    ensures BodyRun(b, accept, p, chunks, o, Delivery((p.buf + chunks[0])[..m]) + cs, held, k + 1)
  {
    var buf, later := p.buf + chunks[0], Joined(chunks[1..]);
    var es := Delivery(buf[..m]);
    Assoc(p.buf, chunks[0], later);
    AfterCall(Delimiter(b), buf, later, m, cs, held, Joined(chunks[1..][k..]));
    assert p.log + es + cs == p.log + (es + cs);
    assert chunks[1..][k..] == chunks[k + 1..];
  }

  lemma AfterCall(d: string, buf: string, later: string, m: nat, cs: seq<Event>, held: string, rest: string)
    requires d != "" && m <= |buf| && m <= Find(buf + later, d)
    requires Delivered(d, buf[m..] + later, cs, held, rest)
    ensures Delivered(d, buf + later, Delivery(buf[..m]) + cs, held, rest)
    ensures Find(buf[m..] + later, d) == |buf[m..] + later| <==> Find(buf + later, d) == |buf + later|
  {
    CutFirst(buf, later, m);
    AfterDelivery(buf + later, d, m);
    Prepend(d, buf + later, m, cs, held, rest);
  }

  /** A call that finds the delimiter. */
  lemma FoundInCall(b: string, accept: Receiver, q: Parser, later: string) returns (cs: seq<Event>, held: string)
    requires q.state == 3 && AcceptsAll(accept) && Find(q.buf, Delimiter(b)) < |q.buf|
    ensures Delivered(Delimiter(b), q.buf + later, cs, held, later)
    ensures Find(q.buf + later, Delimiter(b)) < |q.buf + later|
    ensures Loop(b, accept, q) == Loop(b, accept, q.(state := 4, buf := held, log := q.log + cs))
  {
    hide Delivered, Loop, Find;
    var d := Delimiter(b);
    BodyCall(b, accept, q, later);
    FindInPrefix(q.buf, later, d);
    var f := Find(q.buf, d);
    cs, held := [Content(q.buf[..f])], q.buf[f + |d|..];
    FoundDelivers(d, q.buf, later, f);
  }

  lemma FoundDelivers(d: string, buf: string, later: string, f: nat)
    requires f == Find(buf + later, d) < |buf + later| && f + |d| <= |buf|
    ensures Delivered(d, buf + later, [Content(buf[..f])], buf[f + |d|..], later)
  {
    var cs := [Content(buf[..f])];
    assert cs[1..] == [] && buf[..f] + "" == buf[..f];
    CutFirst(buf, later, f);
    CutFirst(buf, later, f + |d|);
  }

  /** A call that does not. */
  lemma NotInCall(b: string, accept: Receiver, q: Parser, later: string)
    requires q.state == 3 && AcceptsAll(accept) && Find(q.buf, Delimiter(b)) == |q.buf|
    ensures var m := Surplus(b, q.buf);
            && m <= Find(q.buf + later, Delimiter(b))
            && Loop(b, accept, q) == Outcome(q.(buf := q.buf[m..], log := q.log + Delivery(q.buf[..m])), true)
            && Find(q.buf[m..], Delimiter(b)) == |q.buf[m..]| <= |Delimiter(b)|
  {
    BodyCall(b, accept, q, later);
    FindInPrefix(q.buf, later, Delimiter(b));
    AfterDelivery(q.buf, Delimiter(b), Surplus(b, q.buf));
  }
}
