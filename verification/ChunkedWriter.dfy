/** `write_content_chunked` of httplib.h with the pass-through compressor, over a stream whose writes may break off. */
module ChunkedWriter {
  import opened Text
  import opened HexLength
  import opened Chunked
  import opened Trailer

  /** What a content provider does with its sink. */
  datatype Op = Write(data: string) | Done

  /** One turn of the loop: whether the stream is writable, what the provider does with the sink, and its result. */
  datatype ProviderCall = ProviderCall(writable: bool, ops: seq<Op>, ret: bool)

  /** What becomes of one write to the stream: it goes through, or it breaks off after some bytes. */
  datatype Fate = Through | Cut(sent: nat)

  // ---------------------------------------------------------------- on values

  datatype Sink = Sink(sent: string, available: bool, ok: bool, plan: seq<Fate>)

  /** How much of `d` a write with this fate sends. */
  function Reached(f: Fate, d: string): (n: nat)
    requires d != ""
    ensures n <= |d| && (f.Through? <==> n == |d|)
  {
    match f case Through => |d| case Cut(n) => if n < |d| then n else |d| - 1
  }

  function NextFate(plan: seq<Fate>): Fate { if plan == [] then Through else plan[0] }

  /** `write_data`, and what the sink makes of its failure. */
  function SendOut(k: Sink, d: string): Sink
    requires d != ""
  {
    var f := NextFate(k.plan);
    k.(sent := k.sent + d[..Reached(f, d)], ok := k.ok && f.Through?, plan := if k.plan == [] then [] else k.plan[1..])
  }

  function Apply(k: Sink, op: Op): Sink {
    if !k.ok then k else
    match op
    case Write(d) => if d == "" then k.(available := false) else SendOut(k.(available := true), Chunk(d))
    case Done => SendOut(SendOut(k.(available := false), LAST_CHUNK), CRLF)
  }

  /** Several writes to the stream, each made whatever became of those before. */
  function SendAll(k: Sink, ds: seq<string>): Sink
    requires forall i :: 0 <= i < |ds| ==> ds[i] != ""
    decreases |ds|
  {
    if ds == [] then k else SendAll(SendOut(k, ds[0]), ds[1..])
  }

  lemma EndingLines(fs: seq<Field>)
    ensures forall i :: 0 <= i < |TrailerEnding(fs)| ==> TrailerEnding(fs)[i] != ""
  {
    LinesNonEmpty(fs);
  }

  lemma {:induction false} LinesNonEmpty(fs: seq<Field>)
    ensures forall i :: 0 <= i < |LinesFor(fs)| ==> LinesFor(fs)[i] != ""
  {
    if fs != [] { LinesNonEmpty(fs[1..]); }
  }

  /** `done_with_trailer`. */
  function EndWithTrailer(k: Sink, fs: seq<Field>): Sink {
    EndingLines(fs);
    if !k.ok then k else SendAll(k.(available := false), TrailerEnding(fs))
  }

  lemma {:induction false} SendAllNext(k: Sink, ds: seq<string>, d: string)
    requires d != "" && forall i :: 0 <= i < |ds| ==> ds[i] != ""
    ensures SendAll(k, ds + [d]) == SendOut(SendAll(k, ds), d)
    decreases |ds|
  {
    hide SendOut;
    if ds == [] {
      assert ds + [d] == [d] && [d][1..] == [];
    } else {
      assert (ds + [d])[1..] == ds[1..] + [d];
      SendAllNext(SendOut(k, ds[0]), ds[1..], d);
    }
  }

  lemma {:induction false} SentWhole(k: Sink, ds: seq<string>)
    requires forall i :: 0 <= i < |ds| ==> ds[i] != ""
    ensures var e := SendAll(k, ds); e.ok ==> k.ok && e.sent == k.sent + Joined(ds)
    decreases |ds|
  {
    if ds == [] {
      assert k.sent + "" == k.sent;
    } else {
      SentWhole(SendOut(k, ds[0]), ds[1..]);
      Assoc(k.sent, ds[0], Joined(ds[1..]));
      assert ds[0][..|ds[0]|] == ds[0];
    }
  }

  function ApplyAll(k: Sink, ops: seq<Op>): Sink
    decreases |ops|
  {
    if ops == [] then k else ApplyAll(Apply(k, ops[0]), ops[1..])
  }

  datatype Written = Written(k: Sink, success: bool)

  /** Provider calls until the data end, the stream or the provider gives up, or the server shuts down (no call is
      left). */
  function RunCalls(k: Sink, calls: seq<ProviderCall>): Written
    decreases |calls|
  {
    if !k.available || calls == [] then Written(k, true)
    else if !calls[0].writable then Written(k, false)
    else
      var k' := ApplyAll(k, calls[0].ops);
      if calls[0].ret && k'.ok then RunCalls(k', calls[1..]) else Written(k', false)
  }

  function Start(plan: seq<Fate>): Sink { Sink("", true, true, plan) }

  // ---------------------------------------------------------------- the sink

  /** The data sink and the stream it writes to. */
  class DataSink {
    var sent: string
    var plan: seq<Fate>
    var ok: bool
    var available: bool
    var offset: nat

    constructor (plan: seq<Fate>)
      ensures Abstract() == Start(plan)
    {
      sent, this.plan, ok, available, offset := "", plan, true, true, 0;
    }

    ghost function Abstract(): Sink
      reads this
    {
      Sink(sent, available, ok, plan)
    }

    /** `write_data`: all of the text goes out, or a part of it and then failure. */
    method WriteData(d: string) returns (r: bool)
      requires d != ""
      modifies this`sent, this`plan
      ensures Abstract() == SendOut(old(Abstract()), d).(ok := ok) && r == NextFate(old(plan)).Through?
    {
      var f := NextFate(plan);
      r := f.Through?;
      if plan != [] { plan := plan[1..]; }
      sent := sent + d[..Reached(f, d)];
    }

    method Write(d: string)
      modifies this
      ensures Abstract() == Apply(old(Abstract()), Op.Write(d))
    {
      if !ok { return; }
      available := |d| > 0;
      offset := offset + |d|;
      if d != "" {
        var length := FromIToHex(|d|);
        var chunk := length + CRLF + d + CRLF;
        ok := WriteData(chunk);
      }
    }

    method Finish()
      modifies this
      ensures Abstract() == Apply(old(Abstract()), Done)
    {
      if !ok { return; }
      available := false;
      var r := WriteData(LAST_CHUNK);
      if !r { ok := false; }
      r := WriteData(CRLF);
      if !r { ok := false; }
    }

    method FinishWithTrailer(fs: seq<Field>)
      modifies this
      ensures Abstract() == EndWithTrailer(old(Abstract()), fs)
    {
      if !ok { return; }
      ghost var k := Abstract().(available := false);
      available := false;
      Next(k, [], LAST_CHUNK);
      var r := WriteData(LAST_CHUNK);
      if !r { ok := false; }
      ghost var ds := [LAST_CHUNK];
      for i := 0 to |fs|
        invariant ds == [LAST_CHUNK] + LinesFor(fs[..i]) && Whole(ds) && Abstract() == SendAll(k, ds)
      {
        LinesForNext(fs, i);
        Next(k, ds, FieldLine(fs[i]));
        ds := ds + [FieldLine(fs[i])];
        r := WriteData(fs[i].0 + ": " + fs[i].1 + CRLF);
        if !r { ok := false; }
      }
      assert fs[..|fs|] == fs;
      Next(k, ds, CRLF);
      r := WriteData(CRLF);
      if !r { ok := false; }
    }

    static ghost predicate Whole(ds: seq<string>) {
      forall i :: 0 <= i < |ds| ==> ds[i] != ""
    }

    static lemma Next(k: Sink, ds: seq<string>, d: string)
      requires d != "" && Whole(ds)
      ensures Whole(ds + [d]) && SendAll(k, ds + [d]) == SendOut(SendAll(k, ds), d)
    {
      SendAllNext(k, ds, d);
    }

    static lemma LinesForNext(fs: seq<Field>, i: nat)
      requires i < |fs|
      ensures [LAST_CHUNK] + LinesFor(fs[..i + 1]) == [LAST_CHUNK] + LinesFor(fs[..i]) + [FieldLine(fs[i])]
    {
      assert fs[..i + 1] == fs[..i] + [fs[i]];
      LinesForAppend(fs[..i], fs[i]);
    }

    static lemma {:induction false} LinesForAppend(fs: seq<Field>, f: Field)
      ensures LinesFor(fs + [f]) == LinesFor(fs) + [FieldLine(f)]
    {
      hide FieldLine;
      if fs == [] {
        assert fs + [f] == [f] && [f][1..] == [];
      } else {
        assert (fs + [f])[1..] == fs[1..] + [f];
        LinesForAppend(fs[1..], f);
      }
    }

    /** One call of the provider. */
    method Provide(ops: seq<Op>)
      modifies this
      ensures Abstract() == ApplyAll(old(Abstract()), ops)
    {
      hide Apply;
      ghost var k := Abstract();
      var i := 0;
      assert ops[0..] == ops;
      while i < |ops|
        invariant 0 <= i <= |ops|
        invariant ApplyAll(Abstract(), ops[i..]) == ApplyAll(k, ops)
      {
        assert ops[i..][1..] == ops[i + 1..];
        match ops[i] {
          case Write(d) => Write(d);
          case Done => Finish();
        }
        i := i + 1;
      }
    }

    /** The loop of `write_content_chunked`. */
    method WriteContentChunked(calls: seq<ProviderCall>) returns (success: bool)
      modifies this
      ensures Written(Abstract(), success) == RunCalls(old(Abstract()), calls)
    {
      hide ApplyAll;
      ghost var goal := RunCalls(Abstract(), calls);
      var i := 0;
      assert calls[0..] == calls;
      while available && i < |calls|
        invariant 0 <= i <= |calls|
        invariant RunCalls(Abstract(), calls[i..]) == goal
      {
        assert calls[i..][1..] == calls[i + 1..];
        if !calls[i].writable { return false; }
        Provide(calls[i].ops);
        if !calls[i].ret { return false; }
        if !ok { return false; }
        i := i + 1;
      }
      return true;
    }
  }

  // ---------------------------------------------------------------- what is sent

  /** The uses of the sink in the calls that the loop makes. */
  function Executed(k: Sink, calls: seq<ProviderCall>): seq<Op>
    decreases |calls|
  {
    if !k.available || calls == [] || !calls[0].writable then []
    else
      var k' := ApplyAll(k, calls[0].ops);
      calls[0].ops + if calls[0].ret && k'.ok then Executed(k', calls[1..]) else []
  }

  lemma {:induction false} ApplySplit(k: Sink, a: seq<Op>, b: seq<Op>)
    ensures ApplyAll(k, a + b) == ApplyAll(ApplyAll(k, a), b)
    decreases |a|
  {
    hide Apply;
    if a == [] {
      assert a + b == b;
    } else {
      assert (a + b)[1..] == a[1..] + b;
      ApplySplit(Apply(k, a[0]), a[1..], b);
    }
  }

  lemma {:induction false} RunIsExecuted(k: Sink, calls: seq<ProviderCall>)
    ensures RunCalls(k, calls).k == ApplyAll(k, Executed(k, calls))
    decreases |calls|
  {
    if k.available && calls != [] && calls[0].writable {
      var k' := ApplyAll(k, calls[0].ops);
      if calls[0].ret && k'.ok {
        RunIsExecuted(k', calls[1..]);
        ApplySplit(k, calls[0].ops, Executed(k', calls[1..]));
      } else {
        assert calls[0].ops + [] == calls[0].ops;
      }
    }
  }

  /** The non-empty writes before the first done. */
  function Payloads(ops: seq<Op>): seq<string> {
    if ops == [] || ops[0] == Done then []
    else if ops[0].data == "" then Payloads(ops[1..])
    else [ops[0].data] + Payloads(ops[1..])
  }

  /** Some done got both its lines through. */
  predicate DoneThrough(k: Sink, ops: seq<Op>)
    decreases |ops|
  {
    ops != [] && ((ops[0] == Done && Apply(k, Done).ok) || DoneThrough(Apply(k, ops[0]), ops[1..]))
  }

  predicate Sizes(ops: seq<Op>) {
    forall i :: 0 <= i < |ops| && ops[i].Write? ==> |ops[i].data| < ULONG_MAX
  }

  lemma {:induction false} StuckSink(k: Sink, ops: seq<Op>)
    requires !k.ok
    ensures ApplyAll(k, ops) == k && !DoneThrough(k, ops)
    decreases |ops|
  {
    if ops != [] { StuckSink(k, ops[1..]); }
  }

  /** What is sent stays sent. */
  lemma {:induction false} SentStays(k: Sink, ops: seq<Op>) returns (more: string)
    ensures ApplyAll(k, ops).sent == k.sent + more
    decreases |ops|
  {
    if ops == [] {
      more := "";
    } else {
      hide Chunk;
      var k' := Apply(k, ops[0]);
      more := k'.sent[|k.sent|..];
      assert k'.sent == k.sent + more;
      var rest := SentStays(k', ops[1..]);
      Assoc(k.sent, more, rest);
      more := more + rest;
    }
  }

  /** What the reader makes of what a sink sent: after the chunks `before`, and then the uses `ops`. */
  ghost predicate ReadsAs(k: Sink, ops: seq<Op>, before: seq<string>) {
    var d, all := Dechunk(ApplyAll(k, ops).sent), Joined(before + Payloads(ops));
    (d.ok <==> DoneThrough(k, ops)) && d.payload <= all && (d.ok ==> d.payload == all)
  }

  lemma DoneReads(k: Sink, ops: seq<Op>, before: seq<string>)
    requires k.ok && k.sent == Chunks(before) && Writable(before) && ops != [] && ops[0] == Done
    ensures ReadsAs(k, ops, before)
  {
    hide Dechunk, Chunks, Apply;
    var k' := Apply(k, Done);
    var i, j := DoneSends(k, Chunks(before));
    assert before + [] == before;
    if k'.ok {
      var more := SentStays(k', ops[1..]);
      ChunkedRoundTrip(before, more);
    } else {
      StuckSink(k', ops[1..]);
      BrokenEnding(before, i, j);
    }
  }

  /** How much of its two lines a done sends. */
  lemma DoneSends(k: Sink, sent: string) returns (i: nat, j: nat)
    requires k.ok && k.sent == sent
    ensures var e := Apply(k, Done);
            && i <= 3 && j <= 2 && e.sent == sent + (LAST_CHUNK[..i] + CRLF[..j]) && (e.ok <==> i == 3 && j == 2)
            && (e.ok ==> e.sent == sent + (LAST_CHUNK + CRLF))
  {
    var k1 := SendOut(k.(available := false), LAST_CHUNK);
    i, j := Reached(NextFate(k.plan), LAST_CHUNK), Reached(NextFate(k1.plan), CRLF);
    Assoc(sent, LAST_CHUNK[..i], CRLF[..j]);
    assert LAST_CHUNK[..3] == LAST_CHUNK && CRLF[..2] == CRLF;
  }

  lemma BrokenWrite(k: Sink, ops: seq<Op>, before: seq<string>)
    requires k.ok && k.sent == Chunks(before) && Writable(before) && Sizes(ops)
    requires ops != [] && ops[0].Write? && ops[0].data != "" && NextFate(k.plan).Cut?
    ensures ReadsAs(k, ops, before)
  {
    hide Dechunk, Chunks, Chunk;
    var w := ops[0].data;
    assert Chunk(w) != "" by { ChunkAlone(w); }
    var k' := Apply(k, ops[0]);
    StuckSink(k', ops[1..]);
    BrokenChunk(before, w, Reached(NextFate(k.plan), Chunk(w)));
    var more := Payloads(ops[1..]);
    assert before + Payloads(ops) == (before + [w]) + more;
    JoinedBoth(before + [w], more);
  }

  /** A write that goes through adds its chunk. */
  lemma WholeWrite(k: Sink, ops: seq<Op>, before: seq<string>)
    requires k.ok && k.sent == Chunks(before) && ops != [] && ops[0].Write? && ops[0].data != ""
             && NextFate(k.plan).Through?
    ensures var k', w := Apply(k, ops[0]), ops[0].data;
            k'.ok && k'.sent == Chunks(before + [w]) && before + Payloads(ops) == before + [w] + Payloads(ops[1..])
  {
    hide Chunk;
    var w := ops[0].data;
    ChunkNonEmpty(w);
    assert Chunk(w)[..|Chunk(w)|] == Chunk(w);
    ChunksLast(before, w);
  }

  /** The reader's view of everything sent, step by step. */
  lemma {:induction false} SentReads(k: Sink, ops: seq<Op>, before: seq<string>)
    requires k.ok && k.sent == Chunks(before) && Writable(before) && Sizes(ops)
    ensures ReadsAs(k, ops, before)
    decreases |ops|
  {
    hide Dechunk, Chunk;
    if ops == [] {
      assert before + [] == before;
      Unfinished(before);
    } else if ops[0] == Done {
      DoneReads(k, ops, before);
    } else if ops[0].data == "" {
      SentReads(Apply(k, ops[0]), ops[1..], before);
    } else if NextFate(k.plan).Cut? {
      BrokenWrite(k, ops, before);
    } else {
      WholeWrite(k, ops, before);
      hide Apply, Chunks;
      SentReads(Apply(k, ops[0]), ops[1..], before + [ops[0].data]);
    }
  }

  /** Whatever a provider does, in however many calls, and wherever its writes break off: the reader accepts what was
      sent if and only if some done got through, it then has the non-empty writes before the first done, and otherwise
      no more than a part of them. */
  lemma AcceptedIffDone(plan: seq<Fate>, calls: seq<ProviderCall>)
    requires Sizes(Executed(Start(plan), calls))
    ensures var ops, d := Executed(Start(plan), calls), Dechunk(RunCalls(Start(plan), calls).k.sent);
            && (d.ok <==> DoneThrough(Start(plan), ops))
            && d.payload <= Joined(Payloads(ops)) && (d.ok ==> d.payload == Joined(Payloads(ops)))
  {
    hide Dechunk, Apply, RunCalls, Executed;
    var ops := Executed(Start(plan), calls);
    RunIsExecuted(Start(plan), calls);
    SentReads(Start(plan), ops, []);
    assert [] + Payloads(ops) == Payloads(ops);
  }

  predicate AllThrough(plan: seq<Fate>) {
    forall i :: 0 <= i < |plan| ==> plan[i].Through?
  }

  /** On a stream that does not fail, a done gets through if and only if there is one. */
  lemma {:induction false} DoneOnGoodStream(k: Sink, ops: seq<Op>)
    requires k.ok && AllThrough(k.plan)
    ensures DoneThrough(k, ops) <==> Done in ops
    decreases |ops|
  {
    hide Chunk;
    if ops != [] {
      GoodStep(k, ops[0]);
      DoneOnGoodStream(Apply(k, ops[0]), ops[1..]);
      assert ops == [ops[0]] + ops[1..];
    }
  }

  lemma GoodStep(k: Sink, op: Op)
    requires k.ok && AllThrough(k.plan)
    ensures Apply(k, op).ok && AllThrough(Apply(k, op).plan)
  {
    hide Chunk;
  }

  /** An empty write ends the loop with success, although the done that was to follow is never asked for, and the reader
      rejects what was sent. */
  lemma EmptyWriteLoses()
    ensures var w := RunCalls(Start([]), [ProviderCall(true, [Write("")], true), ProviderCall(true, [Done], true)]);
            w.success && !Dechunk(w.k.sent).ok
  {
    var calls := [ProviderCall(true, [Write("")], true), ProviderCall(true, [Done], true)];
    assert [Write("")][1..] == [] && ApplyAll(Start([]), [Write("")]) == Start([]).(available := false);
  }

  // ---------------------------------------------------------------- providers that follow the protocol

  function Writes(ws: seq<string>): seq<Op> {
    if ws == [] then [] else [Write(ws[0])] + Writes(ws[1..])
  }

  function AllOps(calls: seq<ProviderCall>): seq<Op> {
    if calls == [] then [] else calls[0].ops + AllOps(calls[1..])
  }

  /** On a stream that does not fail, a provider makes only non-empty writes and then one done, spread over calls in any
      way. */
  predicate Proper(calls: seq<ProviderCall>, ws: seq<string>) {
    (forall i :: 0 <= i < |calls| ==> calls[i].ret && calls[i].writable) && AllOps(calls) == Writes(ws) + [Done]
  }

  lemma {:induction false} ApplyWrites(k: Sink, ws: seq<string>)
    requires k.ok && AllThrough(k.plan) && (forall i :: 0 <= i < |ws| ==> ws[i] != "")
    ensures var e := ApplyAll(k, Writes(ws));
            e.sent == k.sent + Chunks(ws) && e.available == (if ws == [] then k.available else true) && e.ok
              && AllThrough(e.plan)
    decreases |ws|
  {
    hide Chunk;
    if ws == [] {
      assert k.sent + "" == k.sent;
    } else {
      var k' := Apply(k, Write(ws[0]));
      GoodStep(k, Write(ws[0]));
      assert Chunk(ws[0]) != "" by { ChunkNonEmpty(ws[0]); }
      assert Chunk(ws[0])[..|Chunk(ws[0])|] == Chunk(ws[0]);
      assert Writes(ws)[1..] == Writes(ws[1..]);
      ApplyWrites(k', ws[1..]);
      Assoc(k.sent, Chunk(ws[0]), Chunks(ws[1..]));
    }
  }

  lemma ChunkNonEmpty(w: string)
    ensures Chunk(w) != ""
  {
  }

  lemma ApplyDone(k: Sink)
    requires k.ok && AllThrough(k.plan)
    ensures var e := Apply(k, Done); e.sent == k.sent + (LAST_CHUNK + CRLF) && !e.available && e.ok
  {
    GoodStep(k, Done);
    assert LAST_CHUNK[..3] == LAST_CHUNK && CRLF[..2] == CRLF;
    Assoc(k.sent, LAST_CHUNK, CRLF);
  }

  lemma {:induction false} WritesLength(ws: seq<string>)
    ensures |Writes(ws)| == |ws| && forall i :: 0 <= i < |ws| ==> Writes(ws)[i] == Write(ws[i])
  {
    if ws != [] {
      WritesLength(ws[1..]);
    }
  }

  lemma {:induction false} WritesPrefix(ws: seq<string>, n: nat)
    requires n <= |ws|
    ensures Writes(ws) == Writes(ws[..n]) + Writes(ws[n..])
    decreases n
  {
    if n == 0 {
      assert ws[..0] == [] && ws[0..] == ws;
    } else {
      assert ws[..n][1..] == ws[1..][..n - 1] && ws[1..][n - 1..] == ws[n..] && ws[..n][0] == ws[0];
      WritesPrefix(ws[1..], n - 1);
    }
  }

  /** Such a provider's bytes are the coding of its writes, however its uses of the sink are spread over calls. */
  lemma {:induction false} SendsEncoding(k: Sink, calls: seq<ProviderCall>, ws: seq<string>)
    requires k.available && k.ok && AllThrough(k.plan) && (forall i :: 0 <= i < |ws| ==> ws[i] != "")
             && Proper(calls, ws)
    ensures var w := RunCalls(k, calls); w.success && w.k.sent == k.sent + Encoding(ws)
    decreases |calls|
  {
    hide Apply;
    var ops, later := calls[0].ops, AllOps(calls[1..]);
    WritesLength(ws);
    var n := |ops|;
    if n <= |ws| {
      WritesPrefix(ws, n);
      WritesLength(ws[..n]);
      assert ops == (ops + later)[..n] == Writes(ws[..n]);
      assert later == (ops + later)[n..] == Writes(ws[n..]) + [Done];
      ApplyWrites(k, ws[..n]);
      SendsEncoding(ApplyAll(k, ops), calls[1..], ws[n..]);
      EncodingSplit(k.sent, ws, n);
    } else {
      assert ops == (ops + later)[..n] == Writes(ws) + [Done];
      ApplySplit(k, Writes(ws), [Done]);
      ApplyWrites(k, ws);
      ApplyDone(ApplyAll(k, Writes(ws)));
      assert ApplyAll(ApplyAll(k, Writes(ws)), [Done]) == Apply(ApplyAll(k, Writes(ws)), Done);
      Assoc(k.sent, Chunks(ws), LAST_CHUNK + CRLF);
    }
  }

  lemma {:induction false} ChunksSplit(ws: seq<string>, n: nat)
    requires n <= |ws|
    ensures Chunks(ws) == Chunks(ws[..n]) + Chunks(ws[n..])
    decreases n
  {
    if n == 0 {
      assert ws[..0] == [] && ws[0..] == ws && "" + Chunks(ws) == Chunks(ws);
    } else {
      assert ws[..n][1..] == ws[1..][..n - 1] && ws[1..][n - 1..] == ws[n..] && ws[..n][0] == ws[0];
      ChunksSplit(ws[1..], n - 1);
      Assoc(Chunk(ws[0]), Chunks(ws[1..][..n - 1]), Chunks(ws[n..]));
    }
  }

  lemma EncodingSplit(sent: string, ws: seq<string>, n: nat)
    requires n <= |ws|
    ensures sent + Chunks(ws[..n]) + Encoding(ws[n..]) == sent + Encoding(ws)
  {
    ChunksSplit(ws, n);
    Assoc(Chunks(ws[..n]), Chunks(ws[n..]), LAST_CHUNK + CRLF);
    Assoc(sent, Chunks(ws[..n]), Encoding(ws[n..]));
  }

  /** Writer and reader: what the reader makes of what such a provider sent, and what it leaves. */
  lemma SentIsReadBack(plan: seq<Fate>, calls: seq<ProviderCall>, ws: seq<string>, rest: string)
    requires Writable(ws) && AllThrough(plan) && Proper(calls, ws)
    ensures var w := RunCalls(Start(plan), calls);
            w.success && Dechunk(w.k.sent + rest) == Dechunked(true, Joined(ws), rest, [])
  {
    hide Dechunk, Chunks;
    SendsEncoding(Start(plan), calls, ws);
    assert "" + Encoding(ws) == Encoding(ws);
    ChunkedRoundTrip(ws, rest);
  }

  /** A payload and a trailer that went through are read back, the fields if and only if all of them are plain. */
  lemma TrailerReadBack(k: Sink, writes: seq<string>, fs: seq<Field>, rest: string)
    requires k.ok && k.sent == Chunks(writes) && Writable(writes) && OneLineFields(fs) && EndWithTrailer(k, fs).ok
    ensures var d := Dechunk(EndWithTrailer(k, fs).sent + rest);
            d.ok && d.payload == Joined(writes) && d.rest == rest && (Fields(d.trailer) == fs <==> AllPlainFields(fs))
  {
    hide Dechunk, SendAll, TrailerEnding, Fields, AllPlainFields, OneLineFields, Chunks;
    EndingLines(fs);
    SentWhole(k.(available := false), TrailerEnding(fs));
    TrailerRoundTrip(writes, fs, rest);
  }

  /** Success means that every write went through. */
  lemma {:induction false} SuccessMeansSent(k: Sink, calls: seq<ProviderCall>)
    requires k.ok
    ensures RunCalls(k, calls).success ==> RunCalls(k, calls).k.ok
    decreases |calls|
  {
    hide ApplyAll;
    if k.available && calls != [] && calls[0].writable {
      var k' := ApplyAll(k, calls[0].ops);
      if calls[0].ret && k'.ok { SuccessMeansSent(k', calls[1..]); }
    }
  }
}
