/** A chunked body from its writer to its reader. */
module ChunkedTransfer {
  import opened Text
  import opened Stream
  import opened Chunked
  import opened ChunkedReader
  import opened ChunkedWriter

  /** When some done got through, the reader's result does not depend on the bytes that follow. */
  lemma DoneReadsOn(plan: seq<Fate>, calls: seq<ProviderCall>, other: string)
    requires Sizes(Executed(Start(plan), calls)) && DoneThrough(Start(plan), Executed(Start(plan), calls))
    ensures var d := Dechunk(RunCalls(Start(plan), calls).k.sent + other);
            d.ok && d.payload == Joined(Payloads(Executed(Start(plan), calls)))
  {
    hide Dechunk, Apply, RunCalls, Executed;
    var ops := Executed(Start(plan), calls);
    RunIsExecuted(Start(plan), calls);
    ReadsOn(Start(plan), ops, [], other);
    assert [] + Payloads(ops) == Payloads(ops);
  }

  lemma {:induction false} ReadsOn(k: Sink, ops: seq<Op>, before: seq<string>, other: string)
    requires k.ok && k.sent == Chunks(before) && Writable(before) && Sizes(ops) && DoneThrough(k, ops)
    ensures var d := Dechunk(ApplyAll(k, ops).sent + other); d.ok && d.payload == Joined(before + Payloads(ops))
    decreases |ops|
  {
    hide Dechunk, Chunk, Chunks;
    var k' := Apply(k, ops[0]);
    if !k'.ok { StuckSink(k', ops[1..]); }
    if ops[0] == Done {
      DoneReadsOver(k, ops, before, other);
    } else if ops[0].data == "" {
      ReadsOn(k', ops[1..], before, other);
    } else {
      ChunkNonEmpty(ops[0].data);
      WholeWrite(k, ops, before);
      hide Apply;
      ReadsOn(k', ops[1..], before + [ops[0].data], other);
    }
  }

  lemma DoneReadsOver(k: Sink, ops: seq<Op>, before: seq<string>, other: string)
    requires k.ok && k.sent == Chunks(before) && Writable(before) && ops != [] && ops[0] == Done && Apply(k, Done).ok
    ensures var d := Dechunk(ApplyAll(k, ops).sent + other); d.ok && d.payload == Joined(before + Payloads(ops))
  {
    hide Dechunk, Chunks;
    var k' := Apply(k, Done);
    assert LAST_CHUNK[..3] == LAST_CHUNK && CRLF[..2] == CRLF;
    Assoc(Chunks(before), LAST_CHUNK, CRLF);
    var more := SentStays(k', ops[1..]);
    Assoc(Encoding(before), more, other);
    ChunkedRoundTrip(before, more + other);
    assert before + [] == before;
  }

  /** A provider's uses of the sink, sent over a stream on which writes may break off, followed there by other bytes,
      and read back however the network cuts the stream. When some done got through, the reader has the non-empty
      writes before it unless the network fails, and no more than a part of them then. When none did, and nothing
      follows, the reader fails with no more than a part of them. A provider that follows the protocol on a stream
      that does not fail leaves exactly the other bytes. */
  method Transfer(calls: seq<ProviderCall>, other: string, sending: seq<Fate>, receiving: seq<Delivery>,
                  ghost writes: seq<string>)
    returns (success: bool, ok: bool, pieces: seq<string>, ghost left: string)
    requires Sizes(Executed(Start(sending), calls))
    ensures var ops := Executed(Start(sending), calls); var through := DoneThrough(Start(sending), ops);
            && (through && Fault !in receiving ==> ok)
            && (through || other == "" ==>
                  Joined(pieces) <= Joined(Payloads(ops))
                    && (ok ==> through && Joined(pieces) == Joined(Payloads(ops))))
    ensures Writable(writes) && Proper(calls, writes) && AllThrough(sending) ==>
              success && (Fault !in receiving ==> ok) && (ok ==> Joined(pieces) == Joined(writes) && left == other)
  {
    hide Dechunk, RunCalls, Executed, DoneThrough;
    var sink := new DataSink(sending);
    success := sink.WriteContentChunked(calls);
    var sock := new Socket(sink.sent + other, receiving);
    var strm := new SocketStream(sock);
    var refused, headers;
    var all: ContentReceiver := (delivered: seq<string>) => true;
    ok, pieces, refused, headers := ReadContentChunked(strm, all);
    left := strm.Unread();
    if DoneThrough(Start(sending), Executed(Start(sending), calls)) {
      DoneReadsOn(sending, calls, other);
    } else if other == "" {
      assert sink.sent + other == sink.sent;
      AcceptedIffDone(sending, calls);
    }
    if Writable(writes) && Proper(calls, writes) && AllThrough(sending) {
      SentIsReadBack(sending, calls, writes, other);
    }
  }
}
