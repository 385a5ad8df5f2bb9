/** The two ends of the frames of `common/RpcCodec.hpp`: the send queue and the receive loop of
    `common/details/RemoteSessionDetail.hpp`. The pipe between them delivers the bytes of the
    queue in pieces of its own choice. */
module RpcSession {
  import opened Outcomes
  import opened Bitwise
  import opened Bytes
  import opened RpcCodec

  // ----- the receiving end

  /** Why a connection ended. */
  datatype Ending = PeerClosed | PipeFailed(error: nat) | InvalidFrame(code: ErrorCode)

  /** How a read that was pending completed: with bytes, or with an error of the system. */
  datatype Completion = Delivered(chunk: seq<byte>) | Broken(error: nat)

  /** What a receiver reported, what it still holds, and whether its connection ended. */
  datatype Received = Received(payloads: seq<seq<byte>>, pending: seq<byte>, ending: Option<Ending>)

  /** Every complete frame at the front of a buffer, taken off one after the other. */
  function Drain(buffer: seq<byte>): Received
    decreases |buffer|
  {
    match Decode(buffer)
    case Incomplete => Received([], buffer, None)
    case Invalid(code) => Received([], buffer, Some(InvalidFrame(code)))
    case Decoded(payload, rest) =>
      DecodedExactly(buffer, payload, rest);
      var r := Drain(rest);
      Received([payload] + r.payloads, r.pending, r.ending)
  }

  /** One completed read. A read of no byte at all reports that the peer closed the pipe, and a
      connection that ended reads nothing any more. */
  function AfterRead(r: Received, chunk: seq<byte>): Received {
    if r.ending.Some? then r
    else if chunk == [] then r.(ending := Some(PeerClosed))
    else
      var d := Drain(r.pending + chunk);
      Received(r.payloads + d.payloads, d.pending, d.ending)
  }

  function AfterCompletion(r: Received, completion: Completion): Received {
    match completion
    case Delivered(chunk) => AfterRead(r, chunk)
    case Broken(error) => if r.ending.Some? then r else r.(ending := Some(PipeFailed(error)))
  }

  function AfterReads(r: Received, chunks: seq<seq<byte>>): Received
    decreases |chunks|
  {
    if chunks == [] then r else AfterReads(AfterRead(r, chunks[0]), chunks[1..])
  }

  const NOTHING := Received([], [], None)

  /** The receiver: its buffer, and the log of the payloads it handed to the message handler. */
  class Receiver {
    const buffer: ByteVector
    var payloads: seq<seq<byte>>
    var ending: Option<Ending>

    ghost predicate Valid()
      reads this, buffer
    {
      buffer.Valid()
    }

    ghost function State(): Received
      requires Valid()
      reads this, buffer, buffer.data
    {
      Received(payloads, buffer.Contents(), ending)
    }

    constructor ()
      ensures Valid() && fresh(buffer) && fresh(buffer.data) && State() == NOTHING
    {
      buffer := new ByteVector();
      payloads := [];
      ending := None;
    }

    /** Take the frames off the buffer one by one, until none is left or one is refused. */
    method OnRead()
      requires Valid() && ending.None?
      modifies this, buffer, buffer.data
      ensures Valid() && buffer.data == old(buffer.data)
      ensures State() == (var d := Drain(old(buffer.Contents()));
                          Received(old(payloads) + d.payloads, d.pending, d.ending))
    {
      hide Decode;
      ghost var d := Drain(buffer.Contents());
      while true
        invariant Valid() && buffer.data == old(buffer.data) && ending.None?
        invariant var e := Drain(buffer.Contents());
                  && payloads + e.payloads == old(payloads) + d.payloads
                  && e.pending == d.pending && e.ending == d.ending
        decreases buffer.size
      {
        ghost var before := buffer.Contents();
        ghost var reported := payloads;
        var decoded := buffer.TryDecodeFrame();
        match decoded
        case Failed(code) =>
          ending := Some(InvalidFrame(code));
          return;
        case Ok(outcome) =>
          if outcome.status == NeedMoreData {
            return;
          }
          DecodedExactly(before, outcome.payload, buffer.Contents());
          payloads := payloads + [outcome.payload];
          assert reported + ([outcome.payload] + Drain(buffer.Contents()).payloads)
              == payloads + Drain(buffer.Contents()).payloads;
      }
    }

    /** Consume one completed read. */
    method OnReadCompleted(completion: Completion) returns (serving: bool)
      requires Valid()
      modifies this, buffer, buffer.data
      ensures Valid() && (buffer.data == old(buffer.data) || fresh(buffer.data))
      ensures State() == AfterCompletion(old(State()), completion)
      ensures old(ending).Some? ==> State() == old(State())
      ensures old(ending).None? && completion == Delivered([]) ==>
                !serving && ending == Some(PeerClosed)
                && payloads == old(payloads) && buffer.Contents() == old(buffer.Contents())
      ensures old(ending).None? && completion.Broken? ==>
                !serving && ending == Some(PipeFailed(completion.error))
                && payloads == old(payloads) && buffer.Contents() == old(buffer.Contents())
      ensures serving <==> ending.None?
    {
      if ending.Some? {
        return false;
      }
      if completion.Broken? {
        ending := Some(PipeFailed(completion.error));
        return false;
      }
      var chunk := completion.chunk;
      if chunk == [] {
        ending := Some(PeerClosed);
        return false;
      }
      buffer.Append(chunk);
      OnRead();
      return ending.None?;
    }
  }

  // ----- the sending end

  predicate AllSendable(messages: seq<seq<byte>>) {
    forall i :: 0 <= i < |messages| ==> Sendable(messages[i])
  }

  /** What the queue gains for a message: its header and itself, or nothing when no header can
      describe it. */
  function Queued(message: seq<byte>): seq<seq<byte>> {
    if Sendable(message) then [Header(|message|), message] else []
  }

  function QueuedAll(messages: seq<seq<byte>>): seq<seq<byte>> {
    if messages == [] then [] else Queued(messages[0]) + QueuedAll(messages[1..])
  }

  function Accepted(messages: seq<seq<byte>>): seq<seq<byte>> {
    if messages == [] then []
    else (if Sendable(messages[0]) then [messages[0]] else []) + Accepted(messages[1..])
  }

  class Sender {
    var sendQueue: seq<seq<byte>>

    method QueueWrite(data: seq<byte>) returns (r: Expected<()>)
      modifies this
      ensures r == if Sendable(data) then Ok(()) else Failed(RpcFrameTooLarge)
      ensures sendQueue == old(sendQueue) + Queued(data)
    {
      var header := MakeFrameHeader(|data|);
      if header.Failed? {
        return Failed(header.code);
      }
      sendQueue := sendQueue + [header.value];
      sendQueue := sendQueue + [data];
      return Ok(());
    }
  }

  // ----- frames on the wire

  function Frames(payloads: seq<seq<byte>>): seq<byte> {
    if payloads == [] then [] else Frame(payloads[0]) + Frames(payloads[1..])
  }

  lemma QueuedIsFrame(message: seq<byte>)
    requires Sendable(message)
    ensures Concat(Queued(message)) == Frame(message)
  {
    hide Header;
    assert Queued(message)[1..] == [message];
    assert Concat([message]) == message + Concat([message][1..]) == message;
  }

  lemma {:induction false} WireHoldsFrames(messages: seq<seq<byte>>)
    ensures Concat(QueuedAll(messages)) == Frames(Accepted(messages))
    ensures AllSendable(Accepted(messages))
  {
    hide Queued, Frame;
    if messages != [] {
      var m := messages[0];
      WireHoldsFrames(messages[1..]);
      ConcatAppend(Queued(m), QueuedAll(messages[1..]));
      if Sendable(m) {
        QueuedIsFrame(m);
        assert Accepted(messages)[1..] == Accepted(messages[1..]);
      } else {
        NotQueued(m);
        assert Accepted(messages) == Accepted(messages[1..]);
      }
    }
  }

  lemma NotQueued(message: seq<byte>)
    requires !Sendable(message)
    ensures Concat(Queued(message)) == []
  {
  }

  /** Draining takes the frames at the front one by one, whatever stands behind them. */
  lemma {:induction false} DrainFrames(payloads: seq<seq<byte>>, tail: seq<byte>)
    requires AllSendable(payloads)
    ensures var d := Drain(tail);
            Drain(Frames(payloads) + tail) == Received(payloads + d.payloads, d.pending, d.ending)
  {
    hide Decode, Frame;
    var d := Drain(tail);
    if payloads == [] {
      assert Frames(payloads) + tail == tail;
      assert payloads + d.payloads == d.payloads;
    } else {
      var rest := Frames(payloads[1..]) + tail;
      assert Frames(payloads) + tail == Frame(payloads[0]) + rest;
      DecodeFrame(payloads[0], rest);
      DrainFrames(payloads[1..], tail);
      assert payloads + d.payloads == [payloads[0]] + (payloads[1..] + d.payloads);
    }
  }

  /** The frames of the payloads and what is pending are the buffer, and the pending bytes explain
      how the draining ended. */
  predicate SplitsAs(buffer: seq<byte>, d: Received) {
    && AllSendable(d.payloads) && buffer == Frames(d.payloads) + d.pending
    && match d.ending
       case None => Decode(d.pending).Incomplete?
       case Some(ending) => ending.InvalidFrame? && Decode(d.pending) == Invalid(ending.code)
  }

  lemma SplitsBehind(payload: seq<byte>, rest: seq<byte>, d: Received)
    requires Sendable(payload) && SplitsAs(rest, d)
    ensures SplitsAs(Frame(payload) + rest, Received([payload] + d.payloads, d.pending, d.ending))
  {
    hide Decode;
    assert ([payload] + d.payloads)[1..] == d.payloads;
    assert Frame(payload) + (Frames(d.payloads) + d.pending) == Frame(payload) + Frames(d.payloads) + d.pending;
  }

  /** Draining neither invents nor drops a byte, and stops at the first frame it cannot take. */
  lemma {:induction false} DrainSplits(buffer: seq<byte>)
    ensures SplitsAs(buffer, Drain(buffer))
    decreases |buffer|
  {
    hide Frame, Decode;
    match Decode(buffer)
    case Decoded(payload, rest) =>
      DecodedExactly(buffer, payload, rest);
      FrameIsLong(payload);
      DrainSplits(rest);
      SplitsBehind(payload, rest, Drain(rest));
    case _ =>
      assert Frames([]) + buffer == buffer;
  }

  lemma FrameIsLong(payload: seq<byte>)
    ensures |Frame(payload)| == HEADER_SIZE + |payload|
  {
  }

  /** A receiver that serves on reported the payloads of the frames it was given, and holds what
      is left behind the last one. */
  lemma DrainedExactly(buffer: seq<byte>, payloads: seq<seq<byte>>, pending: seq<byte>)
    ensures Drain(buffer) == Received(payloads, pending, None)
            <==> AllSendable(payloads) && buffer == Frames(payloads) + pending && Decode(pending).Incomplete?
  {
    hide Decode, Frame, Frames;
    DrainSplits(buffer);
    if AllSendable(payloads) && buffer == Frames(payloads) + pending && Decode(pending).Incomplete? {
      DrainFrames(payloads, pending);
      assert payloads + [] == payloads;
    }
  }

  // ----- the pieces do not matter

  /** Draining what is there first and the rest later is draining everything at once. */
  lemma DrainInTwo(a: seq<byte>, b: seq<byte>)
    requires Drain(a).ending.None?
    ensures var d, e := Drain(a), Drain(Drain(a).pending + b);
            Drain(a + b) == Received(d.payloads + e.payloads, e.pending, e.ending)
  {
    hide Decode, Frame, Frames;
    DrainSplits(a);
    var d := Drain(a);
    assert a + b == Frames(d.payloads) + (d.pending + b);
    DrainFrames(d.payloads, d.pending + b);
  }

  /** Once a frame is refused, nothing that follows changes what was reported. */
  lemma DrainStopped(a: seq<byte>, b: seq<byte>)
    requires Drain(a).ending.Some?
    ensures Drain(a + b).payloads == Drain(a).payloads && Drain(a + b).ending == Drain(a).ending
  {
    hide Frame, Frames;
    DrainSplits(a);
    var d := Drain(a);
    assert a + b == Frames(d.payloads) + (d.pending + b);
    DrainFrames(d.payloads, d.pending + b);
    DecodePrefixStable(d.pending, b);
    assert d.payloads + [] == d.payloads;
  }

  predicate NoEmptyRead(chunks: seq<seq<byte>>) {
    forall i :: 0 <= i < |chunks| ==> chunks[i] != []
  }

  lemma {:induction false} EndedStays(r: Received, chunks: seq<seq<byte>>)
    requires r.ending.Some?
    ensures AfterReads(r, chunks) == r
    decreases |chunks|
  {
    if chunks != [] {
      EndedStays(r, chunks[1..]);
    }
  }

  /** From any point of a stream on: the reads that follow report what one read of all their
      bytes would report. */
  lemma {:induction false} ReadsFromHere(seen: seq<byte>, chunks: seq<seq<byte>>)
    requires NoEmptyRead(chunks)
    ensures var one, many := Drain(seen + Concat(chunks)), AfterReads(Drain(seen), chunks);
            && many.payloads == one.payloads && many.ending == one.ending
            && (one.ending.None? ==> many.pending == one.pending)
    decreases |chunks|
  {
    hide Decode, Frame, Frames, Drain;
    var d := Drain(seen);
    if chunks == [] {
      assert seen + Concat(chunks) == seen;
    } else if d.ending.Some? {
      EndedStays(d, chunks);
      DrainStopped(seen, Concat(chunks));
    } else {
      DrainInTwo(seen, chunks[0]);
      assert AfterRead(d, chunks[0]) == Drain(seen + chunks[0]);
      ReadsFromHere(seen + chunks[0], chunks[1..]);
      assert seen + Concat(chunks) == seen + chunks[0] + Concat(chunks[1..]);
    }
  }

  /** The messages a receiver reports, and whether it gives up, depend on the bytes of the stream
      alone and not on the reads that delivered them. */
  lemma ChunksDoNotMatter(chunks: seq<seq<byte>>)
    requires NoEmptyRead(chunks)
    ensures var one, many := Drain(Concat(chunks)), AfterReads(NOTHING, chunks);
            && many.payloads == one.payloads && many.ending == one.ending
            && (one.ending.None? ==> many.pending == one.pending)
  {
    assert Drain([]) == NOTHING;
    assert [] + Concat(chunks) == Concat(chunks);
    ReadsFromHere([], chunks);
  }

  /** From end to end: whatever the reads are, the receiver reports exactly the messages the
      sender accepted, in order, and its buffer is empty in the end. */
  lemma MessagesArrive(messages: seq<seq<byte>>, chunks: seq<seq<byte>>)
    requires NoEmptyRead(chunks)
    requires Concat(chunks) == Concat(QueuedAll(messages))
    ensures AfterReads(NOTHING, chunks) == Received(Accepted(messages), [], None)
  {
    WireHoldsFrames(messages);
    assert Frames(Accepted(messages)) + [] == Frames(Accepted(messages));
    DrainedExactly(Concat(chunks), Accepted(messages), []);
    ChunksDoNotMatter(chunks);
  }

  // ----- how a connection ends

  /** A receiver after any sequence of completed reads. */
  function AfterCompletions(r: Received, completions: seq<Completion>): Received
    decreases |completions|
  {
    if completions == [] then r
    else AfterCompletions(AfterCompletion(r, completions[0]), completions[1..])
  }

  lemma {:induction false} AfterCompletionsAppend(r: Received, a: seq<Completion>, b: seq<Completion>)
    ensures AfterCompletions(r, a + b) == AfterCompletions(AfterCompletions(r, a), b)
    decreases |a|
  {
    if a == [] {
      assert a + b == b;
    } else {
      assert (a + b)[1..] == a[1..] + b;
      AfterCompletionsAppend(AfterCompletion(r, a[0]), a[1..], b);
    }
  }

  /** The bytes some reads delivered. */
  function Stream(completions: seq<Completion>): seq<byte> {
    if completions == [] then []
    else
      var n := |completions| - 1;
      Stream(completions[..n]) + (if completions[n].Delivered? then completions[n].chunk else [])
  }

  /** The first reads all delivered something, and no frame in what they delivered is refused. */
  predicate ServesUpTo(completions: seq<Completion>, n: nat)
    requires n <= |completions|
  {
    && (forall i :: 0 <= i < n ==> completions[i].Delivered? && completions[i].chunk != [])
    && (forall i :: 0 <= i <= n ==> Drain(Stream(completions[..i])).ending.None?)
  }

  lemma StreamStep(completions: seq<Completion>, n: nat)
    requires n < |completions|
    ensures Stream(completions[..n + 1]) ==
            Stream(completions[..n]) + (if completions[n].Delivered? then completions[n].chunk else [])
  {
    assert completions[..n + 1][..n] == completions[..n];
  }

  lemma {:induction false} ServedUpTo(completions: seq<Completion>, n: nat)
    requires n <= |completions| && ServesUpTo(completions, n)
    ensures AfterCompletions(NOTHING, completions[..n]) == Drain(Stream(completions[..n]))
  {
    hide Drain, Decode;
    if n == 0 {
      assert completions[..0] == [];
      DrainNothing();
    } else {
      var init, chunk := completions[..n - 1], completions[n - 1].chunk;
      assert Drain(Stream(init)).ending.None?;
      ServedUpTo(completions, n - 1);
      StreamStep(completions, n - 1);
      assert completions[..n] == init + [completions[n - 1]];
      AfterCompletionsAppend(NOTHING, init, [completions[n - 1]]);
      OneCompletion(Drain(Stream(init)), completions[n - 1]);
      DrainInTwo(Stream(init), chunk);
    }
  }

  lemma DrainNothing()
    ensures Drain([]) == NOTHING && Stream([]) == []
  {
  }

  lemma OneCompletion(r: Received, completion: Completion)
    ensures AfterCompletions(r, [completion]) == AfterCompletion(r, completion)
  {
    assert [completion][1..] == [];
  }

  lemma {:induction false} EndedForGood(r: Received, completions: seq<Completion>)
    requires r.ending.Some?
    ensures AfterCompletions(r, completions) == r
    decreases |completions|
  {
    if completions != [] {
      EndedForGood(r, completions[1..]);
    }
  }

  /** The read that ends a connection: it delivers nothing, or is broken, or completes a frame which
      is refused. */
  ghost predicate EndsAt(completions: seq<Completion>, n: nat, ending: Ending) {
    && n < |completions| && ServesUpTo(completions, n)
    && match ending
       case PeerClosed => completions[n] == Delivered([])
       case PipeFailed(error) => completions[n] == Broken(error)
       case InvalidFrame(code) => completions[n].Delivered? && completions[n].chunk != []
                                  && Drain(Stream(completions[..n + 1])).ending == Some(InvalidFrame(code))
  }

  /** What a receiver holds after the read that ends its connection, and after any reads behind it:
      the payloads of the frames delivered before, and the bytes behind them. */
  lemma EndedAt(completions: seq<Completion>, n: nat, ending: Ending)
    requires EndsAt(completions, n, ending)
    ensures var r := AfterCompletions(NOTHING, completions);
            var seen := if ending.InvalidFrame? then n + 1 else n;
            && r.ending == Some(ending)
            && r.payloads == Drain(Stream(completions[..seen])).payloads
            && r.pending == Drain(Stream(completions[..seen])).pending
  {
    hide Drain, Decode;
    var before, read := completions[..n], completions[n];
    var d := Drain(Stream(before));
    assert d.ending.None?;
    ServedUpTo(completions, n);
    StreamStep(completions, n);
    assert completions == before + ([read] + completions[n + 1..]);
    AfterCompletionsAppend(NOTHING, before, [read] + completions[n + 1..]);
    AfterCompletionsAppend(d, [read], completions[n + 1..]);
    OneCompletion(d, read);
    if ending.InvalidFrame? {
      DrainInTwo(Stream(before), read.chunk);
    }
    EndedForGood(AfterCompletion(d, read), completions[n + 1..]);
  }

  /** Every run serves to its end or has a read that ends it. */
  lemma FindEnd(completions: seq<Completion>) returns (n: nat, ending: Option<Ending>)
    ensures ending.None? ==> ServesUpTo(completions, |completions|)
    ensures ending.Some? ==> EndsAt(completions, n, ending.value)
  {
    hide Drain, Decode;
    n := 0;
    assert completions[..0] == [];
    DrainNothing();
    while n < |completions|
      invariant n <= |completions| && ServesUpTo(completions, n)
    {
      var read := completions[n];
      if read.Broken? {
        return n, Some(PipeFailed(read.error));
      }
      if read.chunk == [] {
        return n, Some(PeerClosed);
      }
      var d := Drain(Stream(completions[..n + 1]));
      if d.ending.Some? {
        DrainSplits(Stream(completions[..n + 1]));
        return n, d.ending;
      }
      n := n + 1;
    }
    ending := None;
  }

  /** A connection ended for a reason exactly when the first read that ends it ends it for that
      reason, and it serves on exactly when there is no such read. Nothing that follows changes what
      was reported. */
  lemma EndsExactly(completions: seq<Completion>, ending: Ending)
    ensures AfterCompletions(NOTHING, completions).ending == Some(ending) <==>
            exists n :: EndsAt(completions, n, ending)
    ensures AfterCompletions(NOTHING, completions).ending == None <==> ServesUpTo(completions, |completions|)
    ensures ServesUpTo(completions, |completions|) ==>
              AfterCompletions(NOTHING, completions) == Drain(Stream(completions))
  {
    hide Drain, Decode, EndsAt;
    var n, found := FindEnd(completions);
    assert completions[..|completions|] == completions;
    if found.Some? {
      EndedAt(completions, n, found.value);
      if ServesUpTo(completions, |completions|) {
        ServedUpTo(completions, |completions|);
      }
    } else {
      ServedUpTo(completions, |completions|);
    }
    if k :| EndsAt(completions, k, ending) {
      EndedAt(completions, k, ending);
    }
  }
}
