/** What the chunks offered, the write() calls and the connections of a run come to, computed
    from its steps. */
module Accounting {
  import opened Bytes
  import opened Writer
  import opened System
  import opened SystemInvariant
  import opened SystemTheorems

  // --- One step -----------------------------------------------------------------------------

  /** A chunk offered now would be lost: nothing is queued, and the client is gone, or its
      socket fails for good. */
  predicate WouldBeLost(s: System, r: WriteResult) {
    s.sh.queue == [] && if s.sh.fd.None? then s.past != [] else r.BrokenPipe? || r.Failed?
  }

  /** The chunk that a step offers to the writer, and whether the writer has to keep it. */
  function StepOffers(s: System, step: Step): seq<Offer> {
    match step
    case RtsHeader(data, r) => [Offer(true, data, !WouldBeLost(s, r))]
    case RtsWrite(data, r) => [Offer(false, data, !WouldBeLost(s, r))]
    case WriteHeader(data, r) => [Offer(true, data, !WouldBeLost(s, r))]
    case _ => []
  }

  /** The write() calls that a step makes. */
  function StepCalls(s: System, step: Step): seq<WriteCall> {
    match step
    case RtsHeader(data, r) => DirectCalls(s.sh, data, r)
    case RtsWrite(data, r) => DirectCalls(s.sh, data, r)
    case WriteHeader(data, r) => DirectCalls(s.sh, data, r)
    case LockFlush(results) => if s.sh.fd.None? then [] else FlushCalls(s.sh.queue, results, 0)
    case _ => []
  }

  /** A step that ends the connection: the worker sees the hang-up, or a write() of its flush
      finds the pipe broken, or the RTS shuts down with the writer attached. */
  predicate EndsConnection(s: System, step: Step) {
    match step
    case LockHangup => true
    case LockFlush(results) => BreaksPipe(FlushCalls(s.sh.queue, results, 0))
    case Shutdown => s.rts == OurWriter
    case _ => false
  }

  /** The step adds these chunks and these bytes to the current session and leaves the sessions
      that are over as they are; and it ends the session or does not. */
  predicate Accounts(s: System, s': System, offers: seq<Offer>, sent: seq<byte>, ends: bool) {
    var session := s.session.(offers := s.session.offers + offers, sent := s.session.sent + sent);
    if ends then s'.past == s.past + [session] && s'.session == NO_SESSION && s'.sh.fd == None && s'.sh.queue == []
    else s'.past == s.past && s'.session.offers == session.offers && s'.session.sent == session.sent
  }

  lemma OfferAccounts(s: System, header: bool, data: seq<byte>, r: WriteResult)
    requires Queue(s) && s.phase != Down && data != []
    ensures Accounts(s, Offered(s, header, data, r), [Offer(header, data, !WouldBeLost(s, r))],
                     AcceptedAll(DirectCalls(s.sh, data, r)), false)
  {
    WriteIsAccounted(s.sh, data, r);
  }

  lemma NothingAccounts(s: System)
    ensures s.session.offers + [] == s.session.offers && s.session.sent + [] == s.session.sent
  {
  }

  lemma HangupAccounts(s: System)
    requires s.sh.fd.Some?
    ensures Accounts(s, Became(s, Hangup(s.sh)), [], [], true)
  {
    NothingAccounts(s);
  }

  lemma {:induction false} FlushAccounts(s: System, results: seq<WriteResult>)
    requires Queue(s) && s.sh.fd.Some?
    ensures var f, calls := Flush(s.sh, results, 0), FlushCalls(s.sh.queue, results, 0);
      Accounts(s, Became(s.(session := s.session.(sent := s.session.sent + f.sent)), f.shared), [], AcceptedAll(calls),
               BreaksPipe(calls))
  {
    FlushIsAccounted(s.sh, results, 0);
    NothingAccounts(s);
  }

  lemma RtsAccounts(s: System, step: Step)
    requires Control(s) && Queue(s) && Headers(s) && RtsNext(s, step).Some?
    ensures Accounts(s, RtsNext(s, step).value, StepOffers(s, step), AcceptedAll(StepCalls(s, step)),
                     s.sh.fd.Some? && EndsConnection(s, step))
  {
    match step
    case RtsHeader(data, r) => OfferAccounts(s, true, data, r);
    case RtsWrite(data, r) => OfferAccounts(s, false, data, r);
    case _ => NothingAccounts(s);
  }

  lemma WorkerAccounts(s: System, step: Step)
    requires Control(s) && Queue(s) && WorkerNext(s, step).Some? && s.phase != Down
    ensures Accounts(s, WorkerNext(s, step).value, StepOffers(s, step), AcceptedAll(StepCalls(s, step)),
                     s.sh.fd.Some? && EndsConnection(s, step))
    ensures EndsConnection(s, step) ==> s.sh.fd.Some?
  {
    match step
    case LockFlush(results) => FlushAccounts(s, results);
    case LockHangup => HangupAccounts(s);
    case _ => NothingAccounts(s);
  }

  lemma LateWorkerAccounts(s: System, step: Step)
    requires Control(s) && Queue(s) && WorkerNext(s, step).Some? && s.phase == Down
    ensures Accounts(s, WorkerNext(s, step).value, StepOffers(s, step), AcceptedAll(StepCalls(s, step)),
                     s.sh.fd.Some? && EndsConnection(s, step))
  {
    NothingAccounts(s);
  }

  lemma ListenAccounts(s: System, step: Step)
    requires Control(s) && Queue(s) && ListenNext(s, step).Some?
    ensures Accounts(s, ListenNext(s, step).value, StepOffers(s, step), AcceptedAll(StepCalls(s, step)), false)
    ensures !EndsConnection(s, step)
  {
    match step
    case WriteHeader(data, r) => OfferAccounts(s, true, data, r);
    case _ => NothingAccounts(s);
  }

  /** Every step accounts for its chunk, its write() calls and the end of the connection. */
  lemma StepAccounts(s: System, step: Step)
    requires Inv(s) && Next(s, step).Some?
    ensures Accounts(s, Next(s, step).value, StepOffers(s, step), AcceptedAll(StepCalls(s, step)),
                     s.sh.fd.Some? && EndsConnection(s, step))
  {
    if RtsNext(s, step).Some? {
      RtsAccounts(s, step);
    } else if WorkerNext(s, step).Some? {
      if s.phase != Down {
        WorkerAccounts(s, step);
      } else {
        LateWorkerAccounts(s, step);
      }
    } else {
      ListenAccounts(s, step);
    }
  }

  /** A connection ends exactly in these steps; then there is no client and no queue, and the
      session is over, with the chunks and bytes it had. */
  lemma ConnectionEnds(s: System, step: Step)
    requires Reachable(s) && s.sh.fd.Some? && Next(s, step).Some?
    ensures var s' := Next(s, step).value;
      && (s'.sh.fd == None <==> EndsConnection(s, step))
      && (s'.sh.fd == None ==>
            && s'.sh.queue == [] && s'.session == NO_SESSION
            && s'.past == s.past + [s.session.(sent := s.session.sent + AcceptedAll(StepCalls(s, step)))])
      && (s'.sh.fd != None ==> s'.sh.fd == s.sh.fd && s'.past == s.past)
  {
    ReachableInv(s);
    StepAccounts(s, step);
    StepKeeps(s, step);
    var s' := Next(s, step).value;
    if EndsConnection(s, step) {
      assert StepOffers(s, step) == [] && s.session.offers + [] == s.session.offers;
    } else {
      StaysConnected(s, step);
    }
  }

  lemma StaysConnected(s: System, step: Step)
    requires Control(s) && Queue(s) && s.sh.fd.Some? && Next(s, step).Some? && !EndsConnection(s, step)
    ensures Next(s, step).value.sh.fd == s.sh.fd
  {
    if step.LockFlush? {
      FlushIsAccounted(s.sh, step.results, 0);
    }
  }

  /** The worker's critical section after a hang-up, before the shutdown: there is no client and
      no queue any more, the session is over as it was, and the worker goes on. */
  lemma HangupEndsConnection(s: System)
    requires Reachable(s) && s.phase != Down && Next(s, LockHangup).Some?
    ensures var s' := Next(s, LockHangup).value;
      && s.sh.fd.Some? && s'.sh.fd == None && s'.sh.queue == []
      && s'.past == s.past + [s.session] && s'.session == NO_SESSION
      && s'.pc == Top
  {
    ReachableInv(s);
    HangupConnected(s);
    ConnectionEnds(s, LockHangup);
    assert s.session.sent + AcceptedAll([]) == s.session.sent;
  }

  lemma HangupConnected(s: System)
    requires Control(s) && s.phase != Down && Next(s, LockHangup).Some?
    ensures s.sh.fd.Some? && Next(s, LockHangup).value.pc == Top
  {
  }

  // --- Runs -----------------------------------------------------------------------------------

  /** The chunks offered in this run during the session of this client. */
  function OffersFor(steps: seq<Step>, client: nat): seq<Offer>
    requires Run(START, steps).Some?
    decreases |steps|
  {
    if steps == [] then []
    else
      var n := |steps| - 1;
      var s := Run(START, steps[..n]).value;
      OffersFor(steps[..n], client) + (if |s.past| == client then StepOffers(s, steps[n]) else [])
  }

  /** The write() calls made in this run for this client. */
  function CallsFor(steps: seq<Step>, client: nat): seq<WriteCall>
    requires Run(START, steps).Some?
    decreases |steps|
  {
    if steps == [] then []
    else
      var n := |steps| - 1;
      var s := Run(START, steps[..n]).value;
      CallsFor(steps[..n], client) + (if |s.past| == client then StepCalls(s, steps[n]) else [])
  }

  lemma AccountsFor(s: System, s': System, offers: seq<Offer>, sent: seq<byte>, ends: bool, client: nat)
    requires Accounts(s, s', offers, sent, ends)
    ensures client < |s.past| ==> client < |s'.past| && s'.past[client] == s.past[client]
    ensures client == |s.past| ==>
      (client <= |s'.past|
       && SessionAt(s', client).offers == s.session.offers + offers
       && SessionAt(s', client).sent == s.session.sent + sent)
    ensures |s.past| < client <= |s'.past| ==> SessionAt(s', client) == NO_SESSION
    ensures |s.past| <= |s'.past| <= |s.past| + 1
  {
  }

  /** For every client of a run: the chunks of its session are the chunks that the steps offer,
      in order, each of them kept exactly if it was not lost; and what its socket accepted is
      what the results of its write() calls say. */
  lemma {:induction false} SessionIsAccounted(steps: seq<Step>, client: nat)
    requires Run(START, steps).Some?
    ensures var s := Run(START, steps).value;
      if client <= |s.past| then
        && SessionAt(s, client).offers == OffersFor(steps, client)
        && SessionAt(s, client).sent == AcceptedAll(CallsFor(steps, client))
      else OffersFor(steps, client) == [] && CallsFor(steps, client) == []
    decreases |steps|
  {
    if steps != [] {
      var n := |steps| - 1;
      var s, step := Run(START, steps[..n]).value, steps[n];
      RunKeeps(steps[..n]);
      StepAccounts(s, step);
      SessionIsAccounted(steps[..n], client);
      AccountsFor(s, Next(s, step).value, StepOffers(s, step), AcceptedAll(StepCalls(s, step)),
                  s.sh.fd.Some? && EndsConnection(s, step), client);
      AcceptedAllAppend(CallsFor(steps[..n], client), StepCalls(s, step));
      NoMore(OffersFor(steps[..n], client), CallsFor(steps[..n], client));
    }
  }

  lemma NoMore(offers: seq<Offer>, calls: seq<WriteCall>)
    ensures offers + [] == offers && calls + [] == calls
  {
  }

  /** So a client receives a prefix of the chunks that were not lost while it was its turn, and
      the current client receives all of them in the end: the rest of them is queued. */
  lemma {:induction false} ClientReceives(steps: seq<Step>, client: nat)
    requires Run(START, steps).Some? && client <= |Run(START, steps).value.past|
    ensures AcceptedAll(CallsFor(steps, client)) <= KeptBytes(OffersFor(steps, client))
    ensures client == |Run(START, steps).value.past| ==>
      AcceptedAll(CallsFor(steps, client)) + Concat(Run(START, steps).value.sh.queue) ==
        KeptBytes(OffersFor(steps, client))
  {
    var s := Run(START, steps).value;
    assert Reachable(s);
    StreamIsConserved(s);
    SessionIsAccounted(steps, client);
  }

  // --- From the steps alone ---------------------------------------------------------------------

  /** A chunk as it is offered: whether it is a header, and its bytes. */
  datatype Chunk = Chunk(header: bool, data: seq<byte>)

  function ChunkOf(step: Step): seq<Chunk> {
    match step
    case RtsHeader(data, _) => [Chunk(true, data)]
    case RtsWrite(data, _) => [Chunk(false, data)]
    case WriteHeader(data, _) => [Chunk(true, data)]
    case _ => []
  }

  function ChunksOf(steps: seq<Step>): seq<Chunk> {
    if steps == [] then [] else ChunksOf(steps[..|steps| - 1]) + ChunkOf(steps[|steps| - 1])
  }

  function Chunks(offers: seq<Offer>): (chunks: seq<Chunk>)
    ensures |chunks| == |offers|
    ensures forall i :: 0 <= i < |offers| ==> chunks[i] == Chunk(offers[i].header, offers[i].data)
  {
    seq(|offers|, i requires 0 <= i < |offers| => Chunk(offers[i].header, offers[i].data))
  }

  function OffersOfPast(past: seq<Session>): seq<Offer> {
    if past == [] then [] else OffersOfPast(past[..|past| - 1]) + past[|past| - 1].offers
  }

  /** All chunks offered so far, session after session. */
  function AllOffers(s: System): seq<Offer> {
    OffersOfPast(s.past) + s.session.offers
  }

  lemma {:induction false} AllOffersGrow(s: System, s': System, offers: seq<Offer>, sent: seq<byte>, ends: bool)
    requires Accounts(s, s', offers, sent, ends)
    ensures AllOffers(s') == AllOffers(s) + offers
  {
    AppendTwice(OffersOfPast(s.past), s.session.offers, offers);
    if ends {
      assert s'.past[..|s'.past| - 1] == s.past;
      assert OffersOfPast(s'.past) + [] == OffersOfPast(s'.past);
    }
  }

  /** Every chunk is on record: the chunks of all sessions, one after the other, are exactly the
      chunks of the steps of the run. */
  lemma {:induction false} EveryChunkIsOnRecord(steps: seq<Step>)
    requires Run(START, steps).Some?
    ensures Chunks(AllOffers(Run(START, steps).value)) == ChunksOf(steps)
    decreases |steps|
  {
    if steps == [] {
      assert AllOffers(START) == [];
    } else {
      var n := |steps| - 1;
      RunKeeps(steps[..n]);
      EveryChunkIsOnRecord(steps[..n]);
      StepIsOnRecord(Run(START, steps[..n]).value, steps[n], Run(START, steps).value);
    }
  }

  lemma {:induction false} StepIsOnRecord(s: System, step: Step, s': System)
    requires Inv(s) && Next(s, step) == Some(s')
    ensures Chunks(AllOffers(s')) == Chunks(AllOffers(s)) + ChunkOf(step)
  {
    StepAccounts(s, step);
    AllOffersGrow(s, s', StepOffers(s, step), AcceptedAll(StepCalls(s, step)),
                  s.sh.fd.Some? && EndsConnection(s, step));
    ChunksAppend(AllOffers(s), StepOffers(s, step));
    assert Chunks(StepOffers(s, step)) == ChunkOf(step);
  }

  lemma ChunksAppend(a: seq<Offer>, b: seq<Offer>)
    ensures Chunks(a + b) == Chunks(a) + Chunks(b)
  {
  }

  function BytesOf(chunks: seq<Chunk>): seq<byte> {
    if chunks == [] then [] else BytesOf(chunks[..|chunks| - 1]) + chunks[|chunks| - 1].data
  }

  lemma {:induction false} BytesOfChunks(offers: seq<Offer>)
    ensures BytesOf(Chunks(offers)) == AllBytes(offers)
    decreases |offers|
  {
    if offers != [] {
      BytesOfChunks(offers[..|offers| - 1]);
      assert Chunks(offers)[..|offers| - 1] == Chunks(offers[..|offers| - 1]);
    }
  }

  /** Until the first client is published, the queue is every byte of every chunk that the steps
      of the run offer. */
  lemma {:induction false} LogIsLosslessInRun(steps: seq<Step>)
    requires Run(START, steps).Some?
    requires Run(START, steps).value.past == [] && Run(START, steps).value.sh.fd == None
    ensures Concat(Run(START, steps).value.sh.queue) == BytesOf(ChunksOf(steps))
  {
    var s := Run(START, steps).value;
    assert Reachable(s);
    LogIsLosslessBeforeFirstClient(s);
    EveryChunkIsOnRecord(steps);
    BytesOfChunks(AllOffers(s));
    assert [] + s.session.offers == s.session.offers;
  }

  // --- The decisions of the listen step ------------------------------------------------------------

  /** Logging is stopped for a client exactly if another writer is running, or ours and this is
      not the first client; the pre-end hook runs in the second case only; and logging is
      started exactly if it was stopped or was not running. */
  lemma RestartIsDecided(s: System)
    requires Reachable(s) && s.pc.Deciding? && Next(s, Decide).Some?
    ensures var pc := Next(s, Decide).value.pc;
      && (s.rts == NoWriter <==> pc == Publishing(s.pc.c, true, s.past != []))
      && (s.rts == OurWriter && s.past == [] <==> pc == Publishing(s.pc.c, false, false))
      && (s.rts == OurWriter && s.past != [] <==> pc == PreHook(s.pc.c, true))
      && (s.rts == OtherWriter <==> pc == Ending(s.pc.c, false, s.past != []))
  {
    ReachableInv(s);
    DecideFrom(s);
  }

  lemma DecideFrom(s: System)
    requires Control(s) && Queue(s) && s.pc.Deciding? && Next(s, Decide).Some?
    ensures var pc := Next(s, Decide).value.pc;
      && (s.rts == NoWriter <==> pc == Publishing(s.pc.c, true, s.past != []))
      && (s.rts == OurWriter && s.past == [] <==> pc == Publishing(s.pc.c, false, false))
      && (s.rts == OurWriter && s.past != [] <==> pc == PreHook(s.pc.c, true))
      && (s.rts == OtherWriter <==> pc == Ending(s.pc.c, false, s.past != []))
  {
  }

  /** If nothing else is written to the wake pipe, draining it ends, with an empty pipe. */
  lemma {:induction false} DrainEnds(s: System) returns (s': System)
    requires Reachable(s) && s.pc == Drain
    ensures Reachable(s') && s' == s.(pc := Top, sh := s.sh.(pipe := 0))
    decreases s.sh.pipe
  {
    var next := if s.sh.pipe > 0 then s.(sh := s.sh.(pipe := if s.sh.pipe > 32 then s.sh.pipe - 32 else 0))
                else s.(pc := Top);
    DrainStep(s, next);
    Go(s, DrainRead, next);
    if s.sh.pipe > 0 {
      s' := DrainEnds(next);
    } else {
      s' := next;
    }
  }

  lemma DrainStep(s: System, next: System)
    requires s.pc == Drain
    requires next == if s.sh.pipe > 0 then s.(sh := s.sh.(pipe := if s.sh.pipe > 32 then s.sh.pipe - 32 else 0))
                     else s.(pc := Top)
    ensures Next(s, DrainRead) == Some(next)
  {
  }
}
