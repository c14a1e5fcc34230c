/** What holds in every run of the writer, the worker and the RTS. */
module SystemTheorems {
  import opened Bytes
  import opened Writer
  import opened System
  import opened SystemInvariant

  /** The states that some run from the start comes to. */
  ghost predicate Reachable(s: System) {
    exists steps :: Run(START, steps) == Some(s)
  }

  lemma ReachableInv(s: System)
    requires Reachable(s)
    ensures Inv(s)
  {
    var steps :| Run(START, steps) == Some(s);
    RunKeeps(steps);
  }

  // --- Streams --------------------------------------------------------------------------------

  /** Conservation and order: within a connection, the bytes that the socket accepted and
      then the queue are the chunks that were kept, whole and in the order in which they
      were offered, whatever the partial writes. A connection that is over has received a
      prefix of that stream. */
  lemma StreamIsConserved(s: System)
    requires Reachable(s)
    ensures s.session.sent + Concat(s.sh.queue) == KeptBytes(s.session.offers)
    ensures forall i :: 0 <= i < |s.past| ==> s.past[i].sent <= KeptBytes(s.past[i].offers)
  {
    ReachableInv(s);
  }

  function AllBytes(offers: seq<Offer>): seq<byte> {
    if offers == [] then [] else AllBytes(offers[..|offers| - 1]) + offers[|offers| - 1].data
  }

  lemma {:induction false} AllKept(offers: seq<Offer>)
    requires forall i :: 0 <= i < |offers| ==> offers[i].kept
    ensures KeptBytes(offers) == AllBytes(offers)
  {
    if offers != [] {
      AllKept(offers[..|offers| - 1]);
    }
  }

  lemma {:induction false} DroppedPrefix(offers: seq<Offer>, p: nat)
    requires p <= |offers| && forall i :: 0 <= i < p ==> !offers[i].kept
    ensures KeptBytes(offers) == KeptBytes(offers[p..])
  {
    if p < |offers| {
      var n := |offers| - 1;
      DroppedPrefix(offers[..n], p);
      assert offers[p..][..n - p] == offers[..n][p..];
    } else if offers != [] {
      var n := |offers| - 1;
      DroppedPrefix(offers[..n], n);
      assert offers[..n][n..] == [] && offers[p..] == [];
    }
  }

  /** Until the first client is published, every byte offered so far waits in the queue. */
  lemma LogIsLosslessBeforeFirstClient(s: System)
    requires Reachable(s) && s.past == [] && s.sh.fd == None
    ensures Concat(s.sh.queue) == AllBytes(s.session.offers) && s.session.sent == []
  {
    ReachableInv(s);
    AllKept(s.session.offers);
  }

  /** Clients after the first receive only bytes offered after their own publication: a
      disconnected socket has an empty queue once there was a first client, and of what was
      offered before a later publication nothing is ever sent. */
  lemma NoStaleBytes(s: System)
    requires Reachable(s)
    ensures s.sh.flags.hadFirst && s.sh.fd == None ==> s.sh.queue == []
    ensures forall i :: 0 < i < |s.past| ==>
      s.past[i].published.Some? && s.past[i].published.value <= |s.past[i].offers|
      && s.past[i].sent <= KeptBytes(s.past[i].offers[s.past[i].published.value..])
    ensures s.past != [] && s.sh.fd.Some? ==>
      s.session.published.Some? && s.session.published.value <= |s.session.offers|
      && s.session.sent + Concat(s.sh.queue) == KeptBytes(s.session.offers[s.session.published.value..])
  {
    ReachableInv(s);
    forall i | 0 < i < |s.past|
      ensures s.past[i].published.Some? && s.past[i].published.value <= |s.past[i].offers|
      ensures s.past[i].sent <= KeptBytes(s.past[i].offers[s.past[i].published.value..])
    {
      assert PastSession(s.past[i], i == 0);
      DroppedPrefix(s.past[i].offers, s.past[i].published.value);
    }
    if s.past != [] && s.sh.fd.Some? {
      DroppedPrefix(s.session.offers, s.session.published.value);
    }
  }

  // --- Headers -----------------------------------------------------------------------------------

  /** Where the header of a session stands among its offers. */
  function HeaderIndex(session: Session, first: bool): Option<nat> {
    if first then Some(0) else session.published
  }

  predicate HeaderWasKept(session: Session, first: bool) {
    var h := HeaderIndex(session, first);
    h.Some? && h.value < |session.offers| ==> session.offers[h.value].kept
  }

  predicate StartsWithHeader(session: Session) {
    Kept(session.offers) != [] ==> Kept(session.offers)[0].header
  }

  lemma {:induction false} KeptMembers(offers: seq<Offer>)
    ensures forall k :: 0 <= k < |Kept(offers)| ==> Kept(offers)[k].kept && Kept(offers)[k] in offers
  {
    if offers != [] {
      KeptMembers(offers[..|offers| - 1]);
    }
  }

  /** The first chunk kept is the one at index h, if that was kept and those before were not. */
  lemma {:induction false} FirstKept(offers: seq<Offer>, h: nat)
    requires h < |offers| && offers[h].kept
    requires forall i :: 0 <= i < h ==> !offers[i].kept
    ensures Kept(offers) != [] && Kept(offers)[0] == offers[h]
  {
    var n := |offers| - 1;
    if h < n {
      FirstKept(offers[..n], h);
    } else {
      NoneKept(offers[..n]);
    }
  }

  lemma {:induction false} NoneKept(offers: seq<Offer>)
    requires forall i :: 0 <= i < |offers| ==> !offers[i].kept
    ensures Kept(offers) == [] && KeptBytes(offers) == []
  {
    if offers != [] {
      NoneKept(offers[..|offers| - 1]);
    }
  }

  lemma HeaderOfSession(session: Session, first: bool)
    requires SessionShape(session, first) && Kept(session.offers) != []
    requires first || session.published.Some?
    ensures StartsWithHeader(session) <==> HeaderWasKept(session, first)
  {
    var h := HeaderIndex(session, first).value;
    KeptMembers(session.offers);
    var k := Kept(session.offers)[0];
    if h < |session.offers| && session.offers[h].kept {
      FirstKept(session.offers, h);
    } else {
      var j :| 0 <= j < |session.offers| && session.offers[j] == k;
      assert session.offers[j].kept && j != h;
      if h >= |session.offers| {
        assert false;
      }
    }
  }

  /** The stream of every client, as far as it is not empty, starts with the eventlog header
      exactly if the header of its session was not dropped. */
  lemma HeaderComesFirst(s: System)
    requires Reachable(s)
    ensures forall i :: 0 <= i < |s.past| && Kept(s.past[i].offers) != [] ==>
      (StartsWithHeader(s.past[i]) <==> HeaderWasKept(s.past[i], i == 0))
    ensures s.sh.fd.Some? && Kept(s.session.offers) != [] ==>
      (StartsWithHeader(s.session) <==> HeaderWasKept(s.session, s.past == []))
  {
    ReachableInv(s);
    forall i | 0 <= i < |s.past| && Kept(s.past[i].offers) != []
      ensures StartsWithHeader(s.past[i]) <==> HeaderWasKept(s.past[i], i == 0)
    {
      assert PastSession(s.past[i], i == 0);
      HeaderOfSession(s.past[i], i == 0);
    }
    if s.sh.fd.Some? && Kept(s.session.offers) != [] {
      HeaderOfSession(s.session, s.past == []);
    }
  }

  /** The direct write of a header does not fail for good. */
  predicate SoftHeader(step: Step) {
    step.WriteHeader? ==> step.r.Wrote? || step.r.Again?
  }

  /** The session of the client with this number: one that is over, or the current one. */
  function SessionAt(s: System, client: nat): Session
    requires client <= |s.past|
  {
    if client < |s.past| then s.past[client] else s.session
  }

  /** In this run, no header written for this client fails for good. */
  predicate SoftFor(steps: seq<Step>, client: nat)
    requires Run(START, steps).Some?
    decreases |steps|
  {
    if steps == [] then true
    else
      var before := steps[..|steps| - 1];
      && SoftFor(before, client)
      && (|Run(START, before).value.past| == client ==> SoftHeader(steps[|steps| - 1]))
  }

  /** What a step does to the sessions: it changes none that is over, ends at most the
      current one, and drops its header exactly if the step is not soft. */
  predicate Continues(s: System, s': System, soft: bool) {
    && |s.past| <= |s'.past| <= |s.past| + 1
    && s'.past[..|s.past|] == s.past
    && (HeaderWasKept(SessionAt(s', |s.past|), First(s)) <==> HeaderWasKept(s.session, First(s)) && soft)
    && (|s'.past| > |s.past| ==> s'.session == NO_SESSION)
  }

  lemma BecameContinues(s: System, sent: seq<byte>, sh: Shared)
    ensures Continues(s, Became(s.(session := s.session.(sent := sent)), sh), true)
  {
  }

  lemma EndedContinues(s: System)
    ensures Continues(s, EndedLogging(s), true)
  {
    BecameContinues(s, s.session.sent, Stop(s.sh));
  }

  /** A header that is due to a client is written directly: nothing is queued before it. */
  lemma NothingBeforeHeader(s: System)
    requires Control(s) && Queue(s) && Sessions(s) && Headers(s) && s.pc.HeaderDue? && s.phase != Down
    ensures s.sh.fd.Some? && s.sh.queue == [] && HeaderIsNext(s)
  {
    NoneKept(s.session.offers);
    assert Concat(s.sh.queue) == [];
  }

  lemma HeaderContinues(s: System, data: seq<byte>, r: WriteResult)
    requires Control(s) && Queue(s) && Sessions(s) && Headers(s) && s.pc.HeaderDue? && s.phase != Down && data != []
    ensures Continues(s, Offered(s, true, data, r), r.Wrote? || r.Again?)
  {
    NothingBeforeHeader(s);
    assert Write(s.sh, data, r).kept <==> r.Wrote? || r.Again?;
  }

  lemma FirstHeaderContinues(s: System, data: seq<byte>, r: WriteResult)
    requires Control(s) && Queue(s) && Headers(s) && s.phase == Starting
    ensures Continues(s, Offered(s, true, data, r), true)
  {
    assert Write(s.sh, data, r).kept;
  }

  lemma ChunkContinues(s: System, data: seq<byte>, r: WriteResult)
    requires Headers(s) && s.rts == OurWriter && s.phase != Down && !HeaderPending(s)
    ensures Continues(s, Offered(s, false, data, r), true)
  {
  }

  lemma RtsContinues(s: System, step: Step)
    requires Inv(s) && RtsNext(s, step).Some?
    ensures Continues(s, RtsNext(s, step).value, true) && SoftHeader(step)
  {
    match step
    case RtsHeader(data, r) => FirstHeaderContinues(s, data, r);
    case RtsWrite(data, r) => ChunkContinues(s, data, r);
    case _ => OtherRtsContinue(s, step);
  }

  lemma OtherRtsContinue(s: System, step: Step)
    requires RtsNext(s, step).Some? && !step.RtsHeader? && !step.RtsWrite?
    ensures Continues(s, RtsNext(s, step).value, true)
  {
    EndedContinues(s);
  }

  lemma WorkerContinues(s: System, step: Step)
    requires WorkerNext(s, step).Some?
    ensures Continues(s, WorkerNext(s, step).value, true) && SoftHeader(step)
  {
    match step
    case LockFlush(results) =>
      var f := Flush(s.sh, results, 0);
      BecameContinues(s, s.session.sent + f.sent, f.shared);
    case LockHangup => BecameContinues(s, s.session.sent, Hangup(s.sh));
    case _ =>
  }

  lemma ListenContinues(s: System, step: Step)
    requires Inv(s) && ListenNext(s, step).Some?
    ensures Continues(s, ListenNext(s, step).value, SoftHeader(step))
  {
    match step
    case WriteHeader(data, r) => HeaderContinues(s, data, r);
    case EndLogging => EndedContinues(s);
    case PublishClient =>
      assert !First(s) ==> s.session.published == None;
    case _ =>
  }

  lemma StepContinues(s: System, step: Step)
    requires Inv(s) && Next(s, step).Some?
    ensures Continues(s, Next(s, step).value, SoftHeader(step))
  {
    if RtsNext(s, step).Some? {
      RtsContinues(s, step);
    } else if WorkerNext(s, step).Some? {
      WorkerContinues(s, step);
    } else {
      ListenContinues(s, step);
    }
  }

  lemma {:induction false} SoftForLater(steps: seq<Step>, client: nat)
    requires Run(START, steps).Some? && client > |Run(START, steps).value.past|
    ensures SoftFor(steps, client)
    decreases |steps|
  {
    if steps != [] {
      var n := |steps| - 1;
      RunKeeps(steps[..n]);
      StepContinues(Run(START, steps[..n]).value, steps[n]);
      SoftForLater(steps[..n], client);
    }
  }

  /** A client's header is dropped exactly if a direct write of a header for that client
      fails for good. */
  lemma {:induction false} HeaderIsKeptIfSoft(steps: seq<Step>, client: nat)
    requires Run(START, steps).Some? && client <= |Run(START, steps).value.past|
    ensures HeaderWasKept(SessionAt(Run(START, steps).value, client), client == 0) <==> SoftFor(steps, client)
    decreases |steps|
  {
    if steps != [] {
      var n := |steps| - 1;
      var s := Run(START, steps[..n]).value;
      RunKeeps(steps[..n]);
      StepContinues(s, steps[n]);
      HeaderOfClient(s, Run(START, steps).value, SoftHeader(steps[n]), client);
      if client > |s.past| {
        SoftForLater(steps[..n], client);
      } else {
        HeaderIsKeptIfSoft(steps[..n], client);
      }
    }
  }

  lemma HeaderOfClient(s: System, s': System, soft: bool, client: nat)
    requires Continues(s, s', soft) && client <= |s'.past|
    ensures client <= |s.past| ==>
      (HeaderWasKept(SessionAt(s', client), client == 0) <==>
        HeaderWasKept(SessionAt(s, client), client == 0) && (client == |s.past| ==> soft))
    ensures client > |s.past| ==> HeaderWasKept(SessionAt(s', client), client == 0)
  {
    if client < |s.past| {
      assert s'.past[client] == s'.past[..|s.past|][client];
    }
  }

  predicate AllSoft(steps: seq<Step>) {
    forall k :: 0 <= k < |steps| ==> SoftHeader(steps[k])
  }

  lemma {:induction false} AllSoftIsSoft(steps: seq<Step>, client: nat)
    requires Run(START, steps).Some? && AllSoft(steps)
    ensures SoftFor(steps, client)
    decreases |steps|
  {
    if steps != [] {
      AllSoftIsSoft(steps[..|steps| - 1], client);
    }
  }

  /** A header write that fails for good is some client's. */
  lemma {:induction false} HardWriteOf(steps: seq<Step>, k: nat) returns (client: nat)
    requires Run(START, steps).Some? && k < |steps| && !SoftHeader(steps[k])
    ensures client <= |Run(START, steps).value.past| && !SoftFor(steps, client)
    decreases |steps|
  {
    var n := |steps| - 1;
    RunKeeps(steps[..n]);
    StepContinues(Run(START, steps[..n]).value, steps[n]);
    if k == n {
      client := |Run(START, steps[..n]).value.past|;
    } else {
      client := HardWriteOf(steps[..n], k);
    }
  }

  ghost predicate HeadersKept(s: System) {
    forall client :: 0 <= client <= |s.past| ==> HeaderWasKept(SessionAt(s, client), client == 0)
  }

  /** No client's header is dropped exactly if no direct write of a header fails for good. */
  lemma {:induction false} HeadersAreKeptIfSoft(steps: seq<Step>)
    requires Run(START, steps).Some?
    ensures HeadersKept(Run(START, steps).value) <==> AllSoft(steps)
  {
    var s := Run(START, steps).value;
    if AllSoft(steps) {
      forall client | 0 <= client <= |s.past|
        ensures HeaderWasKept(SessionAt(s, client), client == 0)
      {
        AllSoftIsSoft(steps, client);
        HeaderIsKeptIfSoft(steps, client);
      }
    } else {
      var k :| 0 <= k < |steps| && !SoftHeader(steps[k]);
      var client := HardWriteOf(steps, k);
      HeaderIsKeptIfSoft(steps, client);
    }
  }

  lemma {:induction false} KeptBytesStart(offers: seq<Offer>)
    ensures Kept(offers) == [] ==> KeptBytes(offers) == []
    ensures Kept(offers) != [] ==> Kept(offers)[0].data <= KeptBytes(offers)
  {
    if offers != [] {
      KeptBytesStart(offers[..|offers| - 1]);
    }
  }

  /** What the client receives is a part of the header, or the whole header and more. */
  predicate ReceivesHeaderFirst(session: Session) {
    session.sent != [] ==>
      Kept(session.offers) != [] && Kept(session.offers)[0].header
      && (session.sent <= Kept(session.offers)[0].data || Kept(session.offers)[0].data <= session.sent)
  }

  lemma StreamPrefixes(a: seq<byte>, b: seq<byte>, c: seq<byte>)
    requires a <= c && b <= c
    ensures a <= b || b <= a
  {
    if |a| <= |b| {
      assert a == c[..|a|] == b[..|a|];
    } else {
      assert b == c[..|b|] == a[..|b|];
    }
  }

  lemma ReceivedHeader(session: Session)
    requires session.sent <= KeptBytes(session.offers) && session.sent != []
    ensures Kept(session.offers) != []
    ensures ReceivesHeaderFirst(session) <==> StartsWithHeader(session)
  {
    KeptBytesStart(session.offers);
    StreamPrefixes(session.sent, Kept(session.offers)[0].data, KeptBytes(session.offers));
  }

  /** Whatever a client receives starts with the eventlog header exactly if no direct write of
      that client's header fails for good. */
  lemma {:induction false} StreamStartsWithHeaderIfSoft(steps: seq<Step>, client: nat)
    requires Run(START, steps).Some? && client <= |Run(START, steps).value.past|
    ensures var session := SessionAt(Run(START, steps).value, client);
      ReceivesHeaderFirst(session) <==> session.sent == [] || SoftFor(steps, client)
  {
    var s := Run(START, steps).value;
    var session := SessionAt(s, client);
    if session.sent != [] {
      assert Reachable(s);
      ReachableInv(s);
      StreamIsConserved(s);
      assert client < |s.past| ==> PastSession(s.past[client], client == 0);
      ReceivedHeader(session);
      HeaderOfSession(session, client == 0);
      HeaderIsKeptIfSoft(steps, client);
    }
  }

  /** So if direct writes of headers fail only with advice to retry, whatever any client
      receives starts with an eventlog header. */
  lemma {:induction false} EveryStreamStartsWithHeader(steps: seq<Step>)
    requires Run(START, steps).Some?
    requires AllSoft(steps)
    ensures var s := Run(START, steps).value;
      && (forall i :: 0 <= i < |s.past| ==> ReceivesHeaderFirst(s.past[i]))
      && ReceivesHeaderFirst(s.session)
  {
    var s := Run(START, steps).value;
    forall client | 0 <= client <= |s.past|
      ensures ReceivesHeaderFirst(SessionAt(s, client))
    {
      AllSoftIsSoft(steps, client);
      StreamStartsWithHeaderIfSoft(steps, client);
    }
    assert forall i :: 0 <= i < |s.past| ==> SessionAt(s, i) == s.past[i];
    assert SessionAt(s, |s.past|) == s.session;
  }

  // --- Runs that show what can happen ---------------------------------------------------------------

  /** A run can be continued by any step that is enabled. */
  lemma Go(s: System, step: Step, s': System)
    requires Reachable(s) && Next(s, step) == Some(s')
    ensures Reachable(s')
  {
    var steps :| Run(START, steps) == Some(s);
    assert (steps + [step])[..|steps|] == steps;
    assert Run(START, steps + [step]) == Some(s');
  }

  lemma GoListen(s: System, step: Step, s': System)
    requires Reachable(s) && ListenNext(s, step) == Some(s')
    ensures Reachable(s')
  {
    assert RtsNext(s, step).None?;
    assert WorkerNext(s, step).None?;
    Go(s, step, s');
  }

  /** The library and the RTS are up, without any writer. */
  const READY := START.(sh := INITIAL.(flags := Flags(true, false, true, false)), phase := Up)

  lemma ReadyIsReachable()
    ensures Reachable(READY)
  {
    assert Run(START, []) == Some(START);
    var initialized := START.(sh := INITIAL.(flags := Flags(true, false, false, false)));
    Go(START, SocketInit, initialized);
    Go(initialized, RtsStart(NoWriter), initialized.(phase := Up));
    Go(initialized.(phase := Up), Signal, READY);
  }

  /** The first client, while the worker is at this place of the listen step. */
  function Listening(pc: Pc): System {
    READY.(nextClient := 1, pc := pc)
  }

  lemma FirstClientAccepted()
    ensures Reachable(Listening(ReadState(0)))
  {
    ReadyIsReachable();
    Go(READY, Snapshot, READY.(pc := Accepting));
    GoListen(READY.(pc := Accepting), Accept, Listening(AwaitReady(0)));
    GoListen(Listening(AwaitReady(0)), SeeReady, Listening(ReadState(0)));
  }

  lemma FirstClientDecided()
    ensures Reachable(Listening(Publishing(0, true, false)))
  {
    FirstClientAccepted();
    GoListen(Listening(ReadState(0)), ReadFlags, Listening(Deciding(0, false, false)));
    GoListen(Listening(Deciding(0, false, false)), Decide, Listening(Publishing(0, true, false)));
  }

  /** The first client is published and our writer attached, but its header not written. */
  const HEADER_DUE := Listening(HeaderDue(0, false)).(
    sh := Shared(Some(0), [], Flags(true, true, true, false), 0), rts := OurWriter, lastPublished := 0,
    session := Session([], Some(0), []), events := [Attached])

  const PUBLISHED := Listening(StartingLog(0, false)).(
    sh := Shared(Some(0), [], Flags(true, false, true, false), 0), lastPublished := 0,
    session := Session([], Some(0), []))

  lemma PublishedIsReachable()
    ensures Reachable(PUBLISHED)
  {
    FirstClientDecided();
    GoListen(Listening(Publishing(0, true, false)), PublishClient, PUBLISHED);
  }

  lemma HeaderDueIsReachable()
    ensures Reachable(HEADER_DUE)
  {
    PublishedIsReachable();
    assert PUBLISHED.events + [Attached] == [Attached];
    GoListen(PUBLISHED, StartLogging, HEADER_DUE);
  }

  /** The same after a direct write of the header that did not send anything. */
  function HeaderWritten(r: WriteResult): System {
    HEADER_DUE.(pc := PostHook(0, false), sh := Write(HEADER_DUE.sh, [1], r).shared,
                session := Session([Offer(true, [1], r == Again)], Some(0), []))
  }

  lemma HeaderIsWritten(r: WriteResult)
    requires r == Again || r == Failed
    ensures ListenNext(HEADER_DUE, WriteHeader([1], r)) == Some(HeaderWritten(r))
  {
    assert HEADER_DUE.session.offers + [Offer(true, [1], r == Again)] == [Offer(true, [1], r == Again)];
    assert HEADER_DUE.session.sent + [] == [];
  }

  lemma HeaderWrittenIsReachable(r: WriteResult)
    requires r == Again || r == Failed
    ensures Reachable(HeaderWritten(r))
  {
    HeaderDueIsReachable();
    HeaderIsWritten(r);
    GoListen(HEADER_DUE, WriteHeader([1], r), HeaderWritten(r));
  }

  /** The end of the listen step for a first client. */
  function Listened(s: System): System {
    s.(pc := Top, events := s.events + [Post], sh := MarkFirst(s.sh))
  }

  lemma ListenedIsReachable(s: System)
    requires Reachable(s) && s.pc == PostHook(0, false) && s.phase == Up
    ensures Reachable(Listened(s))
  {
    var posted := s.(pc := Finishing(0, false), events := s.events + [Post]);
    GoListen(s, RunPostHook, posted);
    PostedListens(posted);
    GoListen(posted, FinishListen, Listened(s));
  }

  lemma PostedListens(s: System)
    requires s.pc == Finishing(0, false) && s.phase == Up
    ensures ListenNext(s, FinishListen) == Some(s.(pc := Top, sh := MarkFirst(s.sh)))
  {
  }

  function Connected(r: WriteResult): System {
    Listened(HeaderWritten(r))
  }

  lemma ConnectedIsReachable(r: WriteResult)
    requires r == Again || r == Failed
    ensures Reachable(Connected(r))
  {
    HeaderWrittenIsReachable(r);
    ListenedIsReachable(HeaderWritten(r));
  }

  /** The condition on header writes is needed: when the direct write of the header fails for
      another reason, the header is dropped and the client's stream starts without it. */
  lemma HeaderCanBeLost() returns (s: System)
    ensures Reachable(s) && s.sh.fd == Some(0)
    ensures s.session.sent == [2] && !StartsWithHeader(s.session)
  {
    ConnectedIsReachable(Failed);
    var offers := [Offer(true, [1], false), Offer(false, [2], true)];
    s := Connected(Failed).(session := Session(offers, Some(0), [2]));
    assert Connected(Failed).session.offers + [offers[1]] == offers;
    assert Connected(Failed).session.sent + [2] == [2];
    Go(Connected(Failed), RtsWrite([2], Wrote(1)), s);
    assert offers[..1] == [Offer(true, [1], false)] && offers[..1][..0] == [];
    assert Kept(offers[..1]) == [];
  }

  // --- The worker ---------------------------------------------------------------------------------------

  /** No lost wake-up: while the worker waits in the poll for no data and there is data, the
      wake pipe holds a byte, and the poll can return. */
  lemma NoLostWakeUp(s: System)
    requires Reachable(s) && s.pc.PollIdle? && s.sh.queue != []
    ensures s.sh.pipe > 0 && Next(s, PollWake).Some?
  {
    ReachableInv(s);
  }

  /** Where the worker relies on its snapshot of the client, the shared descriptor is still
      that client exactly while the RTS is not shut down, and otherwise there is none. */
  lemma SnapshotIsCurrentOrGone(s: System, c: nat)
    requires Reachable(s)
    requires s.pc in {PollIdle(c), HupIdle(c), PollOut(c), HupOut(c), Writable(c)}
    ensures s.sh.fd == Some(c) <==> s.phase != Down
    ensures s.sh.fd != Some(c) ==> s.sh.fd == None
  {
    ReachableInv(s);
  }

  /** The stronger assertion in the source, that it is still that client, fails in a run in
      which the RTS shuts down between the poll and the critical section. */
  lemma SnapshotCanBeGone() returns (s: System)
    ensures Reachable(s) && s.pc == HupOut(0) && s.sh.fd == None
  {
    ConnectedIsReachable(Again);
    var up := Connected(Again);
    Go(up, Snapshot, up.(pc := PollOut(0)));
    Go(up.(pc := PollOut(0)), PollHangup, up.(pc := HupOut(0)));
    s := EndedLogging(up.(pc := HupOut(0))).(phase := Down);
    Go(up.(pc := HupOut(0)), Shutdown, s);
  }

  /** The worker's own endEventLogging stops our writer only while no client is connected
      and nothing is queued: all it does to the shared state is to mark the detachment. */
  lemma RestartIsHarmless(s: System)
    requires Reachable(s) && s.pc.Ending? && Next(s, EndLogging).Some?
    ensures var s' := Next(s, EndLogging).value;
      && s.sh.fd == None
      && (s.rts == OurWriter ==> s.sh.queue == [])
      && s'.sh == s.sh.(flags := s.sh.flags.(attached := false))
      && s'.session == s.session && s'.past == s.past
  {
    ReachableInv(s);
    EndingIsHarmless(s);
  }

  lemma EndingIsHarmless(s: System)
    requires Control(s) && Queue(s) && s.pc.Ending? && ListenNext(s, EndLogging).Some?
    ensures var s' := ListenNext(s, EndLogging).value;
      && s.sh.fd == None
      && (s.rts == OurWriter ==> s.sh.queue == [])
      && s'.sh == s.sh.(flags := s.sh.flags.(attached := false))
      && s'.session == s.session && s'.past == s.past
  {
  }

  // --- Hooks and flags -------------------------------------------------------------------------------------

  function HooksOnly(events: seq<Event>): seq<Event> {
    if events == [] then []
    else
      var n := |events| - 1;
      var others := HooksOnly(events[..n]);
      if events[n] == Post || events[n] == Pre then others + [events[n]] else others
  }

  lemma {:induction false} HooksAlternate(events: seq<Event>)
    requires forall i :: 0 <= i < |events| ==> events[i] == Cycle(i)
    ensures |HooksOnly(events)| ==
      |events| / 4 * 2 + (if |events| % 4 == 3 then 2 else if |events| % 4 == 2 then 1 else 0)
    ensures forall i :: 0 <= i < |HooksOnly(events)| ==> HooksOnly(events)[i] == if i % 2 == 0 then Post else Pre
  {
    if events != [] {
      HooksAlternate(events[..|events| - 1]);
    }
  }

  /** Hook discipline: attachments, post-start hooks, pre-end hooks and detachments follow
      each other in this cycle, in both start-ups; so the hooks alone are a prefix of
      Post (Pre Post)*. */
  lemma HookTrace(s: System)
    requires Reachable(s)
    ensures forall i :: 0 <= i < |s.events| ==> s.events[i] == Cycle(i)
    ensures forall i :: 0 <= i < |HooksOnly(s.events)| ==> HooksOnly(s.events)[i] == if i % 2 == 0 then Post else Pre
    ensures s.phase != Down ==> (s.rts == OurWriter <==> |s.events| % 4 != 0)
  {
    ReachableInv(s);
    HooksAlternate(s.events);
  }

  /** What the worker does to the RTS, and the hooks it runs. */
  predicate WorkerDrivesRts(step: Step) {
    step.RunPreHook? || step.EndLogging? || step.PublishClient? || step.StartFails? || step.StartLogging?
    || step.WriteHeader? || step.RunPostHook?
  }

  /** None of that happens before the RTS is ready, and there is no client either. */
  lemma NothingBeforeReady(s: System, step: Step)
    requires Reachable(s) && Next(s, step).Some?
    ensures WorkerDrivesRts(step) ==> s.sh.flags.rtsReady
    ensures s.sh.fd.Some? || s.sh.flags.hadFirst ==> s.sh.flags.rtsReady
    ensures s.sh.flags.rtsReady ==> s.phase == Up || s.phase == Down
  {
    ReachableInv(s);
    if WorkerDrivesRts(step) {
      DrivingIsListening(s, step);
    }
  }

  lemma DrivingIsListening(s: System, step: Step)
    requires Next(s, step).Some? && WorkerDrivesRts(step)
    ensures InListen(s.pc) && !s.pc.Accepting? && !s.pc.AwaitReady?
  {
  }

  predicate FlagsKept(a: Flags, b: Flags) {
    (a.initialized ==> b.initialized) && (a.rtsReady ==> b.rtsReady) && (a.hadFirst ==> b.hadFirst)
  }

  lemma StepKeepsFlags(s: System, step: Step)
    requires Inv(s) && Next(s, step).Some?
    ensures FlagsKept(s.sh.flags, Next(s, step).value.sh.flags)
  {
    if RtsNext(s, step).Some? {
      RtsKeepsFlags(s, step);
    } else if WorkerNext(s, step).Some? {
      WorkerKeepsFlags(s, step);
    } else {
      ListenKeepsFlags(s, step);
    }
  }

  lemma WorkerKeepsFlags(s: System, step: Step)
    requires ItemsNonEmpty(s.sh.queue) && WorkerNext(s, step).Some?
    ensures WorkerNext(s, step).value.sh.flags == s.sh.flags
  {
    if step.LockFlush? {
      FlushSendsPrefix(s.sh, step.results, 0);
    }
  }

  lemma RtsKeepsFlags(s: System, step: Step)
    requires RtsNext(s, step).Some?
    ensures FlagsKept(s.sh.flags, RtsNext(s, step).value.sh.flags)
  {
  }

  lemma ListenKeepsFlags(s: System, step: Step)
    requires ListenNext(s, step).Some?
    ensures FlagsKept(s.sh.flags, ListenNext(s, step).value.sh.flags)
  {
  }

  /** INITIALIZED, RTS_READY and HAD_FIRST_CONNECTION never clear. */
  lemma {:induction false} FlagsNeverClear(steps: seq<Step>, n: nat)
    requires Run(START, steps).Some? && n <= |steps|
    ensures Run(START, steps[..n]).Some?
    ensures FlagsKept(Run(START, steps[..n]).value.sh.flags, Run(START, steps).value.sh.flags)
    decreases |steps|
  {
    if n == |steps| {
      assert steps[..n] == steps;
    } else {
      var before := steps[..|steps| - 1];
      FlagsNeverClear(before, n);
      assert before[..n] == steps[..n];
      RunKeeps(before);
      StepKeepsFlags(Run(START, before).value, steps[|steps| - 1]);
    }
  }
}
