/** What every step of the system keeps. */
module SystemInvariant {
  import opened Bytes
  import opened Writer
  import opened System

  // --- Control ------------------------------------------------------------------------------

  /** The connected client is c; only the shutdown takes it away behind the worker's back. */
  predicate OnClient(s: System, c: nat) {
    s.sh.fd == Some(c) || (s.sh.fd == None && s.phase == Down && s.past != [])
  }

  /** Outside the listen step, the client of the worker's snapshot is connected exactly until
      the shutdown. */
  predicate OnSnapshot(s: System, c: nat) {
    s.sh.fd == (if s.phase == Down then None else Some(c)) && OnClient(s, c)
  }

  /** In the listen step, before the publication of client c. */
  predicate BeforePublication(s: System, c: nat) {
    s.sh.fd == None && s.lastPublished < c < s.nextClient
  }

  predicate FlagsAgree(s: System, hadFirst: bool) {
    s.sh.flags.rtsReady && hadFirst == s.sh.flags.hadFirst
  }

  /** What holds where the worker is. */
  predicate PcOk(s: System) {
    match s.pc
    case Top => true
    case PollIdle(c) => OnSnapshot(s, c)
    case Drain => true
    case HupIdle(c) => OnSnapshot(s, c)
    case PollOut(c) => OnSnapshot(s, c)
    case HupOut(c) => OnSnapshot(s, c)
    case Writable(c) => OnSnapshot(s, c)
    case Accepting => s.sh.fd == None
    case AwaitReady(c) => BeforePublication(s, c)
    case ReadState(c) => BeforePublication(s, c) && s.sh.flags.rtsReady
    case Deciding(c, attached, hadFirst) =>
      BeforePublication(s, c) && FlagsAgree(s, hadFirst) && (s.phase != Down ==> attached == s.sh.flags.attached)
    case PreHook(c, hadFirst) =>
      BeforePublication(s, c) && FlagsAgree(s, hadFirst) && hadFirst && (s.phase != Down ==> s.rts == OurWriter)
    case Ending(c, attached, hadFirst) =>
      BeforePublication(s, c) && FlagsAgree(s, hadFirst) && (attached ==> hadFirst)
      && (s.phase != Down ==> s.rts == if attached then OurWriter else OtherWriter)
    case Publishing(c, start, hadFirst) =>
      BeforePublication(s, c) && FlagsAgree(s, hadFirst)
      && (s.phase != Down ==> s.rts == if start then NoWriter else OurWriter)
      && (!start ==> !hadFirst)
    case StartingLog(c, hadFirst) => OnClient(s, c) && FlagsAgree(s, hadFirst) && s.rts == NoWriter
    case HeaderDue(c, hadFirst) =>
      OnClient(s, c) && FlagsAgree(s, hadFirst) && (s.phase != Down ==> s.rts == OurWriter)
    case PostHook(c, hadFirst) =>
      OnClient(s, c) && FlagsAgree(s, hadFirst) && (s.phase != Down ==> s.rts == OurWriter)
    case Finishing(c, hadFirst) =>
      OnClient(s, c) && FlagsAgree(s, hadFirst) && (s.phase != Down ==> s.rts == OurWriter)
    case Exited => true
  }

  /** In the listen step, after the publication. */
  predicate AfterPublication(pc: Pc) {
    pc.StartingLog? || pc.HeaderDue? || pc.PostHook? || pc.Finishing?
  }

  predicate Control(s: System) {
    && PcOk(s)
    && (s.pc != Top ==> s.sh.flags.initialized)
    // the flags
    && (s.sh.flags.attached <==> s.rts == OurWriter)
    && (s.rts == OurWriter ==> s.sh.flags.initialized)
    && (s.sh.flags.rtsReady ==> s.phase == Up || s.phase == Down)
    && (s.sh.flags.hadFirst ==> s.sh.flags.rtsReady)
    // the phases
    && (s.phase == NotStarted || s.phase == Down ==> s.rts == NoWriter)
    && (s.phase == Starting ==> s.rts == OurWriter)
    // the clients
    && s.lastPublished < s.nextClient
    && (s.sh.fd.Some? ==> s.sh.fd.value == s.lastPublished)
    && (s.sh.fd.Some? ==> s.sh.flags.rtsReady)
    && (s.sh.fd.Some? && s.phase != Down && !AfterPublication(s.pc) ==> s.sh.flags.hadFirst)
    && (s.sh.fd.Some? && !InListen(s.pc) ==> s.phase != Down && s.rts == OurWriter)
  }

  // --- The queue and the wake pipe -------------------------------------------------------------

  predicate First(s: System) {
    s.past == []
  }

  predicate Queue(s: System) {
    && ItemsNonEmpty(s.sh.queue)
    && s.sh.pipe <= PIPE_CAPACITY
    && (s.pc.PollIdle? && s.sh.queue != [] ==> s.sh.pipe > 0)
    && (First(s) && s.sh.fd == None ==> !s.sh.flags.hadFirst)
    && (!First(s) && s.phase != Down ==> s.sh.flags.hadFirst)
    && (!First(s) && s.sh.fd == None ==> s.sh.queue == [])
  }

  // --- Sessions -----------------------------------------------------------------------------------

  /** The chunks that were kept, in the order in which they were offered. */
  function Kept(offers: seq<Offer>): seq<Offer> {
    if offers == [] then []
    else
      var n := |offers| - 1;
      if offers[n].kept then Kept(offers[..n]) + [offers[n]] else Kept(offers[..n])
  }

  function KeptBytes(offers: seq<Offer>): seq<byte> {
    if offers == [] then []
    else
      var n := |offers| - 1;
      if offers[n].kept then KeptBytes(offers[..n]) + offers[n].data else KeptBytes(offers[..n])
  }

  /** Chunks offered before the publication are all kept for the first client, and all
      dropped for every other one. */
  predicate EarlyOffers(session: Session, first: bool) {
    match session.published
    case Some(p) =>
      p <= |session.offers| && forall i :: 0 <= i < p ==> session.offers[i].kept == first
    case None =>
      session.sent == [] && forall i :: 0 <= i < |session.offers| ==> session.offers[i].kept == first
  }

  /** The one header of the session is the first chunk of all for the first client, and the
      first chunk after the publication for every other one. */
  predicate HeaderPlace(session: Session, first: bool) {
    forall i :: 0 <= i < |session.offers| ==>
      (session.offers[i].header <==> if first then i == 0 else session.published == Some(i))
  }

  predicate SessionShape(session: Session, first: bool) {
    && EarlyOffers(session, first)
    && HeaderPlace(session, first)
    && forall i :: 0 <= i < |session.offers| ==> session.offers[i].data != []
  }

  /** How many chunks were offered when the header of this session is due. */
  predicate HeaderIsNext(s: System) {
    if First(s) then s.session.offers == []
    else s.session.published == None || s.session.published == Some(|s.session.offers|)
  }

  predicate HeaderIsOut(s: System) {
    if First(s) then s.session.offers != []
    else s.session.published == None || s.session.published.value < |s.session.offers|
  }

  predicate HeaderPending(s: System) {
    s.phase == Starting || s.pc.HeaderDue?
  }

  predicate Headers(s: System) {
    && (s.phase == Starting ==> First(s) && s.session.published == None)
    && (s.phase != Down ==> if s.rts == OurWriter && !HeaderPending(s) then HeaderIsOut(s) else HeaderIsNext(s))
    && (s.pc.HeaderDue? && s.phase != Down ==> s.session.published.Some?)
  }

  /** What the socket accepted, and then the queue, are the bytes of the chunks kept. */
  predicate Conserved(s: System) {
    s.session.sent + Concat(s.sh.queue) == KeptBytes(s.session.offers)
  }

  predicate PastSession(session: Session, first: bool) {
    SessionShape(session, first) && session.published.Some? && session.sent <= KeptBytes(session.offers)
  }

  ghost predicate Sessions(s: System) {
    && (s.session.published.Some? <==> s.sh.fd.Some?)
    && Conserved(s)
    && SessionShape(s.session, First(s))
    && (forall i :: 0 <= i < |s.past| ==> PastSession(s.past[i], i == 0))
  }

  // --- Hooks ------------------------------------------------------------------------------------------

  /** Attachment, post-start hook, pre-end hook, detachment, over and over. */
  function Cycle(i: nat): Event {
    if i % 4 == 0 then Attached else if i % 4 == 1 then Post else if i % 4 == 2 then Pre else Detached
  }

  function Due(s: System): nat {
    if s.rts != OurWriter then 0
    else if !s.sh.flags.rtsReady || s.pc.HeaderDue? || s.pc.PostHook? then 1
    else if s.pc.Ending? then 3
    else 2
  }

  predicate Hooks(s: System) {
    && (forall i :: 0 <= i < |s.events| ==> s.events[i] == Cycle(i))
    && (s.phase != Down ==> |s.events| % 4 == Due(s))
  }

  ghost predicate Inv(s: System) {
    Control(s) && Queue(s) && Sessions(s) && Headers(s) && Hooks(s)
  }

  // --- Each step keeps it ----------------------------------------------------------------------------------

  lemma ControlRts(s: System, step: Step)
    requires Control(s) && RtsNext(s, step).Some?
    ensures Control(RtsNext(s, step).value)
  {
    match step
    case RtsHeader(data, r) => OfferedFrame(s, true, data, r);
    case RtsWrite(data, r) => OfferedFrame(s, false, data, r);
    case RtsStart(writer) => ControlStart(s, writer);
    case Shutdown => ControlShutdown(s);
    case _ =>
  }

  /** A chunk that is offered changes neither the descriptor nor the flags. */
  lemma OfferedFrame(s: System, header: bool, data: seq<byte>, r: WriteResult)
    ensures var s' := Offered(s, header, data, r);
      s' == s.(sh := s.sh.(queue := s'.sh.queue, pipe := s'.sh.pipe), session := s'.session)
  {
  }

  lemma ControlStart(s: System, writer: Attachment)
    requires Control(s) && RtsNext(s, RtsStart(writer)).Some?
    ensures Control(RtsNext(s, RtsStart(writer)).value)
  {
  }

  lemma ControlShutdown(s: System)
    requires Control(s) && s.phase == Up
    ensures Control(EndedLogging(s).(phase := Down))
  {
  }

  lemma ControlWorker(s: System, step: Step)
    requires Control(s) && Queue(s) && WorkerNext(s, step).Some?
    ensures Control(WorkerNext(s, step).value)
  {
    match step
    case LockFlush(results) => FlushSendsPrefix(s.sh, results, 0);
    case _ =>
  }

  lemma ControlListen(s: System, step: Step)
    requires Control(s) && ListenNext(s, step).Some?
    ensures Control(ListenNext(s, step).value)
  {
    match step
    case WriteHeader(data, r) => OfferedFrame(s, true, data, r);
    case EndLogging => ControlEnd(s);
    case PublishClient => ControlPublish(s);
    case StartLogging => ControlRestart(s);
    case _ => ControlMove(s, step);
  }

  lemma ControlEnd(s: System)
    requires Control(s) && ListenNext(s, EndLogging).Some?
    ensures Control(ListenNext(s, EndLogging).value)
  {
  }

  lemma ControlPublish(s: System)
    requires Control(s) && ListenNext(s, PublishClient).Some?
    ensures Control(ListenNext(s, PublishClient).value)
  {
  }

  lemma ControlRestart(s: System)
    requires Control(s) && ListenNext(s, StartLogging).Some?
    ensures Control(ListenNext(s, StartLogging).value)
  {
  }

  /** The steps of the listen step that leave logging and the descriptor alone. */
  lemma ControlMove(s: System, step: Step)
    requires Control(s) && ListenNext(s, step).Some?
    requires !step.WriteHeader? && !step.EndLogging? && !step.PublishClient? && !step.StartLogging?
    ensures Control(ListenNext(s, step).value)
  {
  }

  lemma QueueRts(s: System, step: Step)
    requires Control(s) && Queue(s) && RtsNext(s, step).Some?
    ensures Queue(RtsNext(s, step).value)
  {
    match step
    case RtsHeader(data, r) => QueueOffered(s, true, data, r);
    case RtsWrite(data, r) => QueueOffered(s, false, data, r);
    case _ =>
  }

  lemma QueueOffered(s: System, header: bool, data: seq<byte>, r: WriteResult)
    requires Queue(s) && s.phase != Down && (s.pc != Top ==> s.sh.flags.initialized) && data != []
    ensures Queue(Offered(s, header, data, r))
  {
    WriteConserves(s.sh, data, r);
  }

  lemma QueueWorker(s: System, step: Step)
    requires Control(s) && Queue(s) && WorkerNext(s, step).Some?
    ensures Queue(WorkerNext(s, step).value)
  {
    match step
    case LockFlush(results) => FlushSendsPrefix(s.sh, results, 0);
    case _ =>
  }

  lemma QueueListen(s: System, step: Step)
    requires Control(s) && Queue(s) && ListenNext(s, step).Some?
    ensures Queue(ListenNext(s, step).value)
  {
    match step
    case WriteHeader(data, r) => WriteConserves(s.sh, data, r);
    case _ =>
  }

  lemma HooksRts(s: System, step: Step)
    requires Control(s) && Hooks(s) && RtsNext(s, step).Some?
    ensures Hooks(RtsNext(s, step).value)
  {
  }

  lemma HooksWorker(s: System, step: Step)
    requires Control(s) && Queue(s) && Hooks(s) && WorkerNext(s, step).Some?
    ensures Hooks(WorkerNext(s, step).value)
  {
    match step
    case LockFlush(results) => FlushSendsPrefix(s.sh, results, 0);
    case _ =>
  }

  lemma HooksListen(s: System, step: Step)
    requires Control(s) && Hooks(s) && ListenNext(s, step).Some?
    ensures Hooks(ListenNext(s, step).value)
  {
  }

  lemma {:induction false} KeptBytesSnoc(offers: seq<Offer>, o: Offer)
    ensures KeptBytes(offers + [o]) == KeptBytes(offers) + (if o.kept then o.data else [])
  {
    assert (offers + [o])[..|offers|] == offers;
    assert KeptBytes(offers) + [] == KeptBytes(offers);
  }

  lemma OfferedConserves(s: System, header: bool, data: seq<byte>, r: WriteResult)
    requires Queue(s) && Conserved(s) && data != []
    ensures Conserved(Offered(s, header, data, r))
  {
    var w := Write(s.sh, data, r);
    var sent, queue, added := s.session.sent, Concat(s.sh.queue), if w.kept then data else [];
    WriteConserves(s.sh, data, r);
    KeptBytesSnoc(s.session.offers, Offer(header, data, w.kept));
    assert (sent + w.sent) + Concat(w.shared.queue) == sent + (w.sent + Concat(w.shared.queue));
    assert sent + (queue + added) == (sent + queue) + added;
  }

  /** A chunk is offered: a header when it is due, any other chunk after the header. */
  lemma OfferedSession(s: System, header: bool, data: seq<byte>, r: WriteResult)
    requires Control(s) && Queue(s) && Sessions(s) && s.rts == OurWriter && data != []
    requires if header then HeaderIsNext(s) && (First(s) || s.session.published.Some?) else HeaderIsOut(s)
    ensures Sessions(Offered(s, header, data, r))
    ensures HeaderIsOut(Offered(s, header, data, r))
  {
    OfferedConserves(s, header, data, r);
    OfferedShape(s, header, data, r);
  }

  lemma OfferedShape(s: System, header: bool, data: seq<byte>, r: WriteResult)
    requires Control(s) && Queue(s) && s.rts == OurWriter && data != []
    requires (s.session.published.Some? <==> s.sh.fd.Some?) && SessionShape(s.session, First(s))
    requires if header then HeaderIsNext(s) && (First(s) || s.session.published.Some?) else HeaderIsOut(s)
    ensures SessionShape(Offered(s, header, data, r).session, First(s))
    ensures HeaderIsOut(Offered(s, header, data, r))
  {
    var w := Write(s.sh, data, r);
    assert s.sh.fd.None? ==> w.kept == First(s) && w.sent == [];
    ShapeSnoc(s.session, First(s), Offer(header, data, w.kept), s.session.sent + w.sent);
  }

  lemma ShapeSnoc(session: Session, first: bool, offer: Offer, sent: seq<byte>)
    requires SessionShape(session, first) && offer.data != []
    requires session.published == None ==> offer.kept == first && sent == []
    requires offer.header <==> if first then session.offers == [] else session.published == Some(|session.offers|)
    ensures SessionShape(session.(offers := session.offers + [offer], sent := sent), first)
  {
    var after := session.offers + [offer];
    assert forall i :: 0 <= i < |session.offers| ==> after[i] == session.offers[i];
    assert after[|session.offers|] == offer;
  }

  /** The connection ends, or the shared state changes in ways that sessions do not show. */
  lemma BecameSession(s: System, sh: Shared)
    requires Sessions(s) && Control(s)
    requires (sh.fd == s.sh.fd && sh.queue == s.sh.queue) || (sh.fd == None && sh.queue == [] && s.sh.fd.Some?)
    ensures Sessions(Became(s, sh))
  {
    if s.sh.fd.Some? && sh.fd.None? {
      assert s.session.sent <= KeptBytes(s.session.offers);
      assert Became(s, sh).past[..|s.past|] == s.past;
    }
  }

  lemma SessionsRts(s: System, step: Step)
    requires Control(s) && Queue(s) && Sessions(s) && Headers(s) && RtsNext(s, step).Some?
    ensures Sessions(RtsNext(s, step).value) && Headers(RtsNext(s, step).value)
  {
    match step
    case RtsHeader(data, r) => OfferedSession(s, true, data, r);
    case RtsWrite(data, r) => OfferedSession(s, false, data, r);
    case Shutdown => ShutdownSession(s);
    case _ => OtherRtsSessions(s, step);
  }

  lemma OtherRtsSessions(s: System, step: Step)
    requires Control(s) && Sessions(s) && Headers(s) && RtsNext(s, step).Some?
    requires step.SocketInit? || step.RtsStart? || step.Signal?
    requires First(s) && s.sh.fd == None ==> !s.sh.flags.hadFirst
    requires s.phase == NotStarted ==> First(s)
    ensures Sessions(RtsNext(s, step).value) && Headers(RtsNext(s, step).value)
  {
  }

  lemma ShutdownSession(s: System)
    requires Control(s) && Sessions(s) && Headers(s) && s.phase == Up
    ensures var s' := EndedLogging(s).(phase := Down); Sessions(s') && Headers(s')
  {
    if s.rts.OurWriter? {
      BecameSession(s, Stop(s.sh));
    }
  }

  /** A flush moves a prefix of the queue to what the socket accepted. */
  lemma {:induction false} FlushSession(s: System, results: seq<WriteResult>)
    requires Control(s) && Queue(s) && Sessions(s)
    ensures var f := Flush(s.sh, results, 0);
      Sessions(Became(s.(session := s.session.(sent := s.session.sent + f.sent)), f.shared))
  {
    FlushSendsPrefix(s.sh, results, 0);
    var f := Flush(s.sh, results, 0);
    if f.shared.fd == s.sh.fd {
      FlushGoesOn(s, f);
    } else {
      FlushEnds(s, f);
    }
  }

  lemma FlushGoesOn(s: System, f: Flushed)
    requires Sessions(s) && f.shared.fd == s.sh.fd && (s.sh.fd.None? ==> f.sent == [])
    requires f.sent + Concat(f.shared.queue) == Concat(s.sh.queue)
    ensures Sessions(Became(s.(session := s.session.(sent := s.session.sent + f.sent)), f.shared))
  {
    var sent := s.session.sent;
    assert (sent + f.sent) + Concat(f.shared.queue) == sent + (f.sent + Concat(f.shared.queue));
  }

  lemma FlushEnds(s: System, f: Flushed)
    requires Sessions(s) && s.sh.fd.Some? && f.shared.fd == None && f.shared.queue == []
    requires f.sent <= Concat(s.sh.queue)
    ensures Sessions(Became(s.(session := s.session.(sent := s.session.sent + f.sent)), f.shared))
  {
    var session := s.session.(sent := s.session.sent + f.sent);
    PrefixAfter(s.session.sent, f.sent, Concat(s.sh.queue));
    assert PastSession(session, First(s));
    assert (s.past + [session])[..|s.past|] == s.past;
  }

  lemma PrefixAfter(a: seq<byte>, b: seq<byte>, c: seq<byte>)
    requires b <= c
    ensures a + b <= a + c
  {
    assert c == b + c[|b|..];
    assert a + c == (a + b) + c[|b|..];
  }

  lemma SessionsFlush(s: System, results: seq<WriteResult>)
    requires Control(s) && Queue(s) && Sessions(s) && Headers(s) && s.pc.Writable?
    ensures var s' := WorkerNext(s, LockFlush(results)).value; Sessions(s') && Headers(s')
  {
    FlushSendsPrefix(s.sh, results, 0);
    FlushSession(s, results);
  }

  lemma SessionsWorker(s: System, step: Step)
    requires Control(s) && Queue(s) && Sessions(s) && Headers(s) && WorkerNext(s, step).Some?
    ensures Sessions(WorkerNext(s, step).value) && Headers(WorkerNext(s, step).value)
  {
    if step.LockFlush? {
      SessionsFlush(s, step.results);
    } else if step.LockHangup? {
      BecameSession(s, Hangup(s.sh));
    } else {
      SessionsPoll(s, step);
    }
  }

  lemma SessionsPoll(s: System, step: Step)
    requires Sessions(s) && Headers(s)
    requires !step.LockFlush? && !step.LockHangup? && WorkerNext(s, step).Some?
    ensures Sessions(WorkerNext(s, step).value) && Headers(WorkerNext(s, step).value)
  {
    PollFrame(s, step);
  }

  lemma PollFrame(s: System, step: Step)
    requires !step.LockFlush? && !step.LockHangup? && WorkerNext(s, step).Some?
    ensures var s' := WorkerNext(s, step).value;
      s' == s.(pc := s'.pc, sh := s.sh.(pipe := s'.sh.pipe)) && !s.pc.HeaderDue? && !s'.pc.HeaderDue?
  {
  }

  lemma SessionsListen(s: System, step: Step)
    requires Control(s) && Queue(s) && Sessions(s) && Headers(s) && ListenNext(s, step).Some?
    ensures Sessions(ListenNext(s, step).value) && Headers(ListenNext(s, step).value)
  {
    match step
    case WriteHeader(data, r) => OfferedSession(s, true, data, r);
    case EndLogging => EndSession(s);
    case PublishClient => PublishSession(s);
    case _ => OtherListenSessions(s, step);
  }

  lemma OtherListenSessions(s: System, step: Step)
    requires Control(s) && Sessions(s) && Headers(s) && ListenNext(s, step).Some?
    requires !step.WriteHeader? && !step.EndLogging? && !step.PublishClient?
    ensures Sessions(ListenNext(s, step).value) && Headers(ListenNext(s, step).value)
  {
    ListenFrame(s, step);
  }

  lemma ListenFrame(s: System, step: Step)
    requires ListenNext(s, step).Some?
    requires !step.WriteHeader? && !step.EndLogging? && !step.PublishClient?
    ensures var s' := ListenNext(s, step).value;
      && s'.session == s.session && s'.past == s.past && s'.sh.fd == s.sh.fd && s'.sh.queue == s.sh.queue
      && s'.phase == s.phase && (s'.rts == s.rts || step.StartLogging?)
      && (s'.pc.HeaderDue? <==> step.StartLogging?) && !s.pc.HeaderDue?
  {
  }

  lemma EndSession(s: System)
    requires Control(s) && Queue(s) && Sessions(s) && Headers(s) && ListenNext(s, EndLogging).Some?
    ensures var s' := ListenNext(s, EndLogging).value; Sessions(s') && Headers(s')
  {
    if s.rts.OurWriter? {
      BecameSession(s, Stop(s.sh));
    }
  }

  lemma PublishSession(s: System)
    requires Control(s) && Queue(s) && Sessions(s) && Headers(s) && ListenNext(s, PublishClient).Some?
    ensures var s' := ListenNext(s, PublishClient).value; Sessions(s') && Headers(s')
  {
    PublishShape(s.session, First(s));
  }

  lemma PublishShape(session: Session, first: bool)
    requires SessionShape(session, first) && session.published == None
    ensures SessionShape(session.(published := Some(|session.offers|)), first)
  {
  }

  /** Every step keeps the invariant. */
  lemma StepKeeps(s: System, step: Step)
    requires Inv(s) && Next(s, step).Some?
    ensures Inv(Next(s, step).value)
  {
    if RtsNext(s, step).Some? {
      ControlRts(s, step);
      QueueRts(s, step);
      SessionsRts(s, step);
      HooksRts(s, step);
    } else if WorkerNext(s, step).Some? {
      ControlWorker(s, step);
      QueueWorker(s, step);
      SessionsWorker(s, step);
      HooksWorker(s, step);
    } else {
      ControlListen(s, step);
      QueueListen(s, step);
      SessionsListen(s, step);
      HooksListen(s, step);
    }
  }

  /** Every run from the start keeps it. */
  lemma {:induction false} RunKeeps(steps: seq<Step>)
    requires Run(START, steps).Some?
    ensures Inv(Run(START, steps).value)
    decreases |steps|
  {
    if steps != [] {
      var before := steps[..|steps| - 1];
      RunKeeps(before);
      StepKeeps(Run(START, before).value, steps[|steps| - 1]);
    }
  }
}
