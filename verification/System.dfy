/** The writer, the worker thread and the RTS as one system of steps. A step is one critical
    section, one blocking call, or one call into the RTS; every interleaving of the steps of
    the different threads is a run.

    The RTS is the environment. It calls the writer only while the writer is attached, with
    a non-empty chunk each time; attaching the writer is followed by an eventlog header
    before any other chunk. Only the RTS and this library start or end event logging. */
module System {
  import opened Bytes
  import opened Writer

  /** The eventlog writer that the RTS uses. */
  datatype Attachment = NoWriter | OtherWriter | OurWriter

  /** The life of the RTS: before hs_init, in it with the header still to be written, after
      it, and after its shutdown. */
  datatype Phase = NotStarted | Starting | Up | Down

  /** Where the worker thread is. In the listen step, c is the client just accepted and
      hadFirst the flag as read after the RTS became ready. */
  datatype Pc =
    | Top
    | PollIdle(c: nat)
    | Drain
    | HupIdle(c: nat)
    | PollOut(c: nat)
    | HupOut(c: nat)
    | Writable(c: nat)
    | Accepting
    | AwaitReady(c: nat)
    | ReadState(c: nat)
    | Deciding(c: nat, attached: bool, hadFirst: bool)
    | PreHook(c: nat, hadFirst: bool)
    | Ending(c: nat, attached: bool, hadFirst: bool)
    | Publishing(c: nat, start: bool, hadFirst: bool)
    | StartingLog(c: nat, hadFirst: bool)
    | HeaderDue(c: nat, hadFirst: bool)
    | PostHook(c: nat, hadFirst: bool)
    | Finishing(c: nat, hadFirst: bool)
    | Exited

  /** A chunk offered to the writer, and whether the writer kept it. */
  datatype Offer = Offer(header: bool, data: seq<byte>, kept: bool)

  /** What happened from the end of one connection (or from the beginning) to the end of the
      next: the chunks offered, how many of them before the client was published, and the
      bytes that the client's socket accepted. */
  datatype Session = Session(offers: seq<Offer>, published: Option<nat>, sent: seq<byte>)

  const NO_SESSION := Session([], None, [])

  /** Attachment, detachment by the worker, and the two hooks. */
  datatype Event = Attached | Post | Pre | Detached

  datatype System = System(
    sh: Shared,
    rts: Attachment,
    phase: Phase,
    pc: Pc,
    events: seq<Event>,
    session: Session,
    past: seq<Session>,
    nextClient: nat,
    lastPublished: int)

  const START := System(INITIAL, NoWriter, NotStarted, Top, [], NO_SESSION, [], 0, -1)

  datatype Step =
    // the application and the RTS
    | SocketInit
    | RtsStart(writer: Attachment)
    | RtsHeader(data: seq<byte>, r: WriteResult)
    | RtsWrite(data: seq<byte>, r: WriteResult)
    | Signal
    | Shutdown
    // the worker
    | Snapshot
    | PollNothing
    | PollWake
    | PollHangup
    | PollWritable
    | DrainRead
    | LockHangup
    | LockFlush(results: seq<WriteResult>)
    | AcceptRetry
    | AcceptError
    | Accept
    | SeeReady
    | ReadFlags
    | Decide
    | RunPreHook
    | EndLogging
    | PublishClient
    | StartFails
    | StartLogging
    | WriteHeader(data: seq<byte>, r: WriteResult)
    | RunPostHook
    | FinishListen

  // --- Effects ------------------------------------------------------------------------------

  /** The writer is offered a chunk. */
  function Offered(s: System, header: bool, data: seq<byte>, r: WriteResult): System {
    var w := Write(s.sh, data, r);
    s.(sh := w.shared,
       session := s.session.(offers := s.session.offers + [Offer(header, data, w.kept)],
                             sent := s.session.sent + w.sent))
  }

  /** The shared state becomes sh; if that ends the connection, it ends the session. */
  function Became(s: System, sh: Shared): System {
    if s.sh.fd.Some? && sh.fd.None?
    then s.(sh := sh, past := s.past + [s.session], session := NO_SESSION)
    else s.(sh := sh)
  }

  /** endEventLogging: a writer that is ours is stopped. */
  function EndedLogging(s: System): System {
    (if s.rts.OurWriter? then Became(s, Stop(s.sh)) else s).(rts := NoWriter)
  }

  function Logged(s: System, e: Event): System {
    s.(events := s.events + [e])
  }

  /** Whether the worker is in es_worker_step_listen. */
  predicate InListen(pc: Pc) {
    pc.Accepting? || pc.AwaitReady? || pc.ReadState? || pc.Deciding? || pc.PreHook? || pc.Ending?
    || pc.Publishing? || pc.StartingLog? || pc.HeaderDue? || pc.PostHook? || pc.Finishing?
  }

  // --- Steps ----------------------------------------------------------------------------------

  /** The application and the RTS. */
  function RtsNext(s: System, step: Step): Option<System> {
    match step
    case SocketInit =>
      Some(s.(sh := Initialize(s.sh)))
    case RtsStart(writer) =>
      if s.phase != NotStarted || (writer == OurWriter && !s.sh.flags.initialized) then None
      else if writer == OurWriter then
        Some(Logged(s.(sh := Attach(s.sh), rts := OurWriter, phase := Starting), Attached))
      else Some(s.(rts := writer, phase := Up))
    case RtsHeader(data, r) =>
      if s.phase != Starting || data == [] then None
      else Some(Offered(s, true, data, r).(phase := Up))
    case RtsWrite(data, r) =>
      if s.phase != Up || s.rts != OurWriter || s.pc.HeaderDue? || data == [] then None
      else Some(Offered(s, false, data, r))
    case Signal =>
      if s.phase != Up then None
      else
        var s' := s.(sh := SignalReady(s.sh));
        Some(if SignalTriggersHook(s.sh) then Logged(s', Post) else s')
    case Shutdown =>
      if s.phase != Up then None else Some(EndedLogging(s).(phase := Down))
    case _ => None
  }

  /** es_worker_step, except for the listen step. */
  function WorkerNext(s: System, step: Step): Option<System> {
    match (step, s.pc)
    case (Snapshot, Top) =>
      if !s.sh.flags.initialized then None
      else Some(s.(pc := match s.sh.fd
                         case None => Accepting
                         case Some(c) => if s.sh.queue == [] then PollIdle(c) else PollOut(c)))
    case (PollNothing, PollIdle(_)) => Some(s.(pc := Top))
    case (PollNothing, PollOut(_)) => Some(s.(pc := Top))
    case (PollWake, PollIdle(_)) => if s.sh.pipe > 0 then Some(s.(pc := Drain)) else None
    case (PollHangup, PollIdle(c)) => Some(s.(pc := HupIdle(c)))
    case (PollHangup, PollOut(c)) => Some(s.(pc := HupOut(c)))
    case (PollWritable, PollOut(c)) => Some(s.(pc := Writable(c)))
    case (DrainRead, Drain) =>
      Some(if s.sh.pipe > 0 then s.(sh := ReadWake(s.sh)) else s.(pc := Top))
    case (LockHangup, HupIdle(_)) => Some(Became(s, Hangup(s.sh)).(pc := Top))
    case (LockHangup, HupOut(_)) => Some(Became(s, Hangup(s.sh)).(pc := Top))
    case (LockFlush(results), Writable(_)) =>
      var f := Flush(s.sh, results, 0);
      var s' := s.(session := s.session.(sent := s.session.sent + f.sent));
      Some(Became(s', f.shared).(pc := Top))
    case _ => None
  }

  /** es_worker_step_listen. The process does not outlive its RTS by much: the listen step
      makes no more progress after the shutdown. */
  function ListenNext(s: System, step: Step): Option<System> {
    if s.phase == Down then None
    else
      match (step, s.pc)
      case (AcceptRetry, Accepting) => Some(s.(pc := Top))
      case (AcceptError, Accepting) => Some(s.(pc := Exited))
      case (Accept, Accepting) => Some(s.(pc := AwaitReady(s.nextClient), nextClient := s.nextClient + 1))
      case (SeeReady, AwaitReady(c)) => if s.sh.flags.rtsReady then Some(s.(pc := ReadState(c))) else None
      case (ReadFlags, ReadState(c)) => Some(s.(pc := Deciding(c, s.sh.flags.attached, s.sh.flags.hadFirst)))
      case (Decide, Deciding(c, attached, hadFirst)) =>
        var running := s.rts != NoWriter;
        var shouldStop := running && (!attached || hadFirst);
        var shouldStart := shouldStop || !running;
        Some(s.(pc := if !shouldStop then Publishing(c, shouldStart, hadFirst)
                      else if attached then PreHook(c, hadFirst)
                      else Ending(c, false, hadFirst)))
      case (RunPreHook, PreHook(c, hadFirst)) => Some(Logged(s, Pre).(pc := Ending(c, true, hadFirst)))
      case (EndLogging, Ending(c, _, hadFirst)) =>
        var s' := if s.rts.OurWriter? then Logged(s, Detached) else s;
        Some(EndedLogging(s').(pc := Publishing(c, true, hadFirst)))
      case (PublishClient, Publishing(c, start, hadFirst)) =>
        Some(s.(sh := Publish(s.sh, c), lastPublished := c,
                session := s.session.(published := Some(|s.session.offers|)),
                pc := if start then StartingLog(c, hadFirst) else Finishing(c, hadFirst)))
      case (StartFails, StartingLog(_, _)) => Some(s)
      case (StartLogging, StartingLog(c, hadFirst)) =>
        if s.rts != NoWriter then None
        else Some(Logged(s.(sh := Attach(s.sh), rts := OurWriter, pc := HeaderDue(c, hadFirst)), Attached))
      case (WriteHeader(data, r), HeaderDue(c, hadFirst)) =>
        if data == [] then None
        else Some(Offered(s, true, data, r).(pc := PostHook(c, hadFirst)))
      case (RunPostHook, PostHook(c, hadFirst)) => Some(Logged(s, Post).(pc := Finishing(c, hadFirst)))
      case (FinishListen, Finishing(c, hadFirst)) =>
        Some((if hadFirst then s else s.(sh := MarkFirst(s.sh))).(pc := Top))
      case _ => None
  }

  /** One step of the system, if it is enabled. */
  function Next(s: System, step: Step): Option<System> {
    if RtsNext(s, step).Some? then RtsNext(s, step)
    else if WorkerNext(s, step).Some? then WorkerNext(s, step)
    else ListenNext(s, step)
  }

  /** A run: all its steps, one after the other, if they are enabled. */
  function Run(s: System, steps: seq<Step>): Option<System>
    decreases |steps|
  {
    if steps == [] then Some(s)
    else
      match Run(s, steps[..|steps| - 1])
      case None => None
      case Some(s') => Next(s', steps[|steps| - 1])
  }
}
