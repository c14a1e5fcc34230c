/** What the worker can do: it never gets stuck, and what is queued for a connected client can
    always be sent. */
module Service {
  import opened Bytes
  import opened Writer
  import opened System
  import opened SystemInvariant
  import opened SystemTheorems
  import opened Accounting

  // --- The worker goes on ---------------------------------------------------------------------

  /** A step that the worker can take from where it is. */
  function WorkerStepFrom(s: System): Step {
    match s.pc
    case Top => Snapshot
    case PollIdle(_) => PollNothing
    case Drain => DrainRead
    case HupIdle(_) => LockHangup
    case PollOut(_) => PollNothing
    case HupOut(_) => LockHangup
    case Writable(_) => LockFlush([])
    case Accepting => Accept
    case AwaitReady(_) => SeeReady
    case ReadState(_) => ReadFlags
    case Deciding(_, _, _) => Decide
    case PreHook(_, _) => RunPreHook
    case Ending(_, _, _) => EndLogging
    case Publishing(_, _, _) => PublishClient
    case StartingLog(_, _) => StartLogging
    case HeaderDue(_, _) => WriteHeader([0], Again)
    case PostHook(_, _) => RunPostHook
    case Finishing(_, _) => FinishListen
    case Exited => AcceptError
  }

  /** Before the shutdown, the worker can always take a step, unless it waits for the RTS to
      become ready or has exited. */
  lemma WorkerCanGoOn(s: System)
    requires Reachable(s) && s.sh.flags.initialized && s.phase != Down && s.pc != Exited
    requires s.pc.AwaitReady? ==> s.sh.flags.rtsReady
    ensures Next(s, WorkerStepFrom(s)).Some?
  {
    ReachableInv(s);
    GoesOn(s);
  }

  lemma GoesOn(s: System)
    requires Control(s) && s.sh.flags.initialized && s.phase != Down && s.pc != Exited
    requires s.pc.AwaitReady? ==> s.sh.flags.rtsReady
    ensures Next(s, WorkerStepFrom(s)).Some?
  {
  }

  /** The worker exits when accepting a client fails for good, and in no other way; then it takes
      no step any more. */
  lemma WorkerExits(s: System, step: Step)
    requires Next(s, step).Some?
    ensures Next(s, step).value.pc == Exited <==> s.pc == Exited || step.AcceptError?
    ensures s.pc == Exited ==> RtsNext(s, step).Some?
  {
  }

  // --- Sending ------------------------------------------------------------------------------------

  /** Results of write() that accept every item of a queue whole. */
  function AllWhole(queue: seq<seq<byte>>): (results: seq<WriteResult>)
    ensures |results| == |queue|
    ensures forall i :: 0 <= i < |queue| ==> results[i] == Wrote(|queue[i]|)
  {
    seq(|queue|, i requires 0 <= i < |queue| => Wrote(|queue[i]|))
  }

  lemma {:induction false} AcceptedItems(queue: seq<seq<byte>>, calls: seq<WriteCall>)
    requires |calls| == |queue|
    requires forall j :: 0 <= j < |calls| ==> calls[j].offered == queue[j] && IsWhole(calls[j])
    ensures AcceptedAll(calls) == Concat(queue)
    decreases |queue|
  {
    if queue != [] {
      AcceptedItems(queue[1..], calls[1..]);
    }
  }

  lemma {:induction false} WholeFlush(sh: Shared)
    requires ItemsNonEmpty(sh.queue) && sh.fd.Some?
    ensures Flush(sh, AllWhole(sh.queue), 0) == Flushed(sh.(queue := []), Concat(sh.queue))
  {
    var calls := FlushCalls(sh.queue, AllWhole(sh.queue), 0);
    AllAreWhole(sh.queue);
    AcceptedItems(sh.queue, calls);
    FlushIsAccounted(sh, AllWhole(sh.queue), 0);
    assert LeftQueued(sh.queue, calls) == [];
  }

  lemma {:induction false} AllAreWhole(queue: seq<seq<byte>>)
    ensures var calls := FlushCalls(queue, AllWhole(queue), 0);
      |calls| == |queue| && forall j :: 0 <= j < |calls| ==> IsWhole(calls[j])
  {
    var calls := FlushCalls(queue, AllWhole(queue), 0);
    FlushStopsAtFirstShort(queue, AllWhole(queue), 0);
    forall j | 0 <= j < |calls|
      ensures IsWhole(calls[j])
    {
      assert calls[j] == WriteCall(queue[j], AllWhole(queue)[j]);
    }
  }

  /** The state with the whole queue sent. */
  function Served(s: System): System {
    s.(pc := Top, sh := s.sh.(queue := []), session := s.session.(sent := s.session.sent + Concat(s.sh.queue)))
  }

  lemma Serves(s: System)
    requires Queue(s) && s.sh.fd.Some? && s.pc.Writable?
    ensures Next(s, LockFlush(AllWhole(s.sh.queue))) == Some(Served(s))
  {
    WholeFlush(s.sh);
  }

  /** With a client and a queue, the worker can send the whole queue. */
  lemma QueueCanBeSent(s: System)
    requires Reachable(s) && s.pc == Top && s.sh.fd.Some? && s.sh.queue != []
    ensures Reachable(Served(s))
  {
    var c := s.sh.fd.value;
    ReachableInv(s);
    SnapshotsQueue(s);
    Go(s, Snapshot, s.(pc := PollOut(c)));
    BecomesWritable(s, c);
    Go(s.(pc := PollOut(c)), PollWritable, s.(pc := Writable(c)));
    Serves(s.(pc := Writable(c)));
    Go(s.(pc := Writable(c)), LockFlush(AllWhole(s.sh.queue)), Served(s));
  }

  lemma SnapshotsQueue(s: System)
    requires Control(s) && s.pc == Top && s.sh.fd.Some? && s.sh.queue != []
    ensures Next(s, Snapshot) == Some(s.(pc := PollOut(s.sh.fd.value)))
  {
  }

  lemma BecomesWritable(s: System, c: nat)
    ensures Next(s.(pc := PollOut(c)), PollWritable) == Some(s.(pc := Writable(c)))
  {
  }

  /** A worker that waits for data while there is some can be woken by the pipe, drain it and
      send the whole queue. */
  lemma WaitingWorkerServes(s: System)
    requires Reachable(s) && s.pc.PollIdle? && s.sh.queue != [] && s.phase != Down
    ensures Reachable(Served(s.(sh := s.sh.(pipe := 0))))
  {
    SnapshotIsCurrentOrGone(s, s.pc.c);
    NoLostWakeUp(s);
    Wakes(s);
    Go(s, PollWake, s.(pc := Drain));
    var drained := DrainEnds(s.(pc := Drain));
    QueueCanBeSent(drained);
  }

  lemma Wakes(s: System)
    requires s.pc.PollIdle? && s.sh.pipe > 0
    ensures Next(s, PollWake) == Some(s.(pc := Drain))
  {
  }
}
