/** Runs that come to where the theorems speak of: a start from a C main, a start with another
    writer, and a second client. */
module WitnessRuns {
  import opened Bytes
  import opened Writer
  import opened System
  import opened SystemTheorems

  const DOWN_FLAGS := Flags(true, false, true, true)
  const UP_FLAGS := Flags(true, true, true, true)

  // --- A second client ------------------------------------------------------------------------

  /** The first client is connected, and its header waits in the queue. */
  const FIRST: System := Connected(Again)

  const FIRST_SESSION := Session([Offer(true, [1], true)], Some(0), [1])

  /** The first client has received its header. */
  const SERVED: System := FIRST.(sh := Shared(Some(0), [], UP_FLAGS, 1), session := FIRST_SESSION)

  lemma ServedIsReachable()
    ensures Reachable(SERVED)
  {
    ConnectedIsReachable(Again);
    Go(FIRST, Snapshot, FIRST.(pc := PollOut(0)));
    Go(FIRST.(pc := PollOut(0)), PollWritable, FIRST.(pc := Writable(0)));
    FirstIsFlushed();
    Go(FIRST.(pc := Writable(0)), LockFlush([Wrote(1)]), SERVED);
  }

  lemma {:induction false} FirstIsFlushed()
    ensures Next(FIRST.(pc := Writable(0)), LockFlush([Wrote(1)])) == Some(SERVED)
  {
    var sh := FIRST.sh;
    assert sh.queue == [[1]] && sh.queue[1..] == [];
    assert Flush(sh.(queue := []), [Wrote(1)], 1) == Flushed(sh.(queue := []), []);
    assert Flush(sh, [Wrote(1)], 0).sent == [1];
    assert FIRST.session.sent + [1] == [1];
  }

  /** The first client has hung up. */
  const GONE: System := SERVED.(sh := Shared(None, [], UP_FLAGS, 1), session := NO_SESSION, past := [FIRST_SESSION])

  lemma GoneIsReachable()
    ensures Reachable(GONE)
  {
    ServedIsReachable();
    Go(SERVED, Snapshot, SERVED.(pc := PollIdle(0)));
    Go(SERVED.(pc := PollIdle(0)), PollHangup, SERVED.(pc := HupIdle(0)));
    assert SERVED.past + [FIRST_SESSION] == [FIRST_SESSION];
    Go(SERVED.(pc := HupIdle(0)), LockHangup, GONE);
  }

  /** The second client, while the worker is at this place of the listen step. */
  function SecondAt(pc: Pc): System {
    GONE.(nextClient := 2, pc := pc)
  }

  lemma SecondIsAccepted()
    ensures Reachable(SecondAt(ReadState(1)))
  {
    GoneIsReachable();
    Go(GONE, Snapshot, GONE.(pc := Accepting));
    GoListen(GONE.(pc := Accepting), Accept, SecondAt(AwaitReady(1)));
    GoListen(SecondAt(AwaitReady(1)), SeeReady, SecondAt(ReadState(1)));
  }

  lemma SecondIsDecided()
    ensures Reachable(SecondAt(PreHook(1, true)))
  {
    SecondIsAccepted();
    GoListen(SecondAt(ReadState(1)), ReadFlags, SecondAt(Deciding(1, true, true)));
    GoListen(SecondAt(Deciding(1, true, true)), Decide, SecondAt(PreHook(1, true)));
  }

  /** Logging is stopped for the second client. */
  const STOPPED: System := SecondAt(Publishing(1, true, true)).(
    sh := Shared(None, [], DOWN_FLAGS, 1), rts := NoWriter, events := [Attached, Post, Pre, Detached])

  const HOOKED: System := SecondAt(Ending(1, true, true)).(events := [Attached, Post, Pre])

  lemma HookedIsReachable()
    ensures Reachable(HOOKED)
  {
    SecondIsDecided();
    assert SecondAt(PreHook(1, true)).events + [Pre] == HOOKED.events;
    GoListen(SecondAt(PreHook(1, true)), RunPreHook, HOOKED);
  }

  lemma StoppedIsReachable()
    ensures Reachable(STOPPED)
  {
    HookedIsReachable();
    assert HOOKED.events + [Detached] == STOPPED.events;
    GoListen(HOOKED, EndLogging, STOPPED);
  }

  /** The second client is published and logging started again. */
  const RESTARTED: System := STOPPED.(
    pc := HeaderDue(1, true), sh := Shared(Some(1), [], UP_FLAGS, 1), rts := OurWriter, lastPublished := 1,
    session := Session([], Some(0), []), events := [Attached, Post, Pre, Detached, Attached])

  const SECOND: System := STOPPED.(
    pc := StartingLog(1, true), sh := Shared(Some(1), [], DOWN_FLAGS, 1), lastPublished := 1,
    session := Session([], Some(0), []))

  lemma SecondIsPublished()
    ensures Reachable(SECOND)
  {
    StoppedIsReachable();
    GoListen(STOPPED, PublishClient, SECOND);
  }

  lemma RestartedIsReachable()
    ensures Reachable(RESTARTED)
  {
    SecondIsPublished();
    assert SECOND.events + [Attached] == RESTARTED.events;
    GoListen(SECOND, StartLogging, RESTARTED);
  }

  /** A second client connects after the first has gone, and receives its own header. */
  lemma SecondClientReceivesHeader() returns (s: System)
    ensures Reachable(s) && s.sh.fd == Some(1)
    ensures s.past == [Session([Offer(true, [1], true)], Some(0), [1])]
    ensures s.session == Session([Offer(true, [3], true)], Some(0), [3])
    ensures s.events == [Attached, Post, Pre, Detached, Attached]
  {
    RestartedIsReachable();
    s := RESTARTED.(pc := PostHook(1, true), session := Session([Offer(true, [3], true)], Some(0), [3]));
    assert RESTARTED.session.offers + [Offer(true, [3], true)] == s.session.offers;
    assert RESTARTED.session.sent + [3] == [3];
    GoListen(RESTARTED, WriteHeader([3], Wrote(1)), s);
  }

  // --- A start from a C main --------------------------------------------------------------------

  const INITIALIZED: System := START.(sh := INITIAL.(flags := Flags(true, false, false, false)))

  /** The RTS has attached our writer and logged its header, and it is ready. */
  const LOGGING: System := INITIALIZED.(
    sh := Shared(None, [[1]], Flags(true, true, true, false), 1), rts := OurWriter, phase := Up,
    events := [Attached, Post], session := Session([Offer(true, [1], true)], None, []))

  lemma LoggingIsReachable()
    ensures Reachable(LOGGING)
  {
    assert Run(START, []) == Some(START);
    var attached := INITIALIZED.(
      sh := INITIAL.(flags := Flags(true, true, false, false)), rts := OurWriter, phase := Starting,
      events := [Attached]);
    var logged := attached.(
      sh := Shared(None, [[1]], Flags(true, true, false, false), 1), phase := Up, session := LOGGING.session);
    Go(START, SocketInit, INITIALIZED);
    assert INITIALIZED.events + [Attached] == [Attached];
    Go(INITIALIZED, RtsStart(OurWriter), attached);
    assert [] + [[1 as byte]] == [[1 as byte]];
    assert attached.session.offers + [Offer(true, [1], true)] == logged.session.offers;
    assert attached.session.sent + [] == [];
    Go(attached, RtsHeader([1], Again), logged);
    assert logged.events + [Post] == LOGGING.events;
    Go(logged, Signal, LOGGING);
  }

  function LoggedAt(pc: Pc): System {
    LOGGING.(nextClient := 1, pc := pc)
  }

  lemma LoggedIsAccepted()
    ensures Reachable(LoggedAt(ReadState(0)))
  {
    LoggingIsReachable();
    Go(LOGGING, Snapshot, LOGGING.(pc := Accepting));
    GoListen(LOGGING.(pc := Accepting), Accept, LoggedAt(AwaitReady(0)));
    GoListen(LoggedAt(AwaitReady(0)), SeeReady, LoggedAt(ReadState(0)));
  }

  lemma LoggedIsDecided()
    ensures Reachable(LoggedAt(Publishing(0, false, false)))
  {
    LoggedIsAccepted();
    GoListen(LoggedAt(ReadState(0)), ReadFlags, LoggedAt(Deciding(0, true, false)));
    GoListen(LoggedAt(Deciding(0, true, false)), Decide, LoggedAt(Publishing(0, false, false)));
  }

  const LOGGED_CLIENT: System := LoggedAt(Top).(
    sh := Shared(Some(0), [[1]], UP_FLAGS, 1), lastPublished := 0,
    session := Session([Offer(true, [1], true)], Some(1), []))

  const LOGGED_PUBLISHED: System := LOGGED_CLIENT.(
    pc := Finishing(0, false), sh := Shared(Some(0), [[1]], Flags(true, true, true, false), 1))

  lemma LoggedIsPublished()
    ensures Reachable(LOGGED_PUBLISHED)
  {
    LoggedIsDecided();
    GoListen(LoggedAt(Publishing(0, false, false)), PublishClient, LOGGED_PUBLISHED);
  }

  lemma LoggedClientIsReachable()
    ensures Reachable(LOGGED_CLIENT)
  {
    LoggedIsPublished();
    GoListen(LOGGED_PUBLISHED, FinishListen, LOGGED_CLIENT);
  }

  /** In a start from a C main, the first client receives the header that the RTS had logged
      before there was a client, without a restart. */
  lemma LoggedHeaderIsReceived() returns (s: System)
    ensures Reachable(s) && s.sh.fd == Some(0) && s.sh.queue == []
    ensures s.session == Session([Offer(true, [1], true)], Some(1), [1])
    ensures s.events == [Attached, Post]
  {
    LoggedClientIsReachable();
    Go(LOGGED_CLIENT, Snapshot, LOGGED_CLIENT.(pc := PollOut(0)));
    Go(LOGGED_CLIENT.(pc := PollOut(0)), PollWritable, LOGGED_CLIENT.(pc := Writable(0)));
    s := LOGGED_SERVED;
    LoggedIsFlushed();
    Go(LOGGED_CLIENT.(pc := Writable(0)), LockFlush([Wrote(1)]), s);
  }

  const LOGGED_SERVED: System := LOGGED_CLIENT.(
    sh := Shared(Some(0), [], UP_FLAGS, 1), session := Session([Offer(true, [1], true)], Some(1), [1]))

  lemma {:induction false} LoggedIsFlushed()
    ensures Next(LOGGED_CLIENT.(pc := Writable(0)), LockFlush([Wrote(1)])) == Some(LOGGED_SERVED)
  {
    var sh := LOGGED_CLIENT.sh;
    assert sh.queue[1..] == [];
    assert Flush(sh.(queue := []), [Wrote(1)], 1) == Flushed(sh.(queue := []), []);
    assert Flush(sh, [Wrote(1)], 0).sent == [1];
    assert LOGGED_CLIENT.session.sent + [1] == [1];
  }

  // --- A start with another writer ------------------------------------------------------------------

  const OTHER: System := INITIALIZED.(
    sh := INITIAL.(flags := Flags(true, false, true, false)), rts := OtherWriter, phase := Up)

  lemma OtherIsReachable()
    ensures Reachable(OTHER)
  {
    assert Run(START, []) == Some(START);
    Go(START, SocketInit, INITIALIZED);
    Go(INITIALIZED, RtsStart(OtherWriter), INITIALIZED.(rts := OtherWriter, phase := Up));
    Go(INITIALIZED.(rts := OtherWriter, phase := Up), Signal, OTHER);
  }

  function OtherAt(pc: Pc): System {
    OTHER.(nextClient := 1, pc := pc)
  }

  lemma OtherIsAccepted()
    ensures Reachable(OtherAt(ReadState(0)))
  {
    OtherIsReachable();
    Go(OTHER, Snapshot, OTHER.(pc := Accepting));
    GoListen(OTHER.(pc := Accepting), Accept, OtherAt(AwaitReady(0)));
    GoListen(OtherAt(AwaitReady(0)), SeeReady, OtherAt(ReadState(0)));
  }

  lemma OtherIsDecided()
    ensures Reachable(OtherAt(Ending(0, false, false)))
  {
    OtherIsAccepted();
    GoListen(OtherAt(ReadState(0)), ReadFlags, OtherAt(Deciding(0, false, false)));
    GoListen(OtherAt(Deciding(0, false, false)), Decide, OtherAt(Ending(0, false, false)));
  }

  /** Another writer is stopped for the first client, without hooks. */
  lemma OtherWriterIsStopped() returns (s: System)
    ensures Reachable(s) && s.pc == Publishing(0, true, false) && s.rts == NoWriter && s.events == []
  {
    OtherIsDecided();
    s := OtherAt(Publishing(0, true, false)).(rts := NoWriter);
    GoListen(OtherAt(Ending(0, false, false)), EndLogging, s);
  }
}
