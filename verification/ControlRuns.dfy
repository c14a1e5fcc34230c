/** Runs of the control thread: left alone, it handles what it receives to the end, so that
    every command that a connected client can send is dispatched and its handler runs. */
module ControlRuns {
  import opened Bytes
  import opened NamespaceStore
  import opened ControlThread
  import opened ControlInvariant
  import opened ControlTheorems
  import Parser = CommandParser
  import System
  import SystemTheorems
  import SystemInvariant
  import Writer
  import WireFormat
  import Chunking

  /** A run can be continued by any step that is enabled. */
  lemma {:induction false} GoOn(steps: seq<Step>, w: World, step: Step, w': World) returns (more: seq<Step>)
    requires Run(steps) == Some(w) && Next(w, step) == Some(w')
    ensures more == steps + [step] && Run(more) == Some(w')
  {
    more := steps + [step];
    assert more[..|steps|] == steps;
  }

  /** What a client has sent, and the registries on record for it. */
  ghost predicate History(steps: seq<Step>, w: World, client: nat, chunks: seq<seq<byte>>, regs: seq<Registry>) {
    Run(steps) == Some(w) && ReceivedFrom(steps, client) == chunks && RegistriesOf(w.received, client) == regs
  }

  /** A step that neither receives nor iterates. */
  lemma {:induction false} MoveOn(steps: seq<Step>, w: World, step: Step, w': World, client: nat,
                                  chunks: seq<seq<byte>>, regs: seq<Registry>) returns (more: seq<Step>)
    requires History(steps, w, client, chunks, regs)
    requires Next(w, step) == Some(w') && !step.Receive? && !step.Iterate?
    ensures History(more, w', client, chunks, regs)
  {
    more := GoOn(steps, w, step, w');
    assert more[..|steps|] == steps;
    RunKeeps(steps);
    StepIsOnRecord(w, step, client);
    assert regs + [] == regs;
  }

  // --- A chunk ------------------------------------------------------------------------------

  /** One iteration over a chunk that is not stuck. */
  lemma {:induction false} IterateOn(steps: seq<Step>, w: World, client: nat, chunks: seq<seq<byte>>,
                                     regs: seq<Registry>) returns (more: seq<Step>)
    requires History(steps, w, client, chunks, regs) && Ready(w) && w.pc.Handling?
    ensures History(more, Iterated(w), client, chunks, regs + (if w.fd == Some(client) then [w.reg] else []))
  {
    more := GoOn(steps, w, Iterate, Iterated(w));
    assert more[..|steps|] == steps;
    RunKeeps(steps);
    StepIsOnRecord(w, Iterate, client);
  }

  ghost predicate AllAre(regs: seq<Registry>, reg: Registry) {
    forall i :: 0 <= i < |regs| ==> regs[i] == reg
  }

  predicate IsStuck(w: World) {
    w.pc.Handling? && w.parser.Name? && w.pc.at == 0 && |w.pc.chunk| == Parser.CHUNK_SIZE
  }

  /** Every iteration advances, unless the thread is stuck. */
  lemma IterationAdvances(w: World)
    requires Ready(w) && w.pc.Handling?
    ensures var pc := Iterated(w).pc;
      !IsStuck(w) ==> pc == Loop || (pc.Handling? && pc.chunk == w.pc.chunk && w.pc.at < pc.at < |w.pc.chunk|)
    ensures IsStuck(w) ==> Iterated(w).pc == w.pc && Iterated(w).parser == w.parser
  {
    Parser.IterationProgress(w.reg, w.parser, w.pc.chunk, w.pc.at);
  }

  /** In every run in which the thread is in a chunk and not stuck, it comes to the end of the
      chunk by iterations alone. */
  lemma {:induction false} FinishChunk(steps: seq<Step>, w: World, client: nat, chunks: seq<seq<byte>>,
                                       regs: seq<Registry>)
    returns (more: seq<Step>, w': World, regs': seq<Registry>)
    requires History(steps, w, client, chunks, regs) && Ready(w) && w.pc.Handling? && !IsStuck(w)
    ensures History(more, w', client, chunks, regs')
    ensures Ready(w') && w'.pc == Loop && w'.sys == w.sys && w'.reg == w.reg && w'.fd == w.fd
    ensures AllAre(regs, w.reg) ==> AllAre(regs', w.reg)
    decreases |w.pc.chunk| - w.pc.at
  {
    more := IterateOn(steps, w, client, chunks, regs);
    w', regs' := Iterated(w), regs + (if w.fd == Some(client) then [w.reg] else []);
    IterationAdvances(w);
    StaysReady(w, Iterate);
    if w'.pc.Handling? {
      more, w', regs' := FinishChunk(more, w', client, chunks, regs');
    }
  }

  // --- A stream -------------------------------------------------------------------------------

  /** The thread is about to wake up, and the client is connected. */
  predicate AtRest(w: World, client: nat) {
    w.pc == Loop && w.sys.sh.fd == Some(client)
  }

  function Awake(w: World, client: nat): World {
    (if w.fd == Some(client) then w else ResetTo(w, Some(client))).(pc := Polling)
  }

  lemma WakesUp(w: World, client: nat)
    requires Ready(w) && AtRest(w, client)
    ensures Next(w, WakeUp) == Some(Awake(w, client))
  {
  }

  lemma PollsInput(w: World)
    requires Ready(w) && w.pc == Polling
    ensures Next(w, PollInput) == Some(w.(pc := Receiving))
  {
  }

  lemma ReceivesChunk(w: World, chunk: seq<byte>)
    requires Ready(w) && w.pc == Receiving && w.fd.Some? && 0 < |chunk| < Parser.CHUNK_SIZE
    ensures Next(w, Receive(chunk)) == Some(Receives(w, chunk))
  {
  }

  lemma {:induction false} PollOn(steps: seq<Step>, w: World, client: nat, chunks: seq<seq<byte>>, regs: seq<Registry>)
    returns (more: seq<Step>)
    requires History(steps, w, client, chunks, regs) && Ready(w) && AtRest(w, client)
    ensures History(more, Awake(w, client).(pc := Receiving), client, chunks, regs)
  {
    WakesUp(w, client);
    more := MoveOn(steps, w, WakeUp, Awake(w, client), client, chunks, regs);
    PollsInput(Awake(w, client));
    more := MoveOn(more, Awake(w, client), PollInput, Awake(w, client).(pc := Receiving), client, chunks, regs);
  }

  lemma {:induction false} ReceiveOn(steps: seq<Step>, w: World, client: nat, chunks: seq<seq<byte>>,
                                     regs: seq<Registry>, chunk: seq<byte>) returns (more: seq<Step>)
    requires History(steps, w, client, chunks, regs) && Ready(w)
    requires w.pc == Receiving && w.fd == Some(client) && 0 < |chunk| < Parser.CHUNK_SIZE
    ensures History(more, Receives(w, chunk), client, chunks + [chunk], regs)
  {
    ReceivesChunk(w, chunk);
    more := GoOn(steps, w, Receive(chunk), Receives(w, chunk));
    assert more[..|steps|] == steps;
    RunKeeps(steps);
    StepIsOnRecord(w, Receive(chunk), client);
    assert regs + [] == regs;
  }

  /** One chunk, from waking up to its end. */
  lemma {:induction false} HandleOne(steps: seq<Step>, w: World, client: nat, chunks: seq<seq<byte>>,
                                     regs: seq<Registry>, chunk: seq<byte>)
    returns (more: seq<Step>, w': World, regs': seq<Registry>)
    requires History(steps, w, client, chunks, regs) && Ready(w) && AtRest(w, client)
    requires 0 < |chunk| < Parser.CHUNK_SIZE
    ensures History(more, w', client, chunks + [chunk], regs') && Ready(w')
    ensures AtRest(w', client) && w'.sys == w.sys && w'.reg == w.reg
    ensures AllAre(regs, w.reg) ==> AllAre(regs', w.reg)
  {
    var polled := Awake(w, client).(pc := Receiving);
    more := PollOn(steps, w, client, chunks, regs);
    more := ReceiveOn(more, polled, client, chunks, regs, chunk);
    more, w', regs' := FinishChunk(more, Receives(polled, chunk), client, chunks + [chunk], regs);
  }

  /** Whatever chunks of up to 255 bytes a connected client sends, the thread can receive all of
      them and handle them to the end. */
  lemma {:induction false} HandleAll(steps: seq<Step>, w: World, client: nat, before: seq<seq<byte>>,
                                     regs: seq<Registry>, chunks: seq<seq<byte>>)
    returns (more: seq<Step>, w': World, regs': seq<Registry>)
    requires History(steps, w, client, before, regs) && Ready(w) && AtRest(w, client)
    requires forall i :: 0 <= i < |chunks| ==> 0 < |chunks[i]| < Parser.CHUNK_SIZE
    ensures History(more, w', client, before + chunks, regs')
    ensures AtRest(w', client) && w'.sys == w.sys && w'.reg == w.reg
    ensures AllAre(regs, w.reg) ==> AllAre(regs', w.reg)
    decreases |chunks|
  {
    if chunks == [] {
      more, w', regs' := steps, w, regs;
      assert before + chunks == before;
    } else {
      var next, w1, regs1 := HandleOne(steps, w, client, before, regs, chunks[0]);
      more, w', regs' := HandleAll(next, w1, client, before + [chunks[0]], regs1, chunks[1..]);
      ChunksCons(before, chunks);
    }
  }

  lemma ChunksCons(before: seq<seq<byte>>, chunks: seq<seq<byte>>)
    requires chunks != []
    ensures before + [chunks[0]] + chunks[1..] == before + chunks
  {
  }

  /** The step with which the thread leaves a place where it waits. */
  function LeavingStep(pc: Pc): Step {
    match pc
    case WaitReady => SeeReady
    case Waiting(_) => StopWaiting
    case Receiving => ReceiveNothing
    case _ => PollNothing
  }

  lemma Leaves(w: World)
    requires Ready(w) && (w.pc == WaitReady || w.pc.Waiting? || w.pc == Polling || w.pc == Receiving)
    requires w.sys.sh.flags.rtsReady
    ensures Next(w, LeavingStep(w.pc)) == Some(w.(pc := Loop))
  {
  }

  /** Wherever it is, the thread can come to where it wakes up, unless it has ended or is stuck. */
  lemma {:induction false} ComeToRest(steps: seq<Step>, w: World, client: nat, chunks: seq<seq<byte>>,
                                      regs: seq<Registry>)
    returns (more: seq<Step>, w': World, regs': seq<Registry>)
    requires History(steps, w, client, chunks, regs) && Ready(w) && w.sys.sh.flags.rtsReady
    requires w.pc != Ended && !IsStuck(w)
    ensures History(more, w', client, chunks, regs') && Ready(w')
    ensures w'.pc == Loop && w'.sys == w.sys && w'.reg == w.reg
  {
    more, w', regs' := steps, w, regs;
    if w.pc.Handling? {
      more, w', regs' := FinishChunk(steps, w, client, chunks, regs);
    } else if w.pc != Loop {
      Leaves(w);
      w' := w.(pc := Loop);
      more := MoveOn(steps, w, LeavingStep(w.pc), w', client, chunks, regs);
    }
  }

  /** No client is ignored: in every run with a client connected, whatever the thread is doing,
      the run can go on so that the thread receives what the client sends and handles it to
      the end, unless it has ended or is stuck. */
  lemma {:induction false} NoClientIsIgnored(steps: seq<Step>, client: nat, chunks: seq<seq<byte>>)
    returns (more: seq<Step>)
    requires Run(steps).Some? && Run(steps).value.sys.sh.fd == Some(client)
    requires Run(steps).value.pc != Ended && !IsStuck(Run(steps).value)
    requires forall i :: 0 <= i < |chunks| ==> 0 < |chunks[i]| < Parser.CHUNK_SIZE
    ensures Run(more).Some? && Run(more).value.pc == Loop
    ensures ReceivedFrom(more, client) == ReceivedFrom(steps, client) + chunks
  {
    var w, before := Run(steps).value, ReceivedFrom(steps, client);
    RunKeeps(steps);
    var w1, w2, regs1, regs2;
    more, w1, regs1 := ComeToRest(steps, w, client, before, RegistriesOf(w.received, client));
    more, w2, regs2 := HandleAll(more, w1, client, before, regs1, chunks);
  }

  // --- A whole run ------------------------------------------------------------------------------

  /** The rest of the system can run first. */
  lemma {:induction false} SystemFirst(others: seq<System.Step>, client: nat) returns (steps: seq<Step>)
    requires System.Run(System.START, others).Some?
    ensures History(steps, START.(sys := System.Run(System.START, others).value), client, [], [])
    decreases |others|
  {
    if others == [] {
      steps := [];
    } else {
      var n := |others| - 1;
      steps := SystemFirst(others[..n], client);
      var sys := System.Run(System.START, others[..n]).value;
      var sys' := System.Run(System.START, others).value;
      StepsBeside(sys, others[n], sys');
      steps := MoveOn(steps, START.(sys := sys), Other(others[n]), START.(sys := sys'), client, [], []);
    }
  }

  lemma StepsBeside(sys: System.System, step: System.Step, sys': System.System)
    requires System.Next(sys, step) == Some(sys')
    ensures Ready(START) && Next(START.(sys := sys), Other(step)) == Some(START.(sys := sys'))
  {
  }

  /** And then the application can register what it likes. */
  lemma {:induction false} RegisterAll(steps: seq<Step>, w: World, rs: seq<Request>, client: nat)
    returns (more: seq<Step>)
    requires History(steps, w, client, [], []) && AllCallable(w.reg, rs)
    ensures History(more, w.(reg := PerformAll(w.reg, rs)), client, [], [])
    decreases |rs|
  {
    more := steps;
    if rs != [] {
      var w' := w.(reg := Perform(w.reg, rs[0]));
      RunKeeps(steps);
      Registers(w, rs[0]);
      more := MoveOn(steps, w, Register(rs[0]), w', client, [], []);
      more := RegisterAll(more, w', rs[1..], client);
    }
  }

  lemma Registers(w: World, r: Request)
    requires Ready(w) && Callable(w.reg, r)
    ensures Next(w, Register(r)) == Some(w.(reg := Perform(w.reg, r)))
  {
  }

  lemma {:induction false} AllAreIsUnder(reg: Registry, received: seq<Received>, client: nat)
    requires AllAre(RegistriesOf(received, client), reg)
    ensures Under(reg, received, client)
    decreases |received|
  {
    if received != [] {
      var n := |received| - 1;
      var before := RegistriesOf(received[..n], client);
      if received[n].client == client {
        var all := before + received[n].regs;
        assert forall i :: 0 <= i < |before| ==> all[i] == before[i];
        assert forall i :: 0 <= i < |received[n].regs| ==> all[|before| + i] == received[n].regs[i];
      }
      AllAreIsUnder(reg, received[..n], client);
    }
  }

  /** In every reachable state of the system with a client connected, after any registrations:
      there is a run in which the client sends these chunks, whatever they are, and the
      dispatches made and the handlers run are those of the parser specification. */
  lemma {:induction false} EveryStreamIsHandled(others: seq<System.Step>, rs: seq<Request>, client: nat,
                                                chunks: seq<seq<byte>>)
    returns (steps: seq<Step>)
    requires System.Run(System.START, others).Some? && System.Run(System.START, others).value.sh.fd == Some(client)
    requires AllCallable([BUILTIN], rs)
    requires forall i :: 0 <= i < |chunks| ==> 0 < |chunks[i]| < Parser.CHUNK_SIZE
    ensures Run(steps).Some? && ReceivedFrom(steps, client) == chunks
    ensures var w, reg := Run(steps).value, PerformAll([BUILTIN], rs);
      var r := Parser.FeedChunks(reg, Parser.INITIAL, chunks);
      && w.sys == System.Run(System.START, others).value && w.reg == reg
      && DispatchesOf(w.dispatched, client) == r.log
      && CallsOf(w.dispatched, client) == Parser.HandlerCalls(reg, r.log)
  {
    var reg, w := PerformAll([BUILTIN], rs), START.(sys := System.Run(System.START, others).value);
    steps := SystemFirst(others, client);
    steps := RegisterAll(steps, w, rs, client);
    steps, w := BecomeReady(steps, w.(reg := reg), others, client);
    var regs;
    steps, w, regs := HandleAll(steps, w, client, [], [], chunks);
    assert [] + chunks == chunks;
    AllAreIsUnder(reg, w.received, client);
    DispatchesUnderOneRegistry(reg, steps, client);
  }

  lemma {:induction false} BecomeReady(steps: seq<Step>, w: World, others: seq<System.Step>, client: nat)
    returns (more: seq<Step>, w': World)
    requires History(steps, w, client, [], []) && w.pc == WaitReady && w.fd == None
    requires System.Run(System.START, others) == Some(w.sys) && w.sys.sh.fd == Some(client)
    ensures w' == w.(pc := Loop) && Ready(w') && History(more, w', client, [], [])
  {
    w' := w.(pc := Loop);
    SystemInvariant.RunKeeps(others);
    RunKeeps(steps);
    SeesReady(w);
    more := MoveOn(steps, w, SeeReady, w', client, [], []);
  }

  lemma SeesReady(w: World)
    requires Ready(w) && w.pc == WaitReady && w.sys.sh.flags.rtsReady
    ensures Next(w, SeeReady) == Some(w.(pc := Loop))
  {
  }

  /** A run in which a client sends the message for a builtin command, byte by byte, it is
      dispatched, and its handler runs. */
  lemma {:induction false} BuiltinCommandRuns(id: byte) returns (steps: seq<Step>)
    requires 1 <= id <= 5
    ensures Run(steps).Some?
    ensures Concat(ReceivedFrom(steps, 0)) ==
      WireFormat.Utf8(WireFormat.MAGIC_CODE_POINT) + [0, 15] + WireFormat.Ascii("eventlog-socket") + [id]
    ensures DispatchesOf(Run(steps).value.dispatched, 0) == [Parser.Dispatch(0, id)]
    ensures CallsOf(Run(steps).value.dispatched, 0) == [Parser.HandlerCall(id, id)]
  {
    SystemTheorems.ConnectedIsReachable(Writer.Again);
    var others :| System.Run(System.START, others) == Some(SystemTheorems.Connected(Writer.Again));
    var message :=
      WireFormat.Utf8(WireFormat.MAGIC_CODE_POINT) + [0, 15] + WireFormat.Ascii("eventlog-socket") + [id];
    var chunks := Singles(message);
    steps := EveryStreamIsHandled(others, [], 0, chunks);
    ConcatSingles(message);
    BuiltinWellFormed();
    Parser.SmallChunksAreAdmissible([BUILTIN], Parser.INITIAL, chunks);
    Parser.AdmissibleIsDone([BUILTIN], Parser.INITIAL, chunks);
    WireFormat.BuiltinCommandsRun([BUILTIN], id, chunks);
  }
}
