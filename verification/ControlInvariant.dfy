/** What every step of the control thread, and of everything beside it, keeps. */
module ControlInvariant {
  import opened Bytes
  import opened NamespaceStore
  import opened ControlThread
  import Parser = CommandParser
  import Soundness = DispatchSoundness
  import Writer
  import System
  import SystemInvariant
  import SystemTheorems

  /** Which clients the control thread knows. Clients are never adopted twice. */
  ghost predicate Clients(w: World) {
    && w.adopted <= w.sys.lastPublished
    && (w.sys.sh.fd.Some? ==> w.sys.sh.fd.value == w.sys.lastPublished)
    && (w.fd.Some? ==> w.fd.value == w.adopted)
    && (w.fd.None? && w.sys.sh.fd.Some? ==> w.sys.sh.fd.value > w.adopted)
    && (w.pc == Polling || w.pc == Receiving ==> w.fd.Some?)
    && (w.pc != WaitReady ==> w.sys.sh.flags.rtsReady)
    && (w.pc == WaitReady ==> w.dispatched == [] && w.fd == None)
    && (w.pc.Waiting? ==> w.fd == None)
    && (w.pc == Waiting(false) ==> w.sys.sh.fd == None)
    && (forall i :: 0 <= i < |w.received| ==> w.received[i].client <= w.adopted)
  }

  /** Where the thread is in the last chunk. */
  predicate InChunk(w: World) {
    if w.pc.Handling? then
      && w.received != []
      && var last := w.received[|w.received| - 1];
         w.fd == Some(last.client) && w.pc.chunk == last.chunk && w.pc.at == Position(w.received)
    else
      w.received != [] ==> Position(w.received) == |w.received[|w.received| - 1].chunk|
  }

  /** All chunks but the last are handled to their end. */
  ghost predicate Handled(received: seq<Received>) {
    forall k :: 0 < k < |received| ==> Position(received[..k]) == |received[k - 1].chunk|
  }

  /** The parser state is the parse of the current client's chunks, and the dispatches for
      each client are those of the parse of its own chunks. */
  ghost predicate Parses(w: World) {
    && w.parser == (match w.fd case None => Parser.INITIAL case Some(c) => ParseOf(w.received, c).state)
    && forall c: nat :: DispatchesOf(w.dispatched, c) == ParseOf(w.received, c).log
  }

  /** The handlers that ran for each client are those that its own bytes call for. */
  ghost predicate Runs(dispatched: seq<Dispatched>, received: seq<Received>) {
    forall c: nat :: CallsOf(dispatched, c) == DetailOf(received, c).calls
  }

  /** A handler that ran is registered for its command ever after. */
  ghost predicate Permanent(reg: Registry, dispatched: seq<Dispatched>) {
    forall i :: 0 <= i < |dispatched| && dispatched[i].handler.Some? ==>
      HandlerOf(reg, dispatched[i].d) == dispatched[i].handler
  }

  /** What can be looked up in reg can be looked up in reg', with the same result. */
  ghost predicate Stable(reg: Registry, reg': Registry) {
    && |reg| <= |reg'|
    && forall query :: Resolve(reg, query).Some? ==> Resolve(reg', query) == Resolve(reg, query)
  }

  /** What was found in a lookup of the past is what is found now. */
  ghost predicate LookupsStable(reg: Registry, received: seq<Received>) {
    forall c: nat, l :: l in DetailOf(received, c).lookups ==> Stable(l.reg, reg)
  }

  /** How many of the bytes received from a client have been handled. */
  function Consumed(received: seq<Received>, client: nat): int {
    var bytes := |BytesOf(received, client)|;
    if received == [] then bytes
    else
      var last := received[|received| - 1];
      if last.client == client then bytes - |last.chunk| + Position(received) else bytes
  }

  /** The dispatches and the parser state are those of messages that stand in the client's
      own bytes. */
  ghost predicate Tracked(reg: Registry, received: seq<Received>, client: nat) {
    && 0 <= Consumed(received, client)
    && Soundness.Tracked(reg, BytesOf(received, client), Consumed(received, client), ParseOf(received, client))
  }

  ghost predicate AllTracked(reg: Registry, received: seq<Received>) {
    forall c: nat :: Tracked(reg, received, c)
  }

  ghost predicate ThreadInv(w: World) {
    && Ready(w) && WellFormed(w.reg) && Clients(w)
    && InChunk(w) && Handled(w.received) && Parses(w)
    && AllTracked(w.reg, w.received)
    && Runs(w.dispatched, w.received) && Permanent(w.reg, w.dispatched) && LookupsStable(w.reg, w.received)
  }

  ghost predicate Inv(w: World) {
    SystemInvariant.Inv(w.sys) && ThreadInv(w)
  }

  /** What the control thread can see of a step of the rest of the system: a client that is
      newly published was never published before. */
  ghost predicate ClientsAdvance(s: System.System, s': System.System) {
    && s.lastPublished <= s'.lastPublished
    && (s'.sh.fd.Some? ==> s'.sh.fd == s.sh.fd || s'.sh.fd.value > s.lastPublished)
  }

  lemma RtsStep(s: System.System, step: System.Step)
    requires SystemInvariant.Control(s) && System.RtsNext(s, step).Some?
    ensures ClientsAdvance(s, System.RtsNext(s, step).value)
  {
  }

  lemma WorkerStep(s: System.System, step: System.Step)
    requires SystemInvariant.Control(s) && SystemInvariant.Queue(s) && System.WorkerNext(s, step).Some?
    ensures ClientsAdvance(s, System.WorkerNext(s, step).value)
  {
    if step.LockFlush? {
      Writer.FlushSendsPrefix(s.sh, step.results, 0);
    }
  }

  lemma ListenStep(s: System.System, step: System.Step)
    requires SystemInvariant.Control(s) && System.ListenNext(s, step).Some?
    ensures ClientsAdvance(s, System.ListenNext(s, step).value)
  {
  }

  lemma OtherStep(s: System.System, step: System.Step)
    requires SystemInvariant.Inv(s) && System.Next(s, step).Some?
    ensures ClientsAdvance(s, System.Next(s, step).value)
    ensures s.sh.flags.rtsReady ==> System.Next(s, step).value.sh.flags.rtsReady
  {
    SystemTheorems.StepKeepsFlags(s, step);
    if System.RtsNext(s, step).Some? {
      RtsStep(s, step);
    } else if System.WorkerNext(s, step).Some? {
      WorkerStep(s, step);
    } else {
      ListenStep(s, step);
    }
  }

  /** Only a publication connects a client. */
  lemma OnlyPublicationConnects(s: System.System, step: System.Step)
    requires SystemInvariant.Queue(s) && System.Next(s, step).Some? && s.sh.fd == None
    ensures System.Next(s, step).value.sh.fd.Some? ==> step.PublishClient?
  {
    if step.LockFlush? {
      Writer.FlushSendsPrefix(s.sh, step.results, 0);
    }
  }

  lemma OtherKeeps(w: World, step: System.Step)
    requires Inv(w) && System.Next(w.sys, step).Some?
    ensures Inv(Beside(w, step, System.Next(w.sys, step).value))
  {
    SystemInvariant.StepKeeps(w.sys, step);
    OtherClients(w, step);
  }

  lemma OtherClients(w: World, step: System.Step)
    requires SystemInvariant.Inv(w.sys) && Clients(w) && System.Next(w.sys, step).Some?
    requires SystemInvariant.Control(System.Next(w.sys, step).value)
    ensures Clients(Beside(w, step, System.Next(w.sys, step).value))
  {
    OtherStep(w.sys, step);
    if w.pc == Waiting(false) {
      OnlyPublicationConnects(w.sys, step);
    }
  }

  /** Registrations only add to what can be looked up, so that what was found still is. */
  lemma RegisterKeeps(w: World, request: Request)
    requires ThreadInv(w) && Callable(w.reg, request)
    ensures ThreadInv(w.(reg := Perform(w.reg, request)))
  {
    PerformKeeps(w.reg, request);
    RegisterTracked(w.reg, w.received, request);
    RegisterPermanent(w.reg, w.dispatched, request);
    RegisterStable(w.reg, w.received, request);
  }

  lemma RegisterTracked(reg: Registry, received: seq<Received>, request: Request)
    requires WellFormed(reg) && AllTracked(reg, received) && Callable(reg, request)
    ensures AllTracked(Perform(reg, request), received)
  {
    forall c: nat
      ensures Tracked(Perform(reg, request), received, c)
    {
      assert Tracked(reg, received, c);
      Soundness.TrackedAfterRegistration(
        reg, request, BytesOf(received, c), Consumed(received, c), ParseOf(received, c));
    }
  }

  lemma HandlerIsStable(reg: Registry, request: Request, d: Parser.Dispatch)
    requires WellFormed(reg) && Callable(reg, request) && HandlerOf(reg, d).Some?
    ensures HandlerOf(Perform(reg, request), d) == HandlerOf(reg, d)
  {
    var requests := [request];
    assert requests[1..] == [];
    HandlersAreStable(reg, requests, d.ns, d.id);
  }

  lemma RegisterPermanent(reg: Registry, dispatched: seq<Dispatched>, request: Request)
    requires WellFormed(reg) && Callable(reg, request) && Permanent(reg, dispatched)
    ensures Permanent(Perform(reg, request), dispatched)
  {
    forall i | 0 <= i < |dispatched| && dispatched[i].handler.Some?
      ensures HandlerOf(Perform(reg, request), dispatched[i].d) == dispatched[i].handler
    {
      HandlerIsStable(reg, request, dispatched[i].d);
    }
  }

  lemma StableAfter(reg: Registry, reg': Registry, request: Request)
    requires WellFormed(reg') && Callable(reg', request) && Stable(reg, reg')
    ensures Stable(reg, Perform(reg', request))
  {
    PerformKeeps(reg', request);
    forall query | Resolve(reg, query).Some?
      ensures Resolve(Perform(reg', request), query) == Resolve(reg, query)
    {
      Soundness.LookupIsStable(reg', request, query);
    }
  }

  lemma RegisterStable(reg: Registry, received: seq<Received>, request: Request)
    requires WellFormed(reg) && Callable(reg, request) && LookupsStable(reg, received)
    ensures LookupsStable(Perform(reg, request), received)
  {
    forall c: nat, l | l in DetailOf(received, c).lookups
      ensures Stable(l.reg, Perform(reg, request))
    {
      StableAfter(l.reg, reg, request);
    }
  }

  /** The thread resets the parser, or moves without touching it. */
  lemma ResetKeeps(w: World, fd: Option<nat>, pc: Pc)
    requires ThreadInv(w) && fd == w.sys.sh.fd != w.fd && w.pc == Loop
    requires if fd.Some? then pc == Polling else pc == Waiting(false)
    ensures ThreadInv(ResetTo(w, fd).(pc := pc))
  {
    ResetParses(w, fd);
  }

  lemma ResetParses(w: World, fd: Option<nat>)
    requires Clients(w) && Parses(w)
    requires fd.Some? ==> fd.value > w.adopted
    ensures Parses(ResetTo(w, fd))
  {
    if fd.Some? {
      NothingOf(w.received, fd.value);
    }
  }

  lemma MoveKeeps(w: World, pc: Pc)
    requires ThreadInv(w) && !w.pc.Handling? && !pc.Handling? && pc != WaitReady
    requires w.pc == WaitReady ==> w.sys.sh.flags.rtsReady
    requires pc == Polling || pc == Receiving ==> w.fd.Some?
    requires pc.Waiting? ==> w.fd == None && w.sys.sh.fd == None
    ensures ThreadInv(w.(pc := pc))
  {
  }

  lemma ReceiveKeeps(w: World, chunk: seq<byte>)
    requires ThreadInv(w) && w.pc == Receiving && 0 < |chunk| <= Parser.CHUNK_SIZE
    ensures ThreadInv(Receives(w, chunk))
  {
    var r := Received(w.fd.value, chunk, []);
    ReceiveParses(w, chunk);
    ReceiveTracked(w.reg, w.received, r);
    ParseOfReceived(w.received, r, r.client);
    HandledSnoc(w.received, r);
    ReceiveRuns(w.reg, w.dispatched, w.received, r);
  }

  lemma ReceiveParses(w: World, chunk: seq<byte>)
    requires Parses(w) && w.fd.Some?
    ensures Parses(Receives(w, chunk))
  {
    var r := Received(w.fd.value, chunk, []);
    ParseOfReceived(w.received, r, w.fd.value);
    forall c: nat
      ensures DispatchesOf(w.dispatched, c) == ParseOf(w.received + [r], c).log
    {
      ParseOfReceived(w.received, r, c);
    }
  }

  lemma ReceiveTracked(reg: Registry, received: seq<Received>, r: Received)
    requires AllTracked(reg, received) && r.regs == []
    requires received != [] ==> Position(received) == |received[|received| - 1].chunk|
    ensures AllTracked(reg, received + [r])
  {
    forall c: nat
      ensures Tracked(reg, received + [r], c)
    {
      assert Tracked(reg, received, c);
      ParseOfReceived(received, r, c);
      BytesOfSnoc(received, r, c);
      if c == r.client {
        Soundness.TrackedInLonger(reg, BytesOf(received, c), r.chunk, |BytesOf(received, c)|, ParseOf(received, c));
      }
    }
  }

  lemma ReceiveRuns(reg: Registry, dispatched: seq<Dispatched>, received: seq<Received>, r: Received)
    requires Runs(dispatched, received) && LookupsStable(reg, received) && r.regs == []
    ensures Runs(dispatched, received + [r]) && LookupsStable(reg, received + [r])
  {
    forall c: nat
      ensures DetailOf(received + [r], c) == DetailOf(received, c)
    {
      DetailOfReceived(received, r, c);
    }
  }

  lemma HandledSnoc(received: seq<Received>, r: Received)
    requires Handled(received)
    requires received != [] ==> Position(received) == |received[|received| - 1].chunk|
    ensures Handled(received + [r])
  {
    var all := received + [r];
    forall k | 0 < k < |all|
      ensures Position(all[..k]) == |all[k - 1].chunk|
    {
      assert all[..k] == received[..k];
      assert k == |received| ==> received[..k] == received;
    }
  }

  lemma HandledIterated(received: seq<Received>, reg: Registry)
    requires received != [] && Handled(received)
    ensures Handled(IteratedUnder(received, reg))
  {
    var all := IteratedUnder(received, reg);
    forall k | 0 < k < |all|
      ensures Position(all[..k]) == |all[k - 1].chunk|
    {
      assert all[..k] == received[..k] && all[k - 1] == received[k - 1];
    }
  }

  lemma IterateKeeps(w: World)
    requires ThreadInv(w) && w.pc.Handling?
    ensures ThreadInv(Iterated(w))
  {
    StaysReady(w, Iterate);
    HandledIterated(w.received, w.reg);
    IterateClients(w);
    IterateInChunk(w);
    IterateParses(w);
    IterateTracked(w.reg, w.received);
    IterateRuns(w);
    IterateLookups(w.reg, w.received);
    IteratePermanent(w.reg, w.dispatched, w.fd.value, Iteration(w).log);
  }

  lemma IterateClients(w: World)
    requires Ready(w) && Clients(w) && w.pc.Handling?
    ensures Clients(Iterated(w))
  {
    LastIterated(w.received, w.reg);
  }

  lemma LastIterated(received: seq<Received>, reg: Registry)
    requires received != []
    ensures var n, after := |received| - 1, IteratedUnder(received, reg);
      && |after| == |received| && after[n].client == received[n].client && after[n].chunk == received[n].chunk
      && forall k :: 0 <= k < |received| ==>
           after[k].client == received[k].client && after[k].chunk == received[k].chunk
  {
  }

  lemma IterateInChunk(w: World)
    requires Ready(w) && InChunk(w) && w.pc.Handling?
    requires w.parser == ParseOf(w.received, w.fd.value).state
    ensures InChunk(Iterated(w))
  {
    LastIterated(w.received, w.reg);
    IteratedPosition(w);
  }

  lemma {:induction false} IteratedPosition(w: World)
    requires Ready(w) && InChunk(w) && w.pc.Handling?
    requires w.parser == ParseOf(w.received, w.fd.value).state
    ensures Position(IteratedUnder(w.received, w.reg)) == Iteration(w).next
  {
    ParseOfIterated(w.received, w.reg, w.fd.value);
  }

  lemma IterateParses(w: World)
    requires Ready(w) && InChunk(w) && Parses(w) && w.pc.Handling?
    ensures Parses(Iterated(w))
  {
    var me, it := w.fd.value, Iteration(w);
    ParseOfIterated(w.received, w.reg, me);
    forall c: nat
      ensures DispatchesOf(Iterated(w).dispatched, c) == ParseOf(Iterated(w).received, c).log
    {
      ParseOfIterated(w.received, w.reg, c);
      DispatchesOfTagged(w.dispatched, me, w.reg, it.log, c);
      if c != me {
        assert DispatchesOf(w.dispatched, c) + [] == DispatchesOf(w.dispatched, c);
      }
    }
  }

  lemma IterateRuns(w: World)
    requires Ready(w) && InChunk(w) && Parses(w) && Runs(w.dispatched, w.received) && w.pc.Handling?
    ensures Runs(Iterated(w).dispatched, Iterated(w).received)
  {
    var me, it := w.fd.value, Iteration(w);
    forall c: nat
      ensures CallsOf(Iterated(w).dispatched, c) == DetailOf(Iterated(w).received, c).calls
    {
      DetailOfIterated(w.received, w.reg, c);
      DispatchesOfTagged(w.dispatched, me, w.reg, it.log, c);
      assert CallsOf(w.dispatched, c) + [] == CallsOf(w.dispatched, c);
    }
  }

  lemma IterateLookups(reg: Registry, received: seq<Received>)
    requires Handles(reg, received) && LookupsStable(reg, received)
    ensures LookupsStable(reg, IteratedUnder(received, reg))
  {
    forall c: nat, l | l in DetailOf(IteratedUnder(received, reg), c).lookups
      ensures Stable(l.reg, reg)
    {
      DetailOfIterated(received, reg, c);
      assert l in DetailOf(received, c).lookups || l.reg == reg;
    }
  }

  lemma IteratePermanent(reg: Registry, dispatched: seq<Dispatched>, client: nat, log: seq<Parser.Dispatch>)
    requires Permanent(reg, dispatched)
    ensures Permanent(reg, dispatched + Tag(client, reg, log))
  {
  }

  /** The last chunk is in the middle of being handled. */
  ghost predicate Handles(reg: Registry, received: seq<Received>) {
    && received != []
    && var last := received[|received| - 1];
       && Parser.Valid(reg, ParseOf(received, last.client).state)
       && Position(received) < |last.chunk| <= Parser.CHUNK_SIZE
  }

  lemma IterateTracked(reg: Registry, received: seq<Received>)
    requires AllTracked(reg, received) && Handles(reg, received)
    ensures AllTracked(reg, IteratedUnder(received, reg))
  {
    forall c: nat
      ensures Tracked(reg, IteratedUnder(received, reg), c)
    {
      assert Tracked(reg, received, c);
      if c == received[|received| - 1].client {
        IterationIsTracked(reg, received, c);
      } else {
        ParseOfIterated(received, reg, c);
        BytesOfIterated(received, reg, c);
      }
    }
  }

  lemma {:induction false} IterationIsTracked(reg: Registry, received: seq<Received>, client: nat)
    requires Handles(reg, received) && received[|received| - 1].client == client && Tracked(reg, received, client)
    ensures Tracked(reg, IteratedUnder(received, reg), client)
  {
    var t, n, r := SoundIteration(reg, received, client);
    ConsumedIterated(reg, received, client);
    TrackedFrom(reg, IteratedUnder(received, reg), client, t, n, r);
  }

  lemma {:induction false} TrackedFrom(reg: Registry, received: seq<Received>, client: nat, t: seq<byte>, n: nat,
                                       r: Parser.Result)
    requires BytesOf(received, client) == t && Consumed(received, client) == n && ParseOf(received, client) == r
    requires Soundness.Tracked(reg, t, n, r)
    ensures Tracked(reg, received, client)
  {
  }

  /** The iteration, from the point of view of the bytes received from the client. */
  lemma {:induction false} SoundIteration(reg: Registry, received: seq<Received>, client: nat)
    returns (t: seq<byte>, n: nat, r: Parser.Result)
    requires Handles(reg, received) && received[|received| - 1].client == client && Tracked(reg, received, client)
    ensures var before, chunk := ParseOf(received, client), received[|received| - 1].chunk;
      var it := Parser.Iterate(reg, before.state, chunk, Position(received));
      && t == BytesOf(received, client) && n == |t| - |chunk| + it.next
      && r == Parser.Result(it.state, before.log + it.log)
    ensures Soundness.Tracked(reg, t, n, r)
  {
    var base := EndsInChunk(received, client);
    var chunk, at, before := received[|received| - 1].chunk, Position(received), ParseOf(received, client);
    assert Consumed(received, client) == |base| + at;
    t := BytesOf(received, client);
    Soundness.TrackIteration(reg, t, base, chunk, at, before);
    var it := Parser.Iterate(reg, before.state, chunk, at);
    n, r := |base| + it.next, Parser.Result(it.state, before.log + it.log);
  }

  lemma {:induction false} ConsumedIterated(reg: Registry, received: seq<Received>, client: nat)
    requires Handles(reg, received) && received[|received| - 1].client == client
    ensures var t, r, chunk := BytesOf(received, client), ParseOf(received, client), received[|received| - 1].chunk;
      var it, after := Parser.Iterate(reg, r.state, chunk, Position(received)), IteratedUnder(received, reg);
      && BytesOf(after, client) == t && Consumed(after, client) == |t| - |chunk| + it.next
      && ParseOf(after, client) == Parser.Result(it.state, r.log + it.log)
  {
    BytesOfIterated(received, reg, client);
    ParseOfIterated(received, reg, client);
  }

  lemma EndsInChunk(received: seq<Received>, client: nat) returns (base: seq<byte>)
    requires received != [] && received[|received| - 1].client == client
    ensures BytesOf(received, client) == base + received[|received| - 1].chunk
  {
    var n := |received| - 1;
    assert received == received[..n] + [received[n]];
    BytesOfSnoc(received[..n], received[n], client);
    base := BytesOf(received[..n], client);
  }

  lemma ThreadStepKeeps(w: World, step: Step)
    requires ThreadInv(w) && !step.Other? && Next(w, step).Some?
    ensures ThreadInv(Next(w, step).value) && Next(w, step).value.sys == w.sys
  {
    match step
    case Register(request) => RegisterKeeps(w, request);
    case SeeReady => MoveKeeps(w, Loop);
    case WakeUp => WakeUpKeeps(w);
    case StopWaiting => MoveKeeps(w, Loop);
    case PollNothing => MoveKeeps(w, Loop);
    case PollInput => MoveKeeps(w, Receiving);
    case Fails => MoveKeeps(w, Ended);
    case ReceiveNothing => MoveKeeps(w, Loop);
    case Receive(chunk) => ReceiveKeeps(w, chunk);
    case Iterate => IterateKeeps(w);
  }

  lemma WakeUpKeeps(w: World)
    requires ThreadInv(w) && w.pc == Loop
    ensures ThreadInv(Next(w, WakeUp).value)
  {
    if w.fd != w.sys.sh.fd {
      ResetKeeps(w, w.sys.sh.fd, if w.sys.sh.fd.None? then Waiting(false) else Polling);
    } else {
      MoveKeeps(w, if w.fd.Some? then Polling else Waiting(false));
    }
  }

  lemma StepKeeps(w: World, step: Step)
    requires Inv(w) && Next(w, step).Some?
    ensures Inv(Next(w, step).value)
  {
    if step.Other? {
      OtherKeeps(w, step.step);
    } else {
      ThreadStepKeeps(w, step);
    }
  }

  lemma StartKeeps()
    ensures Inv(START)
  {
    BuiltinWellFormed();
    Soundness.TrackedAtStart([BUILTIN], []);
  }

  lemma {:induction false} RunKeeps(steps: seq<Step>)
    requires Run(steps).Some?
    ensures Inv(Run(steps).value)
    decreases |steps|
  {
    if steps == [] {
      StartKeeps();
    } else {
      var before := steps[..|steps| - 1];
      RunKeeps(before);
      StepKeeps(Run(before).value, steps[|steps| - 1]);
    }
  }
}
