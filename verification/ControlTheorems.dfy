/** What holds in every run of the control thread. */
module ControlTheorems {
  import opened Bytes
  import opened NamespaceStore
  import opened ControlThread
  import opened ControlInvariant
  import Parser = CommandParser
  import Soundness = DispatchSoundness
  import Streams = PartialStreams
  import EndToEnd
  import MagicMatcher
  import System

  // --- From the steps alone -----------------------------------------------------------------

  /** The chunks that the thread receives in these steps while it follows this client. */
  function ReceivedFrom(steps: seq<Step>, client: nat): seq<seq<byte>>
    requires Run(steps).Some?
    decreases |steps|
  {
    if steps == [] then []
    else
      var n := |steps| - 1;
      var before := ReceivedFrom(steps[..n], client);
      if steps[n].Receive? && Run(steps[..n]).value.fd == Some(client) then before + [steps[n].chunk] else before
  }

  /** The registrations of the application in these steps. */
  function RequestsOf(steps: seq<Step>): seq<Request> {
    if steps == [] then []
    else
      var n := |steps| - 1;
      RequestsOf(steps[..n]) + (if steps[n].Register? then [steps[n].request] else [])
  }

  /** The steps of the rest of the system among these steps. */
  function OthersOf(steps: seq<Step>): seq<System.Step> {
    if steps == [] then []
    else
      var n := |steps| - 1;
      OthersOf(steps[..n]) + (if steps[n].Other? then [steps[n].step] else [])
  }

  /** The registries under which the thread iterates over chunks of this client in these steps:
      each is what the registrations before it come to. */
  function RegistriesAt(steps: seq<Step>, client: nat): seq<Registry>
    requires Run(steps).Some?
    decreases |steps|
  {
    if steps == [] then []
    else
      var n := |steps| - 1;
      var before := RegistriesAt(steps[..n], client);
      if steps[n].Iterate? && Run(steps[..n]).value.fd == Some(client) then
        RegistryIsOfSteps(steps[..n]);
        before + [PerformAll([BUILTIN], RequestsOf(steps[..n]))]
      else before
  }

  /** The registries on record for a client. */
  function RegistriesOf(received: seq<Received>, client: nat): seq<Registry> {
    if received == [] then []
    else
      var n := |received| - 1;
      var before := RegistriesOf(received[..n], client);
      if received[n].client == client then before + received[n].regs else before
  }

  /** In every run, the registry is what the registrations of the steps come to. */
  lemma {:induction false} RegistryIsOfSteps(steps: seq<Step>)
    requires Run(steps).Some?
    ensures AllCallable([BUILTIN], RequestsOf(steps))
    ensures Run(steps).value.reg == PerformAll([BUILTIN], RequestsOf(steps))
    decreases |steps|
  {
    if steps != [] {
      var n := |steps| - 1;
      RegistryIsOfSteps(steps[..n]);
      RegistryAfter(Run(steps[..n]).value, steps[n]);
      if steps[n].Register? {
        PerformAllSnoc([BUILTIN], RequestsOf(steps[..n]), steps[n].request);
      } else {
        assert RequestsOf(steps[..n]) + [] == RequestsOf(steps[..n]);
      }
    }
  }

  lemma RegistryAfter(w: World, step: Step)
    requires Ready(w) && Next(w, step).Some?
    ensures step.Register? ==> Callable(w.reg, step.request)
    ensures Next(w, step).value.reg == if step.Register? then Perform(w.reg, step.request) else w.reg
  {
  }

  /** In every run, the rest of the system has run its own steps, undisturbed by the thread. */
  lemma {:induction false} SystemRunsBeside(steps: seq<Step>)
    requires Run(steps).Some?
    ensures System.Run(System.START, OthersOf(steps)) == Some(Run(steps).value.sys)
    decreases |steps|
  {
    if steps != [] {
      var n := |steps| - 1;
      var before := OthersOf(steps[..n]);
      SystemRunsBeside(steps[..n]);
      SystemAfter(Run(steps[..n]).value, steps[n]);
      if steps[n].Other? {
        assert (before + [steps[n].step])[..|before|] == before;
      } else {
        assert before + [] == before;
      }
    }
  }

  lemma SystemAfter(w: World, step: Step)
    requires Ready(w) && Next(w, step).Some?
    ensures var sys' := Next(w, step).value.sys;
      if step.Other? then System.Next(w.sys, step.step) == Some(sys') else sys' == w.sys
  {
  }

  lemma {:induction false} StepIsOnRecord(w: World, step: Step, client: nat)
    requires Ready(w) && InChunk(w) && Next(w, step).Some?
    ensures var w' := Next(w, step).value;
      && ChunksOf(w'.received, client) ==
           ChunksOf(w.received, client) + (if step.Receive? && w.fd == Some(client) then [step.chunk] else [])
      && RegistriesOf(w'.received, client) ==
           RegistriesOf(w.received, client) + (if step.Iterate? && w.fd == Some(client) then [w.reg] else [])
  {
    assert ChunksOf(w.received, client) + [] == ChunksOf(w.received, client);
    assert RegistriesOf(w.received, client) + [] == RegistriesOf(w.received, client);
    if step.Receive? {
      ReceiveIsOnRecord(w.received, Received(w.fd.value, step.chunk, []), client);
    } else if step.Iterate? {
      IterateIsOnRecord(w.received, w.reg, client);
    }
  }

  lemma {:induction false} ReceiveIsOnRecord(received: seq<Received>, r: Received, client: nat)
    requires r.regs == []
    ensures RegistriesOf(received + [r], client) == RegistriesOf(received, client)
    ensures ChunksOf(received + [r], client) ==
      if r.client == client then ChunksOf(received, client) + [r.chunk] else ChunksOf(received, client)
  {
    BytesOfSnoc(received, r, client);
    assert (received + [r])[..|received|] == received;
    assert RegistriesOf(received, client) + [] == RegistriesOf(received, client);
  }

  lemma {:induction false} IterateIsOnRecord(received: seq<Received>, reg: Registry, client: nat)
    requires received != []
    ensures ChunksOf(IteratedUnder(received, reg), client) == ChunksOf(received, client)
    ensures RegistriesOf(IteratedUnder(received, reg), client) == RegistriesOf(received, client) +
      (if received[|received| - 1].client == client then [reg] else [])
  {
    var n := |received| - 1;
    BytesOfIterated(received, reg, client);
    assert IteratedUnder(received, reg)[..n] == received[..n];
    AppendTwice(RegistriesOf(received[..n], client), received[n].regs, [reg]);
    assert RegistriesOf(received, client) + [] == RegistriesOf(received, client);
  }

  /** Nothing is missing from the history of a run: for every client, the chunks on record are
      those that the steps receive from it, and the registries on record are those that the
      registrations of the steps come to at each iteration. */
  lemma {:induction false} HistoryIsOfSteps(steps: seq<Step>, client: nat)
    requires Run(steps).Some?
    ensures ChunksOf(Run(steps).value.received, client) == ReceivedFrom(steps, client)
    ensures RegistriesOf(Run(steps).value.received, client) == RegistriesAt(steps, client)
    decreases |steps|
  {
    if steps != [] {
      var n := |steps| - 1;
      var w := Run(steps[..n]).value;
      HistoryIsOfSteps(steps[..n], client);
      RunKeeps(steps[..n]);
      StepIsOnRecord(w, steps[n], client);
      RegistryIsOfSteps(steps[..n]);
      assert ReceivedFrom(steps[..n], client) + [] == ReceivedFrom(steps[..n], client);
      assert RegistriesAt(steps[..n], client) + [] == RegistriesAt(steps[..n], client);
    }
  }

  /** What the thread does when it wakes up: it follows the client of the moment, or waits if
      there is none, and it starts the parser afresh exactly if it follows another one. */
  lemma {:induction false} FollowsTheClient(steps: seq<Step>)
    requires Run(steps).Some? && Run(steps).value.pc == Loop
    ensures Next(Run(steps).value, WakeUp).Some?
    ensures var w, w' := Run(steps).value, Next(Run(steps).value, WakeUp).value;
      && w'.fd == w.sys.sh.fd && w'.pc == (if w.sys.sh.fd == None then Waiting(false) else Polling)
      && w'.parser == (if w'.fd == w.fd then w.parser else Parser.INITIAL)
      && w'.received == w.received && w'.dispatched == w.dispatched
  {
    FollowsFrom(Run(steps).value);
  }

  lemma FollowsFrom(w: World)
    requires Ready(w) && w.pc == Loop
    ensures Next(w, WakeUp).Some?
    ensures var w' := Next(w, WakeUp).value;
      && w'.fd == w.sys.sh.fd && w'.pc == (if w.sys.sh.fd == None then Waiting(false) else Polling)
      && w'.parser == (if w'.fd == w.fd then w.parser else Parser.INITIAL)
      && w'.received == w.received && w'.dispatched == w.dispatched
  {
  }

  // --- Connections ------------------------------------------------------------------------------

  /** A command never straddles connections: in every run, the parser state is the parse of
      exactly the bytes received on the current descriptor since its adoption, and what was
      dispatched for each client is what its own bytes say, parsed from a fresh start. */
  lemma {:induction false} CommandsDoNotStraddle(steps: seq<Step>, client: nat)
    requires Run(steps).Some?
    ensures var w := Run(steps).value;
      && DispatchesOf(w.dispatched, client) == ParseOf(w.received, client).log
      && (w.fd == Some(client) ==> w.parser == ParseOf(w.received, client).state)
      && (w.fd == None ==> w.parser == Parser.INITIAL)
      && ChunksOf(w.received, client) == ReceivedFrom(steps, client)
  {
    RunKeeps(steps);
    HistoryIsOfSteps(steps, client);
  }

  // --- Under the registry of now ----------------------------------------------------------

  /** A lookup of the past had the result that it has in this registry. */
  ghost predicate Agrees(reg: Registry, lookups: seq<Lookup>) {
    forall l :: l in lookups ==> Resolve(l.reg, l.name) == Resolve(reg, l.name)
  }

  /** An iteration whose lookup agrees is the same under both registries. */
  lemma {:induction false} IterateAgrees(reg: Registry, now: Registry, st: Parser.State, chunk: seq<byte>, at: nat)
    requires Parser.Valid(reg, st) && Parser.Valid(now, st) && at < |chunk| <= Parser.CHUNK_SIZE
    requires Agrees(now, LookedUp(reg, st, chunk, at))
    ensures Parser.Iterate(reg, st, chunk, at) == Parser.Iterate(now, st, chunk, at)
  {
    if st.Name? && |chunk| - at < Parser.CHUNK_SIZE {
      var n := if |chunk| - at < st.len - |st.buf| then |chunk| - at else st.len - |st.buf|;
      Parser.IterateInName(reg, st.len, st.buf, chunk, at, n);
      Parser.IterateInName(now, st.len, st.buf, chunk, at, n);
      var name := st.buf + chunk[at..at + n];
      if |name| == st.len {
        assert Lookup(reg, name) in LookedUp(reg, st, chunk, at);
      }
    }
  }

  /** Iterations over a chunk whose lookups agree with one registry are on the way to what the
      parser makes of the chunk under that registry. */
  lemma {:induction false} ProgressAgrees(now: Registry, regs: seq<Registry>, st: Parser.State, chunk: seq<byte>)
    requires Parser.Valid(now, st) && |chunk| <= Parser.CHUNK_SIZE
    requires Agrees(now, DetailIn(regs, st, chunk).lookups)
    ensures var p := Progress(regs, st, chunk);
      && Parser.Valid(now, p.state) && p.next <= |chunk|
      && Parser.FeedChunk(now, st, chunk) == Parser.FeedChunk(now, p.state, chunk[p.next..]).After(p.log)
    decreases |regs|
  {
    if regs == [] {
      assert chunk[0..] == chunk;
      Parser.FeedChunk(now, st, chunk).AfterNothing();
    } else {
      var n := |regs| - 1;
      ProgressAgrees(now, regs[..n], st, chunk);
      var p := Progress(regs[..n], st, chunk);
      if p.next < |chunk| && Parser.Valid(regs[n], p.state) {
        IterateAgrees(regs[n], now, p.state, chunk, p.next);
        IterationUnderOne(now, p, chunk);
      }
    }
  }

  lemma {:induction false} IterationUnderOne(reg: Registry, p: Parser.Iteration, chunk: seq<byte>)
    requires Parser.Valid(reg, p.state) && p.next < |chunk| <= Parser.CHUNK_SIZE
    ensures var it := Parser.Iterate(reg, p.state, chunk, p.next);
      Parser.FeedChunk(reg, p.state, chunk[p.next..]).After(p.log) ==
        Parser.FeedChunk(reg, it.state, chunk[it.next..]).After(p.log + it.log)
  {
    var it := Parser.Iterate(reg, p.state, chunk, p.next);
    Parser.IterationProgress(reg, p.state, chunk, p.next);
    if it.next == p.next {
      assert p.log + [] == p.log;
    } else {
      Parser.IterationIsFeedChunk(reg, p.state, chunk, p.next);
      Parser.FeedChunk(reg, it.state, chunk[it.next..]).AfterTwice(p.log, it.log);
    }
  }

  lemma {:induction false} ChunkIsHandled(now: Registry, regs: seq<Registry>, st: Parser.State, chunk: seq<byte>)
    requires Parser.Valid(now, st) && |chunk| <= Parser.CHUNK_SIZE
    requires Agrees(now, DetailIn(regs, st, chunk).lookups)
    requires Progress(regs, st, chunk).next == |chunk|
    ensures var p := Progress(regs, st, chunk); Parser.FeedChunk(now, st, chunk) == Parser.Result(p.state, p.log)
  {
    var p := Progress(regs, st, chunk);
    ProgressAgrees(now, regs, st, chunk);
    assert chunk[|chunk|..] == [] && p.log + [] == p.log;
  }

  /** If all lookups made for a client agree with a registry, its parse is the one of its chunks
      under that registry. */
  lemma {:induction false} ParseAgrees(now: Registry, received: seq<Received>, client: nat)
    requires Handled(received) && Agrees(now, DetailOf(received, client).lookups)
    requires received != [] ==> Position(received) == |received[|received| - 1].chunk|
    requires forall k :: 0 <= k < |received| ==> |received[k].chunk| <= Parser.CHUNK_SIZE
    ensures ParseOf(received, client) == Parser.FeedChunks(now, Parser.INITIAL, ChunksOf(received, client))
    decreases |received|
  {
    if received != [] {
      var n := |received| - 1;
      var before, r := received[..n], received[n];
      assert forall k :: 0 < k <= n ==> before[..k] == received[..k];
      assert n > 0 ==> before == received[..n];
      ParseAgrees(now, before, client);
      if r.client == client {
        ChunkIsHandled(now, r.regs, ParseOf(before, client).state, r.chunk);
        Parser.FeedChunksSnoc(now, Parser.INITIAL, ChunksOf(before, client), r.chunk);
      }
    }
  }

  /** Whenever the thread is not in the middle of a chunk: for a client whose lookups all agree
      with one registry, the dispatches and the parser state are those of the chunks received
      from it, as the parser specification has them. */
  lemma {:induction false} DispatchesIfLookupsAgree(reg: Registry, steps: seq<Step>, client: nat)
    requires Run(steps).Some? && !Run(steps).value.pc.Handling?
    requires Agrees(reg, DetailOf(Run(steps).value.received, client).lookups)
    ensures var w := Run(steps).value;
      var r := Parser.FeedChunks(reg, Parser.INITIAL, ReceivedFrom(steps, client));
      DispatchesOf(w.dispatched, client) == r.log && (w.fd == Some(client) ==> w.parser == r.state)
  {
    var w := Run(steps).value;
    RunKeeps(steps);
    HistoryIsOfSteps(steps, client);
    ChunksFit(steps);
    ParseAgrees(reg, w.received, client);
  }

  /** Everything received from this client was handled under this one registry. */
  ghost predicate Under(reg: Registry, received: seq<Received>, client: nat) {
    forall k, i :: 0 <= k < |received| && received[k].client == client && 0 <= i < |received[k].regs| ==>
      received[k].regs[i] == reg
  }

  lemma {:induction false} DetailUnderOne(reg: Registry, regs: seq<Registry>, st: Parser.State, chunk: seq<byte>)
    requires forall i :: 0 <= i < |regs| ==> regs[i] == reg
    ensures var d := DetailIn(regs, st, chunk);
      Agrees(reg, d.lookups) && d.calls == Parser.HandlerCalls(reg, Progress(regs, st, chunk).log)
    decreases |regs|
  {
    if regs != [] {
      var n := |regs| - 1;
      var p := Progress(regs[..n], st, chunk);
      DetailUnderOne(reg, regs[..n], st, chunk);
      if Parser.Valid(reg, p.state) && p.next < |chunk| <= Parser.CHUNK_SIZE {
        Parser.HandlerCallsAppend(reg, p.log, Parser.Iterate(reg, p.state, chunk, p.next).log);
      }
    }
  }

  lemma {:induction false} UnderOneAgrees(reg: Registry, received: seq<Received>, client: nat)
    requires Under(reg, received, client)
    ensures var d := DetailOf(received, client);
      Agrees(reg, d.lookups) && d.calls == Parser.HandlerCalls(reg, ParseOf(received, client).log)
    decreases |received|
  {
    if received != [] {
      var n := |received| - 1;
      var before, r := received[..n], received[n];
      UnderOneAgrees(reg, before, client);
      if r.client == client {
        var st := ParseOf(before, client).state;
        DetailUnderOne(reg, r.regs, st, r.chunk);
        Parser.HandlerCallsAppend(reg, ParseOf(before, client).log, Progress(r.regs, st, r.chunk).log);
      }
    }
  }

  /** While the registry does not change, the dispatches are those of the parser specification
      and the handlers that ran are those of the registry, in every run, whenever the thread
      is not in the middle of a chunk, for every client whose chunks were handled under one
      registry. */
  lemma {:induction false} DispatchesUnderOneRegistry(reg: Registry, steps: seq<Step>, client: nat)
    requires Run(steps).Some? && !Run(steps).value.pc.Handling?
    requires Under(reg, Run(steps).value.received, client)
    ensures var w := Run(steps).value;
      var r := Parser.FeedChunks(reg, Parser.INITIAL, ReceivedFrom(steps, client));
      && DispatchesOf(w.dispatched, client) == r.log && (w.fd == Some(client) ==> w.parser == r.state)
      && CallsOf(w.dispatched, client) == Parser.HandlerCalls(reg, r.log)
  {
    var w := Run(steps).value;
    UnderOneAgrees(reg, w.received, client);
    DispatchesIfLookupsAgree(reg, steps, client);
    RunKeeps(steps);
  }

  /** No name was looked up for this client before it was registered. */
  ghost predicate Prompt(reg: Registry, lookups: seq<Lookup>) {
    forall l :: l in lookups && Resolve(reg, l.name).Some? ==> Resolve(l.reg, l.name).Some?
  }

  /** The round trip inside a run, while the application goes on registering: a client has sent
      the first n bytes of a stream of commands for registered namespaces, none of which was
      registered after its name had been read. Then its dispatches are exactly the commands
      that are complete in these n bytes, in order. */
  lemma {:induction false} RoundTripInRun(steps: seq<Step>, client: nat, calls: seq<EndToEnd.Call>, trailing: seq<byte>,
                                          n: nat)
    requires Run(steps).Some? && !Run(steps).value.pc.Handling?
    requires var w := Run(steps).value;
      && Prompt(w.reg, DetailOf(w.received, client).lookups)
      && Streams.AreCalls(w.reg, calls) && MagicMatcher.MagicFree(trailing)
      && n <= |Streams.StreamOf(w.reg, calls, trailing)|
      && Concat(ReceivedFrom(steps, client)) == Streams.StreamOf(w.reg, calls, trailing)[..n]
    ensures var w := Run(steps).value;
      DispatchesOf(w.dispatched, client) == EndToEnd.AsDispatches(Streams.Completed(w.reg, calls, n))
  {
    var w := Run(steps).value;
    RunKeeps(steps);
    PromptAgrees(w.reg, w.received, client);
    DispatchesIfLookupsAgree(w.reg, steps, client);
    Streams.PrefixInChunksIsDispatched(w.reg, calls, trailing, n, ReceivedFrom(steps, client));
  }

  lemma {:induction false} PromptAgrees(reg: Registry, received: seq<Received>, client: nat)
    requires LookupsStable(reg, received) && Prompt(reg, DetailOf(received, client).lookups)
    ensures Agrees(reg, DetailOf(received, client).lookups)
  {
    forall l | l in DetailOf(received, client).lookups
      ensures Resolve(l.reg, l.name) == Resolve(reg, l.name)
    {
      assert Stable(l.reg, reg);
    }
  }

  // --- Handlers ---------------------------------------------------------------------------

  /** In every run, the handlers that ran for a client are those that its own bytes call for, in
      order, each looked up in the registry of its own moment. */
  lemma {:induction false} HandlersThatRun(steps: seq<Step>, client: nat)
    requires Run(steps).Some?
    ensures CallsOf(Run(steps).value.dispatched, client) == DetailOf(Run(steps).value.received, client).calls
  {
    RunKeeps(steps);
  }

  /** A handler that ran is the one registered for its command ever after; a dispatch without a
      handler was made before its command was registered, if it is registered at all. */
  lemma {:induction false} HandlersArePermanent(steps: seq<Step>, i: nat)
    requires Run(steps).Some? && i < |Run(steps).value.dispatched|
    ensures var w := Run(steps).value;
      w.dispatched[i].handler.Some? ==> HandlerOf(w.reg, w.dispatched[i].d) == w.dispatched[i].handler
  {
    RunKeeps(steps);
  }

  /** No dispatch was made before its command was registered. */
  ghost predicate PromptHandlers(reg: Registry, dispatched: seq<Dispatched>) {
    forall i :: 0 <= i < |dispatched| && HandlerOf(reg, dispatched[i].d).Some? ==> dispatched[i].handler.Some?
  }

  lemma {:induction false} CallsIfPrompt(reg: Registry, dispatched: seq<Dispatched>, client: nat)
    requires Permanent(reg, dispatched) && PromptHandlers(reg, dispatched)
    ensures CallsOf(dispatched, client) == Parser.HandlerCalls(reg, DispatchesOf(dispatched, client))
    decreases |dispatched|
  {
    if dispatched != [] {
      var n := |dispatched| - 1;
      CallsIfPrompt(reg, dispatched[..n], client);
      var before, d := DispatchesOf(dispatched[..n], client), dispatched[n].d;
      assert (before + [d])[..|before|] == before;
    }
  }

  /** If no dispatch came before the registration of its command, the handlers that ran for a
      client are those that the registry of now has for its dispatches. */
  lemma {:induction false} HandlersIfPrompt(steps: seq<Step>, client: nat)
    requires Run(steps).Some?
    requires PromptHandlers(Run(steps).value.reg, Run(steps).value.dispatched)
    ensures var w := Run(steps).value;
      CallsOf(w.dispatched, client) == Parser.HandlerCalls(w.reg, DispatchesOf(w.dispatched, client))
  {
    RunKeeps(steps);
    CallsIfPrompt(Run(steps).value.reg, Run(steps).value.dispatched, client);
  }

  // --- Waiting -------------------------------------------------------------------------------

  /** No publication is missed: while the thread waits and has not been signalled, there is no
      client. */
  lemma {:induction false} NoMissedClient(steps: seq<Step>)
    requires Run(steps).Some? && Run(steps).value.pc == Waiting(false)
    ensures Run(steps).value.sys.sh.fd == None && Run(steps).value.fd == None
  {
    RunKeeps(steps);
  }

  predicate Fit(received: seq<Received>) {
    forall k :: 0 <= k < |received| ==> 0 < |received[k].chunk| <= Parser.CHUNK_SIZE
  }

  lemma StepFits(w: World, step: Step)
    requires Ready(w) && Fit(w.received) && Next(w, step).Some?
    ensures Fit(Next(w, step).value.received)
  {
    if step.Iterate? {
      LastIterated(w.received, w.reg);
    }
  }

  /** The thread never receives an empty chunk, or one beyond the size of its buffer. */
  lemma {:induction false} ChunksFit(steps: seq<Step>)
    requires Run(steps).Some?
    ensures Fit(Run(steps).value.received)
    decreases |steps|
  {
    if steps != [] {
      var before := steps[..|steps| - 1];
      ChunksFit(before);
      StepFits(Run(before).value, steps[|steps| - 1]);
    }
  }

  /** Every command dispatched for a client stands, as one message, in that client's own
      bytes, even though the registry grows all the time: its name resolves to the
      namespace of the dispatch in the registry as it is now. */
  lemma {:induction false} DispatchesStandInOneConnection(steps: seq<Step>, client: nat)
    requires Run(steps).Some?
    ensures var w := Run(steps).value;
      exists spans, hi: nat :: Soundness.Located(
        w.reg, Concat(ReceivedFrom(steps, client)), DispatchesOf(w.dispatched, client), spans, hi)
  {
    var w := Run(steps).value;
    RunKeeps(steps);
    HistoryIsOfSteps(steps, client);
    assert Tracked(w.reg, w.received, client);
  }

  /** No command is handled before the RTS is ready. */
  lemma {:induction false} NoCommandBeforeReady(steps: seq<Step>)
    requires Run(steps).Some?
    ensures var w := Run(steps).value;
      && (w.dispatched != [] ==> w.sys.sh.flags.rtsReady)
      && (w.pc == Receiving || w.pc.Handling? ==> w.sys.sh.flags.rtsReady)
  {
    RunKeeps(steps);
  }
}
