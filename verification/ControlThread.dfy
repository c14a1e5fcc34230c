/** The control thread, running beside the rest of the system: it follows the published
    client, receives chunks from it and feeds them to the command parser, while user threads
    register namespaces and commands. */
module ControlThread {
  import opened Bytes
  import opened NamespaceStore
  import Parser = CommandParser
  import System

  /** Waiting: for the condition that the worker signals when it publishes a client, and whether
      it was signalled since. Handling: in the loop over the chunk, at this index. */
  datatype Pc =
    | WaitReady
    | Loop
    | Waiting(signalled: bool)
    | Polling
    | Receiving
    | Handling(chunk: seq<byte>, at: nat)
    | Ended

  /** A chunk received from a client, and the registry as it was at each iteration of the loop
      over the chunk made so far. */
  datatype Received = Received(client: nat, chunk: seq<byte>, regs: seq<Registry>)

  /** A dispatch, and the handler that ran for it, if one was registered at that moment. */
  datatype Dispatched = Dispatched(client: nat, d: Parser.Dispatch, handler: Option<nat>)

  /** The system, the registry and the control thread; fd is the control thread's own view of
      the client, and adopted the last client it adopted. */
  datatype World = World(
    sys: System.System,
    reg: Registry,
    pc: Pc,
    fd: Option<nat>,
    parser: Parser.State,
    adopted: int,
    received: seq<Received>,
    dispatched: seq<Dispatched>)

  const START := World(System.START, [BUILTIN], WaitReady, None, Parser.INITIAL, -1, [], [])

  datatype Step =
    | Other(step: System.Step)
    | Register(request: Request)
    | SeeReady
    | WakeUp
    | StopWaiting         // the condition was signalled, or the wait ended without that
    | PollNothing         // timed out, or the connection is closed
    | PollInput
    | Fails               // an error of poll or recv that ends the thread
    | ReceiveNothing
    | Receive(chunk: seq<byte>)
    | Iterate             // one iteration of the loop over the chunk

  /** es_control_fd_reset_to. */
  function ResetTo(w: World, fd: Option<nat>): World {
    w.(fd := fd, parser := Parser.INITIAL, adopted := if fd.Some? then fd.value else w.adopted)
  }

  /** The handler that the registry has for a dispatch. */
  function HandlerOf(reg: Registry, d: Parser.Dispatch): Option<nat> {
    if d.ns < |reg| then Handler(reg, d.ns, d.id) else None
  }

  function Tag(client: nat, reg: Registry, log: seq<Parser.Dispatch>): (tagged: seq<Dispatched>)
    ensures |tagged| == |log|
    ensures forall i :: 0 <= i < |log| ==> tagged[i] == Dispatched(client, log[i], HandlerOf(reg, log[i]))
  {
    seq(|log|, i requires 0 <= i < |log| => Dispatched(client, log[i], HandlerOf(reg, log[i])))
  }

  /** A step of the rest of the system. The publication of a client signals the condition. */
  function Beside(w: World, step: System.Step, sys: System.System): World {
    w.(sys := sys, pc := if step.PublishClient? && w.pc.Waiting? then Waiting(true) else w.pc)
  }

  /** What the loop over a chunk needs to be in. */
  predicate Ready(w: World) {
    && Parser.Valid(w.reg, w.parser)
    && (w.pc.Handling? ==>
          w.fd.Some? && w.received != [] && w.pc.at < |w.pc.chunk| <= Parser.CHUNK_SIZE)
  }

  function Receives(w: World, chunk: seq<byte>): World
    requires w.fd.Some?
  {
    w.(pc := Handling(chunk, 0), received := w.received + [Received(w.fd.value, chunk, [])])
  }

  /** The iteration of the loop over the chunk that comes next. */
  function Iteration(w: World): Parser.Iteration
    requires Ready(w) && w.pc.Handling?
  {
    Parser.Iterate(w.reg, w.parser, w.pc.chunk, w.pc.at)
  }

  /** The history, with one more iteration over the last chunk under this registry. */
  function IteratedUnder(received: seq<Received>, reg: Registry): seq<Received>
    requires received != []
  {
    var n := |received| - 1;
    received[..n] + [received[n].(regs := received[n].regs + [reg])]
  }

  function Iterated(w: World): World
    requires Ready(w) && w.pc.Handling?
  {
    var it := Iteration(w);
    w.(pc := if it.next == |w.pc.chunk| then Loop else Handling(w.pc.chunk, it.next),
       parser := it.state,
       received := IteratedUnder(w.received, w.reg),
       dispatched := w.dispatched + Tag(w.fd.value, w.reg, it.log))
  }

  /** One step. Each iteration over a chunk locks the registry at most once, so that
      registrations can come between any two of them. */
  function Next(w: World, step: Step): Option<World>
    requires Ready(w)
  {
    match (step, w.pc)
    case (Other(other), _) =>
      (match System.Next(w.sys, other)
       case None => None
       case Some(sys) => Some(Beside(w, other, sys)))
    case (Register(request), _) =>
      if Callable(w.reg, request) then Some(w.(reg := Perform(w.reg, request))) else None
    case (SeeReady, WaitReady) => if w.sys.sh.flags.rtsReady then Some(w.(pc := Loop)) else None
    case (WakeUp, Loop) =>
      var newFd := w.sys.sh.fd;
      if w.fd.None? && newFd.None? then Some(w.(pc := Waiting(false)))
      else if w.fd.None? then Some(ResetTo(w, newFd).(pc := Polling))
      else if newFd.None? then Some(ResetTo(w, None).(pc := Waiting(false)))
      else if w.fd != newFd then Some(ResetTo(w, newFd).(pc := Polling))
      else Some(w.(pc := Polling))
    case (StopWaiting, Waiting(_)) => Some(w.(pc := Loop))
    case (PollNothing, Polling) => Some(w.(pc := Loop))
    case (PollInput, Polling) => Some(w.(pc := Receiving))
    case (Fails, Polling) => Some(w.(pc := Ended))
    case (Fails, Receiving) => Some(w.(pc := Ended))
    case (ReceiveNothing, Receiving) => Some(w.(pc := Loop))
    case (Receive(chunk), Receiving) =>
      if w.fd.None? || chunk == [] || |chunk| > Parser.CHUNK_SIZE then None
      else Some(Receives(w, chunk))
    case (Iterate, Handling(_, _)) => Some(Iterated(w))
    case _ => None
  }

  function Run(steps: seq<Step>): (w: Option<World>)
    ensures w.Some? ==> Ready(w.value) && WellFormed(w.value.reg)
    decreases |steps|
  {
    if steps == [] then
      BuiltinWellFormed();
      Some(START)
    else
      match Run(steps[..|steps| - 1])
      case None => None
      case Some(w) =>
        StaysReady(w, steps[|steps| - 1]);
        StaysWellFormed(w, steps[|steps| - 1]);
        Next(w, steps[|steps| - 1])
  }

  lemma StaysReady(w: World, step: Step)
    requires Ready(w)
    ensures Next(w, step).Some? ==> Ready(Next(w, step).value)
  {
  }

  lemma StaysWellFormed(w: World, step: Step)
    requires Ready(w) && WellFormed(w.reg)
    ensures Next(w, step).Some? ==> WellFormed(Next(w, step).value.reg)
  {
    if step.Register? && Callable(w.reg, step.request) {
      PerformKeeps(w.reg, step.request);
    }
  }

  // --- Connections ---------------------------------------------------------------------------

  /** The chunks received from one client, in order. */
  function ChunksOf(received: seq<Received>, client: nat): seq<seq<byte>> {
    if received == [] then []
    else
      var n := |received| - 1;
      var before := ChunksOf(received[..n], client);
      if received[n].client == client then before + [received[n].chunk] else before
  }

  function BytesOf(received: seq<Received>, client: nat): seq<byte> {
    Concat(ChunksOf(received, client))
  }

  /** The dispatches made on behalf of one client, in order. */
  function DispatchesOf(dispatched: seq<Dispatched>, client: nat): seq<Parser.Dispatch> {
    if dispatched == [] then []
    else
      var n := |dispatched| - 1;
      var before := DispatchesOf(dispatched[..n], client);
      if dispatched[n].client == client then before + [dispatched[n].d] else before
  }

  lemma {:induction false} BytesOfSnoc(received: seq<Received>, r: Received, client: nat)
    ensures ChunksOf(received + [r], client) ==
      if r.client == client then ChunksOf(received, client) + [r.chunk] else ChunksOf(received, client)
    ensures BytesOf(received + [r], client) ==
      if r.client == client then BytesOf(received, client) + r.chunk else BytesOf(received, client)
  {
    assert (received + [r])[..|received|] == received;
    ConcatSnoc(ChunksOf(received, client), r.chunk);
  }

  /** The handlers that ran on behalf of one client, in order. */
  function CallsOf(dispatched: seq<Dispatched>, client: nat): seq<Parser.HandlerCall> {
    if dispatched == [] then []
    else
      var n := |dispatched| - 1;
      var before, last := CallsOf(dispatched[..n], client), dispatched[n];
      if last.client == client && last.handler.Some? then before + [Parser.HandlerCall(last.handler.value, last.d.id)]
      else before
  }

  lemma {:induction false} DispatchesOfTagged(
    dispatched: seq<Dispatched>, client: nat, reg: Registry, log: seq<Parser.Dispatch>, other: nat)
    ensures DispatchesOf(dispatched + Tag(client, reg, log), other) ==
      DispatchesOf(dispatched, other) + (if client == other then log else [])
    ensures CallsOf(dispatched + Tag(client, reg, log), other) ==
      CallsOf(dispatched, other) + (if client == other then Parser.HandlerCalls(reg, log) else [])
    decreases |log|
  {
    var before, calls := DispatchesOf(dispatched, other), CallsOf(dispatched, other);
    if log == [] {
      assert dispatched + Tag(client, reg, log) == dispatched;
      assert before + [] == before && calls + [] == calls;
    } else {
      var n := |log| - 1;
      DispatchesOfTagged(dispatched, client, reg, log[..n], other);
      TagSnoc(dispatched, client, reg, log);
      assert (before + log[..n]) + [log[n]] == before + log;
    }
  }

  lemma {:induction false} TagSnoc(dispatched: seq<Dispatched>, client: nat, reg: Registry, log: seq<Parser.Dispatch>)
    requires log != []
    ensures var n, all := |log| - 1, dispatched + Tag(client, reg, log);
      && all[..|all| - 1] == dispatched + Tag(client, reg, log[..n])
      && all[|all| - 1] == Dispatched(client, log[n], HandlerOf(reg, log[n]))
      && log == log[..n] + [log[n]]
  {
  }

  lemma {:induction false} NothingOf(received: seq<Received>, client: nat)
    requires forall i :: 0 <= i < |received| ==> received[i].client != client
    ensures ChunksOf(received, client) == [] && ParseOf(received, client) == Parser.Result(Parser.INITIAL, [])
  {
    if received != [] {
      NothingOf(received[..|received| - 1], client);
    }
  }

  // --- The parse of a history ---------------------------------------------------------------

  /** What the iterations over a chunk made so far come to, from state st on, each under the
      registry of its time. */
  function Progress(regs: seq<Registry>, st: Parser.State, chunk: seq<byte>): Parser.Iteration
    decreases |regs|
  {
    if regs == [] then Parser.Iteration(st, 0, [])
    else
      var n := |regs| - 1;
      var p := Progress(regs[..n], st, chunk);
      if Parser.Valid(regs[n], p.state) && p.next < |chunk| <= Parser.CHUNK_SIZE then
        var it := Parser.Iterate(regs[n], p.state, chunk, p.next);
        Parser.Iteration(it.state, it.next, p.log + it.log)
      else p
  }

  /** The parse of what one client has sent, from a fresh start. */
  function ParseOf(received: seq<Received>, client: nat): Parser.Result {
    if received == [] then Parser.Result(Parser.INITIAL, [])
    else
      var n := |received| - 1;
      var before := ParseOf(received[..n], client);
      if received[n].client == client then
        var p := Progress(received[n].regs, before.state, received[n].chunk);
        Parser.Result(p.state, before.log + p.log)
      else before
  }

  /** How far the last chunk has been handled. */
  function Position(received: seq<Received>): nat
    requires received != []
  {
    var n := |received| - 1;
    Progress(received[n].regs, ParseOf(received[..n], received[n].client).state, received[n].chunk).next
  }

  lemma {:induction false} ParseOfReceived(received: seq<Received>, r: Received, client: nat)
    requires r.regs == []
    ensures ParseOf(received + [r], client) == ParseOf(received, client)
    ensures Position(received + [r]) == 0
  {
    var before := ParseOf(received, client);
    assert (received + [r])[..|received|] == received;
    assert before.log + [] == before.log;
  }

  lemma {:induction false} ProgressSnoc(regs: seq<Registry>, reg: Registry, st: Parser.State, chunk: seq<byte>)
    requires var p := Progress(regs, st, chunk);
      Parser.Valid(reg, p.state) && p.next < |chunk| <= Parser.CHUNK_SIZE
    ensures var p := Progress(regs, st, chunk);
      var it := Parser.Iterate(reg, p.state, chunk, p.next);
      Progress(regs + [reg], st, chunk) == Parser.Iteration(it.state, it.next, p.log + it.log)
  {
    assert (regs + [reg])[..|regs|] == regs;
  }

  lemma {:induction false} ParseOfLast(received: seq<Received>, r: Received)
    ensures var before := ParseOf(received, r.client);
      var p := Progress(r.regs, before.state, r.chunk);
      && ParseOf(received + [r], r.client) == Parser.Result(p.state, before.log + p.log)
      && Position(received + [r]) == p.next
    ensures forall client :: client != r.client ==> ParseOf(received + [r], client) == ParseOf(received, client)
  {
    assert (received + [r])[..|received|] == received;
  }

  lemma {:induction false} ParseOfIterated(received: seq<Received>, reg: Registry, client: nat)
    requires received != []
    requires var r := received[|received| - 1];
      Parser.Valid(reg, ParseOf(received, r.client).state) && Position(received) < |r.chunk| <= Parser.CHUNK_SIZE
    ensures var r := received[|received| - 1];
      var it := Parser.Iterate(reg, ParseOf(received, r.client).state, r.chunk, Position(received));
      && ParseOf(IteratedUnder(received, reg), client) ==
           (if r.client == client then Parser.Result(it.state, ParseOf(received, client).log + it.log)
            else ParseOf(received, client))
      && Position(IteratedUnder(received, reg)) == it.next
  {
    var n := |received| - 1;
    var r := received[n];
    var before := ParseOf(received[..n], r.client);
    assert received == received[..n] + [r];
    ParseOfLast(received[..n], r);
    ParseOfLast(received[..n], r.(regs := r.regs + [reg]));
    ProgressSnoc(r.regs, reg, before.state, r.chunk);
    var p := Progress(r.regs, before.state, r.chunk);
    AppendTwice(before.log, p.log, Parser.Iterate(reg, p.state, r.chunk, p.next).log);
  }

  lemma {:induction false} BytesOfIterated(received: seq<Received>, reg: Registry, client: nat)
    requires received != []
    ensures ChunksOf(IteratedUnder(received, reg), client) == ChunksOf(received, client)
  {
    assert IteratedUnder(received, reg)[..|received| - 1] == received[..|received| - 1];
  }

  // --- Lookups and handlers in a history ------------------------------------------------

  /** A name that was looked up, and the registry at that moment. */
  datatype Lookup = Lookup(reg: Registry, name: seq<byte>)

  /** The name that an iteration of the loop over a chunk looks up, if it completes one. */
  function LookedUp(reg: Registry, st: Parser.State, chunk: seq<byte>, at: nat): seq<Lookup>
    requires Parser.Valid(reg, st) && at < |chunk|
  {
    if st.Name? && |chunk| - at < Parser.CHUNK_SIZE && st.len - |st.buf| <= |chunk| - at
    then [Lookup(reg, st.buf + chunk[at..at + (st.len - |st.buf|)])]
    else []
  }

  /** The names looked up and the handlers run. */
  datatype Detail = Detail(lookups: seq<Lookup>, calls: seq<Parser.HandlerCall>) {
    function Then(later: Detail): Detail {
      Detail(lookups + later.lookups, calls + later.calls)
    }

    lemma ThenNothing()
      ensures Then(NOTHING) == this
    {
    }

    lemma ThenTwice(a: Detail, b: Detail)
      ensures Then(a).Then(b) == Then(a.Then(b))
    {
      AppendTwice(lookups, a.lookups, b.lookups);
      AppendTwice(calls, a.calls, b.calls);
    }
  }

  const NOTHING := Detail([], [])

  /** What one iteration looks up and runs. */
  function DetailAt(reg: Registry, st: Parser.State, chunk: seq<byte>, at: nat): Detail
    requires Parser.Valid(reg, st) && at < |chunk| <= Parser.CHUNK_SIZE
  {
    Detail(LookedUp(reg, st, chunk, at), Parser.HandlerCalls(reg, Parser.Iterate(reg, st, chunk, at).log))
  }

  function DetailIn(regs: seq<Registry>, st: Parser.State, chunk: seq<byte>): Detail
    decreases |regs|
  {
    if regs == [] then NOTHING
    else
      var n := |regs| - 1;
      var before, p := DetailIn(regs[..n], st, chunk), Progress(regs[..n], st, chunk);
      if Parser.Valid(regs[n], p.state) && p.next < |chunk| <= Parser.CHUNK_SIZE
      then before.Then(DetailAt(regs[n], p.state, chunk, p.next))
      else before
  }

  /** What was looked up and run on behalf of one client. */
  function DetailOf(received: seq<Received>, client: nat): Detail {
    if received == [] then NOTHING
    else
      var n := |received| - 1;
      var before := DetailOf(received[..n], client);
      if received[n].client == client
      then before.Then(DetailIn(received[n].regs, ParseOf(received[..n], client).state, received[n].chunk))
      else before
  }

  lemma {:induction false} DetailOfReceived(received: seq<Received>, r: Received, client: nat)
    requires r.regs == []
    ensures DetailOf(received + [r], client) == DetailOf(received, client)
  {
    assert (received + [r])[..|received|] == received;
    DetailOf(received, client).ThenNothing();
  }

  lemma {:induction false} DetailInSnoc(regs: seq<Registry>, reg: Registry, st: Parser.State, chunk: seq<byte>)
    requires var p := Progress(regs, st, chunk);
      Parser.Valid(reg, p.state) && p.next < |chunk| <= Parser.CHUNK_SIZE
    ensures var p := Progress(regs, st, chunk);
      DetailIn(regs + [reg], st, chunk) == DetailIn(regs, st, chunk).Then(DetailAt(reg, p.state, chunk, p.next))
  {
    assert (regs + [reg])[..|regs|] == regs;
  }

  lemma {:induction false} DetailOfLast(received: seq<Received>, r: Received, client: nat)
    ensures DetailOf(received + [r], client) ==
      if r.client == client
      then DetailOf(received, client).Then(DetailIn(r.regs, ParseOf(received, client).state, r.chunk))
      else DetailOf(received, client)
  {
    assert (received + [r])[..|received|] == received;
  }

  lemma {:induction false} DetailOfIterated(received: seq<Received>, reg: Registry, client: nat)
    requires received != []
    requires var r := received[|received| - 1];
      Parser.Valid(reg, ParseOf(received, r.client).state) && Position(received) < |r.chunk| <= Parser.CHUNK_SIZE
    ensures var r := received[|received| - 1];
      DetailOf(IteratedUnder(received, reg), client) ==
        if r.client == client
        then
          var st := ParseOf(received, client).state;
          DetailOf(received, client).Then(DetailAt(reg, st, r.chunk, Position(received)))
        else DetailOf(received, client)
  {
    var n := |received| - 1;
    var r := received[n];
    var st := ParseOf(received[..n], r.client).state;
    var p := Progress(r.regs, st, r.chunk);
    assert received == received[..n] + [r];
    ParseOfLast(received[..n], r);
    DetailOfLast(received[..n], r, client);
    DetailOfLast(received[..n], r.(regs := r.regs + [reg]), client);
    DetailInSnoc(r.regs, reg, st, r.chunk);
    DetailOf(received[..n], r.client).ThenTwice(DetailIn(r.regs, st, r.chunk), DetailAt(reg, p.state, r.chunk, p.next));
  }
}
