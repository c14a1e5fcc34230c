/** The critical sections of eventlog_socket.c and worker.c: what each of them does to the
    state under the mutex, as functions on values. */
module Writer {
  import opened Bytes

  const PIPE_CAPACITY := 65536

  datatype Flags = Flags(initialized: bool, attached: bool, rtsReady: bool, hadFirst: bool)

  /** What write() on the client socket comes to; n may not exceed what was offered. */
  datatype WriteResult = Wrote(n: nat) | Again | BrokenPipe | Failed

  /** The state under the mutex, and the number of bytes in the wake pipe. */
  datatype Shared = Shared(fd: Option<nat>, queue: seq<seq<byte>>, flags: Flags, pipe: nat)

  const INITIAL := Shared(None, [], Flags(false, false, false, false), 0)

  // --- The writer callbacks ----------------------------------------------------------

  /** writer_init. */
  function Attach(sh: Shared): Shared {
    sh.(flags := sh.flags.(attached := true))
  }

  /** es_worker_wake: without effect before the pipe exists and when the pipe is full. */
  function Wake(sh: Shared): nat {
    if sh.flags.initialized && sh.pipe < PIPE_CAPACITY then sh.pipe + 1 else sh.pipe
  }

  /** writer_enqueue. */
  function Enqueue(sh: Shared, data: seq<byte>): Shared {
    sh.(queue := sh.queue + [data], pipe := if sh.queue == [] then Wake(sh) else sh.pipe)
  }

  /** The new state, the bytes the socket accepted, and whether the chunk was kept. */
  datatype Written = Written(shared: Shared, sent: seq<byte>, kept: bool)

  /** writer_write. */
  function Write(sh: Shared, data: seq<byte>, r: WriteResult): Written {
    if sh.queue != [] then Written(Enqueue(sh, data), [], true)
    else if sh.fd.None? then
      if sh.flags.hadFirst then Written(sh, [], false)
      else Written(Enqueue(sh, data), [], true)
    else
      match r
      case Wrote(n) =>
        if n >= |data| then Written(sh, data, true)
        else Written(Enqueue(sh, data[n..]), data[..n], true)
      case Again => Written(Enqueue(sh, data), [], true)
      case BrokenPipe => Written(sh, [], false)
      case Failed => Written(sh, [], false)
  }

  /** writer_stop. */
  function Stop(sh: Shared): Shared {
    var detached := sh.(flags := sh.flags.(attached := false));
    if sh.fd.None? then detached else Hangup(detached)
  }

  /** eventlog_socket_signal_ghc_rts_ready, apart from the hook it may trigger. */
  function SignalReady(sh: Shared): Shared {
    sh.(flags := sh.flags.(rtsReady := true))
  }

  predicate SignalTriggersHook(sh: Shared) {
    !sh.flags.rtsReady && sh.flags.attached
  }

  // --- The worker ------------------------------------------------------------------------

  /** es_worker_init: from now on there is a wake pipe. */
  function Initialize(sh: Shared): Shared {
    sh.(flags := sh.flags.(initialized := true))
  }

  /** The wake pipe after n more bytes were written to it, as far as it takes them. */
  function Arrive(pipe: nat, n: nat): nat {
    if pipe + n <= PIPE_CAPACITY then pipe + n else if pipe <= PIPE_CAPACITY then PIPE_CAPACITY else pipe
  }

  const DRAIN_SIZE := 32

  /** One read() of es_worker_wake_drain. */
  function ReadWake(sh: Shared): Shared {
    sh.(pipe := ReadWakeBytes(sh.pipe))
  }

  function ReadWakeBytes(pipe: nat): nat {
    if pipe > DRAIN_SIZE then pipe - DRAIN_SIZE else 0
  }

  /** The end of a connection, as the worker sees it. */
  function Hangup(sh: Shared): Shared {
    sh.(fd := None, queue := [])
  }

  function Publish(sh: Shared, client: nat): Shared {
    sh.(fd := Some(client))
  }

  function MarkFirst(sh: Shared): Shared {
    sh.(flags := sh.flags.(hadFirst := true))
  }

  function ResultAt(results: seq<WriteResult>, k: nat): WriteResult {
    if k < |results| then results[k] else Again
  }

  datatype Flushed = Flushed(shared: Shared, sent: seq<byte>)

  /** One write() of the first queued item, and whether the flush goes on after it. On
      descriptor -1, write() fails. */
  function FlushHead(sh: Shared, r: WriteResult): (one: (Flushed, bool))
    requires sh.queue != []
    ensures |one.0.shared.queue| <= |sh.queue| && (one.1 ==> |one.0.shared.queue| < |sh.queue|)
  {
    if sh.fd.None? then (Flushed(sh, []), false)
    else
      var item := sh.queue[0];
      match r
      case Again => (Flushed(sh, []), false)
      case BrokenPipe => (Flushed(Hangup(sh), []), false)
      case Failed => (Flushed(sh, []), false)
      case Wrote(n) =>
        if n >= |item| then (Flushed(sh.(queue := sh.queue[1..]), item), true)
        else (Flushed(sh.(queue := sh.queue[0 := item[n..]]), item[..n]), false)
  }

  /** The loop of es_worker_step_write, from its write() number k on, when write() number i
      returns results[i]. */
  function Flush(sh: Shared, results: seq<WriteResult>, k: nat): Flushed
    decreases |sh.queue|
  {
    if sh.queue == [] then Flushed(sh, [])
    else
      var (one, more) := FlushHead(sh, ResultAt(results, k));
      if !more then one
      else
        var others := Flush(one.shared, results, k + 1);
        Flushed(others.shared, one.sent + others.sent)
  }

  // --- What they keep ------------------------------------------------------------------------

  /** No queued item is empty. */
  predicate ItemsNonEmpty(queue: seq<seq<byte>>) {
    forall i :: 0 <= i < |queue| ==> queue[i] != []
  }

  /** A chunk offered to the writer is kept whole or dropped whole: what the socket accepted
      and then the queue are what was queued before, followed by the chunk if it was kept. */
  lemma WriteConserves(sh: Shared, data: seq<byte>, r: WriteResult)
    requires ItemsNonEmpty(sh.queue) && data != []
    ensures var w := Write(sh, data, r);
      && w.sent + Concat(w.shared.queue) == Concat(sh.queue) + (if w.kept then data else [])
      && ItemsNonEmpty(w.shared.queue)
  {
    ConcatSnoc(sh.queue, data);
    if sh.queue == [] && sh.fd.Some? && r.Wrote? && r.n < |data| {
      ConcatSnoc(sh.queue, data[r.n..]);
      assert data == data[..r.n] + data[r.n..];
    }
  }

  /** A flush sends exactly a prefix of the queued bytes and leaves the rest queued, unless
      the pipe breaks: then it has sent a prefix, and the connection is over. */
  lemma {:induction false} FlushSendsPrefix(sh: Shared, results: seq<WriteResult>, k: nat)
    requires ItemsNonEmpty(sh.queue)
    ensures var f := Flush(sh, results, k);
      && ItemsNonEmpty(f.shared.queue)
      && f.shared.flags == sh.flags && f.shared.pipe == sh.pipe
      && f.sent <= Concat(sh.queue)
      && (f.shared.fd == sh.fd ==> f.sent + Concat(f.shared.queue) == Concat(sh.queue))
      && (f.shared.fd != sh.fd ==> f.shared.fd == None && f.shared.queue == [])
    decreases |sh.queue|
  {
    if sh.queue != [] && sh.fd.Some? {
      var item, rest := sh.queue[0], sh.queue[1..];
      match ResultAt(results, k)
      case Again =>
      case BrokenPipe =>
      case Failed =>
      case Wrote(n) =>
        if n >= |item| {
          FlushSendsPrefix(sh.(queue := rest), results, k + 1);
          var others := Flush(sh.(queue := rest), results, k + 1);
          var queued := Concat(others.shared.queue);
          assert (item + others.sent) + queued == item + (others.sent + queued);
        } else {
          var queue := sh.queue[0 := item[n..]];
          assert queue[1..] == rest;
          assert item[..n] + (item[n..] + Concat(rest)) == (item[..n] + item[n..]) + Concat(rest);
          assert item[..n] + item[n..] == item;
        }
    }
  }

  // --- The write() calls -----------------------------------------------------------------------

  /** A call of write() on the client socket. */
  datatype WriteCall = WriteCall(offered: seq<byte>, result: WriteResult)

  /** The bytes that the socket accepted: as many as write() says, from the start. */
  function Accepted(call: WriteCall): (bytes: seq<byte>)
    ensures bytes <= call.offered
  {
    match call.result
    case Wrote(n) => if n < |call.offered| then call.offered[..n] else call.offered
    case _ => []
  }

  predicate IsWhole(call: WriteCall) {
    call.result.Wrote? && call.result.n >= |call.offered|
  }

  function AcceptedAll(calls: seq<WriteCall>): seq<byte> {
    if calls == [] then [] else Accepted(calls[0]) + AcceptedAll(calls[1..])
  }

  lemma {:induction false} AcceptedAllAppend(a: seq<WriteCall>, b: seq<WriteCall>)
    ensures AcceptedAll(a + b) == AcceptedAll(a) + AcceptedAll(b)
  {
    if a == [] {
      assert a + b == b;
    } else {
      AcceptedAllAppend(a[1..], b);
      assert (a + b)[0] == a[0] && (a + b)[1..] == a[1..] + b;
      AppendTwice(Accepted(a[0]), AcceptedAll(a[1..]), AcceptedAll(b));
    }
  }

  /** The calls that a chunk offered to the writer leads to. */
  function DirectCalls(sh: Shared, data: seq<byte>, r: WriteResult): seq<WriteCall> {
    if sh.queue == [] && sh.fd.Some? then [WriteCall(data, r)] else []
  }

  /** A chunk is lost: nothing is queued, and there is no client any more or its socket fails
      for good. */
  predicate IsLost(sh: Shared, r: WriteResult) {
    sh.queue == [] && if sh.fd.None? then sh.flags.hadFirst else r.BrokenPipe? || r.Failed?
  }

  /** What becomes of a chunk: it is dropped exactly if it is lost; the socket accepts what its
      write() says; the rest of a chunk that is kept waits at the end of the queue; and the
      worker is woken exactly when the queue was empty and is not any more. */
  lemma {:induction false} WriteIsAccounted(sh: Shared, data: seq<byte>, r: WriteResult)
    requires data != []
    ensures var w := Write(sh, data, r);
      && (w.kept <==> !IsLost(sh, r))
      && w.sent == AcceptedAll(DirectCalls(sh, data, r))
      && w.shared.queue == sh.queue + (if IsLost(sh, r) || w.sent == data then [] else [data[|w.sent|..]])
      && w.shared.fd == sh.fd && w.shared.flags == sh.flags
      && w.shared.pipe == sh.pipe + (if sh.queue == [] != w.shared.queue
                                        && sh.flags.initialized && sh.pipe < PIPE_CAPACITY then 1 else 0)
  {
    var calls := DirectCalls(sh, data, r);
    assert calls != [] ==> calls[1..] == [] && AcceptedAll(calls) == Accepted(calls[0]) + [];
    assert data[0..] == data && sh.queue + [] == sh.queue;
  }

  /** The calls of a flush of this queue, from write() number k on: one for each item in turn,
      up to the first that is not accepted whole. */
  function FlushCalls(queue: seq<seq<byte>>, results: seq<WriteResult>, k: nat): (calls: seq<WriteCall>)
    ensures |calls| <= |queue|
    ensures forall j :: 0 <= j < |calls| ==> calls[j] == WriteCall(queue[j], ResultAt(results, k + j))
    decreases |queue|
  {
    if queue == [] then []
    else
      var call := WriteCall(queue[0], ResultAt(results, k));
      if IsWhole(call) then [call] + FlushCalls(queue[1..], results, k + 1) else [call]
  }

  /** All calls of a flush but the last are accepted whole, and the last one too if there is a
      call for every item; otherwise it is not. */
  lemma {:induction false} FlushStopsAtFirstShort(queue: seq<seq<byte>>, results: seq<WriteResult>, k: nat)
    ensures var calls := FlushCalls(queue, results, k);
      && (forall j :: 0 <= j < |calls| - 1 ==> IsWhole(calls[j]))
      && (|calls| < |queue| ==> calls != [] && !IsWhole(calls[|calls| - 1]))
    decreases |queue|
  {
    if queue != [] {
      var call := WriteCall(queue[0], ResultAt(results, k));
      if IsWhole(call) {
        FlushStopsAtFirstShort(queue[1..], results, k + 1);
        WholeBefore(call, FlushCalls(queue[1..], results, k + 1));
      }
    }
  }

  lemma WholeBefore(call: WriteCall, others: seq<WriteCall>)
    requires IsWhole(call) && forall j :: 0 <= j < |others| - 1 ==> IsWhole(others[j])
    ensures var calls := [call] + others;
      && (forall j :: 0 <= j < |calls| - 1 ==> IsWhole(calls[j]))
      && (others != [] ==> calls[|calls| - 1] == others[|others| - 1])
  {
    var calls := [call] + others;
    assert forall j :: 0 < j < |calls| ==> calls[j] == others[j - 1];
  }

  /** The socket turned out to be closed. */
  predicate BreaksPipe(calls: seq<WriteCall>) {
    calls != [] && calls[|calls| - 1].result.BrokenPipe?
  }

  /** What the calls of a flush leave queued: the items without a call, and before them what
      was not accepted of the last one with a call. */
  function LeftQueued(queue: seq<seq<byte>>, calls: seq<WriteCall>): seq<seq<byte>>
    requires |calls| <= |queue| && forall j :: 0 <= j < |calls| ==> calls[j].offered == queue[j]
  {
    if calls == [] || IsWhole(calls[|calls| - 1]) then queue[|calls|..]
    else [queue[|calls| - 1][|Accepted(calls[|calls| - 1])|..]] + queue[|calls|..]
  }

  /** A flush sends what its write() calls accept, keeps the rest in order, and ends the
      connection exactly if the last of them finds a broken pipe. */
  lemma {:induction false} FlushIsAccounted(sh: Shared, results: seq<WriteResult>, k: nat)
    requires ItemsNonEmpty(sh.queue) && sh.fd.Some?
    ensures var f, calls := Flush(sh, results, k), FlushCalls(sh.queue, results, k);
      && f.sent == AcceptedAll(calls)
      && f.shared == sh.(fd := if BreaksPipe(calls) then None else sh.fd,
                         queue := if BreaksPipe(calls) then [] else LeftQueued(sh.queue, calls))
    decreases |sh.queue|
  {
    if sh.queue != [] {
      var call, rest := WriteCall(sh.queue[0], ResultAt(results, k)), sh.queue[1..];
      var calls := FlushCalls(sh.queue, results, k);
      if IsWhole(call) {
        FlushIsAccounted(sh.(queue := rest), results, k + 1);
        var others := FlushCalls(rest, results, k + 1);
        assert calls == [call] + others && calls[1..] == others;
        LeftAfterWhole(sh.queue, call, others);
      } else {
        assert calls == [call] && calls[1..] == [] && AcceptedAll(calls) == Accepted(call) + [];
        LeftAfterFirst(sh.queue, call);
      }
    }
  }

  lemma LeftAfterWhole(queue: seq<seq<byte>>, call: WriteCall, others: seq<WriteCall>)
    requires queue != [] && IsWhole(call) && call.offered == queue[0] && |others| <= |queue| - 1
    requires forall j :: 0 <= j < |others| ==> others[j].offered == queue[1..][j]
    ensures LeftQueued(queue, [call] + others) == LeftQueued(queue[1..], others)
    ensures BreaksPipe([call] + others) == BreaksPipe(others)
  {
  }

  lemma LeftAfterFirst(queue: seq<seq<byte>>, call: WriteCall)
    requires queue != [] && queue[0] == call.offered && !IsWhole(call)
    ensures LeftQueued(queue, [call]) == queue[0 := queue[0][|Accepted(call)|..]]
  {
  }
}
