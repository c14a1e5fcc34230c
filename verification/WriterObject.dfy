/** The globals of eventlog_socket.c and the code that updates them under the mutex. Each
    method is one critical section; the results of write() are parameters. */
module WriterObject {
  import opened Bytes
  import opened Writer
  import WriteBuffer

  const SIG_INITIALIZED: bv8 := 1
  const SIG_ATTACHED: bv8 := 2
  const SIG_RTS_READY: bv8 := 4
  const SIG_HAD_FIRST_CONNECTION: bv8 := 8

  function FlagsOf(bits: bv8): Flags {
    Flags(bits & SIG_INITIALIZED != 0, bits & SIG_ATTACHED != 0,
          bits & SIG_RTS_READY != 0, bits & SIG_HAD_FIRST_CONNECTION != 0)
  }

  lemma SetBits(bits: bv8)
    ensures FlagsOf(bits | SIG_INITIALIZED) == FlagsOf(bits).(initialized := true)
    ensures FlagsOf(bits | SIG_ATTACHED) == FlagsOf(bits).(attached := true)
    ensures FlagsOf(bits | SIG_RTS_READY) == FlagsOf(bits).(rtsReady := true)
    ensures FlagsOf(bits | SIG_HAD_FIRST_CONNECTION) == FlagsOf(bits).(hadFirst := true)
    ensures FlagsOf(bits & !SIG_ATTACHED) == FlagsOf(bits).(attached := false)
  {
  }

  class EventlogSocket {
    var clientFd: int
    var initState: bv8
    var wakePipe: nat
    const buffer: WriteBuffer.Buffer

    ghost predicate Valid()
      reads this, buffer, buffer.Repr
    {
      clientFd >= -1 && buffer.Valid() && this !in buffer.Repr
    }

    ghost function View(): Shared
      requires Valid()
      reads this, buffer, buffer.Repr
    {
      Shared(if clientFd == -1 then None else Some(clientFd), buffer.Contents(), FlagsOf(initState), wakePipe)
    }

    constructor ()
      ensures Valid() && fresh(buffer) && fresh(buffer.Repr) && View() == INITIAL
    {
      clientFd, initState, wakePipe := -1, 0, 0;
      buffer := new WriteBuffer.Buffer();
    }

    /** es_worker_init, which creates the wake pipe. */
    method WorkerInit()
      requires Valid()
      modifies this`initState
      ensures Valid() && View() == Initialize(old(View()))
    {
      if initState & SIG_INITIALIZED == 0 {
        SetBits(initState);
        initState := initState | SIG_INITIALIZED;
      }
    }

    /** One read() of es_worker_wake_drain, and whether the loop goes on after it. */
    method WorkerReadWake() returns (more: bool)
      requires Valid()
      modifies this`wakePipe
      ensures Valid() && View() == ReadWake(old(View())) && more == (old(wakePipe) > 0)
    {
      more := ReadWakePipe();
    }

    method ReadWakePipe() returns (more: bool)
      modifies this`wakePipe
      ensures wakePipe == ReadWakeBytes(old(wakePipe)) && more == (old(wakePipe) > 0)
    {
      more := wakePipe > 0;
      wakePipe := if wakePipe > DRAIN_SIZE then wakePipe - DRAIN_SIZE else 0;
    }

    /** es_worker_wake_drain. It runs outside the mutex: before read number k, other threads
        write arrivals[k] more bytes, as far as the pipe takes them. It ends with the first
        read that finds nothing. */
    method WorkerWakeDrain(arrivals: seq<nat>) returns (count: nat)
      requires Valid()
      modifies this`wakePipe
      ensures Valid() && View() == old(View()).(pipe := 0)
      ensures 0 < count && (count <= |arrivals| ==> arrivals[count - 1] == 0)
    {
      ghost var queue := buffer.Contents();
      var more := true;
      count := 0;
      while more
        invariant Valid() && buffer.Contents() == queue
        invariant !more ==> wakePipe == 0 && 0 < count && (count <= |arrivals| ==> arrivals[count - 1] == 0)
        decreases if count < |arrivals| then |arrivals| - count else 0, wakePipe, more
      {
        if count < |arrivals| {
          wakePipe := Arrive(wakePipe, arrivals[count]);
        }
        more := ReadWakePipe();
        count := count + 1;
      }
    }

    /** writer_init. */
    method WriterInit()
      requires Valid()
      modifies this`initState
      ensures Valid() && View() == Attach(old(View()))
    {
      SetBits(initState);
      initState := initState | SIG_ATTACHED;
    }

    /** writer_enqueue, with es_worker_wake. */
    method WriterEnqueue(data: array<byte>, start: nat, size: nat)
      requires Valid() && size > 0 && start + size <= data.Length
      modifies this`wakePipe, buffer, buffer.last
      ensures Valid() && fresh(buffer.Repr - old(buffer.Repr))
      ensures View() == Enqueue(old(View()), old(data[start..start + size]))
    {
      var wasEmpty := buffer.head == null;
      buffer.Push(data, start, size);
      if wasEmpty && initState & SIG_INITIALIZED != 0 && wakePipe < PIPE_CAPACITY {
        wakePipe := wakePipe + 1;
      }
    }

    method EnqueueAll(eventlog: array<byte>)
      requires Valid() && eventlog.Length > 0
      modifies this`wakePipe, buffer, buffer.last
      ensures Valid() && fresh(buffer.Repr - old(buffer.Repr))
      ensures View() == Enqueue(old(View()), old(eventlog[..]))
    {
      assert eventlog[0..0 + eventlog.Length] == eventlog[..];
      WriterEnqueue(eventlog, 0, eventlog.Length);
    }

    /** writer_write. */
    method WriterWrite(eventlog: array<byte>, result: WriteResult) returns (ghost sent: seq<byte>, ghost kept: bool)
      requires Valid() && eventlog.Length > 0
      modifies this`wakePipe, buffer, buffer.last
      ensures Valid() && fresh(buffer.Repr - old(buffer.Repr))
      ensures Written(View(), sent, kept) == Write(old(View()), old(eventlog[..]), result)
    {
      if buffer.head != null {
        EnqueueAll(eventlog);
        return [], true;
      }
      if clientFd < 0 {
        if initState & SIG_HAD_FIRST_CONNECTION == 0 {
          EnqueueAll(eventlog);
          return [], true;
        }
        return [], false;
      }
      sent, kept := WriteToClient(eventlog, result);
    }

    /** The direct write to the client, when nothing is queued. */
    method WriteToClient(eventlog: array<byte>, result: WriteResult) returns (ghost sent: seq<byte>, ghost kept: bool)
      requires Valid() && eventlog.Length > 0 && buffer.head == null && clientFd >= 0
      modifies this`wakePipe, buffer, buffer.last
      ensures Valid() && fresh(buffer.Repr - old(buffer.Repr))
      ensures Written(View(), sent, kept) == Write(old(View()), old(eventlog[..]), result)
    {
      var size := eventlog.Length;
      match result
      case Wrote(n) =>
        if n >= size {
          return eventlog[..], true;
        }
        assert eventlog[n..n + (size - n)] == eventlog[..][n..];
        sent, kept := eventlog[..][..n], true;
        WriterEnqueue(eventlog, n, size - n);
      case Again =>
        EnqueueAll(eventlog);
        return [], true;
      case BrokenPipe =>
        return [], false;
      case Failed =>
        return [], false;
    }

    /** The end of a connection: in es_worker_step_nonwrite and es_worker_step_write. */
    method WorkerHangup()
      requires Valid()
      modifies this`clientFd, buffer
      ensures Valid() && buffer.Repr == old(buffer.Repr) && View() == Hangup(old(View()))
    {
      clientFd := -1;
      buffer.Free();
    }

    method ClearAttached()
      requires Valid()
      modifies this`initState
      ensures Valid() && View() == old(View()).(flags := old(View()).flags.(attached := false))
    {
      SetBits(initState);
      initState := initState & !SIG_ATTACHED;
    }

    /** writer_stop; closed is the descriptor it closed, if any. */
    method WriterStop() returns (closed: Option<nat>)
      requires Valid()
      modifies this`initState, this`clientFd, buffer
      ensures Valid() && buffer.Repr == old(buffer.Repr)
      ensures View() == Stop(old(View())) && closed == old(View()).fd
    {
      ClearAttached();
      closed := None;
      if clientFd >= 0 {
        closed := Some(clientFd);
        WorkerHangup();
      }
    }

    /** eventlog_socket_signal_ghc_rts_ready; hook says whether it ran the
        post-startEventLogging hooks. */
    method SignalGhcRtsReady() returns (hook: bool)
      requires Valid()
      modifies this`initState
      ensures Valid() && View() == SignalReady(old(View())) && hook == SignalTriggersHook(old(View()))
    {
      hook := false;
      if initState & SIG_RTS_READY == 0 {
        hook := initState & SIG_ATTACHED != 0;
        SetBits(initState);
        initState := initState | SIG_RTS_READY;
      }
    }

    /** The publication of a client in es_worker_step_listen. */
    method WorkerPublish(client: nat)
      requires Valid()
      modifies this`clientFd
      ensures Valid() && View() == Publish(old(View()), client)
    {
      clientFd := client;
    }

    /** The end of es_worker_step_listen, for the first client. */
    method WorkerMarkFirst()
      requires Valid()
      modifies this`initState
      ensures Valid() && View() == MarkFirst(old(View()))
    {
      SetBits(initState);
      initState := initState | SIG_HAD_FIRST_CONNECTION;
    }

    /** One write() of the loop of es_worker_step_write, with what follows from it. */
    method WorkerWriteHead(result: WriteResult) returns (ghost sent: seq<byte>, more: bool)
      requires Valid() && buffer.head != null
      modifies this`clientFd, buffer, buffer.head
      ensures Valid() && buffer.Repr == old(buffer.Repr)
      ensures initState == old(initState) && wakePipe == old(wakePipe)
      ensures (Flushed(View(), sent), more) == FlushHead(old(View()), result)
    {
      sent, more := [], false;
      var item := buffer.head;
      assert WriteBuffer.IsLinked(item, buffer.items, 0, buffer.popped);
      if clientFd == -1 {
        return;
      }
      match result
      case Again =>
      case Failed =>
      case BrokenPipe =>
        WorkerHangup();
      case Wrote(n) =>
        if n >= item.size {
          sent, more := item.Unsent(), true;
          buffer.Pop();
        } else {
          sent := item.Unsent()[..n];
          buffer.Consume(n);
        }
    }

    /** The loop of es_worker_step_write over the queue, in place. */
    method WorkerFlush(results: seq<WriteResult>) returns (ghost sent: seq<byte>)
      requires Valid()
      modifies this`clientFd, buffer, buffer.Repr
      ensures Valid() && buffer.Repr == old(buffer.Repr)
      ensures Flushed(View(), sent) == Flush(old(View()), results, 0)
    {
      var k, more := 0, true;
      sent := [];
      ghost var start, now := View(), View();
      while buffer.head != null && more
        invariant Valid() && buffer.Repr == old(buffer.Repr) && View() == now
        invariant more ==> FlushGoesOn(start, results, k, now, sent)
        invariant !more ==> Flush(start, results, 0) == Flushed(now, sent)
        decreases |now.queue|, more
      {
        ghost var written;
        written, more := WorkerWriteHead(ResultAt(results, k));
        FlushUnfolds(start, results, k, now, sent);
        assert |View().queue| <= |now.queue| && (more ==> |View().queue| < |now.queue|);
        now, sent, k := View(), sent + written, k + 1;
      }
      assert sent + [] == sent;
    }
  }

  /** The flush has come to write() number k, in state now and after sending these bytes. */
  ghost predicate FlushGoesOn(start: Shared, results: seq<WriteResult>, k: nat, now: Shared, sent: seq<byte>) {
    var rest := Flush(now, results, k);
    Flush(start, results, 0) == Flushed(rest.shared, sent + rest.sent)
  }

  lemma {:induction false} FlushUnfolds(start: Shared, results: seq<WriteResult>, k: nat, now: Shared, sent: seq<byte>)
    requires now.queue != [] && FlushGoesOn(start, results, k, now, sent)
    ensures var (one, more) := FlushHead(now, ResultAt(results, k));
      && (more ==> FlushGoesOn(start, results, k + 1, one.shared, sent + one.sent))
      && (!more ==> Flush(start, results, 0) == Flushed(one.shared, sent + one.sent))
  {
    var (one, more) := FlushHead(now, ResultAt(results, k));
    var rest := Flush(one.shared, results, k + 1).sent;
    assert sent + (one.sent + rest) == (sent + one.sent) + rest;
  }
}
