/** The control command parser of control.c as functions: one byte at a time, and one
    chunk at a time with the bulk copy and the rescan of the source. */
module CommandParser {
  import opened Bytes
  import opened NamespaceStore

  const MAGIC: seq<byte> := [0xF0, 0x9E, 0x97, 0x8C]
  const MAGIC_LEN := 4
  const PROTOCOL_VERSION: byte := 0
  const CHUNK_SIZE := 256

  datatype State =
    | Header(pos: nat)                    // the next header byte expected
    | Version
    | NameLen
    | Name(len: nat, buf: seq<byte>)      // the name bytes read so far, out of len
    | CommandId(ns: nat)                  // the resolved namespace

  /** A call of es_control_command_handle. */
  datatype Dispatch = Dispatch(ns: nat, id: byte)

  datatype Result = Result(state: State, log: seq<Dispatch>) {
    /** The same result, with earlier dispatches before its own. */
    function After(earlier: seq<Dispatch>): Result {
      Result(state, earlier + log)
    }

    lemma AfterNothing()
      ensures After([]) == this
    {
    }

    lemma AfterTwice(a: seq<Dispatch>, b: seq<Dispatch>)
      ensures After(b).After(a) == After(a + b)
    {
      assert a + (b + log) == (a + b) + log;
    }
  }

  const INITIAL := Header(0)

  predicate Valid(reg: Registry, st: State) {
    match st
    case Header(pos) => pos < MAGIC_LEN
    case Version => true
    case NameLen => true
    case Name(len, buf) => |buf| < len < 256
    case CommandId(ns) => ns < |reg|
  }

  /** Entering the header state with a byte to reparse. */
  function Restart(b: byte): State {
    Header(if b == MAGIC[0] then 1 else 0)
  }

  /** The state after a complete name whose last byte is b. */
  function Named(reg: Registry, name: seq<byte>, b: byte): State {
    match Resolve(reg, name)
    case Some(ns) => CommandId(ns)
    case None => Restart(b)
  }

  /** The parser, one byte at a time. A non-zero version byte restarts the parser and then
      falls through to the case for the namespace length. */
  function ByteStep(reg: Registry, st: State, b: byte): (r: Result)
    requires Valid(reg, st)
    ensures Valid(reg, r.state)
  {
    match st
    case Header(pos) =>
      if b == MAGIC[pos] then Result(if pos + 1 == MAGIC_LEN then Version else Header(pos + 1), [])
      else Result(Restart(b), [])
    case Version =>
      Result(if b == PROTOCOL_VERSION then NameLen else Name(b, []), [])
    case NameLen =>
      Result(if b == 0 then Restart(b) else Name(b, []), [])
    case Name(len, buf) =>
      if |buf| + 1 < len then Result(Name(len, buf + [b]), [])
      else Result(Named(reg, buf + [b], b), [])
    case CommandId(ns) =>
      Result(INITIAL, [Dispatch(ns, b)])
  }

  /** The parser fed byte by byte. */
  function FeedBytes(reg: Registry, st: State, s: seq<byte>): (r: Result)
    requires Valid(reg, st)
    ensures Valid(reg, r.state)
    decreases |s|
  {
    if s == [] then Result(st, [])
    else
      var one := ByteStep(reg, st, s[0]);
      FeedBytes(reg, one.state, s[1..]).After(one.log)
  }

  /** The parser fed one chunk, given as what is left of it: name bytes are taken in bulk,
      and an unknown name restarts on the first name byte of this chunk. */
  function FeedChunk(reg: Registry, st: State, rest: seq<byte>): (r: Result)
    requires Valid(reg, st)
    ensures Valid(reg, r.state)
    decreases |rest|
  {
    if rest == [] then Result(st, [])
    else if st.Name? then
      var required := st.len - |st.buf|;
      if |rest| < required then Result(Name(st.len, st.buf + rest), [])
      else
        match Resolve(reg, st.buf + rest[..required])
        case Some(ns) => FeedChunk(reg, CommandId(ns), rest[required..])
        case None => FeedChunk(reg, Restart(rest[0]), rest[1..])
    else
      var one := ByteStep(reg, st, rest[0]);
      FeedChunk(reg, one.state, rest[1..]).After(one.log)
  }

  function FeedChunks(reg: Registry, st: State, chunks: seq<seq<byte>>): (r: Result)
    requires Valid(reg, st)
    ensures Valid(reg, r.state)
    decreases |chunks|
  {
    if chunks == [] then Result(st, [])
    else
      var one := FeedChunk(reg, st, chunks[0]);
      FeedChunks(reg, one.state, chunks[1..]).After(one.log)
  }

  // --- Handlers ---------------------------------------------------------------------

  /** A call of a registered handler. */
  datatype HandlerCall = HandlerCall(handler: nat, id: byte)

  /** The handler calls that dispatches come to under this registry: an unknown ID is ignored. */
  function HandlerCalls(reg: Registry, log: seq<Dispatch>): seq<HandlerCall> {
    if log == [] then []
    else
      var d, others := log[|log| - 1], HandlerCalls(reg, log[..|log| - 1]);
      if d.ns < |reg| && Handler(reg, d.ns, d.id).Some?
      then others + [HandlerCall(Handler(reg, d.ns, d.id).value, d.id)]
      else others
  }

  lemma {:induction false} HandlerCallsAppend(reg: Registry, a: seq<Dispatch>, b: seq<Dispatch>)
    ensures HandlerCalls(reg, a + b) == HandlerCalls(reg, a) + HandlerCalls(reg, b)
    decreases |b|
  {
    if b == [] {
      assert a + b == a && HandlerCalls(reg, a) + [] == HandlerCalls(reg, a);
    } else {
      var n := |b| - 1;
      HandlerCallsAppend(reg, a, b[..n]);
      assert (a + b)[..|a + b| - 1] == a + b[..n];
    }
  }

  // --- The loop of the source in 8-bit arithmetic ----------------------------------

  /** The outcome of one loop iteration: the new state, the index with which the next
      iteration starts, and the dispatches made. */
  datatype Iteration = Iteration(state: State, next: nat, log: seq<Dispatch>)

  function U8(x: int): byte {
    x % 256
  }

  /** One iteration of the loop in es_control_command_parser_handle_chunk, with its
      uint8_t variables. */
  function Iterate(reg: Registry, st: State, chunk: seq<byte>, i: nat): (it: Iteration)
    requires Valid(reg, st) && i < |chunk| <= CHUNK_SIZE
    ensures Valid(reg, it.state) && i <= it.next <= |chunk|
  {
    if st.Name? then
      var required := U8(st.len - |st.buf|);
      var remaining := U8(|chunk| - i);
      var available := if remaining < required then remaining else required;
      var buf := st.buf + chunk[i..i + available];
      if |buf| < st.len then Iteration(Name(st.len, buf), i + available, [])
      else
        match Resolve(reg, buf)
        case Some(ns) => Iteration(CommandId(ns), i + available, [])
        case None => Iteration(Restart(chunk[i]), i + 1, [])
    else
      var one := ByteStep(reg, st, chunk[i]);
      Iteration(one.state, i + 1, one.log)
  }

  /** An iteration leaves index and state as they were exactly when a full 256-byte chunk
      is entered in the middle of a name; in every other case the index grows, so that
      the loop ends. */
  lemma IterationProgress(reg: Registry, st: State, chunk: seq<byte>, i: nat)
    requires Valid(reg, st) && i < |chunk| <= CHUNK_SIZE
    ensures Iterate(reg, st, chunk, i).next == i <==> st.Name? && i == 0 && |chunk| == CHUNK_SIZE
    ensures Iterate(reg, st, chunk, i).next == i ==> Iterate(reg, st, chunk, i) == Iteration(st, i, [])
  {
    if st.Name? && i == 0 && |chunk| == CHUNK_SIZE {
      assert st.buf + chunk[0..0] == st.buf;
    }
  }

  /** An iteration that advances is one unfolding of FeedChunk on the rest of the chunk:
      none of the 8-bit variables wraps. */
  lemma {:induction false} IterationIsFeedChunk(reg: Registry, st: State, chunk: seq<byte>, i: nat)
    requires Valid(reg, st) && i < |chunk| <= CHUNK_SIZE
    requires !(st.Name? && i == 0 && |chunk| == CHUNK_SIZE)
    ensures var it := Iterate(reg, st, chunk, i);
      && i < it.next
      && FeedChunk(reg, st, chunk[i..]) == FeedChunk(reg, it.state, chunk[it.next..]).After(it.log)
  {
    if st.Name? {
      NameIteration(reg, st.len, st.buf, chunk, i);
      var it := Iterate(reg, st, chunk, i);
      FeedChunk(reg, it.state, chunk[it.next..]).AfterNothing();
    } else {
      assert chunk[i + 1..] == chunk[i..][1..];
    }
  }

  lemma {:induction false} NameIteration(reg: Registry, len: nat, buf: seq<byte>, chunk: seq<byte>, i: nat)
    requires |buf| < len < 256 && i < |chunk| <= CHUNK_SIZE
    requires |chunk| - i < CHUNK_SIZE
    ensures var it := Iterate(reg, Name(len, buf), chunk, i);
      && i < it.next && it.log == []
      && FeedChunk(reg, Name(len, buf), chunk[i..]) == FeedChunk(reg, it.state, chunk[it.next..])
  {
    var rest, required := chunk[i..], len - |buf|;
    if |rest| < required {
      IterateInName(reg, len, buf, chunk, i, |rest|);
      assert chunk[i..i + |rest|] == rest;
      assert chunk[i + |rest|..] == [];
    } else {
      WholeNameIteration(reg, len, buf, chunk, i);
    }
  }

  /** An iteration in the middle of a name that takes n bytes. */
  lemma IterateInName(reg: Registry, len: nat, buf: seq<byte>, chunk: seq<byte>, i: nat, n: nat)
    requires |buf| < len < 256 && i < |chunk| <= CHUNK_SIZE && |chunk| - i < CHUNK_SIZE
    requires n == if |chunk| - i < len - |buf| then |chunk| - i else len - |buf|
    ensures var name := buf + chunk[i..i + n];
      Iterate(reg, Name(len, buf), chunk, i) ==
        if |name| < len then Iteration(Name(len, name), i + n, [])
        else match Resolve(reg, name)
          case Some(ns) => Iteration(CommandId(ns), i + n, [])
          case None => Iteration(Restart(chunk[i]), i + 1, [])
  {
    assert U8(|chunk| - i) == |chunk| - i && U8(len - |buf|) == len - |buf|;
  }

  lemma {:induction false} WholeNameIteration(reg: Registry, len: nat, buf: seq<byte>, chunk: seq<byte>, i: nat)
    requires |buf| < len < 256 && i < |chunk| <= CHUNK_SIZE
    requires len - |buf| <= |chunk| - i < CHUNK_SIZE
    ensures var it := Iterate(reg, Name(len, buf), chunk, i);
      && i < it.next && it.log == []
      && FeedChunk(reg, Name(len, buf), chunk[i..]) == FeedChunk(reg, it.state, chunk[it.next..])
  {
    var rest, required := chunk[i..], len - |buf|;
    assert chunk[i..i + required] == rest[..required];
    assert chunk[i + required..] == rest[required..];
    assert chunk[i + 1..] == rest[1..];
    IterateInName(reg, len, buf, chunk, i, required);
  }

  /** What handling a chunk comes to. Stuck is the 256-byte chunk entered in the middle of
      a name: a failed assertion, or an endless loop when assertions are compiled out. */
  datatype Handled = Done(result: Result) | Stuck

  function HandleChunk(reg: Registry, st: State, chunk: seq<byte>): Handled
    requires Valid(reg, st)
  {
    if st.Name? && |chunk| == CHUNK_SIZE then Stuck
    else Done(FeedChunk(reg, st, chunk))
  }

  function HandleChunks(reg: Registry, st: State, chunks: seq<seq<byte>>): Handled
    requires Valid(reg, st)
    decreases |chunks|
  {
    if chunks == [] then Done(Result(st, []))
    else
      match HandleChunk(reg, st, chunks[0])
      case Stuck => Stuck
      case Done(one) =>
        match HandleChunks(reg, one.state, chunks[1..])
        case Stuck => Stuck
        case Done(others) => Done(others.After(one.log))
  }

  /** Chunks that the receive loop can hand over without getting stuck: at most 256 bytes,
      and fewer when the parser is in the middle of a name. */
  predicate Admissible(reg: Registry, st: State, chunks: seq<seq<byte>>)
    requires Valid(reg, st)
    decreases |chunks|
  {
    chunks == [] ||
    (|chunks[0]| <= CHUNK_SIZE && !(st.Name? && |chunks[0]| == CHUNK_SIZE)
     && Admissible(reg, FeedChunk(reg, st, chunks[0]).state, chunks[1..]))
  }

  lemma {:induction false} AdmissibleIsDone(reg: Registry, st: State, chunks: seq<seq<byte>>)
    requires Valid(reg, st) && Admissible(reg, st, chunks)
    ensures HandleChunks(reg, st, chunks) == Done(FeedChunks(reg, st, chunks))
    decreases |chunks|
  {
    if chunks != [] {
      AdmissibleIsDone(reg, FeedChunk(reg, st, chunks[0]).state, chunks[1..]);
    }
  }

  /** Chunks of at most 255 bytes are always admissible. */
  lemma {:induction false} SmallChunksAreAdmissible(reg: Registry, st: State, chunks: seq<seq<byte>>)
    requires Valid(reg, st)
    requires forall c :: c in chunks ==> |c| < CHUNK_SIZE
    ensures Admissible(reg, st, chunks)
    decreases |chunks|
  {
    if chunks != [] {
      SmallChunksAreAdmissible(reg, FeedChunk(reg, st, chunks[0]).state, chunks[1..]);
    }
  }

  // --- Feeding in pieces ---------------------------------------------------------------

  lemma {:induction false} FeedBytesAppend(reg: Registry, st: State, s: seq<byte>, t: seq<byte>)
    requires Valid(reg, st)
    ensures var one := FeedBytes(reg, st, s);
      FeedBytes(reg, st, s + t) == FeedBytes(reg, one.state, t).After(one.log)
    decreases |s|
  {
    if s == [] {
      assert s + t == t;
      FeedBytes(reg, st, t).AfterNothing();
    } else {
      var first := ByteStep(reg, st, s[0]);
      assert (s + t)[1..] == s[1..] + t;
      FeedBytesAppend(reg, first.state, s[1..], t);
      var mid := FeedBytes(reg, first.state, s[1..]);
      FeedBytes(reg, mid.state, t).AfterTwice(first.log, mid.log);
    }
  }

  lemma {:induction false} FeedBytesSingle(reg: Registry, st: State, b: byte)
    requires Valid(reg, st)
    ensures FeedBytes(reg, st, [b]) == ByteStep(reg, st, b)
  {
    var one := ByteStep(reg, st, b);
    assert FeedBytes(reg, one.state, [b][1..]) == Result(one.state, []);
    assert one.log + [] == one.log;
  }

  lemma {:induction false} FeedChunksAppend(reg: Registry, st: State, a: seq<seq<byte>>, b: seq<seq<byte>>)
    requires Valid(reg, st)
    ensures var one := FeedChunks(reg, st, a);
      FeedChunks(reg, st, a + b) == FeedChunks(reg, one.state, b).After(one.log)
    decreases |a|
  {
    if a == [] {
      assert a + b == b;
      FeedChunks(reg, st, b).AfterNothing();
    } else {
      var first := FeedChunk(reg, st, a[0]);
      assert (a + b)[1..] == a[1..] + b;
      FeedChunksAppend(reg, first.state, a[1..], b);
      var mid := FeedChunks(reg, first.state, a[1..]);
      FeedChunks(reg, mid.state, b).AfterTwice(first.log, mid.log);
    }
  }

  lemma {:induction false} FeedChunksSnoc(reg: Registry, st: State, a: seq<seq<byte>>, c: seq<byte>)
    requires Valid(reg, st)
    ensures var one := FeedChunks(reg, st, a);
      FeedChunks(reg, st, a + [c]) == FeedChunk(reg, one.state, c).After(one.log)
  {
    FeedChunksAppend(reg, st, a, [c]);
    var one := FeedChunks(reg, st, a);
    var two := FeedChunk(reg, one.state, c);
    assert FeedChunks(reg, two.state, [c][1..]) == Result(two.state, []);
    assert FeedChunks(reg, one.state, [c]).log == two.log + [];
  }

  /** Name bytes that do not complete the name are just collected. */
  lemma {:induction false} FeedBytesFillsName(reg: Registry, len: nat, buf: seq<byte>, s: seq<byte>)
    requires |buf| + |s| < len < 256
    ensures FeedBytes(reg, Name(len, buf), s) == Result(Name(len, buf + s), [])
    decreases |s|
  {
    if s == [] {
      assert buf + s == buf;
    } else {
      assert (buf + [s[0]]) + s[1..] == buf + s;
      FeedBytesFillsName(reg, len, buf + [s[0]], s[1..]);
      FeedBytes(reg, Name(len, buf + [s[0]]), s[1..]).AfterNothing();
    }
  }

  /** Name bytes that complete the name: the state depends on the name and its last byte. */
  lemma {:induction false} FeedBytesCompletesName(reg: Registry, len: nat, buf: seq<byte>, s: seq<byte>)
    requires |buf| < len < 256 && |buf| + |s| == len
    ensures FeedBytes(reg, Name(len, buf), s) == Result(Named(reg, buf + s, s[|s| - 1]), [])
  {
    var n := |s| - 1;
    FeedBytesFillsName(reg, len, buf, s[..n]);
    FeedBytesAppend(reg, Name(len, buf), s[..n], [s[n]]);
    assert s == s[..n] + [s[n]];
    FeedBytesSingle(reg, Name(len, buf + s[..n]), s[n]);
    assert (buf + s[..n]) + [s[n]] == buf + s;
  }
}
