/** Every dispatch comes from a message that stands in the stream, whatever the cut; and
    what the fall-through on the version byte does to that message's shape. */
module DispatchSoundness {
  import opened Bytes
  import opened NamespaceStore
  import opened CommandParser
  import opened Chunking
  import opened ControlMessages

  /** What the parser accepts between the magic and the name: a version byte 0 and the
      length, or, by the fall-through, the length alone in the place of the version. */
  predicate IsPrelude(s: seq<byte>, len: nat) {
    0 < len < 256 && (s == MAGIC + [PROTOCOL_VERSION, len] || s == MAGIC + [len])
  }

  predicate NamedBy(reg: Registry, s: seq<byte>, ns: nat, prelude: seq<byte>, name: seq<byte>) {
    IsPrelude(prelude, |name|) && s == prelude + name && Resolve(reg, name) == Some(ns)
  }

  /** s is a prelude and then a name that resolves to this namespace. */
  ghost predicate IsNamed(reg: Registry, s: seq<byte>, ns: nat) {
    exists prelude, name: seq<byte> :: NamedBy(reg, s, ns, prelude, name)
  }

  /** s is a message for this dispatch, from its first magic byte to its ID. */
  ghost predicate IsMessage(reg: Registry, s: seq<byte>, d: Dispatch) {
    s != [] && IsNamed(reg, s[..|s| - 1], d.ns) && s[|s| - 1] == d.id
  }

  /** s is what has been read so far of a message, when the parser is in state st. */
  ghost predicate IsPartial(reg: Registry, s: seq<byte>, st: State) {
    match st
    case Header(pos) => pos < MAGIC_LEN && s == MAGIC[..pos]
    case Version => s == MAGIC
    case NameLen => s == MAGIC + [PROTOCOL_VERSION]
    case Name(len, buf) => |buf| < len && exists prelude :: IsPrelude(prelude, len) && s == prelude + buf
    case CommandId(ns) => IsNamed(reg, s, ns)
  }

  datatype Span = Span(from: nat, to: nat)

  /** The span of t holds a message for this dispatch. */
  ghost predicate Holds(reg: Registry, t: seq<byte>, span: Span, d: Dispatch) {
    span.from <= span.to <= |t| && IsMessage(reg, t[span.from..span.to], d)
  }

  /** Disjoint spans of the stream t, in order and up to index hi, one for each dispatch and
      holding a message for it. */
  ghost predicate Located(reg: Registry, t: seq<byte>, log: seq<Dispatch>, spans: seq<Span>, hi: nat) {
    && |spans| == |log| && hi <= |t|
    && (forall k {:trigger Holds(reg, t, spans[k], log[k])} :: 0 <= k < |spans| ==>
          Holds(reg, t, spans[k], log[k]) && spans[k].to <= hi)
    && (forall j, k :: 0 <= j < k < |spans| ==> spans[j].to <= spans[k].from)
  }

  /** The bytes of t from index i to n are a partial message. */
  ghost predicate PartialFrom(reg: Registry, t: seq<byte>, i: nat, n: nat, st: State) {
    i <= n <= |t| && IsPartial(reg, t[i..n], st)
  }

  /** The bytes of t just before index n, from some index at or after lo, are one. */
  ghost predicate PartialBefore(reg: Registry, t: seq<byte>, lo: nat, n: nat, st: State)
    requires n <= |t|
  {
    exists i: nat :: lo <= i && PartialFrom(reg, t, i, n, st)
  }

  // --- One step -------------------------------------------------------------------------

  lemma RestartIsPartial(reg: Registry, t: seq<byte>, lo: nat, n: nat)
    requires lo <= n < |t|
    ensures PartialBefore(reg, t, lo, n + 1, Restart(t[n]))
  {
    var i := if t[n] == MAGIC[0] then n else n + 1;
    assert t[i..n + 1] == MAGIC[..n + 1 - i];
    assert PartialFrom(reg, t, i, n + 1, Restart(t[n]));
  }

  lemma SliceSnoc(t: seq<byte>, i: nat, n: nat)
    requires i <= n < |t|
    ensures t[i..n + 1] == t[i..n] + [t[n]]
  {
  }

  lemma SliceJoin(t: seq<byte>, i: nat, n: nat, m: nat)
    requires i <= n <= m <= |t|
    ensures t[i..m] == t[i..n] + t[n..m]
  {
  }

  /** A byte that is neither an ID nor part of a name extends the partial message, or
      begins a new one. */
  lemma PartialGrows(reg: Registry, s: seq<byte>, st: State, b: byte)
    requires Valid(reg, st) && !st.CommandId? && !st.Name? && IsPartial(reg, s, st)
    ensures var st' := ByteStep(reg, st, b).state; IsPartial(reg, s + [b], st') || st' == Restart(b)
  {
    match st
    case Header(pos) =>
      if b == MAGIC[pos] {
        assert MAGIC[..pos] + [b] == MAGIC[..pos + 1];
        assert MAGIC[..MAGIC_LEN] == MAGIC;
      }
    case Version =>
      if b != PROTOCOL_VERSION {
        EmptyNameIsPartial(reg, MAGIC + [b], b);
      }
    case NameLen =>
      if b != 0 {
        assert MAGIC + [PROTOCOL_VERSION] + [b] == MAGIC + [PROTOCOL_VERSION, b];
        EmptyNameIsPartial(reg, MAGIC + [PROTOCOL_VERSION, b], b);
      }
  }

  lemma EmptyNameIsPartial(reg: Registry, prelude: seq<byte>, len: nat)
    requires IsPrelude(prelude, len)
    ensures IsPartial(reg, prelude, Name(len, []))
  {
    assert prelude == prelude + [];
  }

  lemma PartialStep(reg: Registry, t: seq<byte>, lo: nat, n: nat, st: State)
    requires Valid(reg, st) && !st.CommandId? && !st.Name?
    requires lo <= n < |t| && PartialBefore(reg, t, lo, n, st)
    ensures PartialBefore(reg, t, lo, n + 1, ByteStep(reg, st, t[n]).state)
  {
    var i: nat :| lo <= i && PartialFrom(reg, t, i, n, st);
    SliceSnoc(t, i, n);
    PartialGrows(reg, t[i..n], st, t[n]);
    RestartIsPartial(reg, t, lo, n);
    var st' := ByteStep(reg, st, t[n]).state;
    assert st' != Restart(t[n]) ==> PartialFrom(reg, t, i, n + 1, st');
  }

  /** More name bytes, up to all of them. */
  lemma PartialName(reg: Registry, t: seq<byte>, lo: nat, n: nat, m: nat, len: nat, buf: seq<byte>)
    requires lo <= n <= m <= |t| && PartialBefore(reg, t, lo, n, Name(len, buf))
    requires |buf| < len < 256 && |buf| + (m - n) <= len
    ensures |buf| + (m - n) < len ==> PartialBefore(reg, t, lo, m, Name(len, buf + t[n..m]))
    ensures |buf| + (m - n) == len && Resolve(reg, buf + t[n..m]).Some? ==>
      PartialBefore(reg, t, lo, m, CommandId(Resolve(reg, buf + t[n..m]).value))
  {
    var i: nat :| lo <= i && PartialFrom(reg, t, i, n, Name(len, buf));
    SliceJoin(t, i, n, m);
    NameGrows(reg, t[i..n], len, buf, t[n..m]);
    var name := buf + t[n..m];
    if |name| < len {
      assert PartialFrom(reg, t, i, m, Name(len, name));
    } else if Resolve(reg, name).Some? {
      assert PartialFrom(reg, t, i, m, CommandId(Resolve(reg, name).value));
    }
  }

  lemma NameGrows(reg: Registry, s: seq<byte>, len: nat, buf: seq<byte>, piece: seq<byte>)
    requires IsPartial(reg, s, Name(len, buf))
    ensures |buf + piece| < len ==> IsPartial(reg, s + piece, Name(len, buf + piece))
    ensures |buf + piece| == len && Resolve(reg, buf + piece).Some? ==>
      IsPartial(reg, s + piece, CommandId(Resolve(reg, buf + piece).value))
  {
    var prelude :| IsPrelude(prelude, len) && s == prelude + buf;
    var name := buf + piece;
    assert s + piece == prelude + name;
    assert |name| == len && Resolve(reg, name).Some? ==>
      NamedBy(reg, s + piece, Resolve(reg, name).value, prelude, name);
  }

  /** The ID byte completes a message. */
  lemma MessageEnds(reg: Registry, s: seq<byte>, ns: nat, id: byte)
    requires IsPartial(reg, s, CommandId(ns))
    ensures IsMessage(reg, s + [id], Dispatch(ns, id))
  {
    assert (s + [id])[..|s|] == s;
  }

  lemma LocatedSnoc(reg: Registry, t: seq<byte>, log: seq<Dispatch>, spans: seq<Span>, hi: nat, span: Span, d: Dispatch)
    requires Located(reg, t, log, spans, hi) && Holds(reg, t, span, d) && hi <= span.from
    ensures Located(reg, t, log + [d], spans + [span], span.to)
  {
    var spans', log' := spans + [span], log + [d];
    forall k | 0 <= k < |spans'|
      ensures Holds(reg, t, spans'[k], log'[k]) && spans'[k].to <= span.to
      ensures k < |spans| ==> spans'[k].to <= span.from
    {
      assert k < |spans| ==> Holds(reg, t, spans[k], log[k]);
    }
  }

  lemma LocateDispatch(reg: Registry, t: seq<byte>, n: nat, ns: nat, log: seq<Dispatch>, spans: seq<Span>, hi: nat)
    returns (spans': seq<Span>)
    requires hi <= n < |t|
    requires Located(reg, t, log, spans, hi) && PartialBefore(reg, t, hi, n, CommandId(ns))
    ensures Located(reg, t, log + [Dispatch(ns, t[n])], spans', n + 1)
    ensures PartialBefore(reg, t, n + 1, n + 1, INITIAL)
  {
    var i: nat :| hi <= i && PartialFrom(reg, t, i, n, CommandId(ns));
    SliceSnoc(t, i, n);
    MessageEnds(reg, t[i..n], ns, t[n]);
    LocatedSnoc(reg, t, log, spans, hi, Span(i, n + 1), Dispatch(ns, t[n]));
    spans' := spans + [Span(i, n + 1)];
    assert t[n + 1..n + 1] == MAGIC[..0];
    assert PartialFrom(reg, t, n + 1, n + 1, INITIAL);
  }

  /** At index n of the stream t, with r the outcome so far: its dispatches are located,
      and the bytes after the last of them end in a partial message. */
  ghost predicate Tracked(reg: Registry, t: seq<byte>, n: nat, r: Result) {
    exists spans, hi: nat ::
      hi <= n <= |t| && Located(reg, t, r.log, spans, hi) && PartialBefore(reg, t, hi, n, r.state)
  }

  lemma TrackByte(reg: Registry, t: seq<byte>, n: nat, r: Result)
    requires Valid(reg, r.state) && !r.state.Name? && n < |t| && Tracked(reg, t, n, r)
    ensures Tracked(reg, t, n + 1, ByteStep(reg, r.state, t[n]).After(r.log))
  {
    var spans, hi: nat :| hi <= n && Located(reg, t, r.log, spans, hi) && PartialBefore(reg, t, hi, n, r.state);
    if r.state.CommandId? {
      var spans' := LocateDispatch(reg, t, n, r.state.ns, r.log, spans, hi);
    } else {
      PartialStep(reg, t, hi, n, r.state);
      assert r.log + [] == r.log;
    }
  }

  lemma TrackName(reg: Registry, t: seq<byte>, n: nat, m: nat, len: nat, buf: seq<byte>, log: seq<Dispatch>)
    requires |buf| < len < 256 && n <= m <= |t| && |buf| + (m - n) <= len
    requires Tracked(reg, t, n, Result(Name(len, buf), log))
    ensures |buf| + (m - n) < len ==> Tracked(reg, t, m, Result(Name(len, buf + t[n..m]), log))
    ensures |buf| + (m - n) == len && Resolve(reg, buf + t[n..m]).Some? ==>
      Tracked(reg, t, m, Result(CommandId(Resolve(reg, buf + t[n..m]).value), log))
  {
    var spans, hi: nat :| hi <= n && Located(reg, t, log, spans, hi) && PartialBefore(reg, t, hi, n, Name(len, buf));
    PartialName(reg, t, hi, n, m, len, buf);
  }

  lemma TrackRestart(reg: Registry, t: seq<byte>, n: nat, r: Result)
    requires n < |t| && Tracked(reg, t, n, r)
    ensures Tracked(reg, t, n + 1, Result(Restart(t[n]), r.log))
  {
    var spans, hi: nat :| hi <= n && Located(reg, t, r.log, spans, hi) && PartialBefore(reg, t, hi, n, r.state);
    RestartIsPartial(reg, t, hi, n);
  }

  // --- Chunks and streams -------------------------------------------------------------------

  /** The chunk that lies in t from index n to m. */
  lemma {:induction false} TrackChunk(reg: Registry, t: seq<byte>, n: nat, m: nat, r: Result)
    requires Valid(reg, r.state) && n <= m <= |t| && Tracked(reg, t, n, r)
    ensures Tracked(reg, t, m, FeedChunk(reg, r.state, t[n..m]).After(r.log))
    decreases m - n, 2
  {
    if n == m {
      assert r.log + [] == r.log;
    } else if r.state.Name? {
      TrackChunkInName(reg, t, n, m, r.state.len, r.state.buf, r.log);
    } else {
      TrackByte(reg, t, n, r);
      TrackChunk(reg, t, n + 1, m, ByteStep(reg, r.state, t[n]).After(r.log));
      FirstByte(reg, t, n, m, r);
    }
  }

  lemma {:induction false} FirstByte(reg: Registry, t: seq<byte>, n: nat, m: nat, r: Result)
    requires Valid(reg, r.state) && !r.state.Name? && n < m <= |t|
    ensures var one := ByteStep(reg, r.state, t[n]);
      FeedChunk(reg, r.state, t[n..m]).After(r.log) ==
        FeedChunk(reg, one.state, t[n + 1..m]).After(one.After(r.log).log)
  {
    var one := ByteStep(reg, r.state, t[n]);
    assert t[n..m][1..] == t[n + 1..m];
    FeedChunk(reg, one.state, t[n + 1..m]).AfterTwice(r.log, one.log);
  }

  lemma {:induction false} TrackChunkInName(reg: Registry, t: seq<byte>, n: nat, m: nat, len: nat, buf: seq<byte>,
                                            log: seq<Dispatch>)
    requires |buf| < len < 256 && n < m <= |t| && Tracked(reg, t, n, Result(Name(len, buf), log))
    ensures Tracked(reg, t, m, FeedChunk(reg, Name(len, buf), t[n..m]).After(log))
    decreases m - n, 1
  {
    var i := n + (len - |buf|);
    if m < i {
      TrackName(reg, t, n, m, len, buf, log);
      assert FeedChunk(reg, Name(len, buf), t[n..m]).After(log) == Result(Name(len, buf + t[n..m]), log);
    } else {
      var st, i := WholeNameInChunk(reg, t, n, m, len, buf);
      TrackWholeName(reg, t, n, len, buf, log);
      TrackChunk(reg, t, i, m, Result(st, log));
    }
  }

  /** What the bulk copy of a whole name leads to: the state and the index to go on from. */
  function AfterName(reg: Registry, t: seq<byte>, n: nat, len: nat, buf: seq<byte>): (State, nat)
    requires |buf| < len && n + (len - |buf|) <= |t|
  {
    var i := n + (len - |buf|);
    match Resolve(reg, buf + t[n..i])
    case Some(ns) => (CommandId(ns), i)
    case None => (Restart(t[n]), n + 1)
  }

  lemma WholeNameInChunk(reg: Registry, t: seq<byte>, n: nat, m: nat, len: nat, buf: seq<byte>)
    returns (st: State, i: nat)
    requires |buf| < len < 256 && n < m <= |t| && len - |buf| <= m - n
    ensures (st, i) == AfterName(reg, t, n, len, buf) && n < i <= m && Valid(reg, st)
    ensures FeedChunk(reg, Name(len, buf), t[n..m]) == FeedChunk(reg, st, t[i..m])
  {
    st, i := AfterName(reg, t, n, len, buf).0, AfterName(reg, t, n, len, buf).1;
    var rest, required := t[n..m], len - |buf|;
    assert rest[..required] == t[n..n + required] && rest[required..] == t[n + required..m] && rest[1..] == t[n + 1..m];
  }

  lemma TrackWholeName(reg: Registry, t: seq<byte>, n: nat, len: nat, buf: seq<byte>, log: seq<Dispatch>)
    requires |buf| < len < 256 && n + (len - |buf|) <= |t|
    requires Tracked(reg, t, n, Result(Name(len, buf), log))
    ensures var (st, i) := AfterName(reg, t, n, len, buf); Tracked(reg, t, i, Result(st, log))
  {
    TrackName(reg, t, n, n + (len - |buf|), len, buf, log);
    TrackRestart(reg, t, n, Result(Name(len, buf), log));
  }

  lemma FirstChunk(t: seq<byte>, n: nat, chunks: seq<seq<byte>>) returns (m: nat)
    requires n <= |t| && chunks != [] && t[n..] == Concat(chunks)
    ensures n <= m <= |t| && t[n..m] == chunks[0] && t[m..] == Concat(chunks[1..])
  {
    m := n + |chunks[0]|;
    var rest := t[n..];
    assert rest == chunks[0] + Concat(chunks[1..]);
    assert t[n..m] == rest[..|chunks[0]|] && t[m..] == rest[|chunks[0]|..];
  }

  lemma {:induction false} TrackChunks(reg: Registry, t: seq<byte>, n: nat, r: Result, chunks: seq<seq<byte>>)
    requires Valid(reg, r.state) && n <= |t| && t[n..] == Concat(chunks) && Tracked(reg, t, n, r)
    ensures Tracked(reg, t, |t|, FeedChunks(reg, r.state, chunks).After(r.log))
    decreases |chunks|
  {
    if chunks == [] {
      assert r.log + [] == r.log;
    } else {
      var m := FirstChunk(t, n, chunks);
      var one := FeedChunk(reg, r.state, chunks[0]);
      TrackChunk(reg, t, n, m, r);
      TrackChunks(reg, t, m, one.After(r.log), chunks[1..]);
      FeedChunks(reg, one.state, chunks[1..]).AfterTwice(r.log, one.log);
    }
  }

  lemma TrackedAtStart(reg: Registry, t: seq<byte>)
    ensures Tracked(reg, t, 0, Result(INITIAL, []))
  {
    assert t[0..0] == MAGIC[..0];
    assert PartialFrom(reg, t, 0, 0, INITIAL);
    assert Located(reg, t, [], [], 0) && PartialBefore(reg, t, 0, 0, INITIAL);
  }

  /** Dispatch soundness, with no condition on the stream or on its cut: the dispatches are
      messages that stand in the stream, disjoint and in stream order, even though unknown
      names are partly read twice. */
  lemma {:induction false} DispatchesAreMessages(reg: Registry, chunks: seq<seq<byte>>)
    ensures exists spans, hi: nat ::
      Located(reg, Concat(chunks), FeedChunks(reg, INITIAL, chunks).log, spans, hi)
  {
    var t := Concat(chunks);
    assert t[0..] == t;
    TrackedAtStart(reg, t);
    TrackChunks(reg, t, 0, Result(INITIAL, []), chunks);
    var r := FeedChunks(reg, INITIAL, chunks);
    r.AfterNothing();
    var spans, hi: nat :| Located(reg, t, r.log, spans, hi) && PartialBefore(reg, t, hi, |t|, r.state);
  }

  // --- While the stream and the registry grow -----------------------------------------------------

  lemma LocatedInLonger(reg: Registry, t: seq<byte>, more: seq<byte>, log: seq<Dispatch>, spans: seq<Span>, hi: nat)
    requires Located(reg, t, log, spans, hi)
    ensures Located(reg, t + more, log, spans, hi)
  {
    forall k | 0 <= k < |spans|
      ensures Holds(reg, t + more, spans[k], log[k]) && spans[k].to <= hi
    {
      assert Holds(reg, t, spans[k], log[k]);
      SliceInLonger(t, more, spans[k].from, spans[k].to);
    }
  }

  lemma PartialInLonger(reg: Registry, t: seq<byte>, more: seq<byte>, lo: nat, n: nat, st: State)
    requires n <= |t| && PartialBefore(reg, t, lo, n, st)
    ensures PartialBefore(reg, t + more, lo, n, st)
  {
    var i: nat :| lo <= i && PartialFrom(reg, t, i, n, st);
    SliceInLonger(t, more, i, n);
    assert PartialFrom(reg, t + more, i, n, st);
  }

  lemma SliceInLonger(t: seq<byte>, more: seq<byte>, i: nat, n: nat)
    requires i <= n <= |t|
    ensures (t + more)[i..n] == t[i..n]
  {
  }

  /** What is tracked stays tracked when more of the stream arrives. */
  lemma TrackedInLonger(reg: Registry, t: seq<byte>, more: seq<byte>, n: nat, r: Result)
    requires Tracked(reg, t, n, r)
    ensures Tracked(reg, t + more, n, r)
  {
    var spans: seq<Span>, hi: nat :|
      hi <= n <= |t| && Located(reg, t, r.log, spans, hi) && PartialBefore(reg, t, hi, n, r.state);
    LocatedInLonger(reg, t, more, r.log, spans, hi);
    PartialInLonger(reg, t, more, hi, n, r.state);
  }

  lemma NamedAfterRegistration(reg: Registry, request: Request, s: seq<byte>, ns: nat)
    requires WellFormed(reg) && Callable(reg, request) && IsNamed(reg, s, ns)
    ensures IsNamed(Perform(reg, request), s, ns)
  {
    var prelude, name: seq<byte> :| NamedBy(reg, s, ns, prelude, name);
    LookupIsStable(reg, request, name);
    assert NamedBy(Perform(reg, request), s, ns, prelude, name);
  }

  lemma LookupIsStable(reg: Registry, request: Request, query: seq<byte>)
    requires WellFormed(reg) && Callable(reg, request) && Resolve(reg, query).Some?
    ensures Resolve(Perform(reg, request), query) == Resolve(reg, query)
  {
    var requests := [request];
    assert requests[1..] == [];
    LookupsAreStable(reg, requests, query);
  }

  lemma LocatedAfterRegistration(reg: Registry, request: Request, t: seq<byte>, log: seq<Dispatch>, spans: seq<Span>,
                                 hi: nat)
    requires WellFormed(reg) && Callable(reg, request) && Located(reg, t, log, spans, hi)
    ensures Located(Perform(reg, request), t, log, spans, hi)
  {
    forall k | 0 <= k < |spans|
      ensures Holds(Perform(reg, request), t, spans[k], log[k]) && spans[k].to <= hi
    {
      assert Holds(reg, t, spans[k], log[k]);
      MessageAfterRegistration(reg, request, t[spans[k].from..spans[k].to], log[k]);
    }
  }

  lemma MessageAfterRegistration(reg: Registry, request: Request, s: seq<byte>, d: Dispatch)
    requires WellFormed(reg) && Callable(reg, request) && IsMessage(reg, s, d)
    ensures IsMessage(Perform(reg, request), s, d)
  {
    NamedAfterRegistration(reg, request, s[..|s| - 1], d.ns);
  }

  lemma PartialAfterRegistration(reg: Registry, request: Request, t: seq<byte>, lo: nat, n: nat, st: State)
    requires WellFormed(reg) && Callable(reg, request) && n <= |t| && PartialBefore(reg, t, lo, n, st)
    ensures PartialBefore(Perform(reg, request), t, lo, n, st)
  {
    var i: nat :| lo <= i && PartialFrom(reg, t, i, n, st);
    if st.CommandId? {
      NamedAfterRegistration(reg, request, t[i..n], st.ns);
    }
    assert PartialFrom(Perform(reg, request), t, i, n, st);
  }

  /** What is tracked stays tracked when a namespace or a command is registered. */
  lemma TrackedAfterRegistration(reg: Registry, request: Request, t: seq<byte>, n: nat, r: Result)
    requires WellFormed(reg) && Callable(reg, request) && Tracked(reg, t, n, r)
    ensures Tracked(Perform(reg, request), t, n, r)
  {
    var spans: seq<Span>, hi: nat :|
      hi <= n <= |t| && Located(reg, t, r.log, spans, hi) && PartialBefore(reg, t, hi, n, r.state);
    LocatedAfterRegistration(reg, request, t, r.log, spans, hi);
    PartialAfterRegistration(reg, request, t, hi, n, r.state);
  }

  /** One iteration of the loop over the last chunk of the stream. */
  lemma TrackIteration(reg: Registry, t: seq<byte>, base: seq<byte>, chunk: seq<byte>, at: nat, r: Result)
    requires Valid(reg, r.state) && at < |chunk| <= CHUNK_SIZE
    requires t == base + chunk && Tracked(reg, t, |base| + at, r)
    ensures var it := Iterate(reg, r.state, chunk, at);
      Tracked(reg, t, |base| + it.next, Result(it.state, r.log + it.log))
  {
    var n := |base| + at;
    assert t[|t| - |chunk|..] == chunk && chunk[at] == t[n];
    if !r.state.Name? {
      TrackByte(reg, t, n, r);
    } else {
      IterationProgress(reg, r.state, chunk, at);
      assert r.log + [] == r.log;
      if !(at == 0 && |chunk| == CHUNK_SIZE) {
        TrackNameIteration(reg, t, chunk, at, r.state.len, r.state.buf, r.log);
      }
    }
  }

  lemma TrackNameIteration(reg: Registry, t: seq<byte>, chunk: seq<byte>, at: nat, len: nat, buf: seq<byte>,
                           log: seq<Dispatch>)
    requires |buf| < len < 256 && at < |chunk| <= CHUNK_SIZE && |chunk| - at < CHUNK_SIZE
    requires |chunk| <= |t| && t[|t| - |chunk|..] == chunk
    requires Tracked(reg, t, |t| - |chunk| + at, Result(Name(len, buf), log))
    ensures var it := Iterate(reg, Name(len, buf), chunk, at);
      it.log == [] && Tracked(reg, t, |t| - |chunk| + it.next, Result(it.state, log))
  {
    if |chunk| - at < len - |buf| {
      TrackPartOfName(reg, t, chunk, at, len, buf, log);
    } else {
      TrackRestOfName(reg, t, chunk, at, len, buf, log);
    }
  }

  lemma TrackRestOfName(reg: Registry, t: seq<byte>, chunk: seq<byte>, at: nat, len: nat, buf: seq<byte>,
                        log: seq<Dispatch>)
    requires |buf| < len < 256 && at < |chunk| <= CHUNK_SIZE && |chunk| - at < CHUNK_SIZE
    requires |chunk| <= |t| && t[|t| - |chunk|..] == chunk && len - |buf| <= |chunk| - at
    requires Tracked(reg, t, |t| - |chunk| + at, Result(Name(len, buf), log))
    ensures var it := Iterate(reg, Name(len, buf), chunk, at);
      it.log == [] && Tracked(reg, t, |t| - |chunk| + it.next, Result(it.state, log))
  {
    NameIterationIn(reg, t, chunk, at, len, buf, len - |buf|);
    TrackWholeName(reg, t, |t| - |chunk| + at, len, buf, log);
  }

  lemma TrackPartOfName(reg: Registry, t: seq<byte>, chunk: seq<byte>, at: nat, len: nat, buf: seq<byte>,
                        log: seq<Dispatch>)
    requires |buf| < len < 256 && at < |chunk| <= CHUNK_SIZE && |chunk| - at < CHUNK_SIZE
    requires |chunk| <= |t| && t[|t| - |chunk|..] == chunk && |chunk| - at < len - |buf|
    requires Tracked(reg, t, |t| - |chunk| + at, Result(Name(len, buf), log))
    ensures var it := Iterate(reg, Name(len, buf), chunk, at);
      it.log == [] && Tracked(reg, t, |t| - |chunk| + it.next, Result(it.state, log))
  {
    NameIterationIn(reg, t, chunk, at, len, buf, |chunk| - at);
    TrackName(reg, t, |t| - |chunk| + at, |t|, len, buf, log);
  }

  lemma NameIterationIn(reg: Registry, t: seq<byte>, chunk: seq<byte>, at: nat, len: nat, buf: seq<byte>, k: nat)
    requires |buf| < len < 256 && at < |chunk| <= CHUNK_SIZE && |chunk| - at < CHUNK_SIZE
    requires |chunk| <= |t| && t[|t| - |chunk|..] == chunk
    requires k == if |chunk| - at < len - |buf| then |chunk| - at else len - |buf|
    ensures var n := |t| - |chunk| + at;
      var name := buf + t[n..n + k];
      Iterate(reg, Name(len, buf), chunk, at) ==
        if |buf| + k < len then Iteration(Name(len, name), at + k, [])
        else match Resolve(reg, name)
          case Some(ns) => Iteration(CommandId(ns), at + k, [])
          case None => Iteration(Restart(t[n]), at + 1, [])
  {
    IterateInName(reg, len, buf, chunk, at, k);
    ChunkSlice(t, chunk, at, k);
  }

  lemma ChunkSlice(t: seq<byte>, chunk: seq<byte>, at: nat, k: nat)
    requires |chunk| <= |t| && t[|t| - |chunk|..] == chunk && 0 < k && at + k <= |chunk|
    ensures var n := |t| - |chunk| + at; t[n..n + k] == chunk[at..at + k] && t[n] == chunk[at]
  {
    var n := |t| - |chunk| + at;
    assert t[n..n + k] == t[|t| - |chunk|..][at..at + k];
    assert t[n] == t[|t| - |chunk|..][at];
  }

  /** A message under version 0 is the serialised form of its name and ID. */
  lemma VersionZeroMessageIsPut(reg: Registry, s: seq<byte>, d: Dispatch)
    requires IsMessage(reg, s, d) && s[MAGIC_LEN] == PROTOCOL_VERSION
    ensures exists name ::
      0 < |name| <= NAMESPACE_MAX_BYTES && s == Put(Message(name, d.id)) && Resolve(reg, name) == Some(d.ns)
  {
    var n := |s| - 1;
    var prelude, name: seq<byte> :| NamedBy(reg, s[..n], d.ns, prelude, name);
    assert s == s[..n] + [d.id];
    assert s[MAGIC_LEN] == s[..n][MAGIC_LEN] == prelude[MAGIC_LEN];
    assert prelude == MAGIC + [PROTOCOL_VERSION, |name|];
    assert s == MAGIC + [PROTOCOL_VERSION] + [|name| as byte] + name + [d.id];
    assert s == Put(Message(name, d.id));
  }

  // --- The version byte -----------------------------------------------------------------------

  /** The parser that the comments describe: on any version byte but 0 it restarts on that
      byte and goes on with the next one. */
  function IntendedStep(reg: Registry, st: State, b: byte): (r: Result)
    requires Valid(reg, st)
    ensures Valid(reg, r.state)
  {
    if st.Version? && b != PROTOCOL_VERSION then Result(Restart(b), []) else ByteStep(reg, st, b)
  }

  function FeedIntended(reg: Registry, st: State, s: seq<byte>): (r: Result)
    requires Valid(reg, st)
    ensures Valid(reg, r.state)
    decreases |s|
  {
    if s == [] then Result(st, [])
    else
      var one := IntendedStep(reg, st, s[0]);
      FeedIntended(reg, one.state, s[1..]).After(one.log)
  }

  /** Every version byte that the parser reads in s is 0. */
  predicate VersionsAreZero(reg: Registry, st: State, s: seq<byte>)
    requires Valid(reg, st)
    decreases |s|
  {
    s == [] || ((st.Version? ==> s[0] == PROTOCOL_VERSION)
                && VersionsAreZero(reg, ByteStep(reg, st, s[0]).state, s[1..]))
  }

  lemma {:induction false} NonZeroVersion(reg: Registry, b: byte)
    requires b != PROTOCOL_VERSION
    ensures FeedBytes(reg, Version, [b]).state == Name(b, [])
    ensures FeedIntended(reg, Version, [b]).state == Restart(b)
  {
    FeedBytesSingle(reg, Version, b);
    var one := IntendedStep(reg, Version, b);
    assert FeedIntended(reg, one.state, [b][1..]) == Result(one.state, []);
  }

  /** The parser as coded does at every moment what its comments describe exactly if every
      version byte it reads is 0. */
  lemma {:induction false} VersionFallThrough(reg: Registry, st: State, s: seq<byte>)
    requires Valid(reg, st)
    ensures VersionsAreZero(reg, st, s) <==>
      forall n :: 0 <= n <= |s| ==> FeedBytes(reg, st, s[..n]) == FeedIntended(reg, st, s[..n])
    decreases |s|
  {
    if s != [] {
      if st.Version? && s[0] != PROTOCOL_VERSION {
        var n := 1;
        assert s[..n] == [s[0]];
        NonZeroVersion(reg, s[0]);
      } else {
        VersionFallThrough(reg, ByteStep(reg, st, s[0]).state, s[1..]);
        AgreesAfterByte(reg, st, s);
      }
    }
  }

  lemma {:induction false} AgreesAfterByte(reg: Registry, st: State, s: seq<byte>)
    requires Valid(reg, st) && s != [] && (st.Version? ==> s[0] == PROTOCOL_VERSION)
    ensures var st' := ByteStep(reg, st, s[0]).state;
      (forall n :: 0 <= n <= |s| ==> FeedBytes(reg, st, s[..n]) == FeedIntended(reg, st, s[..n])) <==>
      (forall m :: 0 <= m <= |s[1..]| ==> FeedBytes(reg, st', s[1..][..m]) == FeedIntended(reg, st', s[1..][..m]))
  {
    var st' := ByteStep(reg, st, s[0]).state;
    if forall n :: 0 <= n <= |s| ==> FeedBytes(reg, st, s[..n]) == FeedIntended(reg, st, s[..n]) {
      forall m | 0 <= m <= |s[1..]|
        ensures FeedBytes(reg, st', s[1..][..m]) == FeedIntended(reg, st', s[1..][..m])
      {
        AgreesAt(reg, st, s, m + 1);
      }
    }
    if forall m :: 0 <= m <= |s[1..]| ==> FeedBytes(reg, st', s[1..][..m]) == FeedIntended(reg, st', s[1..][..m]) {
      forall n | 0 <= n <= |s|
        ensures FeedBytes(reg, st, s[..n]) == FeedIntended(reg, st, s[..n])
      {
        if n > 0 {
          AgreesAt(reg, st, s, n);
        }
      }
    }
  }

  lemma {:induction false} AgreesAt(reg: Registry, st: State, s: seq<byte>, n: nat)
    requires Valid(reg, st) && 0 < n <= |s| && (st.Version? ==> s[0] == PROTOCOL_VERSION)
    ensures var st' := ByteStep(reg, st, s[0]).state;
      FeedBytes(reg, st, s[..n]) == FeedIntended(reg, st, s[..n]) <==>
      FeedBytes(reg, st', s[1..][..n - 1]) == FeedIntended(reg, st', s[1..][..n - 1])
  {
    var one := ByteStep(reg, st, s[0]);
    assert s[..n][1..] == s[1..][..n - 1];
    AfterSame(FeedBytes(reg, one.state, s[1..][..n - 1]), FeedIntended(reg, one.state, s[1..][..n - 1]), one.log);
  }

  /** Under every admissible cut, and at every moment, the loop over the chunks does what the
      comments describe. */
  ghost predicate CutsMeetIntent(reg: Registry, s: seq<byte>) {
    forall n, chunks: seq<seq<byte>> ::
      0 <= n <= |s| && Concat(chunks) == s[..n] && Admissible(reg, INITIAL, chunks) ==>
        HandleChunks(reg, INITIAL, chunks) == Done(FeedIntended(reg, INITIAL, s[..n]))
  }

  /** That is so exactly if every version byte is 0 and every unknown name is clean. */
  lemma {:induction false} VersionFallThroughInChunks(reg: Registry, s: seq<byte>)
    ensures CutsMeetIntent(reg, s) <==> VersionsAreZero(reg, INITIAL, s) && CleanRun(reg, INITIAL, s)
  {
    VersionFallThrough(reg, INITIAL, s);
    ChunkingInvariance(reg, s);
    if CutsMeetIntent(reg, s) {
      forall n | 0 <= n <= |s|
        ensures FeedBytes(reg, INITIAL, s[..n]) == FeedIntended(reg, INITIAL, s[..n])
      {
        SinglesAreHandled(reg, s[..n]);
        assert HandleChunks(reg, INITIAL, Singles(s[..n])) == Done(FeedIntended(reg, INITIAL, s[..n]));
      }
    }
  }

  /** One byte per chunk is an admissible cut. */
  lemma {:induction false} SinglesAreHandled(reg: Registry, s: seq<byte>)
    ensures Concat(Singles(s)) == s && Admissible(reg, INITIAL, Singles(s))
    ensures HandleChunks(reg, INITIAL, Singles(s)) == Done(FeedBytes(reg, INITIAL, s))
  {
    ConcatSingles(s);
    ByteChunksAreBytes(reg, INITIAL, s);
    SmallChunksAreAdmissible(reg, INITIAL, Singles(s));
    AdmissibleIsDone(reg, INITIAL, Singles(s));
  }

  lemma AfterSame(a: Result, b: Result, earlier: seq<Dispatch>)
    ensures a == b <==> a.After(earlier) == b.After(earlier)
  {
    assert (earlier + a.log)[|earlier|..] == a.log;
    assert (earlier + b.log)[|earlier|..] == b.log;
  }
}
