/** What one serialised message can come to, under every cut of its bytes into chunks. */
module MessageOutcomes {
  import opened Bytes
  import opened NamespaceStore
  import opened CommandParser
  import opened Chunking
  import opened MagicMatcher
  import opened ControlMessages
  import opened EndToEnd
  import Soundness = DispatchSoundness

  // --- Up to the end of the name --------------------------------------------------------

  /** The bytes of a message before its name. */
  function Prelude(m: Message): (s: seq<byte>)
    requires Sendable(m)
    ensures |s| == MAGIC_LEN + 2
  {
    MAGIC + [PROTOCOL_VERSION] + [|m.name| as byte]
  }

  lemma {:induction false} PutIsPrelude(m: Message)
    requires Sendable(m)
    ensures Put(m) == Prelude(m) + m.name + [m.id]
  {
  }

  lemma {:induction false} PartOfNameIsClean(reg: Registry, len: nat, buf: seq<byte>, s: seq<byte>)
    requires |buf| + |s| < len < 256
    ensures CleanRun(reg, Name(len, buf), s)
    decreases |s|
  {
    if s != [] {
      PartOfNameIsClean(reg, len, buf + [s[0]], s[1..]);
    }
  }

  /** The first n bytes of a message, before the end of its name. */
  function HeadOf(m: Message, n: nat): seq<byte>
    requires Sendable(m) && n <= MAGIC_LEN + 2 + |m.name|
  {
    (Prelude(m) + m.name)[..n]
  }

  /** Where the parser is after them. */
  function StateAt(reg: Registry, m: Message, n: nat): (st: State)
    requires Sendable(m) && n < MAGIC_LEN + 2 + |m.name|
    ensures Valid(reg, st)
  {
    FeedBytes(reg, INITIAL, HeadOf(m, n)).state
  }

  lemma {:induction false} HeadLeads(reg: Registry, m: Message, n: nat)
    requires Sendable(m) && n < MAGIC_LEN + 2 + |m.name|
    ensures Leads(reg, INITIAL, HeadOf(m, n), StateAt(reg, m, n), [])
    ensures n >= MAGIC_LEN + 2 ==> StateAt(reg, m, n) == Name(|m.name|, m.name[..n - (MAGIC_LEN + 2)])
  {
    var prelude, p := Prelude(m), MAGIC_LEN + 2;
    PreludeLeads(reg, 0, |m.name| as byte);
    if n >= p {
      var k := n - p;
      assert HeadOf(m, n) == prelude + m.name[..k];
      PartOfNameIsClean(reg, |m.name|, [], m.name[..k]);
      FeedBytesFillsName(reg, |m.name|, [], m.name[..k]);
      assert [] + m.name[..k] == m.name[..k];
      LeadsOn(reg, INITIAL, prelude, Name(|m.name|, []), [], m.name[..k], Name(|m.name|, m.name[..k]), []);
    } else {
      assert HeadOf(m, n) == prelude[..n];
      LeadsPart(reg, INITIAL, prelude, if |m.name| == 0 then INITIAL else Name(|m.name|, []), n);
    }
  }

  /** What leads on without a dispatch does so in all its parts. */
  lemma {:induction false} LeadsPart(reg: Registry, st: State, s: seq<byte>, st': State, n: nat)
    requires Leads(reg, st, s, st', []) && n <= |s|
    ensures Leads(reg, st, s[..n], FeedBytes(reg, st, s[..n]).state, [])
    ensures Leads(reg, FeedBytes(reg, st, s[..n]).state, s[n..], st', [])
  {
    assert s == s[..n] + s[n..];
    CleanRunAppend(reg, st, s[..n], s[n..]);
    FeedBytesAppend(reg, st, s[..n], s[n..]);
  }

  /** The part of a message from index n to n', still before the end of its name. */
  lemma {:induction false} HeadGoesOn(reg: Registry, m: Message, n: nat, n': nat, c: seq<byte>)
    requires Sendable(m) && n <= n' < MAGIC_LEN + 2 + |m.name| && HeadOf(m, n') == HeadOf(m, n) + c
    ensures FeedChunk(reg, StateAt(reg, m, n), c) == Result(StateAt(reg, m, n'), [])
  {
    HeadLeads(reg, m, n');
    LeadsPart(reg, INITIAL, HeadOf(m, n'), StateAt(reg, m, n'), n);
    assert HeadOf(m, n')[..n] == HeadOf(m, n) && HeadOf(m, n')[n..] == c;
    ChunkIsBytes(reg, StateAt(reg, m, n), c);
  }

  // --- The rescan of an unknown name ----------------------------------------------------

  /** How a message is cut, as far as it matters: the last chunk boundary before the end of the
      name leaves the name bytes from index k on, and the ID is in the same chunk or not. */
  datatype Cut = Cut(k: nat, together: bool)

  predicate Fits(m: Message, cut: Cut) {
    cut.k < |m.name| && (cut.together ==> |m.name| - cut.k + 1 < CHUNK_SIZE)
  }

  /** What a message with an unknown name comes to under this cut: the parser scans the name
      bytes of the last chunk again, as if they were junk. */
  function Rescan(reg: Registry, m: Message, cut: Cut): Result
    requires Fits(m, cut)
  {
    var tail := m.name[cut.k..];
    if cut.together then FeedChunk(reg, INITIAL, tail + [m.id]) else FeedChunks(reg, INITIAL, [tail, [m.id]])
  }

  predicate Unknown(reg: Registry, m: Message) {
    0 < |m.name| <= NAMESPACE_MAX_BYTES && Resolve(reg, m.name).None?
  }

  lemma {:induction false} NameIsRescanned(reg: Registry, m: Message, k: nat, rest: seq<byte>)
    requires Unknown(reg, m) && k < |m.name|
    ensures FeedChunk(reg, Name(|m.name|, m.name[..k]), m.name[k..] + rest) ==
      FeedChunk(reg, INITIAL, m.name[k..] + rest)
  {
    var s := m.name[k..] + rest;
    assert s[..|m.name| - k] == m.name[k..] && m.name[..k] + m.name[k..] == m.name;
    RestartIsScan(reg, s);
  }

  lemma {:induction false} FeedNothing(reg: Registry, st: State, chunks: seq<seq<byte>>)
    requires Valid(reg, st) && Concat(chunks) == []
    ensures FeedChunks(reg, st, chunks) == Result(st, [])
    decreases |chunks|
  {
    if chunks != [] {
      assert chunks[0] == [] && Concat(chunks[1..]) == [];
      FeedNothing(reg, st, chunks[1..]);
    }
  }

  lemma {:induction false} FeedOne(reg: Registry, st: State, chunks: seq<seq<byte>>, b: byte)
    requires Valid(reg, st) && Concat(chunks) == [b]
    ensures FeedChunks(reg, st, chunks) == FeedChunk(reg, st, [b])
    decreases |chunks|
  {
    assert chunks != [];
    var c, rest := chunks[0], chunks[1..];
    assert c + Concat(rest) == [b];
    if c == [] {
      assert Concat(rest) == [b];
      FeedOne(reg, st, rest, b);
      FeedChunk(reg, st, [b]).AfterNothing();
    } else {
      assert c == [b] && Concat(rest) == [];
      var one := FeedChunk(reg, st, c);
      FeedNothing(reg, one.state, rest);
      assert one.log + [] == one.log;
    }
  }

  /** The chunk in which the name ends: what is left of the head, then the name bytes from index
      k on, then perhaps the ID. */
  lemma {:induction false} LastChunkOfName(reg: Registry, m: Message, n: nat, k: nat, end: seq<byte>)
    requires Unknown(reg, m) && n < MAGIC_LEN + 2 + |m.name|
    requires k == if n < MAGIC_LEN + 2 then 0 else n - (MAGIC_LEN + 2)
    ensures var pre := if n < MAGIC_LEN + 2 then Prelude(m)[n..] else [];
      FeedChunk(reg, StateAt(reg, m, n), pre + (m.name[k..] + end)) == FeedChunk(reg, INITIAL, m.name[k..] + end)
  {
    var p, rest := MAGIC_LEN + 2, m.name[k..] + end;
    if n < p {
      var pre := Prelude(m)[n..];
      assert HeadOf(m, p) == Prelude(m) && HeadOf(m, n) == Prelude(m)[..n];
      HeadGoesOn(reg, m, n, p, pre);
      HeadLeads(reg, m, p);
      CutOutsideName(reg, StateAt(reg, m, n), pre, rest);
      FeedChunk(reg, Name(|m.name|, []), rest).AfterNothing();
    } else {
      HeadLeads(reg, m, n);
      assert [] + rest == rest;
    }
    NameIsRescanned(reg, m, k, end);
  }

  /** What the chunk looks like if it begins at index n of the message and ends at n', after
      the name. */
  lemma {:induction false} LastChunkShape(m: Message, n: nat, n': nat)
    requires Sendable(m) && n < MAGIC_LEN + 2 + |m.name| <= n' <= |Put(m)|
    ensures var p := MAGIC_LEN + 2;
      var k, pre := if n < p then 0 else n - p, if n < p then Prelude(m)[n..] else [];
      Put(m)[n..n'] == pre + (m.name[k..] + (if n' == |Put(m)| then [m.id] else []))
  {
    if n < MAGIC_LEN + 2 {
      EarlyChunkShape(m, n, n');
    } else {
      LateChunkShape(m, n, n');
    }
  }

  lemma {:induction false} EarlyChunkShape(m: Message, n: nat, n': nat)
    requires Sendable(m) && n < MAGIC_LEN + 2 && MAGIC_LEN + 2 + |m.name| <= n' <= |Put(m)|
    ensures Put(m)[n..n'] == Prelude(m)[n..] + (m.name[0..] + (if n' == |Put(m)| then [m.id] else []))
  {
    PutIsPrelude(m);
    SliceOfThree(Prelude(m)[..n], Prelude(m)[n..], m.name, m.id, n');
    assert Prelude(m) == Prelude(m)[..n] + Prelude(m)[n..] && m.name[0..] == m.name;
  }

  lemma {:induction false} LateChunkShape(m: Message, n: nat, n': nat)
    requires Sendable(m) && MAGIC_LEN + 2 <= n < MAGIC_LEN + 2 + |m.name| <= n' <= |Put(m)|
    ensures Put(m)[n..n'] == [] + (m.name[n - (MAGIC_LEN + 2)..] + (if n' == |Put(m)| then [m.id] else []))
  {
    var k := n - (MAGIC_LEN + 2);
    PutIsPrelude(m);
    var head := Prelude(m) + m.name[..k];
    SliceOfThree(head, [], m.name[k..], m.id, n');
    assert m.name == m.name[..k] + m.name[k..];
    AppendTwice(Prelude(m), m.name[..k], m.name[k..]);
    assert head + [] == head;
  }

  lemma SliceOfThree(a: seq<byte>, b: seq<byte>, c: seq<byte>, id: byte, n: nat)
    requires |a + b + c| <= n <= |a + b + c| + 1
    ensures (a + b + c + [id])[|a|..n] == b + (c + (if n == |a + b + c| + 1 then [id] else []))
  {
  }

  /** However an unknown message is cut, it comes to one of the rescans. */
  lemma {:induction false} CutFrom(reg: Registry, m: Message, n: nat, chunks: seq<seq<byte>>) returns (cut: Cut)
    requires Unknown(reg, m) && n < MAGIC_LEN + 2 + |m.name|
    requires Concat(chunks) == Put(m)[n..] && Admissible(reg, StateAt(reg, m, n), chunks)
    ensures Fits(m, cut) && FeedChunks(reg, StateAt(reg, m, n), chunks) == Rescan(reg, m, cut)
    decreases |chunks|
  {
    var n' := Soundness.FirstChunk(Put(m), n, chunks);
    if n' < MAGIC_LEN + 2 + |m.name| {
      assert HeadOf(m, n') == HeadOf(m, n) + chunks[0] by {
        PutIsPrelude(m);
        assert HeadOf(m, n') == Put(m)[..n'] && HeadOf(m, n) == Put(m)[..n];
      }
      HeadGoesOn(reg, m, n, n', chunks[0]);
      cut := CutFrom(reg, m, n', chunks[1..]);
      FeedChunks(reg, StateAt(reg, m, n'), chunks[1..]).AfterNothing();
    } else {
      cut := CutInChunk(reg, m, n, n', chunks);
    }
  }

  lemma {:induction false} CutInChunk(reg: Registry, m: Message, n: nat, n': nat, chunks: seq<seq<byte>>)
    returns (cut: Cut)
    requires Unknown(reg, m) && n < MAGIC_LEN + 2 + |m.name| <= n' <= |Put(m)|
    requires chunks != [] && chunks[0] == Put(m)[n..n'] && Concat(chunks[1..]) == Put(m)[n'..]
    requires Admissible(reg, StateAt(reg, m, n), chunks)
    ensures Fits(m, cut) && FeedChunks(reg, StateAt(reg, m, n), chunks) == Rescan(reg, m, cut)
  {
    var k := if n < MAGIC_LEN + 2 then 0 else n - (MAGIC_LEN + 2);
    var end := if n' == |Put(m)| then [m.id] else [];
    cut := Cut(k, n' == |Put(m)|);
    LastChunkShape(m, n, n');
    LastChunkOfName(reg, m, n, k, end);
    HeadLeads(reg, m, n);
    var one := FeedChunk(reg, INITIAL, m.name[k..] + end);
    if cut.together {
      assert Put(m)[n'..] == [];
      FeedNothing(reg, one.state, chunks[1..]);
      assert one.log + [] == one.log;
    } else {
      PutIsPrelude(m);
      assert m.name[k..] + [] == m.name[k..] && Put(m)[n'..] == [m.id];
      FeedOne(reg, one.state, chunks[1..], m.id);
      TwoChunks(reg, m.name[k..], [m.id]);
    }
  }

  lemma {:induction false} TwoChunks(reg: Registry, a: seq<byte>, b: seq<byte>)
    ensures var one := FeedChunk(reg, INITIAL, a);
      FeedChunks(reg, INITIAL, [a, b]) == FeedChunk(reg, one.state, b).After(one.log)
  {
    var one := FeedChunk(reg, INITIAL, a);
    var two := FeedChunk(reg, one.state, b);
    assert [a, b][1..] == [b] && [b][1..] == [];
    assert FeedChunks(reg, two.state, []) == Result(two.state, []);
    assert two.log + [] == two.log;
  }

  /** And every rescan is what some cut comes to. */
  lemma {:induction false} CutIsPossible(reg: Registry, m: Message, cut: Cut) returns (chunks: seq<seq<byte>>)
    requires Unknown(reg, m) && Fits(m, cut)
    ensures Concat(chunks) == Put(m) && Admissible(reg, INITIAL, chunks)
    ensures FeedChunks(reg, INITIAL, chunks) == Rescan(reg, m, cut)
  {
    var n, tail := MAGIC_LEN + 2 + cut.k, m.name[cut.k..];
    var head := HeadOf(m, n);
    var last := if cut.together then [tail + [m.id]] else [tail, [m.id]];
    chunks := Singles(head) + last;
    HeadLeads(reg, m, n);
    ByteChunksAreBytes(reg, INITIAL, head);
    FeedChunksAppend(reg, INITIAL, Singles(head), last);
    LastChunks(reg, m, cut);
    FeedChunks(reg, StateAt(reg, m, n), last).AfterNothing();
    CutIsOfMessage(m, cut);
    SmallChunksAreAdmissible(reg, INITIAL, chunks);
  }

  lemma {:induction false} LastChunks(reg: Registry, m: Message, cut: Cut)
    requires Unknown(reg, m) && Fits(m, cut)
    ensures var tail := m.name[cut.k..];
      FeedChunks(reg, Name(|m.name|, m.name[..cut.k]), if cut.together then [tail + [m.id]] else [tail, [m.id]]) ==
        Rescan(reg, m, cut)
  {
    var st, tail := Name(|m.name|, m.name[..cut.k]), m.name[cut.k..];
    if cut.together {
      NameIsRescanned(reg, m, cut.k, [m.id]);
      FeedChunksSnoc(reg, st, [], tail + [m.id]);
      assert [] + [tail + [m.id]] == [tail + [m.id]];
      FeedChunk(reg, st, tail + [m.id]).AfterNothing();
    } else {
      NameIsRescanned(reg, m, cut.k, []);
      assert tail + [] == tail && [tail, [m.id]][1..] == [[m.id]];
    }
  }

  lemma {:induction false} CutIsOfMessage(m: Message, cut: Cut)
    requires Sendable(m) && Fits(m, cut)
    ensures var head, tail := HeadOf(m, MAGIC_LEN + 2 + cut.k), m.name[cut.k..];
      Concat(Singles(head) + if cut.together then [tail + [m.id]] else [tail, [m.id]]) == Put(m)
  {
    var head, tail := HeadOf(m, MAGIC_LEN + 2 + cut.k), m.name[cut.k..];
    ConcatSingles(head);
    PutIsPrelude(m);
    assert Put(m) == head + (tail + [m.id]);
    if cut.together {
      ConcatSnoc(Singles(head), tail + [m.id]);
    } else {
      assert [tail] + [[m.id]] == [tail, [m.id]];
      ConcatSingle(tail);
      ConcatSnoc([tail], [m.id]);
      ConcatAppend(Singles(head), [tail, [m.id]]);
    }
  }

  // --- Outcomes -------------------------------------------------------------------------

  /** The outcomes of an unknown message are exactly the rescans that fit it. */
  lemma {:induction false} UnknownMessageIsRescanned(reg: Registry, m: Message, chunks: seq<seq<byte>>)
    returns (cut: Cut)
    requires Unknown(reg, m) && Concat(chunks) == Put(m) && Admissible(reg, INITIAL, chunks)
    ensures Fits(m, cut) && HandleChunks(reg, INITIAL, chunks) == Done(Rescan(reg, m, cut))
  {
    HeadLeads(reg, m, 0);
    assert HeadOf(m, 0) == [] && Put(m)[0..] == Put(m);
    cut := CutFrom(reg, m, 0, chunks);
    AdmissibleIsDone(reg, INITIAL, chunks);
  }

  /** A message that is empty, known or clean comes to the same under every cut: it is
      dispatched if it is answered, and not otherwise. */
  lemma {:induction false} CleanMessageIsHandled(reg: Registry, m: Message, chunks: seq<seq<byte>>)
    requires Sendable(m) && CleanIfUnknown(reg, m)
    requires Concat(chunks) == Put(m) && Admissible(reg, INITIAL, chunks)
    ensures HandleChunks(reg, INITIAL, chunks) ==
      Done(Result(Header(PartialMatch(Leftover(reg, m))), Requested(reg, [Part([], m)])))
  {
    MessageLeads(reg, 0, m);
    ChunksAreBytes(reg, INITIAL, chunks);
    AdmissibleIsDone(reg, INITIAL, chunks);
  }

  /** How a message is cut does not matter exactly if it is empty, known or clean. */
  lemma {:induction false} MessageCutsDoNotMatter(reg: Registry, m: Message)
    requires Sendable(m)
    ensures CutsDoNotMatter(reg, Put(m)) <==> CleanIfUnknown(reg, m)
  {
    ChunkingInvariance(reg, Put(m));
    if CleanIfUnknown(reg, m) {
      MessageLeads(reg, 0, m);
    } else if CleanRun(reg, INITIAL, Put(m)) {
      PutIsPrelude(m);
      PreludeLeads(reg, 0, |m.name| as byte);
      CleanRunAppend(reg, INITIAL, Prelude(m) + m.name, [m.id]);
      CleanRunAppend(reg, INITIAL, Prelude(m), m.name);
      assert [] + m.name == m.name;
      CleanRunCompletes(reg, |m.name|, [], m.name);
      assert false;
    }
  }

  /** No rescan of the name makes a dispatch. */
  ghost predicate Silent(reg: Registry, m: Message) {
    forall cut: Cut :: Fits(m, cut) ==> Rescan(reg, m, cut).log == []
  }

  /** Under every cut, the message makes the dispatch it asks for and no other. */
  ghost predicate DispatchedAsAsked(reg: Registry, m: Message)
    requires Sendable(m)
  {
    forall chunks: seq<seq<byte>> :: Concat(chunks) == Put(m) && Admissible(reg, INITIAL, chunks) ==>
      var handled := HandleChunks(reg, INITIAL, chunks);
      handled.Done? && handled.result.log == Requested(reg, [Part([], m)])
  }

  /** A message is handled as it asks to be, one dispatch if its namespace is not empty and is
      known and none otherwise, exactly if it is empty or known or no rescan of its name makes
      a dispatch. */
  lemma {:induction false} MessageIsDispatchedIfAnswered(reg: Registry, m: Message)
    requires Sendable(m)
    ensures Requested(reg, [Part([], m)]) ==
      if m.name != [] && Resolve(reg, m.name).Some? then [Dispatch(Resolve(reg, m.name).value, m.id)] else []
    ensures DispatchedAsAsked(reg, m) <==> m.name == [] || Resolve(reg, m.name).Some? || Silent(reg, m)
  {
    RequestedOne(reg, m);
    if m.name == [] || Resolve(reg, m.name).Some? {
      forall chunks: seq<seq<byte>> | Concat(chunks) == Put(m) && Admissible(reg, INITIAL, chunks)
        ensures HandleChunks(reg, INITIAL, chunks).Done?
        ensures HandleChunks(reg, INITIAL, chunks).result.log == Requested(reg, [Part([], m)])
      {
        CleanMessageIsHandled(reg, m, chunks);
      }
    } else {
      SilentIfAsAsked(reg, m);
    }
  }

  lemma {:induction false} SilentIfAsAsked(reg: Registry, m: Message)
    requires Unknown(reg, m) && Requested(reg, [Part([], m)]) == []
    ensures DispatchedAsAsked(reg, m) <==> Silent(reg, m)
  {
    if Silent(reg, m) {
      forall chunks: seq<seq<byte>> | Concat(chunks) == Put(m) && Admissible(reg, INITIAL, chunks)
        ensures HandleChunks(reg, INITIAL, chunks).Done? && HandleChunks(reg, INITIAL, chunks).result.log == []
      {
        var cut := UnknownMessageIsRescanned(reg, m, chunks);
      }
    } else {
      var cut: Cut :| Fits(m, cut) && Rescan(reg, m, cut).log != [];
      var chunks := CutIsPossible(reg, m, cut);
      AdmissibleIsDone(reg, INITIAL, chunks);
      assert HandleChunks(reg, INITIAL, chunks).result.log != [];
    }
  }

  // --- The builtin namespace --------------------------------------------------------------

  ghost predicate CallsBuiltin(log: seq<Dispatch>) {
    exists d :: d in log && d.ns == 0
  }

  /** Under some cut, the message makes a dispatch to the builtin namespace. */
  ghost predicate CanCallBuiltin(reg: Registry, m: Message)
    requires Sendable(m)
  {
    exists chunks: seq<seq<byte>> ::
      Concat(chunks) == Put(m) && Admissible(reg, INITIAL, chunks) && CallsBuiltin(FeedChunks(reg, INITIAL, chunks).log)
  }

  /** The guard of the Haskell package does not reserve the builtin namespace: the names that
      it accepts and with which a message can call a builtin command are exactly the non-empty
      proper prefixes and the proper extensions of the builtin name, and the unknown names
      whose rescan calls one. */
  lemma {:induction false} ReservedNamespaceIsReachable(reg: Registry, name: seq<byte>, id: byte)
    requires WellFormed(reg) && UserNamespace(name).Namespace?
    ensures Resolve(reg, name) == Some(0) <==> name < BUILTIN_NAME || BUILTIN_NAME < name
    ensures CanCallBuiltin(reg, Message(name, id)) <==>
      || (name != [] && (name < BUILTIN_NAME || BUILTIN_NAME < name))
      || (name != [] && Resolve(reg, name).None?
          && exists cut :: Fits(Message(name, id), cut) && CallsBuiltin(Rescan(reg, Message(name, id), cut).log))
  {
    BuiltinMatches(reg, name);
    var m := Message(name, id);
    if name != [] && Resolve(reg, name).None? {
      UnknownCallsBuiltin(reg, m);
    } else {
      HandledCallsBuiltin(reg, m);
    }
  }

  lemma {:induction false} BuiltinMatches(reg: Registry, name: seq<byte>)
    requires WellFormed(reg)
    ensures Resolve(reg, name) == Some(0) <==> name <= BUILTIN_NAME || BUILTIN_NAME <= name
  {
    MatchSymmetric(BUILTIN_NAME, name);
    MatchZeroFree(name, BUILTIN_NAME);
  }

  lemma {:induction false} UnknownCallsBuiltin(reg: Registry, m: Message)
    requires Unknown(reg, m)
    ensures CanCallBuiltin(reg, m) <==> exists cut :: Fits(m, cut) && CallsBuiltin(Rescan(reg, m, cut).log)
  {
    if CanCallBuiltin(reg, m) {
      var chunks: seq<seq<byte>> :| Concat(chunks) == Put(m) && Admissible(reg, INITIAL, chunks)
        && CallsBuiltin(FeedChunks(reg, INITIAL, chunks).log);
      var cut := UnknownMessageIsRescanned(reg, m, chunks);
      AdmissibleIsDone(reg, INITIAL, chunks);
    }
    if exists cut :: Fits(m, cut) && CallsBuiltin(Rescan(reg, m, cut).log) {
      var cut :| Fits(m, cut) && CallsBuiltin(Rescan(reg, m, cut).log);
      var chunks := CutIsPossible(reg, m, cut);
    }
  }

  lemma OneCall(d: Dispatch)
    ensures CallsBuiltin([d]) <==> d.ns == 0
  {
    assert d in [d];
  }

  lemma {:induction false} HandledCallsBuiltin(reg: Registry, m: Message)
    requires Sendable(m) && (m.name == [] || Resolve(reg, m.name).Some?)
    ensures CanCallBuiltin(reg, m) <==> m.name != [] && Resolve(reg, m.name) == Some(0)
  {
    var log := Requested(reg, [Part([], m)]);
    RequestedOne(reg, m);
    if Answered(reg, m) {
      OneCall(Dispatch(Resolve(reg, m.name).value, m.id));
    }
    forall chunks: seq<seq<byte>> | Concat(chunks) == Put(m) && Admissible(reg, INITIAL, chunks)
      ensures FeedChunks(reg, INITIAL, chunks).log == log
    {
      CleanMessageIsHandled(reg, m, chunks);
      AdmissibleIsDone(reg, INITIAL, chunks);
    }
    var chunks := Singles(Put(m));
    ConcatSingles(Put(m));
    SmallChunksAreAdmissible(reg, INITIAL, chunks);
  }

  const EMBEDDING: seq<byte> := MAGIC + [0x01, 0x65, 0x01]

  /** A message whose name holds a message: its name is accepted, unknown and no spelling of the
      builtin name, but sent in one chunk it runs a builtin command. */
  lemma {:induction false} EmbeddedMessageIsDispatched()
    ensures var m := Message(EMBEDDING, 1);
      && UserNamespace(EMBEDDING) == Namespace(EMBEDDING) && Resolve([BUILTIN], EMBEDDING).None?
      && Admissible([BUILTIN], INITIAL, [Put(m)])
      && HandleChunks([BUILTIN], INITIAL, [Put(m)]) == Done(Result(INITIAL, [Dispatch(0, 1)]))
  {
    EmbeddingIsUnknown();
    EmbeddedIsOneChunk();
    EmbeddedIsScanned();
    var r := FeedChunk([BUILTIN], INITIAL, Put(Message(EMBEDDING, 1)));
    assert [Put(Message(EMBEDDING, 1))][1..] == [] && r.log + [] == r.log;
  }

  lemma EmbeddingIsUnknown()
    ensures Resolve([BUILTIN], EMBEDDING).None?
  {
    assert !Match(BUILTIN_NAME, EMBEDDING);
  }

  lemma {:induction false} EmbeddedIsOneChunk()
    ensures FeedChunk([BUILTIN], INITIAL, Put(Message(EMBEDDING, 1))) == FeedChunk([BUILTIN], INITIAL, EMBEDDING + [1])
  {
    var m := Message(EMBEDDING, 1);
    EmbeddingIsUnknown();
    LastChunkOfName([BUILTIN], m, 0, 0, [m.id]);
    PutIsPrelude(m);
    assert HeadOf(m, 0) == [] && m.name[0..] == m.name && Prelude(m)[0..] == Prelude(m);
    assert Put(m) == Prelude(m) + (m.name + [m.id]);
  }

  lemma {:induction false} EmbeddedIsScanned()
    ensures FeedChunk([BUILTIN], INITIAL, EMBEDDING + [1]) == Result(INITIAL, [Dispatch(0, 1)])
  {
    var reg, rest := [BUILTIN], [0x01, 0x65, 0x01, 0x01];
    assert EMBEDDING + [1] == MAGIC + rest;
    MagicLeads(reg, 0);
    ChunkIsBytes(reg, INITIAL, MAGIC);
    CutOutsideName(reg, INITIAL, MAGIC, rest);
    EmbeddedIsFed();
    FeedChunk(reg, Version, rest).AfterNothing();
  }

  lemma {:induction false} EmbeddedIsFed()
    ensures FeedChunk([BUILTIN], Version, [0x01, 0x65, 0x01, 0x01]) == Result(INITIAL, [Dispatch(0, 1)])
  {
    var reg := [BUILTIN];
    BuiltinWellFormed();
    ShortNameFindsBuiltin(reg);
    assert FeedChunk(reg, INITIAL, []) == Result(INITIAL, []);
    assert [0x01 as byte][1..] == [];
    assert FeedChunk(reg, INITIAL, [0x01]) == Result(INITIAL, []);
    assert [0x01 as byte, 0x01][1..] == [0x01];
    assert FeedChunk(reg, CommandId(0), [0x01, 0x01]) == Result(INITIAL, [Dispatch(0, 1)]);
    var s: seq<byte> := [0x65, 0x01, 0x01];
    assert [] + s[..1] == [0x65] && s[1..] == [0x01, 0x01];
    assert FeedChunk(reg, Name(1, []), s) == Result(INITIAL, [Dispatch(0, 1)]);
    var t: seq<byte> := [0x01, 0x65, 0x01, 0x01];
    assert t[1..] == s;
  }
}
