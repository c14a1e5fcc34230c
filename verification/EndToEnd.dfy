/** From the serialiser of the Haskell package to the dispatches of the C parser. */
module EndToEnd {
  import opened Bytes
  import opened NamespaceStore
  import opened CommandParser
  import opened Chunking
  import opened MagicMatcher
  import opened ControlMessages

  /** A message with the junk sent before it. */
  datatype Part = Part(junk: seq<byte>, message: Message)

  predicate AllSendable(parts: seq<Part>) {
    forall i :: 0 <= i < |parts| ==> Sendable(parts[i].message)
  }

  /** What the client writes to the socket. */
  function Render(parts: seq<Part>, trailing: seq<byte>): seq<byte>
    requires AllSendable(parts)
  {
    if parts == [] then trailing
    else parts[0].junk + Put(parts[0].message) + Render(parts[1..], trailing)
  }

  /** Whether a message asks for a dispatch that the parser makes. */
  predicate Answered(reg: Registry, m: Message) {
    m.name != [] && Resolve(reg, m.name).Some?
  }

  /** The dispatches asked for: one for each message that is answered. */
  function Requested(reg: Registry, parts: seq<Part>): seq<Dispatch> {
    if parts == [] then []
    else
      var m := parts[0].message;
      var others := Requested(reg, parts[1..]);
      if Answered(reg, m) then [Dispatch(Resolve(reg, m.name).value, m.id)] + others else others
  }

  /** What a message that is not answered leaves for the header state to look at. */
  function Leftover(reg: Registry, m: Message): (left: seq<byte>)
    ensures |left| <= 2
  {
    if Answered(reg, m) then [] else if m.name == [] then [m.id] else [m.name[|m.name| - 1], m.id]
  }

  /** The name, if it is unknown, is clean. */
  predicate CleanIfUnknown(reg: Registry, m: Message) {
    m.name == [] || Resolve(reg, m.name).Some? || Clean(reg, m.name)
  }

  /** Junk, even together with what an unanswered message before it leaves over, contains no
      magic; unknown names are clean. */
  ghost predicate Separated(reg: Registry, left: seq<byte>, parts: seq<Part>, trailing: seq<byte>)
    decreases |parts|
  {
    if parts == [] then MagicFree(left + trailing)
    else
      && MagicFree(left + parts[0].junk)
      && CleanIfUnknown(reg, parts[0].message)
      && Separated(reg, Leftover(reg, parts[0].message), parts[1..], trailing)
  }

  /** The junk at the very end, with the leftover of an unanswered message before it. */
  function Ending(reg: Registry, left: seq<byte>, parts: seq<Part>, trailing: seq<byte>): seq<byte>
    decreases |parts|
  {
    if parts == [] then left + trailing
    else Ending(reg, Leftover(reg, parts[0].message), parts[1..], trailing)
  }

  // --- One message -----------------------------------------------------------------------

  /** The bytes s, one by one, lead from st to st' with these dispatches, and every unknown
      name among them is clean. */
  ghost predicate Leads(reg: Registry, st: State, s: seq<byte>, st': State, log: seq<Dispatch>) {
    Valid(reg, st) && CleanRun(reg, st, s) && FeedBytes(reg, st, s) == Result(st', log)
  }

  lemma LeadsOn(reg: Registry, st: State, s: seq<byte>, mid: State, log: seq<Dispatch>,
                t: seq<byte>, st': State, log': seq<Dispatch>)
    requires Leads(reg, st, s, mid, log) && Leads(reg, mid, t, st', log')
    ensures Leads(reg, st, s + t, st', log + log')
  {
    FeedBytesAppend(reg, st, s, t);
    CleanRunAppend(reg, st, s, t);
  }

  /** Collecting a name is clean if the name is known or clean. */
  lemma {:induction false} NameRunIsClean(reg: Registry, len: nat, buf: seq<byte>, s: seq<byte>)
    requires |buf| < len < 256 && |buf| + |s| == len
    requires Resolve(reg, buf + s).Some? || Clean(reg, buf + s)
    ensures CleanRun(reg, Name(len, buf), s)
    decreases |s|
  {
    assert (buf + [s[0]]) + s[1..] == buf + s;
    if |s| > 1 {
      NameRunIsClean(reg, len, buf + [s[0]], s[1..]);
    } else {
      assert s == [s[0]];
    }
  }

  lemma OneByteLeads(reg: Registry, st: State, b: byte)
    requires Valid(reg, st) && StepClean(reg, st, b)
    ensures Leads(reg, st, [b], ByteStep(reg, st, b).state, ByteStep(reg, st, b).log)
  {
    FeedBytesSingle(reg, st, b);
    assert CleanRun(reg, ByteStep(reg, st, b).state, [b][1..]);
  }

  lemma NameLeads(reg: Registry, name: seq<byte>)
    requires 0 < |name| <= NAMESPACE_MAX_BYTES
    requires Resolve(reg, name).Some? || Clean(reg, name)
    ensures Leads(reg, Name(|name|, []), name, Named(reg, name, name[|name| - 1]), [])
  {
    assert [] + name == name;
    FeedBytesCompletesName(reg, |name|, [], name);
    NameRunIsClean(reg, |name|, [], name);
  }

  /** The ID byte after the name: a dispatch, or the leftover of an unknown message. */
  lemma {:induction false} IdLeads(reg: Registry, m: Message)
    requires 0 < |m.name| <= NAMESPACE_MAX_BYTES
    ensures Leads(reg, Named(reg, m.name, m.name[|m.name| - 1]), [m.id],
                  Header(PartialMatch(Leftover(reg, m))), Requested(reg, [Part([], m)]))
  {
    assert [Part([], m)][1..] == [];
    match Resolve(reg, m.name)
    case Some(ns) =>
      OneByteLeads(reg, CommandId(ns), m.id);
      assert PartialMatch([]) == 0;
    case None =>
      IdIsScanned(reg, m.name[|m.name| - 1], m.id);
  }

  lemma {:induction false} IdIsScanned(reg: Registry, last: byte, id: byte)
    ensures Leads(reg, Restart(last), [id], Header(PartialMatch([last, id])), [])
  {
    OneByteLeads(reg, Restart(last), id);
    NoMagicInTwoBytes([last, id]);
    ScanJunk(reg, [last, id]);
    assert [last, id] == [last] + [id];
    FeedBytesAppend(reg, INITIAL, [last], [id]);
    FeedBytesSingle(reg, INITIAL, last);
    FeedBytes(reg, Restart(last), [id]).AfterNothing();
  }

  lemma MagicLeads(reg: Registry, pos: nat)
    requires pos < MAGIC_LEN
    ensures Leads(reg, Header(pos), MAGIC, Version, [])
  {
    OneByteLeads(reg, Header(pos), 0xF0);
    OneByteLeads(reg, Header(1), 0x9E);
    OneByteLeads(reg, Header(2), 0x97);
    OneByteLeads(reg, Header(3), 0x8C);
    LeadsOn(reg, Header(pos), [0xF0], Header(1), [], [0x9E], Header(2), []);
    LeadsOn(reg, Header(pos), [0xF0] + [0x9E], Header(2), [], [0x97], Header(3), []);
    LeadsOn(reg, Header(pos), [0xF0] + [0x9E] + [0x97], Header(3), [], [0x8C], Version, []);
    assert MAGIC == [0xF0] + [0x9E] + [0x97] + [0x8C];
  }

  /** The bytes of a message up to its name. */
  lemma {:induction false} PreludeLeads(reg: Registry, pos: nat, len: byte)
    requires pos < MAGIC_LEN
    ensures Leads(reg, Header(pos), MAGIC + [PROTOCOL_VERSION] + [len], if len == 0 then INITIAL else Name(len, []), [])
  {
    MagicLeads(reg, pos);
    OneByteLeads(reg, Version, PROTOCOL_VERSION);
    OneByteLeads(reg, NameLen, len);
    var st := if len == 0 then INITIAL else Name(len, []);
    LeadsOn(reg, Header(pos), MAGIC, Version, [], [PROTOCOL_VERSION], NameLen, []);
    LeadsOn(reg, Header(pos), MAGIC + [PROTOCOL_VERSION], NameLen, [], [len], st, []);
  }

  /** Junk, from wherever the header state was left. */
  lemma JunkLeads(reg: Registry, left: seq<byte>, junk: seq<byte>)
    requires MagicFree(left + junk)
    ensures Leads(reg, Header(PartialMatch(left)), junk, Header(PartialMatch(left + junk)), [])
  {
    MagicFreePart(left + junk, 0, |left|);
    assert (left + junk)[0..|left|] == left;
    ScanJunk(reg, left);
    ScanJunk(reg, left + junk);
    FeedBytesAppend(reg, INITIAL, left, junk);
    FeedBytes(reg, Header(PartialMatch(left)), junk).AfterNothing();
    JunkIsClean(reg, left + junk);
    CleanRunAppend(reg, INITIAL, left, junk);
  }

  lemma {:induction false} PartLeads(reg: Registry, left: seq<byte>, part: Part)
    requires MagicFree(left + part.junk)
    requires Sendable(part.message) && CleanIfUnknown(reg, part.message)
    ensures Leads(reg, Header(PartialMatch(left)), part.junk + Put(part.message),
                  Header(PartialMatch(Leftover(reg, part.message))), Requested(reg, [Part([], part.message)]))
  {
    var m := part.message;
    JunkLeads(reg, left, part.junk);
    MessageLeads(reg, PartialMatch(left + part.junk), m);
    var st', log := Header(PartialMatch(Leftover(reg, m))), Requested(reg, [Part([], m)]);
    LeadsOn(reg, Header(PartialMatch(left)), part.junk, Header(PartialMatch(left + part.junk)), [], Put(m), st', log);
    assert [] + log == log;
  }

  lemma {:induction false} MessageLeads(reg: Registry, pos: nat, m: Message)
    requires pos < MAGIC_LEN && Sendable(m) && CleanIfUnknown(reg, m)
    ensures Leads(reg, Header(pos), Put(m), Header(PartialMatch(Leftover(reg, m))), Requested(reg, [Part([], m)]))
  {
    var log, end := Requested(reg, [Part([], m)]), Header(PartialMatch(Leftover(reg, m)));
    var prelude := MAGIC + [PROTOCOL_VERSION] + [|m.name| as byte];
    if m.name == [] {
      PreludeLeads(reg, pos, 0);
      EmptyNameLeads(reg, m);
      LeadsOn(reg, Header(pos), prelude, INITIAL, [], [m.id], end, log);
      assert prelude + [m.id] == Put(m) && [] + log == log;
    } else {
      NamedLeads(reg, pos, m);
      IdLeads(reg, m);
      var known := Named(reg, m.name, m.name[|m.name| - 1]);
      LeadsOn(reg, Header(pos), prelude + m.name, known, [], [m.id], end, log);
      assert prelude + m.name + [m.id] == Put(m) && [] + log == log;
    }
  }

  /** A message up to the end of its name. */
  lemma {:induction false} NamedLeads(reg: Registry, pos: nat, m: Message)
    requires pos < MAGIC_LEN && Sendable(m) && m.name != [] && CleanIfUnknown(reg, m)
    ensures Leads(reg, Header(pos), MAGIC + [PROTOCOL_VERSION] + [|m.name| as byte] + m.name,
                  Named(reg, m.name, m.name[|m.name| - 1]), [])
  {
    var prelude := MAGIC + [PROTOCOL_VERSION] + [|m.name| as byte];
    PreludeLeads(reg, pos, |m.name| as byte);
    NameLeads(reg, m.name);
    LeadsOn(reg, Header(pos), prelude, Name(|m.name|, []), [], m.name, Named(reg, m.name, m.name[|m.name| - 1]), []);
  }

  /** After the length 0, the ID is scanned for a header. */
  lemma {:induction false} EmptyNameLeads(reg: Registry, m: Message)
    requires m.name == []
    ensures Leads(reg, INITIAL, [m.id], Header(PartialMatch(Leftover(reg, m))), Requested(reg, [Part([], m)]))
  {
    OneByteLeads(reg, INITIAL, m.id);
    PartialMatchOfByte(m.id);
    assert [Part([], m)][1..] == [];
  }

  /** What becomes of one message on its own, byte by byte, clean or not. */
  lemma {:induction false} OneMessage(reg: Registry, pos: nat, m: Message)
    requires pos < MAGIC_LEN && Sendable(m)
    ensures FeedBytes(reg, Header(pos), Put(m)) ==
      Result(Header(PartialMatch(Leftover(reg, m))), Requested(reg, [Part([], m)]))
  {
    if CleanIfUnknown(reg, m) {
      MessageLeads(reg, pos, m);
    } else {
      NamedMessage(reg, pos, m);
    }
  }

  lemma {:induction false} NamedMessage(reg: Registry, pos: nat, m: Message)
    requires pos < MAGIC_LEN && Sendable(m) && m.name != []
    ensures FeedBytes(reg, Header(pos), Put(m)) ==
      Result(Header(PartialMatch(Leftover(reg, m))), Requested(reg, [Part([], m)]))
  {
    var prelude := MAGIC + [PROTOCOL_VERSION] + [|m.name| as byte];
    var log := Requested(reg, [Part([], m)]);
    PreludeLeads(reg, pos, |m.name| as byte);
    NameIsFed(reg, pos, prelude, m.name);
    IdLeads(reg, m);
    FeedBytesAppend(reg, Header(pos), prelude + m.name, [m.id]);
    assert prelude + m.name + [m.id] == Put(m) && [] + log == log;
  }

  lemma {:induction false} NameIsFed(reg: Registry, pos: nat, prelude: seq<byte>, name: seq<byte>)
    requires pos < MAGIC_LEN && 0 < |name| <= NAMESPACE_MAX_BYTES
    requires FeedBytes(reg, Header(pos), prelude) == Result(Name(|name|, []), [])
    ensures FeedBytes(reg, Header(pos), prelude + name) == Result(Named(reg, name, name[|name| - 1]), [])
  {
    FeedBytesAppend(reg, Header(pos), prelude, name);
    FeedBytesCompletesName(reg, |name|, [], name);
    assert [] + name == name;
  }

  /** Byte by byte, a message that the Haskell package can send is dispatched exactly if its
      namespace is not empty and is known. */
  lemma {:induction false} ByteWiseDispatch(reg: Registry, pos: nat, m: Message)
    requires pos < MAGIC_LEN && Sendable(m)
    ensures FeedBytes(reg, Header(pos), Put(m)).log != [] <==> m.name != [] && Resolve(reg, m.name).Some?
    ensures Answered(reg, m) ==>
      FeedBytes(reg, Header(pos), Put(m)) == Result(INITIAL, [Dispatch(Resolve(reg, m.name).value, m.id)])
  {
    OneMessage(reg, pos, m);
    assert [Part([], m)][1..] == [] && PartialMatch([]) == 0;
  }

  // --- Whole streams ------------------------------------------------------------------------

  lemma {:induction false} StreamLeads(reg: Registry, left: seq<byte>, parts: seq<Part>, trailing: seq<byte>)
    requires AllSendable(parts) && Separated(reg, left, parts, trailing)
    ensures Leads(reg, Header(PartialMatch(left)), Render(parts, trailing),
                  Header(PartialMatch(Ending(reg, left, parts, trailing))), Requested(reg, parts))
    decreases |parts|
  {
    if parts == [] {
      JunkLeads(reg, left, trailing);
    } else {
      var part, rest := parts[0], parts[1..];
      var left' := Leftover(reg, part.message);
      PartLeads(reg, left, part);
      StreamLeads(reg, left', rest, trailing);
      RequestedCons(reg, part, rest);
      assert parts == [part] + rest;
      LeadsOn(reg, Header(PartialMatch(left)), part.junk + Put(part.message),
              Header(PartialMatch(left')), Requested(reg, [Part([], part.message)]),
              Render(rest, trailing),
              Header(PartialMatch(Ending(reg, left', rest, trailing))), Requested(reg, rest));
    }
  }

  lemma {:induction false} RequestedCons(reg: Registry, part: Part, rest: seq<Part>)
    ensures Requested(reg, [part] + rest) == Requested(reg, [Part([], part.message)]) + Requested(reg, rest)
  {
    assert ([part] + rest)[1..] == rest;
    assert [Part([], part.message)][1..] == [];
  }

  lemma {:induction false} RequestedOne(reg: Registry, m: Message)
    ensures Requested(reg, [Part([], m)]) ==
      if Answered(reg, m) then [Dispatch(Resolve(reg, m.name).value, m.id)] else []
  {
    assert [Part([], m)][1..] == [];
  }

  /** End to end: whatever serialised messages and magic-free junk a client writes, and
      however the stream is cut into admissible chunks, the parser makes exactly the
      dispatches asked for, in order. Messages for unknown or empty namespaces, under any
      ID, hide or alter nothing that follows them. */
  lemma {:induction false} StreamIsDispatched(reg: Registry, parts: seq<Part>, trailing: seq<byte>,
                                              chunks: seq<seq<byte>>)
    requires AllSendable(parts) && Separated(reg, [], parts, trailing)
    requires Concat(chunks) == Render(parts, trailing)
    requires Admissible(reg, INITIAL, chunks)
    ensures HandleChunks(reg, INITIAL, chunks) ==
      Done(Result(Header(PartialMatch(Ending(reg, [], parts, trailing))), Requested(reg, parts)))
  {
    StreamLeads(reg, [], parts, trailing);
    assert PartialMatch([]) == 0;
    ChunksAreBytes(reg, INITIAL, chunks);
    AdmissibleIsDone(reg, INITIAL, chunks);
  }

  /** Resynchronisation: a message with an empty name, or with an unknown name that is clean
      (such as one without F0), hides and alters nothing, wherever it stands in the stream,
      under any ID (F0 too) and any cut. The dispatches are those of the messages before it
      and of the messages after it; all that is asked of the junk after it is that it does
      not make up a magic with the one or two bytes that are left over. */
  lemma {:induction false} UnknownMessageHidesNothing(
    reg: Registry, before: seq<Part>, unknown: Part, after: seq<Part>, trailing: seq<byte>, chunks: seq<seq<byte>>)
    requires AllSendable(before) && Sendable(unknown.message) && AllSendable(after)
    requires !Answered(reg, unknown.message)
    requires 0xF0 !in unknown.message.name || Clean(reg, unknown.message.name)
    requires Separated(reg, [], before, unknown.junk)
    requires Separated(reg, Leftover(reg, unknown.message), after, trailing)
    requires Concat(chunks) == Render(before, unknown.junk + Put(unknown.message) + Render(after, trailing))
    requires Admissible(reg, INITIAL, chunks)
    ensures HandleChunks(reg, INITIAL, chunks) ==
      Done(Result(Header(PartialMatch(Ending(reg, Leftover(reg, unknown.message), after, trailing))),
                  Requested(reg, before) + Requested(reg, after)))
  {
    var m := unknown.message;
    if m.name != [] && 0xF0 !in m.name {
      CleanWithoutF0(reg, m.name);
    }
    var rest := [unknown] + after;
    assert rest[1..] == after;
    SeparatedAppend(reg, [], before, rest, trailing);
    EndingAppend(reg, [], before, rest, trailing);
    RenderAppend(before, rest, trailing);
    RequestedAppend(reg, before, rest);
    RequestedCons(reg, unknown, after);
    assert [Part([], m)][1..] == [];
    StreamIsDispatched(reg, before + rest, trailing, chunks);
  }

  /** In particular nothing is asked of the stream after it if the next message follows
      directly: it is as if the unanswered message had not been there. */
  lemma {:induction false} UnknownMessageLeavesNoTrace(
    reg: Registry, before: seq<Part>, unknown: Part, after: seq<Part>, trailing: seq<byte>, chunks: seq<seq<byte>>)
    requires AllSendable(before) && Sendable(unknown.message) && AllSendable(after)
    requires !Answered(reg, unknown.message)
    requires 0xF0 !in unknown.message.name || Clean(reg, unknown.message.name)
    requires Separated(reg, [], before, unknown.junk)
    requires after != [] && after[0].junk == [] && Separated(reg, [], after, trailing)
    requires Concat(chunks) == Render(before, unknown.junk + Put(unknown.message) + Render(after, trailing))
    requires Admissible(reg, INITIAL, chunks)
    ensures HandleChunks(reg, INITIAL, chunks) ==
      Done(Result(Header(PartialMatch(Ending(reg, [], after, trailing))), Requested(reg, before + after)))
  {
    SeparatedDirectlyAfter(reg, unknown.message, after, trailing);
    UnknownMessageHidesNothing(reg, before, unknown, after, trailing, chunks);
    RequestedAppend(reg, before, after);
  }

  lemma {:induction false} RequestedAppend(reg: Registry, a: seq<Part>, b: seq<Part>)
    ensures Requested(reg, a + b) == Requested(reg, a) + Requested(reg, b)
  {
    if a == [] {
      assert a + b == b;
    } else {
      RequestedAppend(reg, a[1..], b);
      RequestedCons(reg, a[0], a[1..]);
      RequestedCons(reg, a[0], a[1..] + b);
      assert a == [a[0]] + a[1..] && a + b == [a[0]] + (a[1..] + b);
    }
  }

  lemma {:induction false} RenderAppend(a: seq<Part>, b: seq<Part>, trailing: seq<byte>)
    requires AllSendable(a) && AllSendable(b)
    ensures AllSendable(a + b) && Render(a + b, trailing) == Render(a, Render(b, trailing))
  {
    if a == [] {
      assert a + b == b;
    } else {
      RenderAppend(a[1..], b, trailing);
      assert (a + b)[1..] == a[1..] + b;
    }
  }

  /** Two streams are one stream if the junk between them is in order on both sides. */
  lemma {:induction false} SeparatedAppend(reg: Registry, left: seq<byte>, a: seq<Part>, b: seq<Part>,
                                           trailing: seq<byte>)
    requires b != [] && CleanIfUnknown(reg, b[0].message)
    requires Separated(reg, left, a, b[0].junk)
    requires Separated(reg, Leftover(reg, b[0].message), b[1..], trailing)
    ensures Separated(reg, left, a + b, trailing)
    decreases |a|
  {
    HeadAndTail(a, b);
    if a == [] {
      SeparatedCons(reg, left, b[0], b[1..], trailing);
    } else {
      SeparatedAppend(reg, Leftover(reg, a[0].message), a[1..], b, trailing);
      SeparatedCons(reg, left, a[0], a[1..] + b, trailing);
    }
  }

  lemma HeadAndTail(a: seq<Part>, b: seq<Part>)
    requires b != []
    ensures a + b == if a == [] then [b[0]] + b[1..] else [a[0]] + (a[1..] + b)
  {
  }

  lemma {:induction false} SeparatedCons(reg: Registry, left: seq<byte>, part: Part, rest: seq<Part>,
                                         trailing: seq<byte>)
    requires MagicFree(left + part.junk) && CleanIfUnknown(reg, part.message)
    requires Separated(reg, Leftover(reg, part.message), rest, trailing)
    ensures Separated(reg, left, [part] + rest, trailing)
  {
    assert ([part] + rest)[1..] == rest;
  }

  lemma {:induction false} EndingAppend(reg: Registry, left: seq<byte>, a: seq<Part>, b: seq<Part>, trailing: seq<byte>)
    requires b != []
    ensures Ending(reg, left, a + b, trailing) == Ending(reg, Leftover(reg, b[0].message), b[1..], trailing)
    decreases |a|
  {
    var all := a + b;
    if a == [] {
      assert all == b;
    } else {
      assert all[0] == a[0] && all[1..] == a[1..] + b;
      EndingAppend(reg, Leftover(reg, a[0].message), a[1..], b, trailing);
    }
  }

  /** The condition on the junk after an unanswered message is met if there is none. */
  lemma {:induction false} SeparatedDirectlyAfter(reg: Registry, m: Message, after: seq<Part>, trailing: seq<byte>)
    requires after != [] && after[0].junk == [] && Separated(reg, [], after, trailing)
    ensures Separated(reg, Leftover(reg, m), after, trailing)
    ensures Ending(reg, Leftover(reg, m), after, trailing) == Ending(reg, [], after, trailing)
  {
    NoMagicInTwoBytes(Leftover(reg, m) + after[0].junk);
  }

  lemma NoMagicInTwoBytes(s: seq<byte>)
    requires |s| <= 2
    ensures MagicFree(s)
  {
  }

  // --- Registered namespaces -------------------------------------------------------------------

  /** The message asks for command id of registry entry ns, under its registered name. */
  datatype Call = Call(junk: seq<byte>, ns: nat, id: byte)

  function AsParts(reg: Registry, calls: seq<Call>): (parts: seq<Part>)
    requires forall i :: 0 <= i < |calls| ==> calls[i].ns < |reg|
    ensures |parts| == |calls|
    ensures forall i :: 0 <= i < |calls| ==>
      parts[i] == Part(calls[i].junk, Message(reg[calls[i].ns].name, calls[i].id))
  {
    seq(|calls|, i requires 0 <= i < |calls| =>
      Part(calls[i].junk, Message(reg[calls[i].ns].name, calls[i].id)))
  }

  /** The dispatches that the calls ask for. */
  function AsDispatches(calls: seq<Call>): (log: seq<Dispatch>)
    ensures |log| == |calls|
    ensures forall i :: 0 <= i < |calls| ==> log[i] == Dispatch(calls[i].ns, calls[i].id)
  {
    seq(|calls|, i requires 0 <= i < |calls| => Dispatch(calls[i].ns, calls[i].id))
  }

  lemma FirstCall(reg: Registry, calls: seq<Call>)
    requires calls != [] && forall i :: 0 <= i < |calls| ==> calls[i].ns < |reg|
    ensures AsParts(reg, calls)[1..] == AsParts(reg, calls[1..])
    ensures AsDispatches(calls) == [Dispatch(calls[0].ns, calls[0].id)] + AsDispatches(calls[1..])
  {
  }

  lemma {:induction false} CallsAreRequested(reg: Registry, calls: seq<Call>, trailing: seq<byte>)
    requires WellFormed(reg)
    requires forall i :: 0 <= i < |calls| ==> calls[i].ns < |reg| && MagicFree(calls[i].junk)
    requires MagicFree(trailing)
    ensures Separated(reg, [], AsParts(reg, calls), trailing)
    ensures Ending(reg, [], AsParts(reg, calls), trailing) == trailing
    ensures Requested(reg, AsParts(reg, calls)) == AsDispatches(calls)
    decreases |calls|
  {
    if calls == [] {
      assert [] + trailing == trailing;
    } else {
      var parts := AsParts(reg, calls);
      ResolveOwnName(reg, calls[0].ns);
      FirstCall(reg, calls);
      assert [] + parts[0].junk == parts[0].junk;
      CallsAreRequested(reg, calls[1..], trailing);
    }
  }

  /** The round trip for registered namespaces: every reachable registry, any list of
      commands with magic-free junk between them, any admissible cut. The parser makes one
      dispatch per message, in order, and is back at the first header byte at the end. */
  lemma {:induction false} RoundTrip(reg: Registry, calls: seq<Call>, trailing: seq<byte>, chunks: seq<seq<byte>>)
    requires WellFormed(reg)
    requires forall i :: 0 <= i < |calls| ==> calls[i].ns < |reg| && MagicFree(calls[i].junk)
    requires MagicFree(trailing)
    requires Concat(chunks) == Render(AsParts(reg, calls), trailing)
    requires Admissible(reg, INITIAL, chunks)
    ensures HandleChunks(reg, INITIAL, chunks) ==
      Done(Result(Header(PartialMatch(trailing)), AsDispatches(calls)))
    ensures trailing == [] ==> HandleChunks(reg, INITIAL, chunks).result.state == INITIAL
  {
    CallsAreRequested(reg, calls, trailing);
    StreamIsDispatched(reg, AsParts(reg, calls), trailing, chunks);
  }

  /** The serialiser lets an empty namespace through, but the parser takes the length 0 for
      a protocol error: the message is never dispatched. */
  lemma {:induction false} EmptyNamespaceIsIgnored(reg: Registry, id: byte)
    ensures UserNamespace([]) == Namespace([])
    ensures FeedBytes(reg, INITIAL, Put(Message([], id))) == Result(Restart(id), [])
  {
    OneMessage(reg, 0, Message([], id));
    PartialMatchOfByte(id);
    assert [Part([], Message([], id))][1..] == [];
  }

  /** The sample message in the README gives the 15-byte name the length 0x15: the parser
      dispatches nothing and waits for five more name bytes. */
  lemma {:induction false} ReadmeSampleIsIncomplete(reg: Registry, id: byte)
    ensures FeedBytes(reg, INITIAL, MAGIC + [0] + [0x15] + (BUILTIN_NAME + [id])) ==
      Result(Name(0x15, BUILTIN_NAME + [id]), [])
  {
    PreludeLeads(reg, 0, 0x15);
    FeedBytesAppend(reg, INITIAL, MAGIC + [0] + [0x15], BUILTIN_NAME + [id]);
    FeedBytesFillsName(reg, 0x15, [], BUILTIN_NAME + [id]);
    assert [] + (BUILTIN_NAME + [id]) == BUILTIN_NAME + [id];
  }
}
