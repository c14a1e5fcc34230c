/** What the parser makes of a stream of commands that has not been received to its end. */
module PartialStreams {
  import opened Bytes
  import opened NamespaceStore
  import opened CommandParser
  import opened Chunking
  import opened MagicMatcher
  import opened ControlMessages
  import opened EndToEnd

  /** Commands for registered namespaces, with magic-free junk before each of them. */
  ghost predicate AreCalls(reg: Registry, calls: seq<Call>) {
    forall i :: 0 <= i < |calls| ==> calls[i].ns < |reg| && MagicFree(calls[i].junk)
  }

  /** The number of bytes of the message for a call, with the junk before it. */
  function SizeOf(reg: Registry, call: Call): nat
    requires call.ns < |reg|
  {
    |call.junk| + MAGIC_LEN + 3 + |reg[call.ns].name|
  }

  /** The calls whose messages are complete within the first n bytes of the stream. */
  function Completed(reg: Registry, calls: seq<Call>, n: nat): (done: seq<Call>)
    requires forall i :: 0 <= i < |calls| ==> calls[i].ns < |reg|
    ensures done <= calls
    decreases |calls|
  {
    if calls == [] || n < SizeOf(reg, calls[0]) then []
    else [calls[0]] + Completed(reg, calls[1..], n - SizeOf(reg, calls[0]))
  }

  /** The stream with these calls. */
  function StreamOf(reg: Registry, calls: seq<Call>, trailing: seq<byte>): seq<byte>
    requires forall i :: 0 <= i < |calls| ==> calls[i].ns < |reg|
    requires forall i :: 0 <= i < |reg| ==> |reg[i].name| <= NAMESPACE_MAX_BYTES
  {
    Render(AsParts(reg, calls), trailing)
  }

  lemma {:induction false} StreamCons(reg: Registry, calls: seq<Call>, trailing: seq<byte>)
    requires WellFormed(reg) && AreCalls(reg, calls) && calls != []
    ensures var m := Message(reg[calls[0].ns].name, calls[0].id);
      var head := calls[0].junk + Put(m);
      && |head| == SizeOf(reg, calls[0])
      && StreamOf(reg, calls, trailing) == head + StreamOf(reg, calls[1..], trailing)
  {
    FirstCall(reg, calls);
  }

  /** Up to its ID, a message makes no dispatch. */
  lemma {:induction false} NoDispatchBeforeId(reg: Registry, junk: seq<byte>, m: Message, n: nat)
    requires MagicFree(junk) && Sendable(m) && Answered(reg, m)
    requires n < |junk + Put(m)|
    ensures FeedBytes(reg, INITIAL, (junk + Put(m))[..n]).log == []
  {
    var all := junk + (MAGIC + [PROTOCOL_VERSION] + [|m.name| as byte] + m.name);
    LeadsToId(reg, junk, m);
    assert junk + Put(m) == all + [m.id];
    assert (junk + Put(m))[..n] == all[..n] && all == all[..n] + all[n..];
    FeedBytesAppend(reg, INITIAL, all[..n], all[n..]);
  }

  lemma {:induction false} LeadsToId(reg: Registry, junk: seq<byte>, m: Message)
    requires MagicFree(junk) && Sendable(m) && Answered(reg, m)
    ensures Leads(reg, INITIAL, junk + (MAGIC + [PROTOCOL_VERSION] + [|m.name| as byte] + m.name),
                  Named(reg, m.name, m.name[|m.name| - 1]), [])
  {
    var named := MAGIC + [PROTOCOL_VERSION] + [|m.name| as byte] + m.name;
    assert [] + junk == junk && PartialMatch([]) == 0;
    JunkLeads(reg, [], junk);
    NamedLeads(reg, PartialMatch(junk), m);
    LeadsOn(reg, INITIAL, junk, Header(PartialMatch(junk)), [], named, Named(reg, m.name, m.name[|m.name| - 1]), []);
  }

  lemma {:induction false} CallIsAnswered(reg: Registry, call: Call)
    requires WellFormed(reg) && call.ns < |reg|
    ensures var m := Message(reg[call.ns].name, call.id);
      Sendable(m) && Answered(reg, m) && Resolve(reg, m.name) == Some(call.ns)
  {
    ResolveOwnName(reg, call.ns);
  }

  lemma {:induction false} CallIsDispatched(reg: Registry, call: Call)
    requires WellFormed(reg) && call.ns < |reg| && MagicFree(call.junk)
    ensures FeedBytes(reg, INITIAL, call.junk + Put(Message(reg[call.ns].name, call.id))) ==
      Result(INITIAL, [Dispatch(call.ns, call.id)])
  {
    var m := Message(reg[call.ns].name, call.id);
    CallIsAnswered(reg, call);
    RequestedOne(reg, m);
    assert [] + call.junk == call.junk && PartialMatch([]) == 0;
    PartLeads(reg, [], Part(call.junk, m));
  }

  /** Whatever part of the stream has arrived, exactly the calls that are complete in it are
      dispatched. */
  lemma {:induction false} PrefixIsDispatched(reg: Registry, calls: seq<Call>, trailing: seq<byte>, n: nat)
    requires WellFormed(reg) && AreCalls(reg, calls) && MagicFree(trailing)
    requires n <= |StreamOf(reg, calls, trailing)|
    ensures FeedBytes(reg, INITIAL, StreamOf(reg, calls, trailing)[..n]).log == AsDispatches(Completed(reg, calls, n))
    decreases |calls|
  {
    if calls == [] {
      MagicFreePart(trailing, 0, n);
      assert trailing[0..n] == trailing[..n];
      ScanJunk(reg, trailing[..n]);
    } else {
      var m := Message(reg[calls[0].ns].name, calls[0].id);
      var head, rest := calls[0].junk + Put(m), StreamOf(reg, calls[1..], trailing);
      StreamCons(reg, calls, trailing);
      CallIsAnswered(reg, calls[0]);
      CallIsDispatched(reg, calls[0]);
      if n < |head| {
        assert (head + rest)[..n] == head[..n];
        NoDispatchBeforeId(reg, calls[0].junk, m, n);
      } else {
        assert (head + rest)[..n] == head + rest[..n - |head|];
        FeedBytesAppend(reg, INITIAL, head, rest[..n - |head|]);
        PrefixIsDispatched(reg, calls[1..], trailing, n - |head|);
        DispatchesCons(calls[0], Completed(reg, calls[1..], n - |head|));
      }
    }
  }

  lemma {:induction false} DispatchesCons(call: Call, calls: seq<Call>)
    ensures AsDispatches([call] + calls) == [Dispatch(call.ns, call.id)] + AsDispatches(calls)
  {
  }

  lemma {:induction false} StreamIsClean(reg: Registry, calls: seq<Call>, trailing: seq<byte>)
    requires WellFormed(reg) && AreCalls(reg, calls) && MagicFree(trailing)
    ensures CleanRun(reg, INITIAL, StreamOf(reg, calls, trailing))
  {
    CallsAreRequested(reg, calls, trailing);
    StreamLeads(reg, [], AsParts(reg, calls), trailing);
    assert PartialMatch([]) == 0;
  }

  /** The same for every cut of that part into chunks. */
  lemma {:induction false} PrefixInChunksIsDispatched(reg: Registry, calls: seq<Call>, trailing: seq<byte>, n: nat,
                                                      chunks: seq<seq<byte>>)
    requires WellFormed(reg) && AreCalls(reg, calls) && MagicFree(trailing)
    requires n <= |StreamOf(reg, calls, trailing)| && Concat(chunks) == StreamOf(reg, calls, trailing)[..n]
    ensures FeedChunks(reg, INITIAL, chunks).log == AsDispatches(Completed(reg, calls, n))
  {
    var s := StreamOf(reg, calls, trailing);
    StreamIsClean(reg, calls, trailing);
    assert s == s[..n] + s[n..];
    CleanRunAppend(reg, INITIAL, s[..n], s[n..]);
    ChunksAreBytes(reg, INITIAL, chunks);
    PrefixIsDispatched(reg, calls, trailing, n);
  }
}
