/** The protocol in bytes, as its documents give it: the magic is the UTF-8 encoding of a code
    point, and the builtin commands have numbers. */
module WireFormat {
  import opened Bytes
  import opened NamespaceStore
  import opened CommandParser
  import opened Chunking
  import opened MagicMatcher
  import opened ControlMessages
  import opened EndToEnd
  import opened MessageOutcomes

  /** The UTF-8 encoding of a code point, as in section 3 of RFC 3629. */
  function Utf8(point: nat): seq<byte>
    requires point < 0x11_0000
  {
    if point < 0x80 then [point]
    else if point < 0x800 then [0xC0 + point / 0x40, Continuation(point)]
    else if point < 0x1_0000 then [0xE0 + point / 0x1000, Continuation(point / 0x40), Continuation(point)]
    else [0xF0 + point / 0x4_0000, Continuation(point / 0x1000), Continuation(point / 0x40), Continuation(point)]
  }

  function Continuation(point: nat): byte {
    0x80 + point % 0x40
  }

  /** The code point that the comment on the magic gives. */
  const MAGIC_CODE_POINT := 0x1E5CC

  lemma MagicIsCodePoint()
    ensures Utf8(MAGIC_CODE_POINT) == MAGIC
  {
  }

  /** Four bytes take the parser from its initial state to the version state exactly if they
      encode that code point, in one chunk or byte by byte. */
  lemma {:induction false} OnlyCodePointIsMagic(reg: Registry, s: seq<byte>)
    requires |s| == 4
    ensures FeedBytes(reg, INITIAL, s).state == Version <==> s == Utf8(MAGIC_CODE_POINT)
    ensures FeedChunk(reg, INITIAL, s).state == Version <==> s == Utf8(MAGIC_CODE_POINT)
  {
    var start, b := s[..3], s[3];
    assert s == start + [b];
    assert MagicFree(start) by {
      forall i: nat
        ensures !MagicAt(start, i)
      {
      }
    }
    FirstMagicIsFound(reg, start, b);
    assert s[|s| - |MAGIC|..] == s;
    MagicIsCodePoint();
    JunkIsClean(reg, start);
    ScanJunk(reg, start);
    CleanRunAppend(reg, INITIAL, start, [b]);
    ChunkIsBytes(reg, INITIAL, s);
  }

  /** The bytes of a serialised message. */
  lemma {:induction false} PutInBytes(m: Message)
    requires Sendable(m)
    ensures Put(m)[..4] == Utf8(MAGIC_CODE_POINT)
    ensures Put(m)[4] == 0 && Put(m)[5] == |m.name|
    ensures Put(m)[6..] == m.name + [m.id]
  {
    PutLayout(PROTOCOL_VERSION, m, []);
    assert Put(m) + [] == Put(m) && m.name + [m.id] + [] == m.name + [m.id];
  }

  function Ascii(text: string): seq<byte>
    requires forall i :: 0 <= i < |text| ==> text[i] < 128 as char
  {
    seq(|text|, i requires 0 <= i < |text| => text[i] as int)
  }

  lemma BuiltinNameIsText()
    ensures BUILTIN_NAME == Ascii("eventlog-socket")
  {
  }

  /** The builtin commands: sent in any admissible cut, a message for "eventlog-socket" is
      dispatched there in every well-formed registry, and IDs 1 to 5 and no others run a handler,
      each its own. */
  lemma {:induction false} BuiltinCommandsRun(reg: Registry, id: byte, chunks: seq<seq<byte>>)
    requires WellFormed(reg)
    requires Concat(chunks) == Utf8(MAGIC_CODE_POINT) + [0, 15] + Ascii("eventlog-socket") + [id]
    requires Admissible(reg, INITIAL, chunks)
    ensures HandleChunks(reg, INITIAL, chunks) == Done(Result(INITIAL, [Dispatch(0, id)]))
    ensures HandlerCalls(reg, [Dispatch(0, id)]) == if 1 <= id <= 5 then [HandlerCall(id, id)] else []
  {
    var m := Message(BUILTIN_NAME, id);
    BuiltinNameIsText();
    MagicIsCodePoint();
    assert Put(m) == MAGIC + [0, 15] + BUILTIN_NAME + [id];
    ResolveOwnName(reg, 0);
    RequestedOne(reg, m);
    CleanMessageIsHandled(reg, m, chunks);
    assert PartialMatch([]) == 0;
    BuiltinHandlers(reg, id);
    assert [Dispatch(0, id)][..0] == [];
  }

  lemma {:induction false} BuiltinHandlers(reg: Registry, id: byte)
    requires WellFormed(reg)
    ensures Handler(reg, 0, id) == if 1 <= id <= 5 then Some(id) else None
  {
    var c := BUILTIN_COMMANDS;
    assert c[1..][0] == c[1] && c[1..][1..] == c[2..];
    assert c[2..][0] == c[2] && c[2..][1..] == c[3..];
    assert c[3..][0] == c[3] && c[3..][1..] == c[4..];
    assert c[4..][0] == c[4] && c[4..][1..] == [];
    assert FindCommand(c[4..], id) == if id == 5 then Some(5) else None;
    assert FindCommand(c[3..], id) == if 4 <= id <= 5 then Some(id) else None;
    assert FindCommand(c[2..], id) == if 3 <= id <= 5 then Some(id) else None;
    assert FindCommand(c[1..], id) == if 2 <= id <= 5 then Some(id) else None;
  }
}
