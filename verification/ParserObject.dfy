/** The parser of control.c as it is in memory: a global state that the chunk loop updates
    in place, a heap-allocated namespace buffer, and calls of the registered handlers. */
module ParserObject {
  import opened Bytes
  import opened NamespaceStore
  import opened NamespaceRegistry
  import opened CommandParser

  datatype Tag = MagicTag | VersionTag | NameLenTag | NameTag | CommandIdTag

  class ControlParser {
    const registry: RegistryObject
    var tag: Tag
    var headerPos: byte
    var bufferLen: byte
    var bufferPos: byte
    var buffer: array<byte>
    var namespace: NamespaceNode?
    var calls: seq<HandlerCall>
    ghost var index: nat            // the registry index of the resolved namespace
    ghost var log: seq<Dispatch>    // every call of CommandHandle

    ghost predicate Attached()
      reads this, registry, registry.Repr
    {
      registry.Valid() && this !in registry.Repr && buffer !in registry.Repr
    }

    ghost predicate Valid()
      reads this, buffer, registry, registry.Repr
    {
      && Attached()
      && (tag == MagicTag ==> headerPos < MAGIC_LEN)
      && (tag == NameTag ==> bufferPos < bufferLen && buffer.Length == bufferLen + 1 && buffer[bufferLen] == 0)
      && (tag == CommandIdTag ==> index < |registry.spine| && namespace == registry.spine[index])
    }

    ghost function Names(): Registry
      requires Valid()
      reads this, buffer, registry, registry.Repr
    {
      registry.View()
    }

    /** The state of the parser as a value. */
    ghost function State(): (st: State)
      requires Valid()
      reads this, buffer, registry, registry.Repr
      ensures CommandParser.Valid(Names(), st)
    {
      match tag
      case MagicTag => Header(headerPos)
      case VersionTag => Version
      case NameLenTag => NameLen
      case NameTag => Name(bufferLen, buffer[..bufferPos])
      case CommandIdTag => CommandId(index)
    }

    constructor (registry: RegistryObject)
      requires registry.Valid()
      ensures Valid() && this.registry == registry && State() == INITIAL && log == [] && calls == []
      ensures fresh(buffer)
    {
      this.registry := registry;
      tag, headerPos, bufferLen, bufferPos, namespace := MagicTag, 0, 0, 0, null;
      buffer := new byte[0];
      calls, index, log := [], 0, [];
    }

    /** es_control_command_parser_enter_state, for the header state. */
    method EnterMagic(data: Option<byte>)
      requires Attached()
      modifies this`tag, this`headerPos
      ensures Valid() && State() == (match data case None => INITIAL case Some(b) => Restart(b))
    {
      tag := MagicTag;
      headerPos := if data.Some? && data.value == MAGIC[0] then 1 else 0;
    }

    /** es_control_command_parser_enter_state, for the namespace state. */
    method EnterName(len: byte)
      requires Attached() && len > 0
      modifies this`tag, this`bufferLen, this`bufferPos, this`buffer
      ensures Valid() && State() == Name(len, []) && fresh(buffer)
    {
      tag, bufferLen, bufferPos := NameTag, len, 0;
      buffer := new byte[len + 1];
      buffer[len] := 0;
    }

    /** The cases of the switch for everything but the namespace. */
    method HandleByte(b: byte)
      requires Valid() && tag != NameTag
      modifies this
      ensures Valid() && (buffer == old(buffer) || fresh(buffer))
      ensures registry.View() == old(registry.View())
      ensures State() == ByteStep(old(Names()), old(State()), b).state
      ensures log == old(log) + ByteStep(old(Names()), old(State()), b).log
      ensures calls == old(calls) + HandlerCalls(old(Names()), ByteStep(old(Names()), old(State()), b).log)
    {
      if tag == MagicTag {
        HandleMagic(b);
      } else if tag == CommandIdTag {
        HandleCommandId(b);
      } else {
        HandlePrelude(b);
      }
    }

    /** The case for a byte of the header. */
    method HandleMagic(b: byte)
      requires Valid() && tag == MagicTag
      modifies this`tag, this`headerPos
      ensures Valid() && State() == ByteStep(old(Names()), old(State()), b).state
    {
      if b == MAGIC[headerPos] {
        headerPos := headerPos + 1;
        if headerPos >= MAGIC_LEN {
          tag := VersionTag;
        }
      } else {
        EnterMagic(Some(b));
      }
    }

    /** The case for the command ID. */
    method HandleCommandId(b: byte)
      requires Valid() && tag == CommandIdTag
      modifies this`tag, this`headerPos, this`calls, this`log
      ensures Valid() && State() == INITIAL
      ensures log == old(log) + [Dispatch(old(index), b)]
      ensures calls == old(calls) + HandlerCalls(old(Names()), [Dispatch(old(index), b)])
    {
      CommandHandle(b);
      EnterMagic(None);
    }

    /** The cases for the version and for the namespace length. */
    method HandlePrelude(b: byte)
      requires Valid() && (tag == VersionTag || tag == NameLenTag)
      modifies this`tag, this`headerPos, this`bufferLen, this`bufferPos, this`buffer
      ensures Valid() && (buffer == old(buffer) || fresh(buffer))
      ensures registry.View() == old(registry.View())
      ensures State() == ByteStep(old(Names()), old(State()), b).state
    {
      if tag == VersionTag {
        if b == PROTOCOL_VERSION {
          tag := NameLenTag;
          return;
        }
        // the source restarts here and then falls through to the next case
        EnterMagic(Some(b));
      }
      if b == 0 {
        EnterMagic(Some(b));
      } else {
        EnterName(b);
      }
    }

    /** es_control_command_handle, for the namespace resolved before. */
    method CommandHandle(id: byte)
      requires Valid() && tag == CommandIdTag
      modifies this`calls, this`log
      ensures Valid() && State() == old(State())
      ensures log == old(log) + [Dispatch(index, id)]
      ensures calls == old(calls) + HandlerCalls(Names(), [Dispatch(index, id)])
    {
      assert [Dispatch(index, id)][..0] == [];
      var handler := registry.FindHandler(namespace, index, id);
      if handler.Some? {
        calls := calls + [HandlerCall(handler.value, id)];
      }
      log := log + [Dispatch(index, id)];
    }

    /** The case of the switch for the namespace; next is the index with which the loop
        goes on. A chunk that has no bytes left by 8-bit arithmetic fails an assertion. */
    method HandleName(chunk: array<byte>, i: nat) returns (next: nat, failed: bool)
      requires Valid() && tag == NameTag
      requires i < chunk.Length <= CHUNK_SIZE && chunk != buffer
      modifies this, buffer
      ensures Valid() && buffer == old(buffer) && log == old(log) && calls == old(calls)
      ensures registry.View() == old(registry.View())
      ensures failed <==> i == 0 && chunk.Length == CHUNK_SIZE
      ensures Iteration(State(), next, []) == CommandParser.Iterate(old(Names()), old(State()), chunk[..], i)
    {
      ghost var reg, st, bytes := Names(), State(), chunk[..];
      var required := U8(bufferLen - bufferPos);
      var remaining := U8(chunk.Length - i);
      failed := remaining == 0;
      if failed {
        next := i;
        return;
      }
      var available := if remaining < required then remaining else required;
      IterateInName(reg, st.len, st.buf, bytes, i, available);
      CopyName(chunk, i, available);
      next := EndName(chunk[i], i, available);
    }

    /** What follows the copy: the name goes on, or it is complete and is looked up. */
    method EndName(b: byte, i: nat, available: nat) returns (next: nat)
      requires Attached() && tag == NameTag && buffer.Length == bufferLen + 1 && buffer[bufferLen] == 0
      requires bufferPos <= bufferLen && available > 0
      modifies this`tag, this`headerPos, this`namespace, this`index
      ensures Valid() && registry.View() == old(registry.View())
      ensures var name := old(buffer[..bufferPos]);
        Iteration(State(), next, []) ==
          if |name| < bufferLen then Iteration(Name(bufferLen, name), i + available, [])
          else match Resolve(old(registry.View()), name)
            case Some(ns) => Iteration(CommandId(ns), i + available, [])
            case None => Iteration(Restart(b), i + 1, [])
    {
      ghost var name := buffer[..bufferPos];
      if bufferPos < bufferLen {
        next := i + (available - 1) + 1;
        assert State() == Name(bufferLen, name);
        return;
      }
      assert name == buffer[..bufferLen];
      var found := ResolveName(b);
      assert State() == Named(old(registry.View()), name, b);
      next := if found then i + (available - 1) + 1 else i + 1;
    }

    /** The memcpy into the namespace buffer and the move of its position. */
    method CopyName(chunk: array<byte>, i: nat, available: nat)
      requires Valid() && tag == NameTag
      requires i + available <= chunk.Length && bufferPos + available <= bufferLen && chunk != buffer
      modifies this`bufferPos, buffer
      ensures Attached() && buffer.Length == bufferLen + 1 && buffer[bufferLen] == 0
      ensures bufferPos == old(bufferPos) + available
      ensures buffer[..bufferPos] == old(buffer[..bufferPos]) + chunk[..][i..i + available]
      ensures registry.View() == old(registry.View())
    {
      ghost var before, from := buffer[..bufferPos], bufferPos;
      forall k | 0 <= k < available {
        buffer[bufferPos + k] := chunk[i + k];
      }
      bufferPos := U8(bufferPos + available);
      ghost var after := before + chunk[..][i..i + available];
      assert bufferPos == from + available == |after|;
      forall k | 0 <= k < bufferPos
        ensures buffer[k] == after[k]
      {
        assert k >= from ==> buffer[from + (k - from)] == chunk[i + (k - from)];
      }
    }

    /** The lookup of a complete namespace; b is the byte with which to restart. */
    method ResolveName(b: byte) returns (found: bool)
      requires Attached() && tag == NameTag && bufferPos == bufferLen < buffer.Length
      modifies this`tag, this`headerPos, this`namespace, this`index
      ensures Valid() && registry.View() == old(registry.View())
      ensures var r := Resolve(old(registry.View()), old(buffer[..bufferLen]));
        found == r.Some? && State() == match r case Some(ns) => CommandId(ns) case None => Restart(b)
    {
      var entry, entryIndex := registry.Resolve(buffer[..bufferLen]);
      found := entry != null;
      if found {
        tag, namespace, index := CommandIdTag, entry, entryIndex;
      } else {
        EnterMagic(Some(b));
      }
    }

    /** A registration by the application, in whatever state the parser is: the parser is not
        affected, and goes on under the new registry. */
    method RegisterNamespace(name: seq<byte>, hasOut: bool) returns (status: Status, entry: NamespaceNode?)
      requires Valid() && |name| < 256
      modifies registry.Repr
      ensures Valid() && State() == old(State()) && log == old(log) && calls == old(calls)
      ensures (Names(), status) == NamespaceStore.RegisterNamespace(old(Names()), name, hasOut)
    {
      status, entry := registry.RegisterNamespace(name, hasOut);
    }

    method RegisterCommand(entry: NamespaceNode?, ghost place: nat, id: byte, handler: nat) returns (status: Status)
      requires Valid()
      requires entry != null ==> place < |registry.spine| && entry == registry.spine[place]
      modifies registry.Repr
      ensures Valid() && State() == old(State()) && log == old(log) && calls == old(calls)
      ensures (Names(), status) ==
        NamespaceStore.RegisterCommand(old(Names()), if entry == null then None else Some(place), id, handler)
    {
      status := registry.RegisterCommand(entry, place, id, handler);
    }

    /** One iteration of the loop over a chunk. */
    method Iterate(chunk: array<byte>, i: nat) returns (next: nat, failed: bool)
      requires Valid() && i < chunk.Length <= CHUNK_SIZE && chunk != buffer
      modifies this, buffer
      ensures Valid() && (buffer == old(buffer) || fresh(buffer))
      ensures Names() == old(Names()) && chunk[..] == old(chunk[..])
      ensures failed <==> old(State()).Name? && i == 0 && chunk.Length == CHUNK_SIZE
      ensures var it := CommandParser.Iterate(old(Names()), old(State()), old(chunk[..]), i);
        && State() == it.state && next == it.next && log == old(log) + it.log
        && calls == old(calls) + HandlerCalls(old(Names()), it.log)
    {
      if tag == NameTag {
        next, failed := HandleName(chunk, i);
      } else {
        HandleByte(chunk[i]);
        next, failed := i + 1, false;
      }
    }

    /** es_control_command_parser_handle_chunk. Stuck is a failed assertion, or an endless
        loop when assertions are compiled out. */
    method HandleChunk(chunk: array<byte>) returns (stuck: bool)
      requires Valid() && chunk.Length <= CHUNK_SIZE && chunk != buffer
      modifies this, buffer
      ensures Valid() && (buffer == old(buffer) || fresh(buffer))
      ensures Names() == old(Names())
      ensures var handled := CommandParser.HandleChunk(old(Names()), old(State()), old(chunk[..]));
        if stuck then handled == Stuck && State() == old(State()) && log == old(log) && calls == old(calls)
        else
          && handled.Done? && State() == handled.result.state && log == old(log) + handled.result.log
          && calls == old(calls) + HandlerCalls(old(Names()), handled.result.log)
    {
      ghost var reg, start, bytes := Names(), State(), chunk[..];
      var i := 0;
      ghost var made: seq<Dispatch> := [];
      stuck := false;
      assert bytes[0..] == bytes;
      FeedChunk(reg, start, bytes).AfterNothing();
      while i < chunk.Length
        invariant i <= chunk.Length && chunk[..] == bytes
        invariant Valid() && Names() == reg && chunk != buffer && (buffer == old(buffer) || fresh(buffer))
        invariant log == old(log) + made && calls == old(calls) + HandlerCalls(reg, made)
        invariant i == 0 ==> State() == start && made == []
        invariant i > 0 ==> !(start.Name? && chunk.Length == CHUNK_SIZE)
        invariant FeedChunk(reg, start, bytes) == FeedChunk(reg, State(), bytes[i..]).After(made)
        decreases chunk.Length - i
      {
        ghost var st := State();
        ghost var it := CommandParser.Iterate(reg, st, bytes, i);
        var next, failed := Iterate(chunk, i);
        if failed {
          IterationProgress(reg, st, bytes, i);
          stuck := true;
          return;
        }
        ChunkGoesOn(reg, start, st, bytes, i, made);
        AppendTwice(old(log), made, it.log);
        AppendTwice(old(calls), HandlerCalls(reg, made), HandlerCalls(reg, it.log));
        made, i := made + it.log, next;
      }
      assert bytes[i..] == [];
      assert FeedChunk(reg, State(), []).After(made) == Result(State(), made);
    }
  }

  /** One iteration more of the loop over a chunk, after these dispatches. */
  lemma {:induction false} ChunkGoesOn(reg: Registry, start: State, st: State, chunk: seq<byte>, i: nat,
                                       made: seq<Dispatch>)
    requires CommandParser.Valid(reg, start) && CommandParser.Valid(reg, st) && i < |chunk| <= CHUNK_SIZE
    requires !(st.Name? && i == 0 && |chunk| == CHUNK_SIZE)
    requires FeedChunk(reg, start, chunk) == FeedChunk(reg, st, chunk[i..]).After(made)
    ensures var it := CommandParser.Iterate(reg, st, chunk, i);
      && i < it.next
      && FeedChunk(reg, start, chunk) == FeedChunk(reg, it.state, chunk[it.next..]).After(made + it.log)
      && HandlerCalls(reg, made + it.log) == HandlerCalls(reg, made) + HandlerCalls(reg, it.log)
  {
    var it := CommandParser.Iterate(reg, st, chunk, i);
    IterationIsFeedChunk(reg, st, chunk, i);
    FeedChunk(reg, it.state, chunk[it.next..]).AfterTwice(made, it.log);
    HandlerCallsAppend(reg, made, it.log);
  }
}
