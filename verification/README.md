# eventlog-socket: a verified model of its two protocols

`eventlog-socket` streams the eventlog of a GHC program to one client at a time over a socket, and
can receive control commands on the same socket. This project models the two protocols at its core
in Dafny and proves what they promise. `dafny verify dfyconfig.toml` checks all of it.

## The control command protocol

A message is the magic `F0 9E 97 8C`, a version byte, a length-prefixed namespace and a command ID.
The Haskell package `eventlog-socket-control` prints messages; the control thread of the C library
parses whatever arrives, in chunks of at most 256 bytes, with a global five-state parser that copies
name bytes in bulk, resynchronises on junk and calls the handler registered for a command.

| module | content |
|---|---|
| `Bytes` | bytes and byte strings |
| `NamespaceStore` | the registry as a value: `strncmp` matching, registration, lookup, and what all sequences of registrations keep |
| `NamespaceRegistry` | the registry on the heap: a linked list of namespaces with linked lists of commands, proved against `NamespaceStore` |
| `CommandParser` | the parser as functions: one byte (`ByteStep`), one chunk with bulk copy and rescan (`FeedChunk`), one loop iteration in 8-bit arithmetic (`Iterate`) |
| `Chunking` | when the cut of a stream into chunks matters |
| `MagicMatcher` | the search for the magic in junk |
| `ControlMessages` | the guards, the serialiser and the deserialiser of the Haskell package |
| `DispatchSoundness` | every dispatch comes from a message in the stream |
| `EndToEnd` | from serialised messages, with junk between them, to dispatches |
| `MessageOutcomes` | what one message can come to under every cut, and which names can call builtin commands |
| `WireFormat` | the bytes of the protocol as its documents give them |
| `PartialStreams` | a stream of commands of which only a part has arrived |
| `ParserObject` | the parser in memory: a class with its tag, counters, buffer and handler calls, proved against `CommandParser` |

## The writer, the worker and the control thread

RTS threads offer chunks to the eventlog writer, which sends them to the client or queues them. The
worker thread accepts clients, restarts logging around the publication of a client so that each
stream starts with a header, flushes the queue and notices the end of connections. The control
thread follows the published client and feeds what it receives to the parser. They share a
descriptor, the queue and a flag byte under one mutex, and a wake pipe.

| module | content |
|---|---|
| `WriteBuffer` | the queue: a linked list on the heap, proved to be a first-in first-out list of byte strings |
| `Writer` | every critical section as a function on the shared state |
| `WriterObject` | the same as methods that update descriptor, flag byte, pipe and queue in place, proved against `Writer` |
| `System` | all interleavings: one step per critical section, blocking call or call into the RTS |
| `SystemInvariant` | the invariant of every run |
| `SystemTheorems` | what follows for every run |
| `Accounting` | what the chunks, the `write()` calls and the connections of a run come to, computed from its steps |
| `Service` | what the worker can do |
| `WitnessRuns` | runs that come to where the theorems speak of |
| `ControlThread` | the control thread and registrations by the application, beside the rest of the system |
| `ControlInvariant` | the invariant of its runs |
| `ControlTheorems` | what follows for every run |
| `ControlRuns` | what the control thread can do |

`write()` may accept any number of bytes, or fail with advice to retry, with a broken pipe, or
otherwise; its results are parameters of the steps. So are `poll`, `accept` and `recv`.

## What is assumed of the surroundings

- The RTS calls the writer only while the writer is attached, with a non-empty chunk each time.
  After attaching the writer it offers an eventlog header before any other chunk.
- Only the RTS and this library start or end event logging (PLUGINS.md:32-33, 42-43).
- The application signals that the RTS is ready only while the RTS is up, and passes the writer to
  the RTS only after `eventlog_socket_init`. Both the start from a C main and from a Haskell main
  are runs of the model, and a start with another writer attached is one too.
- The RTS shuts down once; from then on the listen step of the worker makes no progress.
- The wake pipe takes 65536 bytes; a write to it succeeds or reports that it is full.
- Nothing closes a client's descriptor before the shutdown, so that descriptors stay distinct: the
  model numbers clients in the order in which they are accepted.
- Allocation and the pthread functions succeed.
- The application may register namespaces and commands at any time, also while a chunk is handled.
  Each lookup and each registration holds the lock of the registry, so that it is one step.

## Where the code and its documentation disagree

The model follows the code. Each point is a theorem.

- control.c:872-891: on a version byte other than 0 the parser restarts but then falls through, and
  takes that byte for the length of the namespace. It does what the comments say exactly if all
  version bytes are 0 (`VersionFallThrough`, and `VersionFallThroughInChunks` for the loop over
  chunks); every dispatch still comes from a message (`DispatchesAreMessages`).
- control.c:913: in the middle of a name, the size of a full 256-byte chunk becomes 0 in 8 bits. The
  assertion that follows fails; compiled without assertions, the loop does not end
  (`IterationProgress`). This is the only such case.
- control.c:1005-1009: after an unknown name the parser rescans the name bytes of the current chunk,
  not those of earlier chunks, so the cut into chunks can matter. `ChunkingInvariance` gives the
  exact condition, and names without the byte F0 always meet it (`CleanWithoutF0`).
- control.c:343-349: names are compared over the shorter length and up to a zero byte, so that short
  names find longer ones (`MatchIsPrefixComparability`, `ShortNameFindsBuiltin`).
- control.c:483-495: the walk over the commands starts again from the head in every iteration;
  registering a third command with a new ID does not end (`RegisterCommandMeetsIntent`,
  `ThirdCommandDiverges`).
- README.md:167-171 gives the 15-byte name the length 0x15 (`ReadmeSampleIsIncomplete`).
- control.c:1005-1009 and README.md:180: unknown commands are said to be ignored. But the rescan
  finds a message that stands in an unknown name, so that it is dispatched if the cut is right
  (`EmbeddedMessageIsDispatched`). A message is handled as it asks to be under every cut exactly if
  its namespace is empty or known, or no rescan of its name makes a dispatch
  (`MessageIsDispatchedIfAnswered`); one whose namespace is empty, known or clean is
  (`CleanMessageIsHandled`).
- README.md:160 and the Haskell guards allow an empty namespace; the parser ignores such a message
  (`EmptyNamespaceIsIgnored`).
- The Haskell deserialiser has an error for unsupported versions but accepts every version
  (`GetAccepts`), and its guard on reserved namespaces does not keep user namespaces away from the
  builtin one (`ReservedNamespaceIsReachable`).
- worker.c:429: the assertion fails when the RTS shuts down between the poll and the critical
  section (`SnapshotCanBeGone`). It holds exactly while the RTS is not shut down
  (`SnapshotIsCurrentOrGone`).
- README.md:4 promises each client a header. A header whose direct write fails for good is dropped
  (`HeaderCanBeLost`). A client's stream starts with its header exactly if no direct write of it
  fails other than with advice to retry (`StreamStartsWithHeaderIfSoft`).
- eventlog_socket.c:110-111 gives an order of signals that worker.c:247 and 356-360 rule out: a
  first connection implies that the RTS is ready (`NothingBeforeReady`).

## Model

| member | source | states |
|---|---|---|
| `Chunking.ChunkingInvariance` | eventlog-socket/cbits/eventlog_socket/control.c:821-1026 | For every registry and stream: at every moment, under every admissible cut into chunks, the parser is in the state and has made the dispatches of the byte-wise parser, if and only if every unknown name that the stream completes is clean (rescanning any tail of it ends where restarting on its last byte ends) |
| `Chunking.ChunksAreBytes` | eventlog-socket/cbits/eventlog_socket/control.c:821-1026 | Any cut of a clean stream, of chunks of any size, is parsed like its bytes one by one: the bulk copy and the rescan refine the byte step |
| `Chunking.ChunkIsBytes` | eventlog-socket/cbits/eventlog_socket/control.c:899-1010 | The same for one chunk from any state |
| `Chunking.ByteChunksAreBytes` | eventlog-socket/cbits/eventlog_socket/control.c:821-1026 | Fed one byte per chunk, the parser is the byte-wise parser, on every stream |
| `Chunking.CutOutsideName` | eventlog-socket/cbits/eventlog_socket/control.c:826-1024 | A cut at which the parser is not collecting a name never matters, on any stream |
| `Chunking.UncleanNameDiverges` | eventlog-socket/cbits/eventlog_socket/control.c:972-1010 | For every unclean unknown name there is a cut into chunks of at most 255 bytes whose outcome differs from the byte-wise one |
| `Chunking.NameIsTail` | eventlog-socket/cbits/eventlog_socket/control.c:899-941 | While a name is collected, the bytes just read are the name so far, and before any part of them the parser had collected exactly the part before |
| `CommandParser.IterationProgress` | eventlog-socket/cbits/eventlog_socket/control.c:899-941 | One iteration of the loop, in 8-bit arithmetic, leaves the index where it was if and only if a 256-byte chunk is entered in the middle of a name, and then nothing changes at all; every other iteration advances, so that the loop ends |
| `CommandParser.IterationIsFeedChunk` | eventlog-socket/cbits/eventlog_socket/control.c:826-1024 | Every other iteration is one unfolding of the chunk specification over unbounded integers: no 8-bit variable wraps |
| `CommandParser.AdmissibleIsDone` | eventlog-socket/cbits/eventlog_socket/control.c:821-1026 | Chunks of at most 256 bytes, and of fewer in the middle of a name, are all handled to their end |
| `CommandParser.SmallChunksAreAdmissible` | eventlog-socket/cbits/eventlog_socket/control.c:913-941 | Chunks of at most 255 bytes never get the loop stuck |
| `CommandParser.FeedBytesCompletesName` | eventlog-socket/cbits/eventlog_socket/control.c:943-1010 | Completing a name leads to the ID state of the entry it resolves to, or to a restart on its last byte |
| `MagicMatcher.PartialMatchSnoc` | eventlog-socket/cbits/eventlog_socket/control.c:71-76 | The magic has no proper border: after a mismatch only the current byte can begin a new match |
| `MagicMatcher.ScanJunk` | eventlog-socket/cbits/eventlog_socket/control.c:831-861 | On magic-free input the header position is the length of the longest suffix that is a proper prefix of the magic |
| `MagicMatcher.FirstMagicIsFound` | eventlog-socket/cbits/eventlog_socket/control.c:831-861 | The header state is left on a byte if and only if the first occurrence of the magic ends there |
| `MagicMatcher.JunkThenMagic` | eventlog-socket/cbits/eventlog_socket/control.c:853-860 | However the junk ends, even in part of the magic, the magic after it is found |
| `MagicMatcher.CleanWithoutMagic` | eventlog-socket/cbits/eventlog_socket/control.c:972-1010 | A magic-free name is clean if and only if it does not end in F0 9E or in F0 9E 97 |
| `MagicMatcher.CleanWithoutF0` | eventlog-socket/cbits/eventlog_socket/control.c:972-1010 | A name without the byte F0 is clean |
| `WireFormat.OnlyCodePointIsMagic` | eventlog-socket/cbits/eventlog_socket/control.c:44-76 | Four bytes take the parser from its initial state to the version state, in one chunk or byte by byte, if and only if they are the UTF-8 encoding of U+1E5CC, computed as RFC 3629 has it |
| `WireFormat.PutInBytes` | eventlog-socket-control/src/GHC/Eventlog/Socket/Control.hs:80-98 | A serialised message starts with that encoding, then a byte 0, the length of the name, the name and the ID |
| `WireFormat.BuiltinCommandsRun` | eventlog-socket/cbits/eventlog_socket/control.c:78-94 | In every well-formed registry and under every admissible cut, the message for the text "eventlog-socket" is dispatched there, and IDs 1 to 5 and no others run a handler, each its own |
| `DispatchSoundness.DispatchesAreMessages` | eventlog-socket/cbits/eventlog_socket/control.c:826-1024 | For every list of chunks: every dispatch has its own span of the stream that is a message for it (magic, version and length, that many name bytes that resolve to the namespace, the ID); the spans are disjoint and in stream order, although unknown names are partly read twice |
| `DispatchSoundness.VersionZeroMessageIsPut` | eventlog-socket-control/src/GHC/Eventlog/Socket/Control.hs:357-363 | If the byte after the magic is 0, the message at that span is the serialised form of a name that resolves to the namespace, and of the ID |
| `DispatchSoundness.VersionFallThrough` | eventlog-socket/cbits/eventlog_socket/control.c:863-891 | Byte by byte, from any state, the parser agrees at every moment with the one that restarts on a foreign version byte if and only if every version byte it reads is 0 |
| `DispatchSoundness.VersionFallThroughInChunks` | eventlog-socket/cbits/eventlog_socket/control.c:821-1026 | The loop over the chunks does what the comments describe, at every moment and under every admissible cut, if and only if every version byte it reads is 0 and every unknown name is clean |
| `MessageOutcomes.ReservedNamespaceIsReachable` | eventlog-socket-control/src/GHC/Eventlog/Socket/Control.hs:225-288 | The guard does not reserve the builtin namespace. For every well-formed registry: of the names it accepts, exactly the proper prefixes and the proper extensions of the builtin name resolve to it; and some admissible cut of a message makes it call a builtin command if and only if its name is a non-empty one of these, or is unknown and a rescan of its bytes calls one |
| `MessageOutcomes.EmbeddedMessageIsDispatched` | eventlog-socket/cbits/eventlog_socket/control.c:972-1010 | The input that shows the second case: a name that is accepted, unknown and no spelling of the builtin name, whose message runs a builtin command when it arrives in one chunk |
| `MessageOutcomes.MessageIsDispatchedIfAnswered` | eventlog-socket/cbits/eventlog_socket/control.c:821-1026 | For every message that the package can send: under every admissible cut it makes one dispatch if its namespace is not empty and resolves, and none otherwise, if and only if it is empty or resolves or no rescan of its name makes a dispatch |
| `MessageOutcomes.MessageCutsDoNotMatter` | eventlog-socket/cbits/eventlog_socket/control.c:899-1010 | How a message is cut does not matter if and only if its namespace is empty, known or clean |
| `MessageOutcomes.CleanMessageIsHandled` | eventlog-socket/cbits/eventlog_socket/control.c:821-1026 | Such a message comes to the same under every admissible cut: the dispatch it asks for, if it is answered, and the header position of its leftover |
| `MessageOutcomes.UnknownMessageIsRescanned` | eventlog-socket/cbits/eventlog_socket/control.c:972-1010 | Under any admissible cut, a message with an unknown name comes to a rescan of the name bytes of the last chunk, as junk |
| `MessageOutcomes.CutIsPossible` | eventlog-socket/cbits/eventlog_socket/control.c:972-1010 | Each of these rescans is what some admissible cut comes to |
| `EndToEnd.ByteWiseDispatch` | eventlog-socket-control/src/GHC/Eventlog/Socket/Control.hs:357-363 | Byte by byte, from any header position: a message is dispatched if and only if its namespace is not empty and resolves |
| `ControlMessages.GetPut` | eventlog-socket-control/src/GHC/Eventlog/Socket/Control.hs:185-208 | Deserialising a serialised message returns it and leaves exactly the bytes after it, for every version byte |
| `ControlMessages.GetAccepts` | eventlog-socket-control/src/GHC/Eventlog/Socket/Control.hs:357-374 | The deserialiser accepts exactly the serialised messages under any version byte |
| `ControlMessages.PutIsPrefixCode` | eventlog-socket-control/src/GHC/Eventlog/Socket/Control.hs:357-363 | No message is a proper prefix of another |
| `EndToEnd.StreamIsDispatched` | eventlog-socket/cbits/eventlog_socket/control.c:821-1026 | Any serialised messages, for known, unknown (clean) and empty namespaces, with magic-free junk between them, under any admissible cut: exactly the dispatches asked for, in order, and the header position at the end |
| `EndToEnd.RoundTrip` | eventlog-socket-control/src/GHC/Eventlog/Socket/Control.hs:357-363 | For every well-formed registry, every list of commands for its entries under their registered names, magic-free junk between them and any admissible cut: one dispatch per command, in order, and the initial state at the end if no junk trails |
| `EndToEnd.CallsAreRequested` | eventlog-socket/cbits/eventlog_socket/control.c:550-589 | The messages of such a list resolve to the entries they were made for |
| `EndToEnd.UnknownMessageHidesNothing` | eventlog-socket/cbits/eventlog_socket/control.c:972-1010 | A message with an empty name, or an unknown one that is clean or has no byte F0, hides and alters nothing wherever it stands, under any ID and any cut: the dispatches are those of the messages before it and after it |
| `EndToEnd.UnknownMessageLeavesNoTrace` | eventlog-socket/cbits/eventlog_socket/control.c:972-1010 | If another message follows it directly, nothing is asked of the stream: dispatches and final state are as if it had not been there |
| `EndToEnd.EmptyNamespaceIsIgnored` | eventlog-socket/cbits/eventlog_socket/control.c:880-891 | The empty namespace passes the guards of the Haskell package; of its message the parser keeps only whether the ID may begin a magic |
| `EndToEnd.ReadmeSampleIsIncomplete` | README.md:165-171 | The documented sample messages, with length 0x15, dispatch nothing: five more name bytes are awaited |
| `NamespaceStore.MatchIsPrefixComparability` | eventlog-socket/cbits/eventlog_socket/control.c:334-350 | For all names, with or without zero bytes: a query matches an entry if and only if the strncpy copy of one is a prefix of the strncpy copy of the other |
| `NamespaceStore.NamesArePrefixFree` | eventlog-socket/cbits/eventlog_socket/control.c:359-431 | In a well-formed registry, no name is a prefix of another |
| `NamespaceStore.MatchOfCopy` | eventlog-socket/cbits/eventlog_socket/control.c:401-408 | A name and its strncpy copy match the same names |
| `NamespaceStore.Resolve` | eventlog-socket/cbits/eventlog_socket/control.c:550-589 | The result is the first entry that matches, or none if no entry does |
| `NamespaceStore.ReachableRegistry` | eventlog-socket/cbits/eventlog_socket/control.c:359-517 | Every sequence of registrations keeps the registry prefix-free, with names of 1 to 255 bytes and at most two commands with different IDs per user namespace, and only extends it |
| `NamespaceStore.LookupsAreStable` | eventlog-socket/cbits/eventlog_socket/control.c:550-589 | No later registration changes a successful lookup |
| `NamespaceStore.AtMostOnePrefix` | eventlog-socket/cbits/eventlog_socket/control.c:334-350 | At most one registered name is a prefix of a query |
| `NamespaceStore.ResolveOwnName` | eventlog-socket/cbits/eventlog_socket/control.c:550-589 | A registered name resolves to its own entry |
| `NamespaceStore.RegisterThenResolve` | eventlog-socket/cbits/eventlog_socket/control.c:359-431 | A name is accepted if and only if no lookup finds it, and from then on it finds the new entry; otherwise nothing changes |
| `NamespaceStore.RegisterNamespaceAppends` | eventlog-socket/cbits/eventlog_socket/control.c:359-431 | A registration fails as invalid exactly without an out-parameter and as existing exactly if some entry matches; otherwise it appends the copy of the name, without commands |
| `NamespaceStore.ShortNameFindsBuiltin` | eventlog-socket/cbits/eventlog_socket/control.c:343-349 | The name "e" resolves to the builtin namespace and cannot be registered |
| `NamespaceStore.ResolveIsExactOnlyByLength` | eventlog-socket/cbits/eventlog_socket/control.c:343-349 | As far as strncpy copies names, what a query finds is a shorter or a longer spelling of it, and is the queried name if and only if the lengths agree |
| `NamespaceStore.RegisterCommandMeetsIntent` | eventlog-socket/cbits/eventlog_socket/control.c:481-506 | Registering a command does what the comments describe if and only if there are fewer than two commands or the first has the requested ID |
| `NamespaceStore.RegisterCommandThenHandler` | eventlog-socket/cbits/eventlog_socket/control.c:434-517 | When each status of a registration is given; with success the command has its handler from then on and nothing else changes, otherwise nothing changes at all |
| `NamespaceStore.ThirdCommandDiverges` | eventlog-socket/cbits/eventlog_socket/control.c:481-506 | A run from the initial registry that registers a namespace and two commands, after which the registration of a third does not end |
| `NamespaceStore.HandlersAreStable` | eventlog-socket/cbits/eventlog_socket/control.c:592-636 | A command that has a handler keeps it under later registrations |
| `NamespaceRegistry.RegistryObject.constructor` | eventlog-socket/cbits/eventlog_socket/control.c:214-256 | The linked registry starts with the builtin namespace and its five commands |
| `NamespaceRegistry.RegistryObject.Resolve` | eventlog-socket/cbits/eventlog_socket/control.c:550-589 | The walk over the linked entries finds the first match of the registry as a value |
| `NamespaceRegistry.RegistryObject.RegisterNamespace` | eventlog-socket/cbits/eventlog_socket/control.c:359-431 | The walk and the append in place have the status and the new registry of the specification, and keep the list well linked; entries are only appended |
| `NamespaceRegistry.RegistryObject.RegisterCommand` | eventlog-socket/cbits/eventlog_socket/control.c:434-517 | The same for commands: status and new registry of the specification, including where the loop does not end |
| `NamespaceRegistry.RegistryObject.FindHandler` | eventlog-socket/cbits/eventlog_socket/control.c:606-624 | The walk over the linked commands finds the handler of the first command with the ID |
| `ParserObject.ControlParser.EnterName` | eventlog-socket/cbits/eventlog_socket/control.c:795-808 | Entering the namespace state allocates a zero-terminated buffer for a name of the given length, with nothing read |
| `ParserObject.ControlParser.HandleByte` | eventlog-socket/cbits/eventlog_socket/control.c:831-898 | In the other states, the update in place is the byte step, fall-through included |
| `ParserObject.ControlParser.HandleName` | eventlog-socket/cbits/eventlog_socket/control.c:899-1011 | In the namespace state, the bulk copy, the lookup and the move of the index are the 8-bit iteration; it fails its assertion if and only if a 256-byte chunk is entered there |
| `ParserObject.ControlParser.CommandHandle` | eventlog-socket/cbits/eventlog_socket/control.c:592-636 | The handler of the command is called if the registry of that moment has one; an unknown ID is ignored |
| `ParserObject.ControlParser.HandleChunk` | eventlog-socket/cbits/eventlog_socket/control.c:821-1026 | The loop over the chunk ends with the state and the dispatches of the chunk specification and with the handler calls that these come to, or is stuck exactly where that is stuck, with nothing changed |
| `ParserObject.ControlParser.RegisterNamespace` | eventlog-socket/cbits/eventlog_socket/control.c:359-431 | A namespace can be registered in every state of the parser, which stays as it is and goes on under the new registry |
| `ParserObject.ControlParser.RegisterCommand` | eventlog-socket/cbits/eventlog_socket/control.c:434-517 | So can a command, also one that a client asked for before |
| `WriteBuffer.Buffer.Push` | eventlog-socket/cbits/eventlog_socket/write_buffer.c:7-28 | The contents grow by the bytes copied, at the end; head, last, linkage and suffixes stay well formed |
| `WriteBuffer.Buffer.Pop` | eventlog-socket/cbits/eventlog_socket/write_buffer.c:30-43 | The first byte string is removed; an empty queue stays empty |
| `WriteBuffer.Buffer.Free` | eventlog-socket/cbits/eventlog_socket/write_buffer.c:45-51 | The draining loop ends with an empty queue |
| `WriteBuffer.Buffer.Consume` | eventlog-socket/cbits/eventlog_socket/worker.c:466-469 | Moving data and size in place drops that many bytes from the first byte string, and keeps every item a non-empty suffix of its allocation |
| `Writer.WriteConserves` | eventlog-socket/cbits/eventlog_socket.c:140-221 | What the socket accepted and then the queue are the old queue, followed by the whole chunk or by nothing of it; queued items stay non-empty |
| `Writer.WriteIsAccounted` | eventlog-socket/cbits/eventlog_socket.c:140-221 | A chunk is dropped if and only if nothing is queued and either there is no client any more or its write() fails for good; the socket accepts the bytes that the result of write() says, the rest of a kept chunk is queued last, and a byte goes to the wake pipe exactly when the queue stops being empty, if the pipe exists and is not full |
| `Writer.FlushSendsPrefix` | eventlog-socket/cbits/eventlog_socket/worker.c:436-474 | The flush sends exactly a prefix of the flattened queue and leaves the rest queued, or ends the connection with an empty queue |
| `Writer.FlushIsAccounted` | eventlog-socket/cbits/eventlog_socket/worker.c:436-474 | A flush sends what its write() calls accept, one call for each item in turn; it keeps the rest of the last item and those after it, and ends the connection if and only if the last call finds a broken pipe |
| `Writer.FlushStopsAtFirstShort` | eventlog-socket/cbits/eventlog_socket/worker.c:462-470 | These calls go on exactly as long as each item is accepted whole |
| `WriterObject.EventlogSocket.WorkerInit` | eventlog-socket/cbits/eventlog_socket/worker.c:724-745 | The initialisation sets its flag and changes nothing else, once or more often |
| `WriterObject.EventlogSocket.WorkerWakeDrain` | eventlog-socket/cbits/eventlog_socket/worker.c:144-166 | Whatever other threads write to the pipe between its reads: the loop ends, with the first read that finds nothing, leaves an empty pipe and changes nothing else |
| `WriterObject.EventlogSocket.WriterEnqueue` | eventlog-socket/cbits/eventlog_socket.c:126-138 | The update in place is the specification: one item more, and a byte in the wake pipe exactly on the push into an empty queue, if the pipe exists and is not full |
| `WriterObject.EventlogSocket.WriterWrite` | eventlog-socket/cbits/eventlog_socket.c:140-221 | The update in place, the bytes sent and the fate of the chunk are those of the specification, which is the one that WriteIsAccounted is about |
| `WriterObject.EventlogSocket.WriterStop` | eventlog-socket/cbits/eventlog_socket.c:227-241 | The update in place is the specification, and the descriptor closed is the connected one |
| `WriterObject.EventlogSocket.SignalGhcRtsReady` | eventlog-socket/cbits/eventlog_socket.c:337-362 | The flag byte after it is the specification; the hooks run exactly if the writer was attached and the RTS not yet ready |
| `WriterObject.EventlogSocket.WorkerFlush` | eventlog-socket/cbits/eventlog_socket/worker.c:436-474 | The loop over the linked queue, with its partial writes and pops in place, ends with the state and the bytes sent of the specification that FlushIsAccounted is about |
| `SystemInvariant.StepKeeps` | eventlog-socket/cbits/eventlog_socket/worker.c:184-495 | Every step of the RTS, the application and the worker keeps the invariant that the theorems below rest on |
| `SystemTheorems.StreamIsConserved` | eventlog-socket/cbits/eventlog_socket.c:140-221 | In every reachable state, what the current client's socket accepted and then the queue are the chunks kept, whole and in order; every earlier client received a prefix of the chunks kept for it |
| `SystemTheorems.LogIsLosslessBeforeFirstClient` | eventlog-socket/cbits/eventlog_socket.c:155-164 | Until the first publication, the queue is every byte offered so far |
| `Accounting.EveryChunkIsOnRecord` | eventlog-socket/cbits/eventlog_socket.c:140-221 | In every run, the chunks of all sessions, one after the other, are exactly the chunks that the steps offer |
| `Accounting.LogIsLosslessInRun` | eventlog-socket/cbits/eventlog_socket.c:155-164 | So until the first publication, the queue is every byte of every chunk of the steps |
| `Accounting.SessionIsAccounted` | eventlog-socket/cbits/eventlog_socket.c:140-221 | In every run, for every client: the chunks of its session are those that the steps offer in its turn, each kept if and only if it was not lost, and what its socket accepted is what the results of its write() calls say |
| `Accounting.ClientReceives` | eventlog-socket/cbits/eventlog_socket/worker.c:436-474 | So a client receives a prefix of the chunks that were not lost in its turn, and for the current client the rest of them is queued |
| `Accounting.ConnectionEnds` | eventlog-socket/cbits/eventlog_socket/worker.c:394-450 | In every reachable state with a client: a step ends the connection if and only if it is the critical section after a hang-up, a flush whose last write() finds a broken pipe, or the shutdown with the writer attached; then there is no client and no queue, and the session is over with the bytes it had |
| `Accounting.HangupEndsConnection` | eventlog-socket/cbits/eventlog_socket/worker.c:394-400 | Before the shutdown, that critical section leaves no client and an empty queue, closes the session unchanged, and the worker goes on |
| `Accounting.RestartIsDecided` | eventlog-socket/cbits/eventlog_socket/worker.c:291-313 | In every reachable state: logging is stopped for a client if and only if another writer is running, or ours and this is not the first client, with the pre-end hook in the second case only; it is started if and only if it was stopped or not running |
| `Accounting.DrainEnds` | eventlog-socket/cbits/eventlog_socket/worker.c:144-166 | From every reachable state in which the worker drains the pipe, reads alone lead it on, with an empty pipe |
| `Service.WorkerCanGoOn` | eventlog-socket/cbits/eventlog_socket/worker.c:184-495 | Before the shutdown, the worker can take a step in every reachable state, unless it waits for the RTS to become ready or has exited |
| `Service.WorkerExits` | eventlog-socket/cbits/eventlog_socket/worker.c:221-234 | The worker exits in a failed accept and in no other way, and then takes no step |
| `Service.QueueCanBeSent` | eventlog-socket/cbits/eventlog_socket/worker.c:436-474 | From every reachable state with a client and a queue at the top of its loop, the worker can come to send the whole queue |
| `Service.WaitingWorkerServes` | eventlog-socket/cbits/eventlog_socket/worker.c:366-392 | So it can from every reachable state before the shutdown in which it waits for data while there is some, woken by the pipe |
| `WitnessRuns.SecondClientReceivesHeader` | eventlog-socket/cbits/eventlog_socket/worker.c:296-361 | A run in which a first client receives its header and hangs up, and a second one connects and receives its own |
| `WitnessRuns.LoggedHeaderIsReceived` | PLUGINS.md:27-29 | A run from a C main in which the first client receives the header logged before it connected, without a restart |
| `WitnessRuns.OtherWriterIsStopped` | eventlog-socket/cbits/eventlog_socket/worker.c:296-326 | A run in which another writer is stopped for the first client, without hooks |
| `SystemTheorems.NoStaleBytes` | eventlog-socket/cbits/eventlog_socket/worker.c:328-335 | After the first connection, no client means an empty queue; every later client receives only bytes offered after its own publication |
| `SystemTheorems.HeaderComesFirst` | eventlog-socket/cbits/eventlog_socket/worker.c:296-352 | In every reachable state, the stream of every client, as far as it is not empty, starts with an eventlog header if and only if the writer kept its header |
| `SystemTheorems.HeaderIsKeptIfSoft` | eventlog-socket/cbits/eventlog_socket.c:173-216 | In every run, for every client: the header is kept if and only if no direct write of a header for that client fails other than with advice to retry |
| `SystemTheorems.HeadersAreKeptIfSoft` | eventlog-socket/cbits/eventlog_socket.c:173-216 | In every run: every header is kept if and only if no direct write of a header fails for good |
| `SystemTheorems.StreamStartsWithHeaderIfSoft` | README.md:3-4 | In every run, for every client: what it received begins with its header, or is a beginning of it, if and only if nothing was received or no direct write of a header for that client failed for good |
| `SystemTheorems.EveryStreamStartsWithHeader` | README.md:3-4 | So in a run in which no direct write of a header fails for good, whatever any client received begins with the header, or is a beginning of it |
| `SystemTheorems.HeaderCanBeLost` | eventlog-socket/cbits/eventlog_socket.c:202-215 | That condition is needed: a run in which the header write fails otherwise and the client's stream starts without its header |
| `SystemTheorems.NoLostWakeUp` | eventlog-socket/cbits/eventlog_socket/worker.c:366-392 | Whenever the worker waits for no data and the queue is not empty, the wake pipe holds a byte and the poll can return |
| `SystemTheorems.SnapshotIsCurrentOrGone` | eventlog-socket/cbits/eventlog_socket/worker.c:424-449 | Where the worker relies on its snapshot, the shared descriptor is that client if and only if the RTS has not shut down, and otherwise there is none |
| `SystemTheorems.SnapshotCanBeGone` | eventlog-socket/cbits/eventlog_socket/worker.c:429-429 | A run in which the assertion of the source, that it is still that client, does not hold |
| `SystemTheorems.RestartIsHarmless` | eventlog-socket/cbits/eventlog_socket/worker.c:315-335 | The worker's own end of logging finds no client and, if the writer is ours, an empty queue; all it changes in the shared state is the attachment flag |
| `SystemTheorems.HookTrace` | PLUGINS.md:23-40 | In every run, attachments, post-start hooks, pre-end hooks and detachments follow each other in this cycle; the hooks alone are a prefix of Post (Pre Post)* |
| `SystemTheorems.NothingBeforeReady` | eventlog-socket/cbits/eventlog_socket/worker.c:246-361 | The worker runs no hook and starts or ends no logging before the RTS is ready; a client or an earlier connection implies readiness |
| `SystemTheorems.FlagsNeverClear` | eventlog-socket/cbits/eventlog_socket/worker.c:354-360 | In every run, INITIALIZED, RTS_READY and HAD_FIRST_CONNECTION never clear |
| `ControlTheorems.HistoryIsOfSteps` | eventlog-socket/cbits/eventlog_socket/control.c:1248-1285 | In every run, for every client: the chunks on record are exactly those that the steps receive while the thread follows it, and the registries on record are those that the registrations of the steps come to at each iteration |
| `ControlTheorems.RegistryIsOfSteps` | eventlog-socket/cbits/eventlog_socket/control.c:359-517 | In every run, the registry is what the registrations of the steps come to |
| `ControlTheorems.SystemRunsBeside` | eventlog-socket/cbits/eventlog_socket/control.c:1095-1290 | In every run, the rest of the system has run its own steps |
| `ControlTheorems.FollowsTheClient` | eventlog-socket/cbits/eventlog_socket/control.c:1112-1201 | When it wakes up, the thread follows the client of the moment or waits if there is none, and starts the parser afresh exactly if that is another one |
| `ControlRuns.FinishChunk` | eventlog-socket/cbits/eventlog_socket/control.c:826-1024 | In every run in which the thread is in a chunk and not stuck, iterations alone lead to the end of the chunk |
| `ControlRuns.NoClientIsIgnored` | eventlog-socket/cbits/eventlog_socket/control.c:1095-1290 | Every run with a client connected, in which the thread has not ended and is not stuck, can go on so that any chunks of up to 255 bytes from that client are received and handled to the end |
| `ControlRuns.EveryStreamIsHandled` | eventlog-socket/cbits/eventlog_socket/control.c:821-1026 | For every reachable state of the system with a client, any registrations and any chunks of up to 255 bytes: there is a run in which the client sends them, with the dispatches and the handler calls of the chunk specification |
| `ControlRuns.BuiltinCommandRuns` | eventlog-socket/cbits/eventlog_socket/control.c:78-94 | A run in which a client sends the message for a builtin command, it is dispatched, and its handler runs |
| `ControlTheorems.CommandsDoNotStraddle` | eventlog-socket/cbits/eventlog_socket/control.c:1095-1290 | In every run, with registrations between any two iterations of the loop over a chunk: the parser state is the parse, from a fresh start, of exactly the chunks that the steps receive from the current client, and the dispatches for each client are those of its own chunks |
| `ControlTheorems.DispatchesIfLookupsAgree` | eventlog-socket/cbits/eventlog_socket/control.c:821-1026 | In every run, whenever no chunk is in progress, for every client: if its lookups had the results that they have in some registry, its dispatches and the parser state are those of the chunk specification under that registry, run on the chunks that the steps receive from it |
| `ControlTheorems.DispatchesUnderOneRegistry` | eventlog-socket/cbits/eventlog_socket/control.c:821-1026 | In particular for a client whose chunks were handled under one registry; the handlers that ran are then those which that registry has |
| `ControlTheorems.RoundTripInRun` | eventlog-socket-control/src/GHC/Eventlog/Socket/Control.hs:357-363 | In every run, with registrations at any time: if a client has sent the first n bytes of a stream of commands for registered namespaces, with junk, and none of its lookups came before the registration it needed, its dispatches are exactly the commands that are complete in these n bytes, in order |
| `PartialStreams.PrefixInChunksIsDispatched` | eventlog-socket/cbits/eventlog_socket/control.c:821-1026 | Any cut of the first n bytes of such a stream: exactly the commands that are complete in them are dispatched |
| `ControlTheorems.HandlersThatRun` | eventlog-socket/cbits/eventlog_socket/control.c:592-636 | In every run, the handlers that ran for a client are those that its own bytes call for, in order, each looked up in the registry of its own moment |
| `ControlTheorems.HandlersArePermanent` | eventlog-socket/cbits/eventlog_socket/control.c:434-517 | In every run, a handler that ran is the one registered for its command ever after |
| `ControlTheorems.HandlersIfPrompt` | eventlog-socket/cbits/eventlog_socket/control.c:592-636 | If no dispatch came before the registration of its command, the handlers that ran for a client are those that the registry of now has for its dispatches |
| `ControlTheorems.NoMissedClient` | eventlog-socket/cbits/eventlog_socket/control.c:1078-1164 | In every run, while the thread waits for a connection and has not been signalled, there is none: no publication is missed |
| `ControlTheorems.DispatchesStandInOneConnection` | eventlog-socket/cbits/eventlog_socket/control.c:1035-1044 | In every run, with registrations at any time: every command dispatched for a client stands as one message in that client's own bytes, its name resolving to the namespace of the dispatch in the registry of now; the messages are disjoint and in order |
| `ControlTheorems.NoCommandBeforeReady` | eventlog-socket/cbits/eventlog_socket/control.c:1047-1076 | In every run, no command is handled before the RTS is ready |
| `ControlInvariant.OtherStep` | eventlog-socket/cbits/eventlog_socket/control.c:1120-1193 | A descriptor that the control thread finds changed was never published before: clients only advance |
| `ControlInvariant.StepKeeps` | eventlog-socket/cbits/eventlog_socket/control.c:1035-1290 | Every step of the control thread, of the application that registers, and of the rest of the system keeps the invariant that the theorems about the control thread rest on |

Several rows name methods of classes: their contracts tie the new state to a function of the old
one, and the rows about that function say what it guarantees.

## Left out

- Socket creation, binding, options, `fcntl`, address lookup, unlinking, exit handlers and thread
  cancellation: operating-system plumbing without state of the protocols.
- The internals of the RTS: only the environment described above is modelled.
- `hooks.c`: running the hooks is an event of the trace; the list of hooks is not modelled.
- What handlers do: a handler is a token, and calling it is an entry in a log.
- `eventlog_socket_wait`, `eventlog_socket_from_env`, the status functions, error strings and the
  Haskell FFI layer: thin wrappers over what is modelled.
- `writer_flush`: it does nothing.
- Fairness: that a thread goes on is not claimed, only that it can (`Service`, `ControlRuns`). In
  particular hooks run under the mutex in `eventlog_socket_signal_ghc_rts_ready`, and
  `startEventLogging` is retried without a limit.
- Failures of allocation and of pthread functions.
- UTF-8: namespaces are given by their bytes, so that the text of a namespace and its decoding are
  not modelled.
- The union in the parser state (control.c:705-726): the fields of different states are separate
  variables. The parser only reads the fields of its current state.
- Freeing memory: nodes and buffers that the source frees are only unlinked.
- NamespaceRegistry.RegistryObject.RegisterCommand: returns the status `Diverges` where the loop of
  the source does not end.
- ParserObject.ControlParser.HandleChunk: returns `stuck` where the source fails an assertion or,
  without assertions, does not end.
- WriterObject.EventlogSocket.WriterWrite: the result of `write()` is a parameter, and the bytes
  sent are a ghost result, which `Writer.WriteIsAccounted` ties to that parameter.
- SystemTheorems.EveryStreamStartsWithHeader: that each header is offered as one chunk is an
  assumption about the RTS; a client that leaves early may have received only the beginning of it.
- ControlTheorems.CommandsDoNotStraddle: a 256-byte chunk received in the middle of a name stays in
  progress for ever in the model, as in a build without assertions; a registration that does not end
  is one that changes nothing, although in the source it keeps the lock of the registry.
- Reuse of descriptor numbers after the shutdown has closed a client.
