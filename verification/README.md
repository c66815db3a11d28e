# Messaging, INI files and the event loop's slot table

A model, with proofs, of three parts of the repository that are state machines or parsers.

**Framed messages and request/reply sessions.** A connection's bytes arrive in arbitrary reads, are kept in one
receive buffer, are cut into length-prefixed frames, and each frame runs the handler of its payload type. On top of
that, a client opens a session per request, a server answers each request when its own timer expires, and the reply
finds its session by id and magic, runs its callback once and gives the id back.

- `Frames` – the wire format, cutting a buffer into frames, and reads.
- `Messages` – the make_msg encoders and the send object that is filled in place.
- `Dispatch` – the handler table, the receive loop, and the same loop driven by the shared header check.
- `RxBuffer` – the receive buffer of a connection, updated in place, and a whole connection of reads.
- `LiteralRun` – a whole connection with the listener's base as it is written.
- `Sessions`, `SessionTable` – the session module as functions on its state, and as a class that updates that state.
- `History` – all runs of the session module: openings and replies in any order, duplicated, late or made up, with
  callbacks that open sessions themselves.
- `Exchange`, `Peers` – the two-node exchange of requests, timers and replies as a transition system, and the two
  programs that take its steps.
- `Streams` – the same exchange over byte streams: each side keeps the bytes of an incomplete frame, and a read
  delivers any number of bytes. It is shown to refine `Exchange`, and to drain.
- `Programs` – client and server as they run, with their buffers, handlers and tables: they take the steps of `Streams`.

**INI files.** `IniText` has the scanning functions, `CText` text in fixed buffers, `IniGrammar` is a pure reading of a
file (lines, handler calls, error line), `IniLines` says what a file means as a relation on its characters and proves that
the grammar computes exactly that, `IniParser` is the parser on fixed buffers that overwrites characters in place and is
proved to compute that reading, `IniShape` says what a parse can report, `IniDump` is the printer, `IniReadBack`,
`IniRoundTrip` and `IniExact` show exactly which calls survive printing and parsing, and `IniReader` is the
case-insensitive reader.

**The event loop's slot table.** `SlotTable` has the 64-slot table, the kernel's registrations, adding with rollback,
deleting and dispatch.

`Basics` holds shared vocabulary. Code that works in place is a class or a method over arrays, and its `ensures` ties
the result to a function (`Parse`, `Calls`, `Step`, `Meaning`, `Printed`, `Lookup`, `Run`), about which the lemmas
then state what the code is for.

## Decisions

- **Header.** A packet header is 32 bytes (an LP64 machine, little endian): five 32-bit fields, four bytes of padding
  and a 64-bit timestamp. Padding and timestamp are arbitrary bytes of a message (`trailer`), which no sender sets.
- **Buffer base.** The comments at libcmn2/appcommon.cpp:289-297 and the copy behind them count from the start of the
  receive buffer, but the listener is handed the address of the space offered for the read. `ReadData` takes that
  address as the parameter `base`, and the memory behind the buffer, into which the listener may then look, as
  `beyond`. `LiteralBaseExactly` says for which reads the base as written (`asWritten`) is right: exactly when nothing was
  kept from the read before, or less than a header has arrived. `LiteralRunExactly` says it for read sizes: exactly when
  nothing arrives before the last read, or less than a header in all. `OnRead` and `ServeReads` cover the intended base
  always, and the base as written where it is right. `Streams` and `Programs` use the intended base.
- **Overlap.** The copy that moves unconsumed bytes to the front is an ascending byte loop.
- **Payload types.** The handler table has MT_MAX entries but is indexed up to MT_MAX (appcmn1/pbcommon.cpp:31 and 38).
  Type MT_MAX is treated as one nobody can register.
- **Magic 0** marks an entry as invalidated, but a reply that carries it still matches such an entry, and a session may
  be opened with it. At most once holds in a run exactly if no reply finds the entry of an id that is not in use
  (`Answerable`, `AtMostOnceExactly`), whatever the magics; nonzero magics ensure that (`AtMostOnce`), and
  `ZeroMagicFiresTwice` is a run without it. That ids in use are exactly those with a nonzero stored magic holds, with
  the rest of the invariant, exactly if sessions are opened with nonzero magics and replies that find an entry carry one
  (`RunIsLiveExactly`). Over lossless channels replies are answerable anyway, so the exchange needs no assumption on
  magics.
- **Session table.** It has 1000 entries and is indexed without a check. `SidFitsExactly` and `OpenEnabledExactly`
  say when that is safe. Replies that name an id outside the table, or arrive before the first session was opened, have
  no defined meaning in the source and are excluded (`Enabled`, `inited`).
- **Sends.** A sent message is a copy taken when it is sent.
- **Random numbers** are parameters, timers expire in any order, and payloads are opaque bytes.
- **Handlers of a parse** are predicates on the calls made so far, so they may keep state. The build options of the
  parser are parameters: `Config` for continuation lines and the byte-order mark, and `stop` for stopping at the first
  error. INI text has no NUL character; libutils1/ini.c is the same file as inih/ini.c.
- **The kernel** refuses a descriptor that is negative or already registered, and may refuse any other for reasons of its
  own (`accepts`). Descriptors stay open while they are registered.
- **Descriptor 0** marks a free slot, but adding it is not refused. `Do` and `Run` follow the code also from then on.
  Table and kernel agree after a run if and only if no add took descriptor 0 (`ZeroFree`: each accepted add of it found
  the table full), and under this condition, which a caller meets by never adding descriptor 0, they hold exactly what was
  added and not deleted. `ZeroMisdirected` and `Overfull` show what happens otherwise.
- **A name with '='** cannot always be looked up, although the reader's interface does not exclude it:
  `LookupExactly` says when.
- **Empty names.** The parser accepts a pair without a name, and the printer prints it with a blank in front. Where lines
  may continue values, such a line behind another pair of its section is read as a continuation (`EmptyNameLost`).

## Model

| member | source | states |
|---|---|---|
| Frames.ParseSound | appcmn1/pbcommon.cpp:46-106 | Without a bad header the frames cut off followed by the kept tail are exactly the input, and the tail holds no complete frame |
| Frames.ParseSoundBad | appcmn1/pbcommon.cpp:59-65 | A bad header drops everything from it on and nothing before it |
| Frames.ParseComplete | appcmn1/pbcommon.cpp:46-106 | Any way of writing a buffer as frames and an incomplete or bad tail is the one the receive loop finds |
| Frames.ParseAppend | libcmn2/appcommon.cpp:278-303 | Cutting a longer buffer is cutting its front and going on from the tail that was kept |
| Frames.ChunkingDoesNotMatter | libcmn2/appcommon.cpp:251-309 | For every stream without a bad header and every way of splitting it into reads, frames and final tail are those of the whole stream |
| Frames.ChunkingUpToBadHeader | appcmn1/pbcommon.cpp:59-65 | For every stream with a bad header, up to the read that completes it exactly the frames before it come out, nothing is kept, and later reads are a new stream |
| Frames.JamsExactly | appcmn1/pbcommon.cpp:67-71 | A full buffer stays full after a read exactly when a header does not fit or the frame at its front is longer than the buffer |
| Messages.WireView | libcmn2/pbcommon.h:15-27 | A handler reads out of an encoded message the type, session id, random id and payload that were put in |
| Messages.WireBytes | libcmn2/pbcommon.h:13-27 | Byte by byte: little-endian length, the protocol word 0x101, type, session id, random id, twelve bytes of trailer, payload; every payload of at most 2500 bytes can be sent |
| Messages.WireAllParses | appcmn1/appcmn1.cpp:72-102 | Cutting the concatenation of encoded messages gives the encodings back, with nothing left |
| Messages.Sender.MakeMsg | appcmn1/appcmn1.h:44-49 | The payload fills the front of the message buffer, the rest of it is unchanged, and the length covers header and payload |
| Messages.Sender.Sent | cfgagent/cfgagent_main.cpp:236-239 | The bytes handed to the socket are the encoding of the object's current fields and payload |
| Dispatch.Registry.RegisterCb | appcmn1/pbcommon.cpp:37-41 | Exactly the named entry of the handler table changes, and none for a type out of range |
| Dispatch.Registry.RegisterAllCbs | appcmn1/pbcommon.cpp:376-383 | Types 1 to 6 get, by number, the handlers of standard replies, delayed responses, log configuration requests and replies, and published items and their replies; nothing else changes |
| Dispatch.FrameHandled | appcmn1/pbcommon.cpp:73-100 | In the deployed program a frame that has arrived and has payload runs the handler its type byte stands for, for each of the six types; one without payload or of any other type runs none |
| Dispatch.Registry.ProcessMsg | appcmn1/pbcommon.cpp:43-107 | Runs exactly the handlers of the complete frames with payload, in order, and returns the length of the kept tail; the loop terminates and stays inside the buffer |
| Dispatch.ValidatePbMsgCommon | appcmn1/pbcommon.cpp:155-188 | Returns 2 exactly for a length below 32, 3 exactly for an incomplete packet, 4 exactly for an empty one and 0 exactly for a complete one with payload, and moves the two in-out values only for 2 and 4 |
| Dispatch.Registry.ProcessChecked | appcmn1/pbcommon.cpp:155-188 | A receive loop that goes by the dispositions and in-out values of the shared check runs the same handlers and leaves the same tail as process_msg, on every buffer |
| Dispatch.WiresSeen | appcmn1/appcmn1.cpp:72-102 | Encoded messages lead to exactly the invocations for those with a payload and a registered type, with the fields and payload sent |
| Dispatch.MessagesArrive | appcmn1/pbcommon.cpp:43-107 | Round trip over any chunking: whatever reads the encoded messages arrive in, exactly the expected handlers run with the sent content, and nothing is left |
| RxBuffer.RxBufAddr.AllocBuffer | libcmn2/appcommon.cpp:105-147 | Offers exactly the free tail behind the kept bytes and keeps those; on first use it allocates and offers as many bytes as suggested, and 65536 if more are |
| RxBuffer.RxBufAddr.ReadData | libcmn2/appcommon.cpp:251-309 | Calls the handlers of what the listener is shown from `base` on, even beyond the buffer, and keeps the last bytes it left of those at the start of the buffer |
| RxBuffer.RxBufAddr.Compact | libcmn2/appcommon.cpp:285-303 | The unconsumed bytes end up at the front, unharmed by the overlap |
| RxBuffer.RxBufAddr.OnRead | libcmn2/appcommon.cpp:278-303 | With the intended base, and with the base as written where that is right, a read runs the handlers of the frames in kept and new bytes and keeps the unconsumed tail |
| RxBuffer.RxBufAddr.ClientCloseCb | libcmn2/appcommon.cpp:211-222 | Everything kept is discarded |
| RxBuffer.Memcpy | libcmn2/appcommon.cpp:298-301 | An ascending copy to the front gives the old bytes even where source and destination overlap |
| RxBuffer.IntendedOutcome | libcmn2/appcommon.cpp:289-302 | Shown the buffer from its start, the listener consumes the right frames and the right tail is kept |
| RxBuffer.RightOutcome | libcmn2/appcommon.cpp:284-301 | So it is wherever the listener looks, as long as too little has arrived to hold a header |
| RxBuffer.LiteralBaseExactly | libcmn2/appcommon.cpp:284-301 | With the address the code passes on, this holds for all contents of the buffer and the memory behind it exactly if nothing was kept before or less than a header has arrived |
| RxBuffer.MisreadBuffer | libcmn2/appcommon.cpp:284-301 | In every other case there is a buffer for which the wrong number of bytes is kept |
| RxBuffer.NeverJams | libcmn2/appcommon.cpp:112-141 | For every stream, also with bad headers: if no frame is longer than the buffer, there is room for at least one more byte after every read |
| RxBuffer.ServeReads | libcmn2/appcommon.cpp:105-309 | A whole connection: over all reads exactly the handlers of the stream's frames run, in order, and the tail is kept; with the intended base, and as written if the base is right for every read |
| LiteralRun.HarmlessRuns | libcmn2/appcommon.cpp:284-301 | With the base as written, a connection on which nothing arrives before the last read, or less than a header in all, is served right after every read |
| LiteralRun.WrongRun | libcmn2/appcommon.cpp:284-301 | For all other read sizes that fit the buffer there is a stream that is served wrong |
| LiteralRun.LiteralRunExactly | libcmn2/appcommon.cpp:251-309 | For read sizes that together fit the buffer, every stream cut so is served right after every read, whatever the memory holds, if and only if nothing arrives before the last read or less than a header arrives in all |
| Sessions.SidFitsExactly | appcmn1/session.cpp:49-67 | The next id indexes the 1000-entry table exactly while fewer than 1000 sessions are outstanding |
| Sessions.OpenConserves | appcmn1/session.cpp:76-101 | Opening takes an id that is not in use; free and used ids stay disjoint, duplicate-free and exactly the ids made |
| Sessions.OpenKeeps | appcmn1/session.cpp:76-101 | After opening, ids in use are exactly those with a nonzero stored magic if and only if the magic is not 0; no session was live under the new id |
| Sessions.ReturnConservesExactly | appcmn1/session.cpp:69-74 | Returning an id conserves the ids exactly if it is in use |
| Sessions.ReturnKeeps | appcmn1/session.cpp:69-74 | Returning an id in use also keeps nonzero magics those of live ids |
| Sessions.FindKeeps | appcmn1/session.cpp:103-114 | A reply with a nonzero magic finds only a live session, which is then busy until its id is returned |
| Sessions.ZeroMagicFindsIdle | appcmn1/session.cpp:103-114 | A reply with magic 0 finds an entry exactly if no session is outstanding under its id |
| SessionTable.SessionTable.CreateFreeSids | appcmn1/session.cpp:22-33 | The next ten ids are put at the back of the free list, in order |
| SessionTable.SessionTable.FindFreeSid | appcmn1/session.cpp:49-67 | The front free id moves to the used list, from a new batch if none was free |
| SessionTable.SessionTable.ReturnSid | appcmn1/session.cpp:69-74 | The state is the one after a return: not in use, last of the free ids |
| SessionTable.SessionTable.MakeNewSession | appcmn1/session.cpp:76-101 | The state and history are those after opening, also on the first call; the id handed out is the one opened, and its entry in the table of 1000 holds exactly the magic, callback and data given |
| SessionTable.SessionTable.FindStoredSession | appcmn1/session.cpp:103-114 | Succeeds exactly if the stored magic fits, hands out the entry as stored and invalidates it, and otherwise changes nothing |
| SessionTable.SessionTable.HandleStdReply | appcmn1/pbcommon.cpp:244-262 | The callback runs exactly if the reply's session is found, with the stored entry, and the history makes exactly that step, whatever the callback opens |
| History.OpenAllGood | appcmn1/pbcommon.cpp:252-258 | Reentrancy: sessions opened by a running callback never get the id being completed or any id in use, and the invariant is kept |
| History.ReplyDoes | appcmn1/pbcommon.cpp:244-262 | A reply to an outstanding session runs its callback once with what was stored; the sessions the callback opens get ids other than its own and all in use; only then its id goes to the back of the free ones |
| History.StepGood | appcmn1/pbcommon.cpp:244-262 | Openings, and replies that find no entry of an idle id, keep ids conserved, callbacks matched with openings, reuse in order and the pool sized, whatever the magics |
| History.UnanswerableCalls | appcmn1/pbcommon.cpp:251-258 | A reply that finds the entry of an id not in use runs a callback that answers no opening |
| History.StepGoodExactly | appcmn1/pbcommon.cpp:244-262 | A step keeps the invariant, and likewise at most once, exactly if it is no such reply |
| History.RunIsGoodExactly | appcmn1/session.cpp:76-114 | All states of a run satisfy the invariant exactly if no reply of the run finds the entry of an id not in use |
| History.AtMostOnceExactly | appcmn1/pbcommon.cpp:251-258 | In all states of a run each callback run has its own opening with the same id, magic, callback and data, if and only if no reply of the run finds the entry of an id not in use |
| History.StepConservesExactly | appcmn1/session.cpp:69-74 | A step that conserves the session ids so far conserves them exactly if the id it returns is in use when it is returned |
| History.RunConservesExactly | appcmn1/session.cpp:49-101 | In all states of a run free and used ids stay disjoint, duplicate-free and exactly the ids made, if and only if each id it returns is in use then, whatever the magics |
| History.StepLiveExactly | appcmn1/session.cpp:103-114 | A step keeps the invariant and nonzero magics those of ids in use exactly if sessions are opened with nonzero magics and a reply that finds an entry has one |
| History.RunIsLiveExactly | appcmn1/session.cpp:76-114 | The same for all states of a run |
| History.RunsAreGood | appcmn1/session.cpp:49-114 | If all magics are nonzero, every state of the run satisfies the invariant, and ids in use are exactly those with a nonzero stored magic |
| History.AtMostOnce | appcmn1/pbcommon.cpp:251-258 | If all magics are nonzero, callbacks run at most once each in every state of the run, over duplicated, late and made-up replies |
| History.NothingOutstanding | appcmn1/session.cpp:69-74 | In a state that satisfies the invariant, when no id is in use every session ever opened has had its callback run |
| History.PoolIsHighWaterMark | appcmn1/session.cpp:22-33 | In a state that satisfies the invariant, the number of ids made is the high-water mark, rounded up to tens |
| History.HighMeans | appcmn1/session.cpp:49-67 | The high-water mark of a run is the largest number of ids in use after any of its openings, those made by callbacks included |
| History.OpenEnabledExactly | appcmn1/session.cpp:98-98 | In a state that satisfies the invariant, opening stays inside the table exactly while fewer than 1000 sessions are outstanding |
| History.FifoReuse | appcmn1/session.cpp:61-71 | From any point of any run on, whatever the magics, the ids issued next are those free at that point, in order |
| History.ZeroMagicFiresTwice | appcmn1/session.cpp:103-114 | A concrete run in which a reply with magic 0 runs a callback again |
| Exchange.ReplyFindsSession | appcmn1/pbcommon.cpp:251-256 | Every reply under way finds its session, whose id is in use |
| Exchange.ReceiveSound | appcmn1/pbcommon.cpp:244-262 | Receiving a reply, with a callback that may send more, keeps one token per session and is an answerable step of the session module |
| Exchange.ActSound | appcmn1/pbcommon.cpp:244-374 | Every step of the exchange keeps exactly one token per outstanding session, whatever the magics |
| Exchange.ExchangesAreSound | cfgagent/cfgagent_main.cpp:227-265 | In every reachable state requests, timers and replies under way together carry exactly one token per outstanding session, whatever the magics and the order in which timers expire |
| Exchange.DrainedExactly | appcmn1/pbcommon.cpp:244-262 | Nothing is under way exactly when no id is in use, and then every session opened has been answered exactly once |
| Exchange.QuietStepsDrain | appcmn1/pbcommon.cpp:358-374 | As long as anything is under way a step without new requests is possible, and each such step brings the end one closer |
| Exchange.QuietRunsEnd | appcmn1/pbcommon.cpp:358-374 | Without new requests every run ends, after exactly as many steps as there was work, and then no id is in use and every session opened has had its callback run |
| Exchange.TokensArrive | appcmn1/pbcommon.cpp:266-309 | Tokens sent as messages of one type reach that type's handler, complete and in order, however the bytes are cut |
| Peers.DelayedResponseTest | cfgagent/cfgagent_main.cpp:207-267 | Three sessions are opened, and the three messages sent from one reused object are requests of type 2 that carry exactly their ids and magics, in order, each with its own payload |
| Peers.SendRequest | cfgagent/cfgagent_main.cpp:228-239 | One turn of the send loop opens one session and sends its id and magic with the payload of this turn |
| Peers.SendToken | cfgagent/cfgagent_main.cpp:231-239 | From a reused message object a handler reads the type, session id, magic and payload set last |
| Peers.OnStdReply | appcmn1/pbcommon.cpp:244-262 | The session named in the header of the frame is the one completed |
| Peers.Server.HandleDelayedResponseReq | appcmn1/pbcommon.cpp:266-312 | One timer starts, with the session id and magic of the request's header |
| Peers.Server.SendAStdReply | appcmn1/pbcommon.cpp:320-347 | The timer that expired is gone, and a message of type 1 with its session id and magic and the payload given is sent |
| Peers.SendAllRequests | cfgagent/cfgagent_main.cpp:227-265 | Sending many requests appends exactly the tokens of the sessions opened |
| Peers.PackedArrive | appcmn1/pbcommon.cpp:43-107 | What one program sends reaches the other's handler as the same tokens in order, over any chunking |
| Streams.ReadFromStream | libcmn2/appcommon.cpp:251-309 | A read of any number of bytes takes exactly the tokens of the messages it completes off the stream, and the others stay |
| Streams.ReceiveAll | appcmn1/pbcommon.cpp:244-262 | Handling the replies of one read is receiving them one by one: each finds its session, and what its callback sends is sent |
| Streams.StepSimulated | appcmn1/pbcommon.cpp:43-107 | Every step on bytes in either direction, with reads that end anywhere, does what a sequence of exchange steps does |
| Streams.RunsRefineExchange | cfgagent/cfgagent_main.cpp:227-265 | Every state of every run on bytes is the state of an exchange with exactly one token per outstanding session |
| Streams.QuietMove | appcmn1/pbcommon.cpp:320-347 | As long as bytes are under way or kept or a timer runs, a read of at least one byte or an answer is possible without new requests |
| Streams.QuietMoveWorks | appcmn1/pbcommon.cpp:320-374 | Every such move takes work off the exchange, or leaves it as it is and takes bytes off the streams |
| Streams.StreamsDrain | appcmn1/pbcommon.cpp:244-374 | From every state such moves lead to one where no bytes are under way or kept and no timer runs; then no id is in use and every session opened has had its callback run |
| Streams.RunsOnBytes | appcmn1/pbcommon.cpp:244-374 | In every state of every run on bytes callbacks have run at most once, a drained state has every session answered and no id in use, and a drained state can be reached without new requests |
| Programs.ServerRead | libcmn2/appcommon.cpp:251-309 | The server's buffer and request handler, on a read of any bytes, take the read step: its kept bytes and timers are those of the next state |
| Programs.ServerAnswer | appcmn1/pbcommon.cpp:320-347 | The server's timer handler takes the answer step, and sends a reply of the timer's token with the payload given |
| Programs.ClientAsk | cfgagent/cfgagent_main.cpp:228-239 | A turn of the client's send loop takes the request step and sends the payload given |
| Programs.ClientRead | libcmn2/appcommon.cpp:251-309 | In a state of an exchange the client's buffer and reply handler, on a read of any bytes, take the read step: its kept bytes and the session module, with all its history, are those of the next state |
| IniText.FindFromFirst | inih/ini.c:43-51 | The search ends at the first wanted character or comment, and there is none before |
| IniText.RStripMeans | inih/ini.c:24-30 | Only white space is stripped, and none is left at the end |
| IniText.LSkipMeans | inih/ini.c:33-38 | Only white space is skipped, and none is left at the start |
| IniText.PiecesCover | inih/ini.c:91-91 | The pieces a file is read in fit the line buffer and together are the file |
| IniText.PiecesAppend | inih/ini.c:91-91 | The pieces of what follows a line do not depend on that line |
| IniGrammar.FirstFaultMeans | inih/ini.c:111-164 | The error line is the first line that is malformed or rejected by the handler, and 0 if there is none |
| IniGrammar.ErrorModesRelate | inih/ini.c:154-164 | Both error modes return that line; stopping keeps exactly the calls through it, a prefix of all calls |
| IniGrammar.SeparatorFollowsName | inih/ini.c:128-135 | No '=' and no comment stands in front of the separator of a pair |
| IniGrammar.CallsShapely | inih/ini.c:115-146 | For every file and option: sections reported have at most 49 characters and no ']', and names have no '=' |
| IniLines.LineDoesExactly | inih/ini.c:94-152 | What a line does, on its characters: blank lines and those that start with ';' or '#' do nothing; an indented line behind a name continues its value where that is allowed; '[' starts a section that ends at the first ']' in front of a comment; any other line is split at its first '=' in front of a comment, or failing that its first ':'; lines without these are errors and change nothing. The grammar's reading is this and no other |
| IniLines.CutExactly | inih/ini.c:91-91 | The pieces are the only way to cut the file into parts of at most 199 characters that end with a newline, are full, or end the file, with no newline inside |
| IniLines.FileReadsExactly | inih/ini.c:62-165 | Calls and error of a file are those its lines make one after the other, said of its characters: all calls or those up to the first error, and the number of the first line that is malformed or has its call rejected |
| IniParser.Rstrip | inih/ini.c:24-30 | In place, the buffer then holds the stripped text, and nothing outside it changed |
| IniParser.Lskip | inih/ini.c:33-38 | The index returned is where the skipped text starts |
| IniParser.FindCharOrComment | inih/ini.c:43-51 | The index returned is that of the first wanted character or comment, or of the terminator |
| CText.Strncpy0 | inih/ini.c:54-59 | The destination holds as much of the text as fits, terminated |
| IniParser.Fgets | inih/ini.c:91-91 | The line buffer holds the next piece of the file |
| IniParser.ParseSection | inih/ini.c:115-127 | The section buffer holds the name up to ']', cut to its size, and the last name is forgotten; a malformed line changes no buffer |
| IniParser.ParsePair | inih/ini.c:128-152 | The handler is called with the name and value the grammar reads, although both were cut out of one buffer in place |
| IniParser.ParseLine | inih/ini.c:94-152 | One line leads to the handler call, malformedness and context of the grammar |
| IniParser.ParseFile | inih/ini.c:62-165 | For every NUL-free file, option and handler, calls and result are the meaning of the file, and what its lines do character by character |
| IniShape.MeaningShape | inih/ini.c:91-164 | Whatever the file, each call reported has a section without ']' that fits, a name without '=' that looks like nothing else, and a trimmed value; only a continued value can look like a comment, and only a name cut to its buffer can end in white space |
| IniDump.Dumper.Dump | inih/examples/ini_dump.c:7-19 | The output is the printed form of all calls so far, with the last section kept in a fixed buffer |
| IniDump.PrintedNext | inih/examples/ini_dump.c:13-18 | What one more call prints, character by character: its section in brackets unless that is what the 50-character buffer remembers of the section before, with a blank line in front if something is remembered, then name, ' = ', value |
| IniReadBack.PiecesOfPrinted | inih/ini.c:91-91 | The pieces a printed text is read in, also where lines do not fit the buffer |
| IniReadBack.FirstPieceRead | inih/ini.c:128-152 | A call that meets the condition is read back from the first piece of its line |
| IniReadBack.FirstPieceReportsOnly | inih/ini.c:94-152 | The first piece of a call's line is read as that call only if it meets the condition |
| IniRoundTrip.FirstRejectedMeans | inih/ini.c:145-146 | The first rejected call is rejected and all before it are accepted |
| IniRoundTrip.RoundTrip | inih/examples/ini_dump.c:7-19 | For every list of calls that each meet the condition, every option and every handler, parsing what is printed gives exactly these calls in order (when stopping, through the first rejected one) and returns 0 or the line of the first rejected call |
| IniExact.StaysLost | inih/ini.c:91-164 | A call that was not read back is never made up for by later lines |
| IniExact.RoundTripExactly | inih/examples/ini_dump.c:7-19 | For any list of calls at all without NUL, parsing what is printed gives the same calls and no error if and only if each meets the condition behind those in front of it |
| IniExact.PrintedIsNormalExactly | inih/examples/ini_dump.c:7-19 | For every file, the calls it reports come back from their printed form if and only if each fits a line, none looks like a byte-order mark at the start and, where lines may continue values, none has a value with a comment, a name cut behind a blank, or an empty name behind another name of its section |
| IniExact.EmptyNameLost | inih/ini.c:107-113 | A file for which they do not come back: an empty name becomes a continuation line |
| IniExact.WellFormedReadBack | inih/examples/ini_dump.c:7-19 | Calls with trimmed nonempty names and values that look like nothing else, and lines that fit, meet the condition |
| IniReader.KeysMatchExactly | inih/cpp/INIReader.cpp:59-65 | Keys are equal exactly if section and name match without regard to case, because names hold no '=' |
| IniReader.LowerExactly | inih/cpp/INIReader.cpp:59-65 | Texts are equal in lower case exactly if they have the same length and at each place the same character or the two cases of one of the 26 letters |
| IniReader.LookupMeans | inih/cpp/INIReader.cpp:21-25 | A lookup answers exactly if some call has this section and name up to the case of letters, with the values of all such calls in order, joined by newlines except for empty ones at the start |
| IniReader.FetchIsLookup | inih/cpp/INIReader.cpp:67-76 | The map answers a lookup as the log of calls does: nothing if no call matches, else all matching values |
| IniReader.LookupExactly | inih/cpp/INIReader.cpp:21-25 | A lookup is right in every file if and only if the name has no '=', or no file can report the section and name that its last '=' would split it into |
| IniReader.RightUnlessConfusable | inih/cpp/INIReader.cpp:59-76 | A lookup that cannot be confused is answered from the calls of the file |
| IniReader.ReportingFile | inih/ini.c:94-152 | Whatever section and name have the shape of a reported call are reported for some file |
| IniReader.WrongFile | inih/cpp/INIReader.cpp:59-65 | For a lookup that can be confused there is a file in which another section answers |
| IniReader.JoinMeans | inih/cpp/INIReader.cpp:72-74 | Accumulated values are the values joined by newlines, except that empty ones at the start are lost |
| IniReader.PrintedIsRead | inih/cpp/INIReader.cpp:21-25 | The reader of a printed file answers every '='-free lookup from the calls that were printed |
| IniReader.INIReader.constructor | inih/cpp/INIReader.cpp:11-14 | The map is that of the calls the file makes, said of its characters, and the error is its first faulty line, or -1 without a file |
| IniReader.INIReader.ValueHandler | inih/cpp/INIReader.cpp:67-76 | The map stays that of the log of calls |
| IniReader.INIReader.Get | inih/cpp/INIReader.cpp:21-25 | For a name without '=' the answer is the joined values of the calls with this section and name up to the case of letters, and the default exactly if there are none |
| SlotTable.AgreeExactly | libcommon/libcommon.cpp:85-168 | After any run of operations slots and kernel agree if and only if no add took descriptor 0 (every accepted add of it found the table full); then they represent what was added and not deleted, and otherwise the kernel holds descriptor 0 for good |
| SlotTable.RegisteredExactly | libcommon/libcommon.cpp:85-168 | After any run that takes no descriptor 0, the kernel has a descriptor under a slot with an entry exactly if some admitted add gave it that entry and nothing has deleted it since |
| SlotTable.Bounded | libcommon/libcommon.cpp:85-103 | No run that takes no descriptor 0 has the kernel hold more than 64 registrations |
| SlotTable.ZeroMisdirected | libcommon/libcommon.cpp:79-103 | Whenever an add takes descriptor 0, the next new descriptor gets the same slot, and events on 0 go to its listener |
| SlotTable.Overfull | libcommon/libcommon.cpp:85-103 | After descriptor 0 and then 1 to 64 the kernel holds 65 registrations |
| SlotTable.FreeSlotExactly | libcommon/libcommon.cpp:87-88 | There is a free slot exactly if fewer descriptors are registered than there are slots |
| SlotTable.AddRepresents | libcommon/libcommon.cpp:85-103 | An add that does not take descriptor 0 keeps table and kernel right, succeeds exactly if it is admitted, and otherwise changes nothing, although it has used a slot and given it back |
| SlotTable.EventLoop.AddFd | libcommon/libcommon.cpp:85-103 | In every state, takes the first slot that looks free and gives it back if the kernel refuses; while no descriptor 0 was taken it succeeds exactly if the kernel accepts, the descriptor is new and fewer than 64 are registered, a refused add changes nothing, and it ends that condition exactly if it is an accepted add of 0 with room |
| SlotTable.EventLoop.AddToEventLoop | libcommon/libcommon.cpp:106-119 | The kernel maps the descriptor to its slot, or nothing changes |
| SlotTable.EventLoop.DeleteFromEventLoop | libcommon/libcommon.cpp:151-168 | The state is the one after a delete, and the result says whether a slot held the descriptor; while no descriptor 0 was taken, whether it was registered |
| SlotTable.EventLoop.DeleteAllFds | libcommon/libcommon.cpp:121-130 | Every positive descriptor leaves its slot and the kernel; while no descriptor 0 was taken, table and kernel are then empty |
| SlotTable.EventLoop.Dispatch | libcommon/libcommon.cpp:38-68 | Each event goes to what the reported slot remembers; while no descriptor 0 was taken, that is the descriptor itself with the listener and user data given when it was added |

## Left out

- Sockets, libuv, epoll waiting, process spawning, logging, wall-clock times, and memory allocation and release.
- Protobuf encoding: a payload is a byte sequence of known size. A payload longer than the message buffer overruns it in
  the source; `MakeMsg` requires that it fits.
- A connection whose event loop has no listener: its bytes are ignored (libcmn2/appcommon.cpp:283).
- A return of more than 2 GB from a read, and other wrap-around of 32-bit sizes: a receive buffer has at most 65536 bytes.
- Wrap-around of the session id counter: ids stop being valid at 1000 already.
- Inbound sessions (`ib_sessions`, `ib_sid`, `inbound_session_present`) and `start_time`: nothing reads them.
- Callbacks that are null: an invalidated or never used entry found by magic 0 may hold one.
- What handlers other than the standard reply and the delayed response do with their payload.
- The bytes that callbacks send while a read is handled are a parameter of `ClientRead`.
- Finding the connection to send to, and writes that fail (cfgagent/cfgagent_main.cpp:210-226 and 257-264).
- Listeners that are null and event flags other than readable, which end the program (libcommon/libcommon.cpp:50-58).
- Deleting a descriptor from inside a callback while a batch of events is being dispatched.
- NUL characters inside INI text, and characters beyond the C locale in `isspace` and `tolower`.
- A line buffer on the heap (`INI_USE_STACK` 0): it differs only in an error for lack of memory.
- `GetInteger`, `GetReal` and `GetBoolean`: conversions of a looked-up value.
- Dispatch.Registry.RegisterCb: does not model the write one entry past the table that the source makes for type MT_MAX.
- RxBuffer.RxBufAddr.OnRead: covers the base as written only where it is right; elsewhere `MisreadBuffer` shows that a
  read keeps the wrong bytes.
- RxBuffer.ServeReads: covers a run with the base as written only if the base is right for every read;
  `LiteralRunExactly` says for which read sizes every run is.
- LiteralRun.LiteralRunExactly: read sizes that add up to more than the buffer are not covered: which of them can occur
  depends on what is kept.
- That timers do expire and bytes do arrive is not modelled; the exchange drains in every run that goes on until nothing
  is possible.
- XML reading, the service monitor, the blog, logging, nanomsg and test programs.
