# A verified model of samvada's native D-Bus backend

samvada asks systemd-logind for devices over the system bus with no libdbus underneath: `src/*.cyr` holds a
small protocol stack of its own. This project models that stack in Dafny, layer by layer, and proves what
each layer promises the one above. It also models the lexer that the repository's source gates rest on.

| files | what they model |
|---|---|
| `Bytes` | bytes, alignment, 32-bit words in both byte orders |
| `Framing` | what a byte stream means as a list of messages: a pure parse of the whole stream, with no buffer |
| `Attribution`, `FrameState`, `FrameRuns` | the framer as a state machine over that stream and a ledger of descriptors; what every step keeps, and what holds of every run |
| `FdQueue`, `Framer` | the framer itself (`src/dbus_frame.cyr`): one 8192-byte array, cursors moved in place, an eight-slot queue. Each method takes one step of the state machine |
| `Wire`, `Unmarshal` | header fields and body as functions of the bytes, and the decoder that walks them (`src/dbus_unmarshal.cyr`) |
| `Encoding`, `Marshal` | the layout of a message, and the encoder with its poison flag (`src/dbus_marshal.cyr`) |
| `Kernel` | the process's descriptors and a connected socket whose every result is arbitrary |
| `Replies`, `Exchanges`, `Session` | which message answers a call, and what the requests and replies mean to a reader of their bytes; the receive, write, call, pump, handshake and TakeDevice layer (`src/dbus_session.cyr`) |
| `Auth` | the SASL line reader that shares the framer's buffer (`src/dbus_auth.cyr`) |
| `Captures` | the requests and the SASL answer of the captured session, byte for byte |
| `Cmsg` | the control-message walk of a receive (`src/dbus_sys.cyr`) |
| `Control` | the held-device table and the session-control flag, against an arbitrary logind (`src/samvada.cyr`) |
| `Backend` | how a native call ends, and when its answer is one the control flag can rely on |
| `Scan`, `Splices`, `Tokens`, `TokenTexts`, `Lexer` | the scanner of `tools/cyr_scan.py`: its small scans, what it does to C source first, what the tokens of a text are, what they make of whole texts, and the walk that reads them |

`dafny verify dfyconfig.toml` checks everything.

## How the state is modelled

The module globals of each source file are the fields of one class, and the class's methods are that file's
functions. Beside the fields a class keeps a ghost value, such as `Framer.g: Frame` (every byte received since
init, the positions of the cursors in it, the messages yielded, a ledger of which descriptor came with
which byte, and what became of each one the peer sent), or, for the encoder, everything written so far as if
there were room for it. `Valid()` ties the fields to it. A method's `ensures` says which function of the old
value the new one is; the lemmas are about those functions.

`Outside(live, ledger)` is the multiset of open descriptors that the queue does not hold. The `Handed()` clauses
of `Session` say that no operation changes it except by handing a descriptor to the caller. `Descriptors.Close`
requires its argument to be open and removes it. Together they are conservation: every descriptor that arrives is in
exactly one of the queue, closed once, and handed out.

`Synced(sock)` ties the framer to the socket: its stream is what the socket has delivered, and `Tracked` says
of every descriptor attached to a byte of it whether it got to the framer, and under which number, was lost
when it could not be moved off a stdio number, or was dropped by the kernel. Every method of `Session` that
reads keeps it, so what is said of a message's descriptors is said of the ones the peer attached to its bytes.
The ledger's `whole` is false only once descriptors were closed while their message was still at the head. Only
a failed Hello does that, and its connection is given up; `Open` ensures that `whole` is true when it succeeds.

## What is assumed of the environment

- The kernel and the peer are tapes of results: every receive, send, poll, clock reading, duplication and
  device check is arbitrary. A receive of the bytes [a, b) delivers the descriptors pinned to bytes in
  [a, b), in order, and says so if it dropped some of them; end of file delivers none.
- A tape that has run out answers with an ordinary failure, so the loops of the source end. Which answers a run
  gets is not restricted, so what is proved holds of every finite run.
- logind is an arbitrary list of answers. Where a claim needs it to be truthful, that is the predicate `Truthful`:
  success means the request was done, a broken connection means logind no longer counts us, a timeout may hide
  anything, and any other error means it was not done. A connection on which a request was cut short refuses
  every later one as if it were gone, and it is not gone.
- The errno a D-Bus error name maps to is an unspecified function of the name whose values are negative.

## What was found

- **Control flag, slots.** `samvada_init` checks that the TakeControl slot is filled but not the ReleaseControl or
  CloseBus slots. Without a ReleaseControl slot, dropping control clears the flag and sends nothing. Without a
  CloseBus slot, closing with the flag in doubt sends nothing at all. Either way logind may go on counting the
  caller as controller.
- **Control flag, a request cut short.** When the send of a request stops part-way, the native backend latches the
  connection closed and answers -107 to everything after, unsent; the socket stays open. `_samvada_drop_control`
  takes -107 for a connection that is gone and clears the flag. So if the last device's ReleaseDevice is cut
  short, logind goes on counting the caller as controller until the layer is closed
  (`Control.CutHidesControl`). `Control.DropSoundIff` proves that dropping is always sound exactly when the
  ReleaseControl slot is filled and no earlier request was cut short; `Control.CloseSoundIff` that closing is,
  exactly when the CloseBus slot is filled. The invariant of `Samvada` is stated for tables that fill both, and
  for as long as no request was cut short.
- **Control flag, the other side.** With truthful answers the flag is 1 only while logind counts the caller as
  controller, unless a call found the connection gone: logind then has dropped everything, and a flag of 1 stays
  until the next ReleaseControl or the closing. With no device held the flag is 1 only after a ReleaseControl that was
  refused. It is 2 only after a timeout of TakeControl, ReleaseControl or TakeDevice that nothing since has
  settled; that timeout need not be the last answer, because a later refusal leaves the 2 as it is
  (`Control.DoubtOutlastsRefusal`).
- **TakeControl that fails locally.** The comments speak of a timeout as the one ambiguous result. A call whose
  request was sent whole also ends with -71 or -105 when the stream becomes unreadable, and with any errno of a poll
  or a receive that is not in the list of disconnects. logind may have granted control by then, and the flag
  says nothing is owed (`Backend.GrantHidden`). `Control.TakeSoundIff` states which answers keep the flag sound, and
  `Backend.NativeTruthfulIff` when the native backend's answers are ones it can rely on.
- **Error names.** An error reply may be named after the errno of a broken connection (`System.Error.ENOTCONN`); the
  public layer then takes logind for gone. `Backend.ReleaseHidden` shows what comes of it, and the same for the errno that
  means "not in control".
- **A descriptor lost off stdio.** One that arrives on a stdio number and cannot be moved is dropped without marking
  the message's set incomplete. What catches it is the count: the message declares one more than arrived. A peer
  that declares one too few would have its index taken among those that are left (`Session.TookPin`).
- **Init on a live layer** changes nothing: it answers -16, or -22 when the table it is given is null.
- **Send errnos.** `dbus_session_call` passes -110 from the write on without classifying it, because it is the
  deadline's own code; a send that itself fails with -110 is therefore not taken for a disconnect unless part of the
  message had been sent.
- **The clamp in `dbus_frame_advance`** is idle when a yielded message is advanced past; the `want <= 0` branch of
  `_dbs_recv` and the no-progress guard of the field walks can never be taken.
- **Claiming early.** Were a descriptor claimed before its message is whole, a ninth one could be queued for it. The
  call layer only claims from a whole message; the ledger flag `late` records the case and every run of the protocol
  is proved free of it.
- **Raw-string prefixes.** In `RAW_PREFIX` the `$` also matches before a newline that stands just before the quote.
  `Scan.RawWord` lists those spellings too.

## Model

| member | source | states |
|---|---|---|
| Framing.Total | src/dbus_frame.cyr:152-171 | a declared length is at least the 16-byte header, and fewer than 16 bytes are exactly the need_more case |
| Framing.TotalFaults | src/dbus_frame.cyr:152-171 | bad endian exactly when byte 0 is neither 'l' nor 'B', bad protocol exactly when it is one of them and byte 3 is not 1, need_more exactly below 16 bytes, and a length otherwise |
| Framing.SwappedTotal | src/dbus_frame.cyr:136-171 | a message marked 'B' with its three header words byte-reversed declares the length it declared as 'l' |
| Framing.DeclaredTotal | src/dbus_frame.cyr:152-171 | for a writer of either byte order, header, fields, padding to 8 and body of any lengths declare exactly what was written |
| Framing.AnswerIsNextMessage | src/dbus_frame.cyr:395-444 | a positive answer is the next in-cap message of the pure parse, over-cap ones stepped over by their declared length; any other answer means none is left |
| Framing.AnswerCodes | src/dbus_frame.cyr:395-444 | at end of file the answer is eof exactly at a message boundary and truncated otherwise; faults keep their own code; need_more is never answered at end of file |
| Framing.CodesByNumber | src/dbus_frame.cyr:395-444 | what each code, by its number, says of the bytes where it is given: 134217728 and more is too long, 8192 and less and there is a message |
| Framing.NeedMoreIsStrictPrefix | src/dbus_frame.cyr:346-370 | after need_more the unread bytes are a strict prefix of one unit that ends within the cap |
| Framing.FaultsAreSticky | src/dbus_frame.cyr:100-109 | nothing that arrives later, end of file included, changes a framing fault |
| Framing.MessagesOfUnits | src/dbus_frame.cyr:395-444 | a stream of whole messages and a strict prefix of one more parses into exactly the in-cap ones, each at its own position |
| Framing.BigEndianFieldsUnreadable | src/dbus_frame.cyr:129-171 | the fields length of an in-cap big-endian message, read as little-endian, is 0 or past the message |
| Framing.StopGrows | src/dbus_frame.cyr:346-370 | the boundary a read is bounded by never moves nearer as bytes arrive |
| FrameState.CompactInv | src/dbus_frame.cyr:256-273 | compaction keeps the unread bytes and their positions, and moves no byte a second time |
| FrameState.NextInv | src/dbus_frame.cyr:384-444 | answering keeps the window, the parse and the attribution of descriptors |
| FrameState.NextAgain | src/dbus_frame.cyr:384-444 | asking again changes nothing and gives the same answer |
| FrameState.NextDraining | src/dbus_frame.cyr:384-407 | discarding what has arrived of an over-cap message does not change the answer, and leaves no descriptor of it |
| FrameState.NextSkipping | src/dbus_frame.cyr:424-437 | starting to discard an over-cap message does not change the answer, and the stretch to discard is longer than what is buffered, so the function calls itself at most once |
| FrameState.PushInv | src/dbus_frame.cyr:59-93 | a descriptor that arrives with a byte of the head message, or fails to, is accounted for as that message's |
| FrameState.HeadPins | src/dbus_frame.cyr:59-93 | the head message's descriptors are, in order, those attached to its own bytes that got here, and the set is marked incomplete exactly when the kernel dropped one |
| FrameState.AdvanceInv | src/dbus_frame.cyr:446-455 | advancing yields the head message and leaves none of its descriptors behind |
| FrameState.HungryRoom | src/dbus_frame.cyr:357-382 | after need_more there is something to read before the next boundary, and the buffer has room for it |
| FrameRuns.RunSteady | src/dbus_frame.cyr:184-455 | every state reachable by the protocol's calls satisfies the invariant, whatever the stream holds |
| FrameRuns.RunRefinesParse | src/dbus_frame.cyr:384-455 | in every reachable state with nothing left to yield, what was yielded is exactly the in-cap messages of the parse of the whole stream |
| FrameRuns.RunInOrder | src/dbus_frame.cyr:384-455 | in every reachable state what was yielded, then the parse of the rest, is the parse of the whole stream |
| FrameRuns.ChunkingIndependent | src/dbus_frame.cyr:184-273 | two runs over the same bytes yield the same messages, however the bytes were split, compacted and interleaved |
| FrameRuns.RunAttributes | src/dbus_frame.cyr:59-93 | in every reachable state the queue holds only descriptors pinned to bytes of the head message, its first eight less any claimed; the count is all that arrived with it, and the incomplete mark says exactly whether the kernel dropped one |
| FrameRuns.RunAmortised | src/dbus_frame.cyr:198-203 | no run moves more bytes by compaction than it receives |
| FrameRuns.RunAtEof | src/dbus_frame.cyr:395-444 | once end of file is recorded need_more is never answered, and eof is answered exactly at a boundary |
| FrameRuns.FaultsStay | src/dbus_frame.cyr:395-444 | after a framing fault no call receives, yields or consumes anything |
| Framer.Framer.constructor | src/dbus_frame.cyr:205-224 | a fresh framer holds nothing |
| Framer.Framer.Init | src/dbus_frame.cyr:205-224 | re-initialising closes what was queued and loses no other descriptor |
| Framer.Framer.Commit | src/dbus_frame.cyr:232-236 | the bytes received are appended to the stream and to the unread bytes |
| Framer.Framer.Consume | src/dbus_frame.cyr:238-245 | the cursor moves by n, no further than the bytes there are; in the handshake, the binary stream begins where it stops |
| Framer.Framer.SetEof | src/dbus_frame.cyr:247-247 | records end of file and changes nothing else |
| Framer.Framer.Compact | src/dbus_frame.cyr:256-273 | the in-place copy leaves the unread bytes, the position and the position received as they were |
| Framer.Framer.PushFd | src/dbus_frame.cyr:275-292 | queued while there is room, closed past the eighth or while draining, and counted either way |
| Framer.Framer.FdsIncomplete | src/dbus_frame.cyr:294-301 | marks the head message's set when the kernel dropped some of it, unless it is being drained |
| Framer.Framer.ClaimFd | src/dbus_frame.cyr:307-323 | hands out queue slot i and keeps the others in order; nothing for an index not queued |
| Framer.Framer.CloseFds | src/dbus_frame.cyr:329-344 | closes exactly the queued descriptors and forgets the count |
| Framer.Framer.Want | src/dbus_frame.cyr:346-370 | a positive answer ends exactly at the boundary of the head message; after need_more it is positive |
| Framer.Framer.Prepare | src/dbus_frame.cyr:372-382 | never more than asked for nor than there is room for, and all of it unless the compacted buffer is too small |
| Framer.Framer.Next | src/dbus_frame.cyr:384-444 | the answer, the cursor and the drain counter are those of the pure parse of the stream, and descriptors of what is passed are closed |
| Framer.Framer.Advance | src/dbus_frame.cyr:446-455 | the cursor moves by n, no further than the bytes there are, and what is queued is closed; with the head message's length, that message is consumed and the stream stays in step |
| FdQueue.FdQueue.Push | src/dbus_frame.cyr:275-292 | the first eight are queued in order, any further one is closed |
| FdQueue.FdQueue.Claim | src/dbus_frame.cyr:312-323 | the claimed slot leaves the queue to the caller |
| FdQueue.FdQueue.CloseAll | src/dbus_frame.cyr:329-344 | every queued descriptor is closed once and no other is touched |
| Wire.LookupInWalk | src/dbus_unmarshal.cyr:125-202 | a lookup finds a field with the code, none exactly when there is none, and is malformed only when the walk is |
| Wire.LookupIsFirst | src/dbus_unmarshal.cyr:125-202 | of several fields with a code the first is found |
| Wire.UnknownField | src/dbus_unmarshal.cyr:152-193 | a field with an undefined code is stepped over with the size and alignment of its one-letter type, and one of a container type cannot be |
| Wire.SizesByLetter | src/dbus_unmarshal.cyr:93-108 | the size of each type, by letter |
| Wire.TypesByCode | src/dbus_unmarshal.cyr:110-123 | the type of each defined field, by letter and number |
| Wire.PathIsSegments | src/dbus_unmarshal.cyr:204-235 | an object path is exactly the root, or non-empty segments of letters, digits and underscores, each after one slash |
| Wire.ValidHeaderLookups | src/dbus_unmarshal.cyr:247-317 | once validated, no lookup is malformed, a defined code occurs at most once, and a string found is inside the message, NUL-free and NUL-terminated |
| Wire.AcceptsMeaning | src/dbus_unmarshal.cyr:259-317 | the one-pass check with its seen mask accepts exactly the arrays that walk to the end, whose fields are all proper and whose defined codes are distinct |
| Wire.FieldsInBounds | src/dbus_unmarshal.cyr:144-202 | on any bytes every field walked lies inside the array |
| Unmarshal.Unmarshaller.SetLimit | src/dbus_unmarshal.cyr:65-69 | a length that is not positive leaves a limit of 0 and is refused |
| Unmarshal.Unmarshaller.FindField | src/dbus_unmarshal.cyr:144-202 | the offset of the first field with the code, not found, or malformed, as the field list of the first limit bytes says |
| Unmarshal.Unmarshaller.FieldHere | src/dbus_unmarshal.cyr:152-199 | one field, or malformed, from bytes inside the limit alone |
| Unmarshal.Unmarshaller.PathOk | src/dbus_unmarshal.cyr:204-235 | exactly the valid object paths of the D-Bus Specification |
| Unmarshal.Unmarshaller.HasNoNul | src/dbus_unmarshal.cyr:237-245 | true exactly when none of the bytes is NUL |
| Unmarshal.Unmarshaller.Validate | src/dbus_unmarshal.cyr:247-317 | 0 exactly when the whole header is valid |
| Unmarshal.Unmarshaller.StrAt | src/dbus_unmarshal.cyr:319-333 | the length and place of a string, exactly when it and its terminator are inside the limit |
| Unmarshal.Unmarshaller.SigAt | src/dbus_unmarshal.cyr:335-345 | the same for a signature |
| Unmarshal.Unmarshaller.BodyBegin | src/dbus_unmarshal.cyr:347-367 | the body cursor starts at the aligned end of the fields and is clamped to the limit |
| Unmarshal.Unmarshaller.NextU32 | src/dbus_unmarshal.cyr:371-378 | the aligned little-endian word, or malformed past the end |
| Unmarshal.Unmarshaller.NextBool | src/dbus_unmarshal.cyr:380-385 | 0 or 1, anything else malformed |
| Unmarshal.Unmarshaller.NextStr | src/dbus_unmarshal.cyr:387-395 | the length and place of a string inside the body, or malformed |
| Encoding.RoundTrip | src/dbus_marshal.cyr:123-235 | for all well-typed fields and values the framer's length of the encoding is its length, its fields are the ones given in order and its body reads back in order with 0 remaining |
| Encoding.EncodedIsValid | src/dbus_unmarshal.cyr:247-317 | the decoder accepts the encoding of exactly the headers whose values are proper and whose defined codes are distinct |
| Encoding.FindsEachField | src/dbus_unmarshal.cyr:144-202 | with no code given twice every field is found by its code, in any order |
| Encoding.FieldReads | src/dbus_marshal.cyr:142-185 | one field, read where it was written, is the field that was written |
| Encoding.BodyReads | src/dbus_unmarshal.cyr:371-395 | a list of body values reads back value by value |
| Captures.CapturedHello | tests/dbus_codec.tcyr:38-92 | the first request of the session, Hello with serial 1, is the 128 captured bytes |
| Captures.CapturedTakeDevice | src/dbus_session.cyr:1261-1269 | the request for device 226:1 of session 2 with serial 4 is the 176 captured bytes |
| Captures.CapturedAnswer | src/dbus_auth.cyr:116-170 | the server's 58 captured bytes are an agreement, all of them used |
| Marshal.Marshaller.Room | src/dbus_marshal.cyr:67-74 | room for n more bytes, or the message is poisoned |
| Marshal.Marshaller.PadTo | src/dbus_marshal.cyr:80-88 | zeros up to the alignment |
| Marshal.Marshaller.PutU32 | src/dbus_marshal.cyr:100-108 | the four little-endian bytes, or poison |
| Marshal.Marshaller.PutBytes | src/dbus_marshal.cyr:110-119 | the bytes in order, or poison; a negative length poisons |
| Marshal.Marshaller.Begin | src/dbus_marshal.cyr:121-140 | a fresh, unpoisoned message with the fixed header and no fields |
| Marshal.Marshaller.AddStr | src/dbus_marshal.cyr:142-154 | one more string field |
| Marshal.Marshaller.AddU32 | src/dbus_marshal.cyr:156-165 | one more u32 field |
| Marshal.Marshaller.AddSig | src/dbus_marshal.cyr:167-185 | one more signature field; a length past 255 poisons |
| Marshal.Marshaller.EndFields | src/dbus_marshal.cyr:187-198 | the fields' length is backfilled without the padding before the body |
| Marshal.Marshaller.BodyU32 | src/dbus_marshal.cyr:201-207 | one more u32 value |
| Marshal.Marshaller.BodyBool | src/dbus_marshal.cyr:209-215 | one more boolean value |
| Marshal.Marshaller.BodyStr | src/dbus_marshal.cyr:217-223 | one more string value |
| Marshal.Marshaller.Finish | src/dbus_marshal.cyr:225-235 | unpoisoned, the buffer holds exactly the encoding of what was added and the length is its length; with lengths in range it is poisoned exactly when the encoding exceeds 4096 bytes |
| Replies.BigEndianNeverAnswers | src/dbus_session.cyr:835-849 | no in-cap big-endian message can be taken for a reply |
| Replies.U32Inside | src/dbus_session.cyr:835-849 | in a validated header the words read from REPLY_SERIAL and UNIX_FDS are inside the message |
| Exchanges.EncodedAnswers | src/dbus_session.cyr:829-862 | a message laid out by any sender with no field given twice answers a call exactly when its fields are proper, it is of type 2 or 3, its field 5 is the call's serial, it came past the watermark, and its field 6 is our name or is not there |
| Exchanges.EncodedErrorName | src/dbus_session.cyr:862-872 | the name an error reply gives is its field 4 |
| Exchanges.EncodedAsks | src/dbus_session.cyr:1253-1269 | any reader of the TakeDevice request finds the session's path, the interface, the member, logind's name, the signature `uu`, and then the major and the minor, in that order and nothing after |
| Exchanges.EncodedHb | src/dbus_session.cyr:1276-1305 | a body laid out as an index and a flag is read as that index and that flag |
| Exchanges.EncodedTakeReply | src/dbus_session.cyr:1276-1305 | a laid out (hb) reply is accepted exactly when its signature is `hb`, it declares in field 9 as many descriptors as arrived, and none was dropped |
| Exchanges.EncodedHello | src/dbus_session.cyr:1072-1086 | any reader of the Hello request finds the bus's path, interface and name, the member Hello, and no body |
| Exchanges.BoolWords | src/dbus_unmarshal.cyr:380-385 | the words 0 and 1 are booleans and no other is |
| Session.Session.Recv | src/dbus_session.cyr:650-682 | after need_more: the framer takes exactly the bytes delivered, never past the head message, and exactly the descriptors attached to them, in order, each moved off stdio, lost, or dropped by the kernel and then marked; conserves descriptors |
| Session.Session.MakeRoom | src/dbus_session.cyr:657-663 | the branch for no room is unreachable, and the read stays in the buffer and inside the head message |
| Session.Session.TakeIn | src/dbus_session.cyr:666-681 | the descriptor is queued under its own number, or a stdio one under a higher number, or it is lost |
| Session.Session.Absorb | src/dbus_session.cyr:664-682 | what became of each descriptor attached to the bytes, those the kernel dropped included |
| Kernel.Descriptors.AboveStdio | src/dbus_socket.cyr:168-178 | a descriptor above 2 is kept; a stdio one is closed and replaced by one at 3 or above, or lost |
| Session.Session.Write | src/dbus_session.cyr:689-741 | what is on the wire is a prefix of the request, all of it exactly when its length is answered; a stop after a partial send closes the connection |
| Session.Session.Cut | src/dbus_session.cyr:743-749 | a positive partial send latches closed |
| Session.Session.DestOk | src/dbus_session.cyr:565-574 | true exactly for a message addressed to us or to nobody, and for any before we have a name |
| Session.Session.Consider | src/dbus_session.cyr:829-862 | the loop's tests accept exactly the messages that answer the request |
| Session.Session.Scan | src/dbus_session.cyr:829-878 | every message before the answer is consumed with its descriptors; the reply stays at the head; an error reply is consumed and its errno answered |
| Session.Session.EncodedErrorCode | src/dbus_session.cyr:862-872 | the errno of a laid out error reply is that of the name in its field 4, and -5 when it has none |
| Session.Session.Judge | src/dbus_session.cyr:829-877 | what one message makes of the loop: it is the reply and stays, an error reply and is taken off, or neither and is taken off |
| Session.Session.IoFail | src/dbus_session.cyr:171-187 | a disconnect errno becomes connection reset and latches closed, any other is passed on |
| Session.Session.FrameFault | src/dbus_session.cyr:189-196 | the errno of each framer status; end of file and truncation close the connection |
| Session.FaultErrnos | src/dbus_session.cyr:189-196 | end of file and truncation are -104, a bad byte order or protocol -71, too long -105, and everything else no fault |
| Session.Disconnects | src/dbus_session.cyr:148-165 | the errnos that end a connection, as ranges |
| Session.Session.StreamLost | src/dbus_session.cyr:770-783 | a status that cannot be read past is answered with its errno, and only that is |
| Session.Session.Await | src/dbus_session.cyr:893-926 | each poll waits for a positive time left; a wait that fails has brought no bytes and changes no answer |
| Session.Session.ReadReply | src/dbus_session.cyr:826-929 | the reply loop ends with the first answer, or without one, with nothing whole left unread and the errno of the framer's status if that is what ended it |
| Session.Session.Call | src/dbus_session.cyr:751-929 | the result is the first answer past the watermark taken before the send; nothing is sent when poisoned, closed or on a stream that has ended or cannot be framed, each with its own errno; a partial send closes; end of file is connection reset and closes |
| Session.Session.CallSelects | src/dbus_session.cyr:776-880 | over the parse of the whole stream: the reply or error is the first message that answers, and a call that ends with neither and nothing whole left unread had none to find |
| Session.EndingErrnos | src/dbus_session.cyr:751-929 | the errno of a call that ends without a reply, by number: closed before, unreadable before, or unreadable after the send |
| Session.Session.Pump | src/dbus_session.cyr:1342-1419 | at most 256 messages and 1024 receives; the count is what was taken off, which below the cap is everything whole that arrived; with none, the framer's errno, a failed receive's, or connection reset once closed; 0 only when more is needed on an open connection; nothing is sent |
| Session.PumpErrnos | src/dbus_session.cyr:1402-1419 | the errno of a pump that saw no message, by number; 0 exactly with no fault, no failed receive and the connection open |
| Session.Session.NextSerial | src/dbus_session.cyr:118-131 | the next serial is within u32 and never 0 |
| Session.Session.BeginCall | src/dbus_session.cyr:942-952 | a method call with path, member, interface and destination |
| Session.EncodedCall | src/dbus_session.cyr:942-952 | any reader of such a call finds its path and member, the Manager or Session interface as asked, and logind's name |
| Session.Session.BuildTakeDevice | src/dbus_session.cyr:1261-1269 | the buffer holds exactly the TakeDevice request for this session, major and minor |
| Session.Session.JudgeTake | src/dbus_session.cyr:1276-1305 | accepts exactly a (hb) reply whose declared descriptors all arrived |
| Session.Session.ClaimDevice | src/dbus_session.cyr:1306-1313 | the descriptor at the reply's index is checked, and kept only if it passed |
| Session.Session.TakeReply | src/dbus_session.cyr:1271-1319 | success exactly when the reply is consistent and its descriptor passes the check; the queue is empty afterwards; on refusal -1 is stored and nothing is handed out |
| Session.Session.TakeDevice | src/dbus_session.cyr:1252-1319 | a bad argument sends nothing; otherwise the request sent is the one asked for, and the result is that of the first answer; the descriptors counted are those the peer attached to the reply's bytes, and the one handed out is the pin the body's index names |
| Session.TakenPin | src/dbus_session.cyr:1276-1313 | as many descriptors arrived as the reply declares, none was dropped, and the one handed out is the one of that index among them |
| Session.EncodedInactive | src/dbus_session.cyr:1301-1305 | the flag stored is the boolean of the reply's body |
| Session.Session.Hello | src/dbus_session.cyr:1063-1115 | the call ends as Call says, and the result is success exactly when the first answer names us; an error reply's errno is passed on; a failure leaves no descriptor queued and no name |
| Session.Session.Open | src/dbus_session.cyr:1118-1139 | an earlier connection's state is closed or forgotten; when connecting failed its errno is answered and nothing sent; success means the lines agreed, the first answer after them named us, and the request and Hello are all that was sent; a handshake that fails closes the socket, and no bus is stored |
| Session.Session.NameIn | src/dbus_session.cyr:1087-1106 | the unique name of a Hello reply, exactly when it gives one |
| Session.EncodedName | src/dbus_session.cyr:1087-1106 | a laid out Hello reply names us exactly when its signature is `s` and the text is a colon and 1 to 254 more bytes, none of them NUL |
| Session.Session.Sasl | src/dbus_session.cyr:977-1049 | a decision follows the whole request; the outcome is the decision of the server's bytes alone, however split, and the framer is left just past what decided; no descriptor is kept |
| Session.SaslSuccess | src/dbus_auth.cyr:116-170 | success means a valid OK line before the first AGREE_UNIX_FD, and the binary stream begins just past that line |
| Auth.DecideMeaning | src/dbus_auth.cyr:116-170 | the decision is the first deciding line's and uses up the lines to that one and no more |
| Auth.DecideResumes | src/dbus_auth.cyr:116-170 | reading on from where need_more left off is reading it all: chunking does not matter |
| Auth.DecideStands | src/dbus_auth.cyr:116-170 | a decision once made stands whatever follows |
| Auth.LinesOfJoined | src/dbus_auth.cyr:53-66 | lines written one after another, each with its CRLF, are read back as those lines |
| Auth.Kinds | src/dbus_auth.cyr:79-114 | which texts are which kind of line; an OK line is exactly `OK ` and 32 hex digits |
| Auth.Agreed | src/dbus_auth.cyr:116-170 | `OK ` with 32 hex digits and then AGREE_UNIX_FD, each with its CRLF, settle it at the 52nd byte whatever follows |
| Auth.NotAgreed | src/dbus_auth.cyr:116-170 | REJECTED, ERROR, an OK of another length, and AGREE_UNIX_FD before an OK are refusals with their own codes, using up their line |
| Auth.Reader.DrainLines | src/dbus_auth.cyr:116-170 | the answer, the flags and the cursor are those of the pure line parse |
| Auth.Reader.FindCrlf | src/dbus_auth.cyr:53-66 | the first CRLF, or none |
| Auth.Reader.IsOk | src/dbus_auth.cyr:79-97 | exactly OK and 32 hex digits |
| Auth.Reader.LineKind | src/dbus_auth.cyr:99-114 | the kind of a line |
| Cmsg.MessagesOfLayout | src/dbus_sys.cyr:150-220 | the walk inverts the 8-aligned layout of any list of control messages |
| Cmsg.DescriptorsDelivered | src/dbus_sys.cyr:172-220 | a message of SOL_SOCKET carrying any descriptors, four bytes each and least significant first, laid out among messages of other kinds, carries exactly those that are not negative, in order |
| Cmsg.BlockBytes | src/dbus_sys.cyr:35-54 | one descriptor in a message of SOL_SOCKET is twenty bytes: the length in eight, the level, the kind and the descriptor in four each, least significant first |
| Cmsg.WordsOfPacked | src/dbus_sys.cyr:196-213 | 32-bit words of any sign read back as they were laid out |
| Cmsg.NonNegativeWords | src/dbus_sys.cyr:203-212 | a word that is not negative is a descriptor and a negative one is none |
| Cmsg.KeptFirst | src/dbus_sys.cyr:140-148 | the first 253 are kept |
| Cmsg.Receiver.ParseRights | src/dbus_sys.cyr:150-220 | collects the SCM_RIGHTS descriptors in order, the first 253 kept and the rest closed, closes SCM_PIDFD ones and ignores others, on any bytes and reading only the declared length |
| Cmsg.Receiver.RxAdd | src/dbus_sys.cyr:140-148 | kept, or closed past the 253rd |
| Cmsg.HeadMessage | src/dbus_sys.cyr:172-220 | one step of the walk is the first message of what is left |
| Control.KeyInjective | src/samvada.cyr:84-100 | two devices share a key only if they are the same, through the 64-bit sign |
| Control.TakeSoundIff | src/samvada.cyr:215-237 | exactly which answers to TakeControl keep the flag sound |
| Control.DropSoundIff | src/samvada.cyr:239-278 | dropping control is sound against a truthful logind exactly when the backend fills the ReleaseControl slot and no earlier request was cut short |
| Control.CutHidesControl | src/samvada.cyr:271-277 | the answers with which dropping control after a request cut short clears the flag while logind counts us as controller |
| Control.CloseSoundIff | src/samvada.cyr:421-431 | closing is sound exactly when the backend fills the CloseBus slot |
| Control.DropEntries | src/samvada.cyr:239-278 | entry by entry: ReleaseControl goes out exactly when the flag is 1, or 2 and not closing; answered with success, -22, -104 or -107 the flag is 0, with -110 it is 2, otherwise as it was |
| Control.TakenEntries | src/samvada.cyr:287-318 | with nothing held TakeControl goes out first; refused, its errno is the result and a timeout leaves the flag 2 if it was 0; granted, the device is asked for with the flag at 1 |
| Control.AskedEntries | src/samvada.cyr:316-366 | the device asked for is this one; the result is the descriptor stored, its errno, or -9 for one that is negative as 32 bits; what is sent to put a failure right, and the flag it leaves |
| Control.GivenBackEntries | src/samvada.cyr:368-405 | ReleaseDevice of this device goes out first, and ReleaseControl after it exactly when none is held any more and the flag is not 0 |
| Control.CloseEntries | src/samvada.cyr:418-447 | at closing ReleaseControl goes out exactly when the flag is 1, and CloseBus last |
| Control.InitEntries | src/samvada.cyr:176-213 | what each failing step of init has sent, its errno, and that a bus that was opened is closed again |
| Control.DoubtOutlastsRefusal | src/samvada.cyr:229-237 | the flag stays 2 past a refusal after a timeout |
| Backend.NativeTruthfulIff | src/dbus_session.cyr:751-929 | the native call's answer is truthful exactly when it is not a local failure after a request that was acted on, nor an error named like a broken connection or a missing control |
| Backend.GrantHidden | src/dbus_session.cyr:879-926 | a TakeControl granted, whose call then ends with an unreadable stream or an errno that does not mean the peer is gone, leaves the flag unsound |
| Backend.ReleaseHidden | src/samvada.cyr:271-277 | so does a ReleaseControl refused with an error name that maps to -104, -107 or -22, while logind counts us as controller |
| Backend.CutRefuses | src/dbus_session.cyr:743-767 | after a request cut short every later call is refused unsent |
| Control.Samvada.HeldFind | src/samvada.cyr:94-102 | the slot of the device, or -1 exactly when it is not held |
| Control.Samvada.HeldAdd | src/samvada.cyr:104-109 | the table gains exactly this device, up to 256 |
| Control.Samvada.HeldDel | src/samvada.cyr:111-118 | the table loses exactly this device |
| Control.Samvada.Init | src/samvada.cyr:131-213 | all or nothing: a failed init is uninitialised and has closed the bus if it had opened it, and one on a live layer changes nothing |
| Control.Samvada.TakeControl | src/samvada.cyr:215-237 | one request, its errno, and the flag it leaves; a flag of 1 is then true, and a flag of 2 unsettled |
| Control.Samvada.DropControl | src/samvada.cyr:239-278 | ReleaseControl is sent only with no device held or to close, and the flag it leaves; a flag of 1 means it was refused |
| Control.Samvada.TakeDevice | src/samvada.cyr:280-366 | each refusal without a request and its errno; every request sent and the flag left, nothing but control and this device being asked for; the table gains the device on success and is unchanged otherwise |
| Control.Samvada.TakeFailed | src/samvada.cyr:332-365 | what is sent to put logind back in step, and the flag left |
| Control.Samvada.ReleaseDevice | src/samvada.cyr:368-405 | the device leaves the table whatever logind answers, and with the last one control is dropped |
| Control.Samvada.PumpSignals | src/samvada.cyr:407-416 | one request and its result |
| Control.Samvada.Release | src/samvada.cyr:418-447 | uninitialised afterwards, the bus closed, and a truthful logind no longer counts us as controller, request cut short or not |
| Scan.ShapeKeepsLines | tools/cyr_scan.py:101-102 | a text with the blanks in place has every offset on the line it was on |
| Lexer.Walk | tools/cyr_scan.py:252-355 | the stretch is read as the tokens of that text, one after another; the output is what becomes of them, and the literals and hazards reported are theirs, in order |
| Tokens.LexedOnce | tools/cyr_scan.py:252-355 | a text has one list of tokens, so what is kept, blanked and reported is fixed |
| Lexer.StrippedOnce | tools/cyr_scan.py:366-376 | so `strip` has one result: its text, its literals and its hazards |
| Tokens.StepOnce | tools/cyr_scan.py:252-355 | from each state of the reading exactly one token comes next |
| Tokens.DirectiveBlanked | tools/cyr_scan.py:259-279 | a `#` line that is no attribute and no function-like #define is blanked from end to end |
| Tokens.LineCommentBlanked | tools/cyr_scan.py:309-314 | a line comment of C is blanked from end to end |
| Tokens.StringBlanked | tools/cyr_scan.py:330-348 | of a string of Cyrius without escapes only the quotes are kept |
| TokenTexts.BlockComment | tools/cyr_scan.py:315-320 | a block comment of C is blanked to its first closer, and what follows that is code |
| TokenTexts.LineComment | tools/cyr_scan.py:309-314 | a line comment of C is blanked to its newline, and the next line is code |
| TokenTexts.HeaderName | tools/cyr_scan.py:296-308 | the name of an included header is kept or blanked, and the rest of the line is code |
| TokenTexts.SeparatedNumber | tools/cyr_scan.py:211-222 | a quote between the digits of a number opens nothing |
| TokenTexts.RawText | tools/cyr_scan.py:225-241 | a raw string of C ends at its own closer alone, and what follows is code |
| TokenTexts.CharLiteral | tools/cyr_scan.py:321-329 | a char literal of Cyrius is blanked whole, whatever the character, and what follows is code |
| TokenTexts.IncludeLine | tools/cyr_scan.py:280-295 | of an include line only the name and its quotes are kept, and the next line is code |
| TokenTexts.Attribute | tools/cyr_scan.py:259-268 | after each of the attribute words the line goes on as code |
| TokenTexts.Define | tools/cyr_scan.py:122-138 | a function-like #define is blanked to the end of its parameters, and its body and the next line are code |
| TokenTexts.Quoted | tools/cyr_scan.py:330-348 | of a string without escapes only the quotes are kept, in both languages, and what follows is code |
| TokenTexts.OpenString | tools/cyr_scan.py:197-208 | a string of C that does not close on its line ends with it, and the next line is code |
| TokenTexts.EscapedQuote | tools/cyr_scan.py:197-208 | an escaped quote does not close a string |
| TokenTexts.OrdinaryKept | tools/cyr_scan.py:349-355 | from any state of the reading, text with no quote, slash or hash in it is kept as it is |
| Lexer.Strip | tools/cyr_scan.py:366-376 | the tokens are those of the whole text, normalised first when it is C, and the output, the literals and the hazards are theirs; the length is the same and the newlines are at the same offsets |
| Tokens.TextShape | tools/cyr_scan.py:252-355 | whatever the tokens are, the text keeps its length and its newlines |
| Scan.StringEnd | tools/cyr_scan.py:197-208 | the literal ends past its first unescaped quote; a C literal without one ends at the first unescaped newline |
| Scan.CyrCharEnd | tools/cyr_scan.py:170-194 | the two short forms, and otherwise past the first unescaped quote or before the first newline |
| Scan.AttrWord | tools/cyr_scan.py:105-119 | the first word of the list that is spelt after the hash and properly ended, and none exactly when there is none |
| Scan.DigitSep | tools/cyr_scan.py:211-222 | true exactly for a quote inside a number, which runs back to the first character no number has |
| Scan.RawEnd | tools/cyr_scan.py:225-241 | just past the first closing delimiter that matches the opening one, for a quote with a raw prefix, and none exactly when there is none |
| Scan.HeaderOpen | tools/cyr_scan.py:225-241 | just past the bracket of a line that includes a header, and none exactly when the line does not |
| Scan.MacroBody | tools/cyr_scan.py:122-138 | past the parameters of a function-like #define, and none exactly when the line is not one |
| Splices.NormalizeC | tools/cyr_scan.py:141-167 | the loop computes the splicing |
| Splices.UnixEnds | tools/cyr_scan.py:147-147 | a CRLF, a lone CR and a lone LF are each one newline, wherever they stand |
| Splices.UnixSame | tools/cyr_scan.py:147-147 | a text without a CR is left as it is |
| Splices.JoinsLines | tools/cyr_scan.py:151-166 | a backslash, blanks and a newline join two lines, and the newline comes back at the end of the joined line |
| Splices.BackslashStays | tools/cyr_scan.py:151-166 | a backslash before anything else stays |
| Splices.SplicedKeepsNewlines | tools/cyr_scan.py:141-167 | splicing keeps the number of newlines |
| Splices.LinesAreIndependent | tools/cyr_scan.py:141-167 | what a line becomes does not depend on what follows it |

## Left out

- The errno-name table (`dbus_session_map_error`): an unspecified function of the name, assumed negative.
- `TakeControl`, `ReleaseControl` and `ReleaseDevice` of the native backend: each is a call and its status.
- `GetSessionByPID` of the native backend: a call, whose reply's `o` body, object path and length are checked before the path is copied out, much as Hello's name is.
- Connecting the socket and building its address, and the bytes of the SASL request: the results are parameters.
- Allocation failures and the flags that say a module's memory is ready; scratch memory and its wiping.
- Reading the function table's slots anew at each call: a table is a value here, and its slots are filled or not.
- Wall-clock termination: the loops end because the tapes of results do. That each poll waits for a positive time is a precondition of `Poll`.
- Two parts of one receive are modelled apart: `Session` takes its descriptors from `Kernel.Socket.Recv`, and `Cmsg` shows how the control buffer gives them.
- The memory a decoder reads is a sequence from the message's first byte on; the seen mask of `validate` is a set of codes.
- The words of directives, the arity counts of the lexer, and what a letter or digit is, which is a parameter.
- The libsystemd shim, the other tools, packaging, and device semantics past the descriptor.
