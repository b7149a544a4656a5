# Verified models of netty-lib

This project models four parts of the library and of the code it ships with, and proves what they
promise. `dafny verify dfyconfig.toml` checks it.

**Text conversion** (`Octets`, `Bits`, `Unicode`, `Scan`, `ConvertUtf`, `Conversions`, `UtfTheorems`, `UtfLimits`,
`UtfErrors`, `UtfReports`). The six
buffer-to-buffer loops between UTF-8, UTF-16 and UTF-32, with their tables, fall-through switches and
back-ups, are methods over arrays and cursors. `Unicode` holds the independent definition: the grammar of
section 4 of RFC 3629 and the surrogate pairs of section 2 of RFC 2781. One scan, character by character,
specifies all six loops; the theorems are about that scan.

**UDT socket manager** (`Ordered`, `UdtState`, `UdtInvariant`, `UdtSteps`, `UdtHandshake`, `UdtCollect`,
`UdtTheorems`, `UdtLosses`, `UdtQueues`, `UdtLaws`, `UdtEndings`, `UdtWitness`, `UdtManager`). The manager is a state machine over the maps of open and closed sockets, the peer
record, the accept queues and the counted multiplexers. Every API call, handshake, garbage collection and the
shutdown is one transition; the class `CUDTUnited` implements each in place. The theorems hold in every state
of every run in which callers accept and close only what they may.

**Line editor** (`Brackets`, `BracketLaws`, `KillRings`, `LineSpans`, `Completions`, `LineEdits`, `InputBuffers`,
`LineLaws`, `LineTheorems`). The input buffer is an array with a length and a cursor, edited by `memmove`; every editing
command, the kill ring with its index table, the tab completion and the bracket scan are proved equal to edits
of the text before and after the cursor.

**Send pipeline and pools** (`Numbers`, `WriterQueues`, `WriterPoolState`, `WriterPoolTheorems`, `WriterLaws`, `WriterPools`,
`ServiceState`, `ServiceLaws`, `Services`, `SocketPoolState`, `SocketPools`, `DeferredState`, `ConnectingPools`, `Framing`,
`FramingLaws`).
Output queues with partial sends, the pool of writers with its 64-bit byte counter, the send loops of client
and server, the socket pool with its re-used slots, deferred connections, and the envelopes of the remote file
protocol. What sockets answer is a script that the theorems quantify over.

The modules whose names end in `Laws`, `UtfErrors` and `UdtEndings` say what each operation does in terms of its own: code points,
bytes, positions, and the fields of a socket or an account.

What comes from outside is an argument of the step it affects: the clock, whether a channel opens, whether
`CUDT::connect` succeeds, which closed sockets are old enough to be deleted, the answers of sockets, the completions the
callback proposes, which characters count as alphanumeric, and the order in which an unordered map is visited.

Where the code and its documentation part, the model follows the code, and a lemma says exactly when they agree:

- The legality check accepts a second byte below 0x80 after the leads 0xED and 0xF4 (`UtfLimits.BytesComeBack`,
  `UtfLimits.LooseBytes`).
- A conversion from UTF-32 consumes a value above 0x10FFFF and goes on, with either flag, and reports it only if the target
  then has room for the rest (`UtfReports.PointsAtIllegal`, `UtfReports.ReportsExactly`, `UtfReports.OverlargeConsumed`); a lenient
  one to UTF-16 replaces it. A strict conversion in pieces may so let ill-formed text by without any report
  (`UtfReports.ReportLost`, `UtfReports.LostInPieces`, `UtfReports.LostWhenStrict`).
- A lenient call from UTF-16 puts out an unpaired high surrogate once it has seen the unit behind it, so that it may stop
  where the consumed text alone would not have come this far (`UtfTheorems.BoundaryExactly`, `UtfTheorems.OffBoundary`).
- A handshake that fails after it was given its multiplexer keeps the reference, and its object is lost
  (`UdtLosses.ReferencesExact`, `UdtLosses.NothingLost`, `UdtLosses.RolledBackForGood`, `UdtWitness.CountedTwice`).
- A handshake counts as a repeat if its id and sequence number give the key of a connection that stands, though the key
  keeps only two bits of the id (`UdtTheorems.AnsweredExactly`, `UdtWitness.AnsweredForAnother`).
- accept uses the connection it has taken from the queue without asking whether the lookup found it
  (`UdtQueues.AcceptedIsLocated`, `UdtWitness.AcceptUnlocated`).
- The bracket scan takes any character with the low byte of a bracket, or a zero low byte, for a bracket
  (`Brackets.MatchIsMutual`).
- A kill that takes nothing still makes the next one join the text killed last, so that a yank does not
  restore the line (`LineTheorems.KillYankExact`, `LineTheorems.EmptyKillSpoils`).
- The byte counter of the writer pool keeps the bytes of removed accounts (`WriterPoolTheorems.CounterExact`,
  `WriterPoolTheorems.CounterKeepsDropped`).
- An empty message blocks the queue of a service for good (`ServiceState.DrainsExactly`), and one peer that cannot be
  written holds up the peers after it (`ServiceState.ServedExactly`, `ServiceState.OneHoldsUpTheRest`).
- Two deferred connects with one deadline are one (`DeferredState.DroppedExactly`).
- The size of a packet is added up in 32 bits (`Framing.CompleteExactly`).

## Model

| member | source | states |
|---|---|---|
| Bits.ContinuationByte | demo/shared/linenoise-ng/ConvertUTF.cpp:271-273 | for every value, or-ing in 0x80 and masking with 0xBF leaves a continuation byte with the low six bits |
| Bits.LeadByte | demo/shared/linenoise-ng/ConvertUTF.cpp:274 | or-ing the mark of a sequence into the bits left for its lead byte adds the mark |
| Bits.LowTenBits | demo/shared/linenoise-ng/ConvertUTF.cpp:99-101 | masking with 0x3FF keeps the low ten bits of a supplementary character |
| ConvertUtf.AccumulatedValue | demo/shared/linenoise-ng/ConvertUTF.cpp:191-192 | for every sequence the length check lets by, the shifted sum of the bytes less the table offset, in 32-bit arithmetic that wraps, is the character number that RFC 3629 section 3 defines |
| ConvertUtf.ReadSequence | demo/shared/linenoise-ng/ConvertUTF.cpp:356-365 | the fall-through reading switch leaves the running sum and moves the cursor past the sequence |
| ConvertUtf.WriteSequence | demo/shared/linenoise-ng/ConvertUTF.cpp:429-454 | writing backwards from the end of the room puts the UTF-8 encoding of the value at the target cursor and changes no other byte |
| Scanning.AcceptedExactly | demo/shared/linenoise-ng/ConvertUTF.cpp:296-319 | the legality check, with the length the lead byte announces, accepts the characters of RFC 3629 section 4 and those with lead 0xED or 0xF4 and a second byte below 0x80, and nothing else |
| Scanning.AcceptedIsScalar | demo/shared/linenoise-ng/ConvertUTF.cpp:366-391 | whatever the check accepts decodes to a value up to 0x10FFFF that is no surrogate, so the replacement and illegal branches behind it are never taken |
| Conversions.ConvertUTF32toUTF16 | demo/shared/linenoise-ng/ConvertUTF.cpp:62-107 | the in-place loop ends with the cursors, the result code and the target of the character-by-character scan; nothing outside the written part of the target changes |
| Conversions.ConvertUTF16toUTF32 | demo/shared/linenoise-ng/ConvertUTF.cpp:111-164 | the same for this pair of forms, with the back-up of the source on a full target and on an unpaired surrogate |
| Conversions.ConvertUTF16toUTF8 | demo/shared/linenoise-ng/ConvertUTF.cpp:215-281 | the same for this pair of forms |
| Conversions.ConvertUTF8toUTF16 | demo/shared/linenoise-ng/ConvertUTF.cpp:337-406 | the same for this pair of forms, with the legality check in front |
| Conversions.ConvertUTF32toUTF8 | demo/shared/linenoise-ng/ConvertUTF.cpp:410-459 | the same for this pair of forms; an overlarge value is written as U+FFFD and flagged |
| Conversions.ConvertUTF8toUTF32 | demo/shared/linenoise-ng/ConvertUTF.cpp:463-521 | the same for this pair of forms |
| Unicode.CharIsEncoded | demo/shared/linenoise-ng/ConvertUTF.cpp:411-454 | every character of a form, by the grammar of RFC 3629 section 4 or RFC 2781 section 2, is the encoding of exactly the scalar value it carries |
| Unicode.Examples | demo/shared/linenoise-ng/ConvertUTF.cpp:411-454 | the encodings are those of the examples of section 7 of RFC 3629 and section 5 of RFC 2781 |
| UtfTheorems.RoundTrip | demo/shared/linenoise-ng/ConvertUTF.cpp:410-521 | for every two forms and every well-formed text, converting there and back succeeds and gives the same text |
| UtfTheorems.Commutes | demo/shared/linenoise-ng/ConvertUTF.cpp:111-164 | for every three forms, the direct conversion of well-formed text equals the one through the third form |
| UtfTheorems.EncodedScan | demo/shared/linenoise-ng/ConvertUTF.cpp:62-521 | text that encodes a list of scalar values comes out as the encoding of that list, with no complaint, as soon as the target has room for it |
| UtfTheorems.Resume | demo/shared/linenoise-ng/ConvertUTF.cpp:346-370 | for any source at all, cut anywhere, and any room: converting what a call left over completes its output and its consumption to those of one call; what the calls report is the matter of UtfReports |
| UtfTheorems.SittingIsPart | demo/shared/linenoise-ng/ConvertUTF.cpp:265-269 | however a conversion is cut into calls, what has been put out and what is left make up the whole |
| UtfTheorems.SittingIsWhole | demo/shared/linenoise-ng/ConvertUTF.cpp:394-397 | a series of calls that has consumed the source has put out exactly what one call puts out |
| UtfTheorems.PieceGetsOn | demo/shared/linenoise-ng/ConvertUTF.cpp:443-447 | a call with room for the next character gets on unless the source itself stops it |
| UtfTheorems.WellFormedGetsOn | demo/shared/linenoise-ng/ConvertUTF.cpp:472-496 | and well-formed source never does |
| UtfTheorems.SittingArrives | demo/shared/linenoise-ng/ConvertUTF.cpp:345-406 | a series of calls that each show the next character and have room for it comes to the end of well-formed source in no more calls than the source has units |
| UtfTheorems.CutsBetweenChars | demo/shared/linenoise-ng/ConvertUTF.cpp:346-349 | however source and target are cut, a call consumes whole characters of well-formed source and leaves whole characters |
| UtfTheorems.StopsOnBoundary | demo/shared/linenoise-ng/ConvertUTF.cpp:136-152 | at a stop the output is the conversion of exactly the consumed source, if and only if the last consumed unit is no high surrogate |
| UtfTheorems.StrictOnBoundary | demo/shared/linenoise-ng/ConvertUTF.cpp:241-246 | so it is at every stop of a strict call and of a call from another form, for any source and room |
| UtfTheorems.WellFormedOnBoundary | demo/shared/linenoise-ng/ConvertUTF.cpp:136-152 | so it is at every stop on well-formed source, and what is consumed and what is left are well formed |
| UtfTheorems.BoundaryExactly | demo/shared/linenoise-ng/ConvertUTF.cpp:228-252 | so it is with every room if and only if the source is not UTF-16 read leniently with an unpaired high surrogate before its last unit |
| UtfTheorems.OffBoundary | demo/shared/linenoise-ng/ConvertUTF.cpp:128-152 | D800 0041 with room for one unit is such a call: it puts out D800, which the consumed unit alone would not have given |
| UtfLimits.OutputIsWellFormed | demo/shared/linenoise-ng/ConvertUTF.cpp:62-521 | whatever the source, strict calls, calls from UTF-8 and calls from UTF-32 to UTF-16 put out whole characters |
| UtfLimits.AcceptsExactly | demo/shared/linenoise-ng/ConvertUTF.cpp:131-148 | a strict call from UTF-16 or UTF-32 succeeds if and only if the source is well formed |
| UtfLimits.AcceptsBytes | demo/shared/linenoise-ng/ConvertUTF.cpp:350-353 | a call from UTF-8 succeeds if and only if the source is a run of sequences the check accepts |
| UtfLimits.BytesComeBack | demo/shared/linenoise-ng/ConvertUTF.cpp:304-313 | accepted bytes come back from UTF-32 unchanged if and only if they are UTF-8 |
| UtfLimits.LooseBytes | demo/shared/linenoise-ng/ConvertUTF.cpp:304-313 | the bytes ED 00 80 are accepted, and decoded to U+B000, though they are no UTF-8 |
| UtfErrors.BytesEndExactly | demo/shared/linenoise-ng/ConvertUTF.cpp:345-353 | with ample room, a call from UTF-8 is reported illegal if and only if a run of legal sequences is followed by bytes that are all there and are none, and exhausted if and only if it is followed by a sequence that is cut off; in both cases it stops behind the run |
| UtfErrors.WordsEndExactly | demo/shared/linenoise-ng/ConvertUTF.cpp:119-148 | with ample room, a strict call from UTF-16 is reported illegal if and only if whole characters are followed by a surrogate without its partner, and exhausted if and only if they are followed by a high surrogate that ends the source; it stops behind the characters |
| UtfErrors.LenientWordsEnd | demo/shared/linenoise-ng/ConvertUTF.cpp:122-140 | a lenient call from UTF-16 is never reported illegal, and is exhausted if and only if its last unit is a high surrogate |
| UtfErrors.RoomDecides | demo/shared/linenoise-ng/ConvertUTF.cpp:443-447 | from UTF-8 and UTF-16, with any room: a call ends as with ample room if the target holds all that call puts out, and is reported exhausted otherwise |
| UtfErrors.AsManyAsFit | demo/shared/linenoise-ng/ConvertUTF.cpp:443-447 | with too little room for a text, as many of its characters are put out as fit, and just these are consumed |
| UtfErrors.LenientIsMended | demo/shared/linenoise-ng/ConvertUTF.cpp:76-92 | converting UTF-32 to UTF-16 leniently is converting it strictly once every value that no character has is replaced by U+FFFD |
| UtfErrors.OthersPutOut | demo/shared/linenoise-ng/ConvertUTF.cpp:419-441 | what the other calls put out for such a value: EF BF BD for one above 0x10FFFF, a lone surrogate as it is |
| UtfErrors.HighPutOut | demo/shared/linenoise-ng/ConvertUTF.cpp:229-242 | a lenient call puts out a high surrogate without a low one behind it as it is, and goes on behind it |
| UtfErrors.NoRoomAtAll | demo/shared/linenoise-ng/ConvertUTF.cpp:70-73 | to UTF-16 a full target is reported before the value is looked at, to UTF-8 a surrogate is reported first |
| UtfErrors.ThreeOrNone | demo/shared/linenoise-ng/ConvertUTF.cpp:438-447 | a value above 0x10FFFF takes three bytes of UTF-8 or nothing |
| UtfReports.ReportsExactly | demo/shared/linenoise-ng/ConvertUTF.cpp:70-104 | for any flags, target form and room, a call from UTF-32 is reported illegal if and only if the source holds a value that its flags and target form make illegal and the target has the room the call needs; without that room it is reported exhausted instead, even if the illegal value has been consumed |
| UtfReports.ExhaustedExactly | demo/shared/linenoise-ng/ConvertUTF.cpp:443-447 | for every pair of forms, a call is reported exhausted if and only if the target has less room than the source needs, up to its end or to the unit that stops the call |
| UtfReports.SittingReports | demo/shared/linenoise-ng/ConvertUTF.cpp:70-92 | a series of calls from UTF-32 reports an illegal value if and only if one of those that were given one does not end for want of room |
| UtfReports.ReportLost | demo/shared/linenoise-ng/ConvertUTF.cpp:70-92 | a series of calls that has consumed the source has reported nothing if and only if every call that took an illegal value ended for want of room |
| UtfReports.FirstReport | demo/shared/linenoise-ng/ConvertUTF.cpp:70-92 | no call of a series reports an illegal value before the call that takes the first one, and that call reports it unless it ends for want of room |
| UtfReports.LostInPieces | demo/shared/linenoise-ng/ConvertUTF.cpp:438-447 | with either flag, 0x110000 0x41 on its way to UTF-8 with room for three bytes at a time goes unreported, though one call with more room reports it |
| UtfReports.LostWhenStrict | demo/shared/linenoise-ng/ConvertUTF.cpp:70-92 | strict calls to UTF-16 with room for one unit at a time consume 0x110000 0x41 0x42, which is not well formed, without a report |
| UtfReports.PointsAtIllegal | demo/shared/linenoise-ng/ConvertUTF.h:70-74 | for any flags, target form and room, a call from UTF-32 that reports an illegal value leaves the source at the first one, as documented, if and only if that is a surrogate |
| UtfReports.PointsAtMalformed | demo/shared/linenoise-ng/ConvertUTF.h:70-74 | from the other forms it always stops there |
| UtfReports.OverlargeConsumed | demo/shared/linenoise-ng/ConvertUTF.cpp:438-441 | with either flag, 0x110000 on its way to UTF-8 is reported with the source behind it |
| UdtManager.CUDTUnited.constructor | src/udt/newlib/api.cpp:120-160 | the manager starts with empty maps and the given id seed, in a state that satisfies the invariant |
| UdtManager.CUDTUnited.Locate | src/udt/newlib/api.cpp:1202-1212 | finds exactly the open sockets that are not CLOSED |
| UdtManager.CUDTUnited.LocateByPeer | src/udt/newlib/api.cpp:1214-1234 | the loop over the ordered peer record returns the smallest open id of the peer |
| UdtManager.CUDTUnited.NewSocket | src/udt/newlib/api.cpp:262-314 | one new object in INIT under the next lower id, or a refusal of the socket type that changes nothing; the invariant is kept |
| UdtManager.CUDTUnited.UpdateMux | src/udt/newlib/api.cpp:1452-1521 | shares the first reusable multiplexer of the port or makes one of its own; on failure nothing changes |
| UdtManager.CUDTUnited.ShareListenerMux | src/udt/newlib/api.cpp:1523-1542 | takes a reference to the first multiplexer on the port of the listener |
| UdtManager.CUDTUnited.Bind | src/udt/newlib/api.cpp:501-584 | the transition of bind to an address or to a system socket, with the refusal of an address of the wrong size, invariant kept |
| UdtManager.CUDTUnited.Listen | src/udt/newlib/api.cpp:586-636 | the transition of listen, with all of its refusals |
| UdtManager.CUDTUnited.NewConnection | src/udt/newlib/api.cpp:316-464 | the transition of a handshake: replay, replacement of a broken connection, backlog, establishment, rollback |
| UdtManager.CUDTUnited.Accept | src/udt/newlib/api.cpp:638-750 | hands out the first queued connection and moves it to the accepted set |
| UdtManager.CUDTUnited.Connect | src/udt/newlib/api.cpp:752-822 | the transition of connect, with its refusals, that of an address of the wrong size among them, and its way back to OPENED |
| UdtManager.CUDTUnited.ConnectComplete | src/udt/newlib/api.cpp:824-846 | the transition to CONNECTED |
| UdtManager.CUDTUnited.Close | src/udt/newlib/api.cpp:848-912 | a listener is only marked broken; any other socket becomes CLOSED and moves to the closed map |
| UdtManager.CUDTUnited.CheckBrokenSockets | src/udt/newlib/api.cpp:1236-1316 | the loops over both maps do what one collection does to the state |
| UdtManager.CUDTUnited.RemoveSocket | src/udt/newlib/api.cpp:1318-1386 | deletes one closed socket, closes what it had queued, and gives up its references |
| UdtManager.CUDTUnited.Shutdown | src/udt/newlib/api.cpp:1569-1608 | every open socket is closed and leaves the queues |
| UdtLaws.NewSocketLaw | src/udt/newlib/api.cpp:262-314 | on every run, newSocket adds one open object in INIT under the next lower id, with every field as listed, and changes nothing else |
| UdtLaws.BindLaw | src/udt/newlib/api.cpp:501-538 | on every run, bind changes open sockets in INIT only: the first multiplexer of the same port, IP version and packet size that allows it gets one more reference, or the socket gets one of its own; it is OPENED, with the port of its multiplexer |
| UdtLaws.ListenLaw | src/udt/newlib/api.cpp:586-636 | on every run, listen gives exactly the open, opened sockets without rendezvous and with a positive backlog their queues |
| UdtLaws.AcceptLaw | src/udt/newlib/api.cpp:638-750 | on every run, accept moves the first connection of the queue of an open, unbroken listener to the accepted set, and changes nothing else |
| UdtLaws.ConnectLaw | src/udt/newlib/api.cpp:752-822 | on every run, connect leaves a socket CONNECTED, CONNECTING or OPENED as the attempt comes out, with the port of its multiplexer once connected |
| UdtLaws.ConnectCompleteLaw | src/udt/newlib/api.cpp:824-846 | on every run, connect_complete makes an open socket CONNECTED, with the port of its multiplexer |
| UdtLaws.CloseLaw | src/udt/newlib/api.cpp:848-912 | on every run, close marks a listener broken and leaves it open; any other open socket becomes CLOSED and goes over to the closed map; nothing else changes |
| UdtLaws.BreakLaw | src/udt/newlib/core.cpp:2466-2488 | a connection that the core protocol finds broken is marked so, and nothing else changes |
| UdtLaws.HandshakeLaw | src/udt/newlib/api.cpp:316-464 | on every run: what stands, gives way, enters the queue under the next lower id, or falls back, with every field of the new connection |
| UdtLaws.CodeExactly | src/udt/newlib/api.cpp:316-464 | the code is 1 if and only if a new connection has entered |
| UdtEndings.CollectLaw | src/udt/newlib/api.cpp:1236-1386 | on every run, a collection deletes exactly the old closed and broken sockets, closes the other broken ones and what a deleted listener had queued, and leaves every other socket open |
| UdtEndings.ShutdownLaw | src/udt/newlib/api.cpp:1569-1608 | on every run, the shutdown breaks and closes every open socket and empties every queue |
| UdtEndings.ClosedIsDeleted | src/udt/newlib/api.cpp:848-1320 | a socket that is closed is deleted by the second collection from then on, if the first keeps nothing back and the second finds it old enough |
| UdtTheorems.StepKeeps | src/udt/newlib/api.cpp:262-1316 | each call, handshake, collection and shutdown keeps the invariant on the two maps, the queues, the peer record and the multiplexers |
| UdtTheorems.RunKeeps | src/udt/newlib/api.cpp:262-1316 | so the invariant holds in every state of every permitted run |
| UdtTheorems.OneConnectionPerPeer | src/udt/newlib/api.cpp:326-353 | in every reachable state at most one unbroken accepted socket stands for a peer address and key, and no open one of its group has a smaller id |
| UdtTheorems.LookupUnbroken | src/udt/newlib/api.cpp:1214-1234 | the lookup of a peer finds its unbroken connection |
| UdtTheorems.RepeatedHandshake | src/udt/newlib/api.cpp:340-349 | in every reachable state a repeated handshake is answered from the existing connection and changes nothing |
| UdtTheorems.AnsweredExactly | src/udt/newlib/api.cpp:325-353 | in every reachable state a handshake is answered from an existing connection, and then changes nothing, if and only if the listener is located and an unbroken connection accepted from that address has an id and a sequence number that agree in id * 2^30 + number modulo 2^32 |
| UdtWitness.AnsweredForAnother | src/udt/newlib/api.cpp:1218 | a run after which a first handshake with the id 4 is answered from the connection of the id 0 |
| UdtHandshake.LookupFinds | src/udt/newlib/api.cpp:1222-1231 | the lookup misses only peers all of whose accepted sockets are broken or gone |
| UdtTheorems.MultiplexerAlive | src/udt/newlib/api.cpp:1362-1385 | in every reachable state the multiplexer a socket names is alive and counts at least the sockets that carry it |
| UdtLosses.ReferencesExact | src/udt/newlib/api.cpp:1452-1542 | in every reachable state a multiplexer counts exactly the sockets that carry it if and only if no handshake that took a reference to it then failed in CUDT::connect |
| UdtWitness.CountedTwice | src/udt/newlib/api.cpp:390-402 | a run in which one failed handshake leaves a multiplexer that counts two sockets and carries one, and an id without an object |
| UdtTheorems.StepLater | src/udt/newlib/api.cpp:285-300 | no step raises an id, re-uses one, undoes CLOSED or broken, or loses a socket without deleting it |
| UdtTheorems.SocketsEndOnce | src/udt/newlib/api.cpp:883-902 | over any run and any extension of it: CLOSED is final, a deleted socket stays deleted, nothing is deleted or handed out twice |
| UdtTheorems.OnlyClosedAreFreed | src/udt/newlib/api.cpp:1309-1320 | only a collection deletes, and only sockets that are closed or that this collection closes |
| UdtTheorems.QueuedConnections | src/udt/newlib/api.cpp:356-357 | queued and accepted sets are disjoint, the queue is within the backlog, and what is queued is open, belongs to the listener and was never handed out |
| UdtTheorems.AcceptIsFresh | src/udt/newlib/api.cpp:672-678 | accept hands out a connection it never handed out before, the newest of those queued |
| UdtQueues.AcceptedIsLocated | src/udt/newlib/api.cpp:738-746 | the connection that accept hands out, and then looks up, is found if and only if no handshake of the run has replaced it; such a handshake was at another listener |
| UdtQueues.ClosedExactly | src/udt/newlib/api.cpp:350-366 | in every reachable state an open socket is CLOSED if and only if a handshake of the run has replaced it |
| UdtWitness.AcceptUnlocated | src/udt/newlib/api.cpp:738-746 | a run of two listeners in which accept hands out a connection that the lookup does not find |
| UdtQueues.QueuedAreFound | src/udt/newlib/api.cpp:1329-1349 | in the midst of any collection on any reachable state, whatever is left in the queue of the next socket to be deleted is a key of the open sockets |
| UdtCollect.ShutdownEmpties | src/udt/newlib/api.cpp:1573-1602 | after the shutdown no socket is open and no listener queue holds anything |
| UdtCollect.DrainEnds | src/udt/newlib/api.cpp:1608-1626 | a collection that finds every closed socket old enough ends the final drain: all objects are deleted, and only multiplexers owed to rolled-back handshakes remain |
| UdtLosses.NothingLost | src/udt/newlib/api.cpp:379-452 | in every reachable state every id ever given out belongs to a live object or a deleted one if and only if no handshake of the run was rolled back |
| UdtLosses.RolledBackForGood | src/udt/newlib/api.cpp:390-452 | whatever follows a rolled-back handshake, with or without a replaced connection: its object is neither kept nor deleted, and its multiplexer stays alive and counts more sockets than carry it |
| Brackets.FindMatch | demo/shared/linenoise-ng/linenoise.cpp:1209-1271 | the scan highlights the nearest position at which the brackets of the kind come out even, or nothing if there is none, and flags exactly the uneven other brackets |
| Brackets.MatchIsMutual | demo/shared/linenoise-ng/linenoise.cpp:1240-1270 | if the scan from i finds j, the scan from j finds i with the same flag, if and only if there is a bracket at i |
| Brackets.MatchEnd | demo/shared/linenoise-ng/linenoise.cpp:1243-1257 | a match ends on a bracket of the same kind and the other side |
| Brackets.MatchIsUnique | demo/shared/linenoise-ng/linenoise.cpp:1264-1268 | a position has one match at most |
| Brackets.FalseBracket | demo/shared/linenoise-ng/linenoise.cpp:1216-1226 | U+0129 passes for a closing parenthesis, finds an opening one, and is not found from there |
| BracketLaws.MatchLaw | demo/shared/linenoise-ng/linenoise.cpp:1212-1271 | from an opening bracket the match is the nearest position up to which as many closing as opening brackets of the kind stand, and likewise from a closing one to the left |
| BracketLaws.FlagLaw | demo/shared/linenoise-ng/linenoise.cpp:1243-1267 | the match of a bracket is flagged if and only if strictly between the two the other characters that look opening are not as many as those that look closing |
| BracketLaws.BalancedLine | demo/shared/linenoise-ng/linenoise.cpp:1243-1267 | "([])" is matched and not flagged |
| BracketLaws.UnbalancedLine | demo/shared/linenoise-ng/linenoise.cpp:1243-1267 | "(])" is matched and flagged |
| KillRings.KillRing.Kill | demo/shared/linenoise-ng/linenoise.cpp:799-838 | the index table stays a permutation and the ring does what a list of at most ten texts, newest first, does |
| KillRings.KillRing.Yank | demo/shared/linenoise-ng/linenoise.cpp:840 | returns the current text of that list |
| KillRings.KillRing.YankPop | demo/shared/linenoise-ng/linenoise.cpp:842-850 | turns that list by one |
| KillRings.RotatedInOrder | demo/shared/linenoise-ng/linenoise.cpp:829-833 | re-using the slot of the oldest text drops it and puts the new one in front |
| InputBuffers.InputBuffer.constructor | demo/shared/linenoise-ng/linenoise.cpp:2527-2528 | an empty line, and a kill ring in its neutral mode |
| InputBuffers.InputBuffer.MoveToStart | demo/shared/linenoise-ng/linenoise.cpp:2613-2618 | the in-place command does the list edit at the cursor; length, terminator and ring stay in order |
| InputBuffers.InputBuffer.MoveLeft | demo/shared/linenoise-ng/linenoise.cpp:2620-2627 | the same |
| InputBuffers.InputBuffer.MoveLeftByWord | demo/shared/linenoise-ng/linenoise.cpp:2629-2644 | the same |
| InputBuffers.InputBuffer.AbortLine | demo/shared/linenoise-ng/linenoise.cpp:2645-2656 | the same, and the editor is left with -1 |
| InputBuffers.InputBuffer.CapitalizeWord | demo/shared/linenoise-ng/linenoise.cpp:2658-2682 | the same |
| InputBuffers.InputBuffer.DeleteRight | demo/shared/linenoise-ng/linenoise.cpp:2684-2696 | the same; the editor is left if and only if the line is empty |
| InputBuffers.InputBuffer.KillWordRight | demo/shared/linenoise-ng/linenoise.cpp:2698-2717 | the same, and the killed text goes to the ring |
| InputBuffers.InputBuffer.MoveToEnd | demo/shared/linenoise-ng/linenoise.cpp:2719-2724 | the same |
| InputBuffers.InputBuffer.MoveRight | demo/shared/linenoise-ng/linenoise.cpp:2726-2733 | the same |
| InputBuffers.InputBuffer.MoveRightByWord | demo/shared/linenoise-ng/linenoise.cpp:2735-2749 | the same |
| InputBuffers.InputBuffer.RubOut | demo/shared/linenoise-ng/linenoise.cpp:2751-2761 | the same |
| InputBuffers.InputBuffer.KillWordLeft | demo/shared/linenoise-ng/linenoise.cpp:2764-2782 | the same, and the killed text goes to the ring |
| InputBuffers.InputBuffer.AcceptLine | demo/shared/linenoise-ng/linenoise.cpp:2783-2793 | the same, and the editor is left with the length of the line |
| InputBuffers.InputBuffer.KillToEnd | demo/shared/linenoise-ng/linenoise.cpp:2795-2802 | the same |
| InputBuffers.InputBuffer.LowercaseWord | demo/shared/linenoise-ng/linenoise.cpp:2808-2824 | the same |
| InputBuffers.InputBuffer.TransposeChars | demo/shared/linenoise-ng/linenoise.cpp:2872-2883 | the same |
| InputBuffers.InputBuffer.KillToStart | demo/shared/linenoise-ng/linenoise.cpp:2885-2896 | the same |
| InputBuffers.InputBuffer.UppercaseWord | demo/shared/linenoise-ng/linenoise.cpp:2898-2914 | the same |
| InputBuffers.InputBuffer.KillToBlank | demo/shared/linenoise-ng/linenoise.cpp:2916-2934 | the same |
| InputBuffers.InputBuffer.YankText | demo/shared/linenoise-ng/linenoise.cpp:2936-2963 | the same; a text that does not fit is cut |
| InputBuffers.InputBuffer.YankPop | demo/shared/linenoise-ng/linenoise.cpp:2965-3000 | the same, whichever part is moved first |
| InputBuffers.InputBuffer.InsertChar | demo/shared/linenoise-ng/linenoise.cpp:3053-3094 | the same; control characters and unknown keys are refused |
| InputBuffers.InputBuffer.CompleteLine | demo/shared/linenoise-ng/linenoise.cpp:1951-2025 | the completion replaces the item before the cursor as the list edit says |
| InputBuffers.CopyString32 | demo/shared/linenoise-ng/linenoise.cpp:258-265 | copies up to the first zero, then terminates, and leaves the rest alone |
| InputBuffers.InputBuffer.Press | demo/shared/linenoise-ng/linenoise.cpp:2612-3095 | each key leads to its command; ctrl-C, ctrl-M and ctrl-D on an empty line leave the editor, and no other key does |
| InputBuffers.InputBuffer.GetInputLine | demo/shared/linenoise-ng/linenoise.cpp:2540-3096 | any sequence of keys takes the buffer to where the list edits take the line; the loop ends with the first key that leaves the editor, or at the end of the input, and returns the length of the line or -1 accordingly |
| LineEdits.DoKeepsGood | demo/shared/linenoise-ng/linenoise.cpp:2613-3094 | every command keeps the line within the buffer, free of zeros, and the last yank in front of the cursor |
| LineLaws.MoveLaw | demo/shared/linenoise-ng/linenoise.cpp:2613-2733 | ctrl-A, B, E and F go to the start, back by one, to the end and on by one; ctrl-C and ctrl-M to the end |
| LineLaws.WordMoveLaw | demo/shared/linenoise-ng/linenoise.cpp:2629-2749 | meta-F goes to the end of the next word, meta-B to the start of the one before |
| LineLaws.CaseLaw | demo/shared/linenoise-ng/linenoise.cpp:2808-2914 | meta-U and meta-L make the letters of the next word capitals and small, by their code points, change nothing else, and go to the end of the word |
| LineLaws.CapitalLaw | demo/shared/linenoise-ng/linenoise.cpp:2658-2682 | meta-C makes the first letter of the next word a capital and the others small, changes nothing else, and goes to its end |
| LineLaws.DeleteLaw | demo/shared/linenoise-ng/linenoise.cpp:2684-2761 | ctrl-D deletes the character at the cursor and ctrl-H the one before it |
| LineLaws.TransposeLaw | demo/shared/linenoise-ng/linenoise.cpp:2872-2883 | ctrl-T exchanges the characters on both sides of the cursor and goes on by one, or exchanges the last two |
| LineLaws.InsertLaw | demo/shared/linenoise-ng/linenoise.cpp:3053-3094 | a character without control or meta bit that is no control character is put in at the cursor if there is room, and no other |
| LineLaws.KillLaw | demo/shared/linenoise-ng/linenoise.cpp:2698-2934 | which stretch of the text each of the five kills takes, and that the ring takes it: joined to the newest text after a kill, otherwise in front, of at most ten |
| LineLaws.YankLaw | demo/shared/linenoise-ng/linenoise.cpp:2936-3000 | what ctrl-Y and meta-Y put in, in place of what, and which text of the ring is then current |
| LineLaws.TabLaw | demo/shared/linenoise-ng/linenoise.cpp:1951-2025 | the completion takes the place of what is behind the last break character, as far as all completions agree and the buffer has room, if that is longer |
| LineTheorems.KillThenYank | demo/shared/linenoise-ng/linenoise.cpp:2795-2963 | any run of kills after another action, whose first kill takes something or finds the ring empty, is undone by a yank, from every line |
| LineTheorems.KillYankExact | demo/shared/linenoise-ng/linenoise.cpp:799-838 | from every line, such a run is undone by the yank if and only if that is so or by chance: with the ring at its newest text, if the line fills the buffer and that text followed by what was taken ahead of the cursor also begins with it; with another text, if that is what was taken, or begins with it and the line fills the buffer |
| LineTheorems.KillYankWithRoom | demo/shared/linenoise-ng/linenoise.cpp:799-838 | with room left and the ring at its newest text there is no such chance |
| LineTheorems.EmptyKillSpoils | demo/shared/linenoise-ng/linenoise.cpp:808-822 | at the end of any line, with a text in the ring, ctrl-K, ctrl-U and ctrl-Y give the line with that text behind it |
| LineTheorems.PopReplaces | demo/shared/linenoise-ng/linenoise.cpp:2965-3000 | a yank-pop replaces exactly the text yanked last and leaves both sides alone |
| LineTheorems.YankPops | demo/shared/linenoise-ng/linenoise.cpp:2936-3000 | after a yank and n yank-pops the text n places on stands where the first one was yanked |
| LineTheorems.YankPopCycle | demo/shared/linenoise-ng/linenoise.cpp:842-850 | as many yank-pops as there are texts come back to the yank alone, truncated texts included |
| LineTheorems.MovesKeepText | demo/shared/linenoise-ng/linenoise.cpp:2613-2749 | cursor movements change neither the text nor the killed texts |
| LineTheorems.InsertThenRubOut | demo/shared/linenoise-ng/linenoise.cpp:2751-2761 | a character typed and rubbed out leaves the line as it was |
| LineTheorems.TransposeKeepsChars | demo/shared/linenoise-ng/linenoise.cpp:2872-2883 | exchanging characters keeps the multiset of characters; at the end of the line twice is nothing |
| LineTheorems.CompletionKeepsBothSides | demo/shared/linenoise-ng/linenoise.cpp:2005-2025 | a completion, cut short or not, leaves what is before the item and after the cursor, never shortens the item, and puts in a prefix common to all completions |
| LineTheorems.CompletionIsFinal | demo/shared/linenoise-ng/linenoise.cpp:2005-2025 | the same completions, if free of break characters, change nothing more the second time |
| Completions.LongestCommonPrefix | demo/shared/linenoise-ng/linenoise.cpp:1983-2001 | the nested loops find the longest common prefix |
| WriterQueues.WriterQueue.Enqueue | include/pfs/netty/writer_queue.hpp:44-50 | a message joins the end of the byte stream; an empty one is ignored |
| WriterQueues.WriterQueue.Empty | include/pfs/netty/writer_queue.hpp:68-71 | the queue is empty if and only if no byte is pending |
| WriterQueues.WriterQueue.GetFrame | include/pfs/netty/writer_queue.hpp:73-82 | a frame is a piece of the front of the stream |
| WriterQueues.WriterQueue.Shift | include/pfs/netty/writer_queue.hpp:84-91 | shifting takes so many bytes off the front of the stream, though never more than the front message has left |
| WriterQueues.FrameIsNext | include/pfs/netty/writer_queue.hpp:73-82 | a frame is empty if and only if nothing is pending or the frame size is zero |
| WriterQueues.ShiftErases | include/pfs/netty/service.hpp:328-332 | moving a cursor along is erasing the front message: the two kinds of queue stay the same queue |
| WriterPools.WriterPool.LocateAccount | include/pfs/netty/writer_pool.hpp:81-94 | an account is always its own, so the check that would terminate the program never fires |
| WriterPools.WriterPool.EnsureAccount | include/pfs/netty/writer_pool.hpp:96-111 | a new account is registered with the poller |
| WriterPools.WriterPool.Enqueue | include/pfs/netty/writer_pool.hpp:201-229 | the message joins the stream of its account and the 64-bit counter |
| WriterPools.WriterPool.Send | include/pfs/netty/writer_pool.hpp:113-171 | the loops over the accounts, each visiting every account once in any order, do what the passes do to the state, whatever the sockets answer |
| WriterPools.WriterPool.RemoveLater | include/pfs/netty/writer_pool.hpp:179-182 | the id is listed for removal and nothing else changes |
| WriterPools.WriterPool.ApplyRemove | include/pfs/netty/writer_pool.hpp:184-194 | the loop erases exactly the listed accounts, listed twice or unknown without harm |
| WriterPools.WriterPool.OnCanWrite | include/pfs/netty/writer_pool.hpp:72-77 | the callback makes its account writable |
| WriterPoolTheorems.StepKeeps | include/pfs/netty/writer_pool.hpp:96-229 | each call keeps: sent bytes and pending bytes of an account make up what was enqueued; an account not writable is watched; the counter is what was enqueued less what was sent, modulo 2^64 |
| WriterPoolTheorems.StreamsInOrder | include/pfs/netty/writer_pool.hpp:113-171 | so over every run, for any mix of partial sends, refusals and frame sizes |
| WriterPoolTheorems.VisitMoves | include/pfs/netty/writer_pool.hpp:136-167 | a send moves the bytes the socket took from the front of the stream to the end of what was sent, and touches no other account |
| WriterPoolTheorems.VisitConsequences | include/pfs/netty/writer_pool.hpp:127-157 | the next removal takes an account away if and only if it was listed before or its send failed; it waits to become writable again if and only if the socket refused |
| WriterPoolTheorems.CounterExact | include/pfs/netty/writer_pool.hpp:196-199 | over every run below 2^64 bytes the counter is at least what is pending, and is exactly that if and only if no removal of the run erased an account that had something to send |
| WriterPoolTheorems.CounterKeepsDropped | include/pfs/netty/writer_pool.hpp:184-194 | after one message to an account that is then removed, the counter keeps its size though nothing is pending |
| WriterPoolTheorems.CounterSuffices | include/pfs/netty/writer_pool.hpp:161 | the counter never falls below what a send takes from it |
| WriterPoolTheorems.QueueDrains | include/pfs/netty/writer_pool.hpp:113-171 | if the socket of an account takes something whenever it is visited, its queue is empty after no more passes than it has bytes, whatever the other sockets do |
| WriterLaws.AddLaw | include/pfs/netty/writer_pool.hpp:96-111 | a new account is empty, not writable and watched |
| WriterLaws.EnqueueLaw | include/pfs/netty/writer_pool.hpp:201-229 | a message that is not empty joins the end of what its account has pending; a new account has frames of 1500 bytes |
| WriterLaws.WritableLaw | include/pfs/netty/writer_pool.hpp:72-77 | after the callback the account is writable and no longer watched, its queue and frame size the same, and no other account or registration changes |
| WriterLaws.RemoveLaw | include/pfs/netty/writer_pool.hpp:179-194 | removal takes exactly the listed accounts and registrations |
| WriterLaws.VisitLaw | include/pfs/netty/writer_pool.hpp:127-167 | what a send makes of the account it visits, for every answer: so many bytes of the front message as the frame has and the socket takes are sent |
| WriterLaws.MessageArrives | include/pfs/netty/writer_pool.hpp:72-171 | from an empty pool: a message, the callback, and as many passes as it has bytes, in each of which the socket takes something, and all of it has been sent |
| Services.Requester.SendOutgoingData | include/pfs/netty/service.hpp:584-626 | the loop ends where the script of answers leads, and all that was queued is what was sent and what is left |
| Services.SendLoop | include/pfs/netty/service.hpp:321-358 | the loop of both sides, with the number of bytes it has sent |
| Services.Respondent.SendOutgoingData | include/pfs/netty/service.hpp:308-362 | the pass over the ordered map ends where the script of answers leads and returns the number of bytes sent |
| Services.Requester.Enqueue | include/pfs/netty/service.hpp:492-515 | the message joins the end of the stream, empty or not |
| Services.Respondent.Accept | include/pfs/netty/service.hpp:89-100 | a new requester can be written and has an empty queue; an id that is there already is refused |
| Services.Respondent.Enqueue | include/pfs/netty/service.hpp:207-215 | the message joins the stream of its requester |
| Services.Respondent.EnqueueBroadcast | include/pfs/netty/service.hpp:240-246 | every requester gets the message, once |
| ServiceState.SendingKeepsStream | include/pfs/netty/service.hpp:592-625 | whatever the answers, what was sent and what is left make up what was queued |
| ServiceState.StopDecides | include/pfs/netty/service.hpp:606-624 | a failure hands the peer over for removal, a refusal makes it wait until it can be written, and no other loop changes either |
| ServiceState.QueuesAgree | include/pfs/netty/service.hpp:321-337 | the queue that erases and the queue with cursors stay equal under any answers |
| ServiceState.ScriptIsLongEnough | include/pfs/netty/service.hpp:592-625 | once a loop has come to an end of its own, what follows in the script makes no difference |
| ServiceState.WholePass | include/pfs/netty/service.hpp:308-362 | a pass loses no byte of any requester, and its result counts exactly the bytes sent |
| ServiceState.BreaksExactly | include/pfs/netty/service.hpp:338-357 | a loop is broken off if and only if one of the answers it has used was a refusal or a failure |
| ServiceState.ServedExactly | include/pfs/netty/service.hpp:308-362 | the loop of a requester that has data and can be written is entered if and only if none of the answers used before it in the pass was a refusal or a failure; otherwise it is left as it was |
| ServiceState.OneHoldsUpTheRest | include/pfs/netty/service.hpp:313-321 | two requesters that can be written: one refusal, and the second is left alone |
| ServiceState.DrainsExactly | include/pfs/netty/service.hpp:592-606 | with sockets that always take something the queue runs empty if and only if it holds no empty message |
| ServiceState.EmptyMessageStays | include/pfs/netty/service.hpp:596-606 | an empty message at the front is never taken off |
| ServiceLaws.AnswerLaw | include/pfs/netty/service.hpp:325-357 | what one answer makes of a peer that has something to send, for every status |
| ServiceLaws.IdleLaw | include/pfs/netty/service.hpp:321 | a loop with nothing to send, or told to stop, does nothing |
| ServiceLaws.AnswersInTwo | include/pfs/netty/service.hpp:321-358 | a loop over answers is the loop over the first of them and then over the rest |
| ServiceLaws.TurnOfRequester | include/pfs/netty/service.hpp:315-321 | in a pass, a requester that cannot be written is skipped, and any other gets its loop |
| SocketPools.SocketPool.Add | include/pfs/netty/socket_pool.hpp:47-58 | the lowest free slot is re-used; the pool stays in order if and only if the id is fresh, and is then the map with the socket added |
| SocketPools.SocketPool.AddConnected | include/pfs/netty/socket_pool.hpp:85-88 | the same, for a connected socket |
| SocketPools.SocketPool.AddAccepted | include/pfs/netty/socket_pool.hpp:90-93 | the same, for an accepted one |
| SocketPools.SocketPool.LocateAccount | include/pfs/netty/socket_pool.hpp:60-79 | finds what the map holds; none of the three checks that would terminate the program can fail |
| SocketPools.SocketPool.Locate | include/pfs/netty/socket_pool.hpp:128-139 | returns the socket of the id and whether it was accepted |
| SocketPools.SocketPool.RemoveLater | include/pfs/netty/socket_pool.hpp:95-98 | the id is listed for removal; the map is as it was |
| SocketPools.SocketPool.ApplyRemove | include/pfs/netty/socket_pool.hpp:100-116 | takes exactly the listed ids out of the map, listed twice or unknown without harm |
| SocketPoolState.AddKeepsExactly | include/pfs/netty/socket_pool.hpp:47-58 | adding keeps every slot free or owned by exactly one id if and only if the id is fresh |
| SocketPoolState.AddInserts | include/pfs/netty/socket_pool.hpp:47-58 | with a fresh id, adding is inserting into the map |
| SocketPoolState.SlotLaw | include/pfs/netty/socket_pool.hpp:47-58 | a socket with a fresh id gets the lowest free slot, or one at the end if none is free; every other slot is as it was |
| SocketPoolState.RemovedAllIs | include/pfs/netty/socket_pool.hpp:103-112 | removing a list of ids is taking a set of keys out of the map |
| SocketPoolState.SlotsArePeak | include/pfs/netty/socket_pool.hpp:49-57 | over every run the slots are as many as the sockets that were ever live at once |
| ConnectingPools.ConnectingPool.Step | include/pfs/netty/connecting_pool.hpp:194-208 | the loop runs exactly what was due when the clock was read, in the order of the deadlines, looks at the front of the set only when there is one, and ends whatever the callbacks schedule |
| ConnectingPools.ConnectingPool.ConnectTimeout | include/pfs/netty/connecting_pool.hpp:177-189 | a timeout that is not positive connects at once; any other defers |
| DeferredState.DueIs | include/pfs/netty/connecting_pool.hpp:201-204 | the due items are those whose time has come, each once, by ascending time |
| DeferredState.StepRunsDue | include/pfs/netty/connecting_pool.hpp:194-205 | a step runs exactly the due items and leaves none that is due |
| DeferredState.StepKeeps | include/pfs/netty/connecting_pool.hpp:177-205 | each event keeps: what the set took was run or is pending, and what was run was due earlier than anything pending |
| DeferredState.RunsOnceInOrder | include/pfs/netty/connecting_pool.hpp:177-205 | over every run no deferred connect is run twice, all are run in the order of their deadlines, and none the set took is lost |
| DeferredState.StepLeaves | include/pfs/netty/connecting_pool.hpp:201-204 | the run's step and the loop in place leave the same set |
| DeferredState.DroppedExactly | include/pfs/netty/connecting_pool.hpp:33-42 | a deferred connect is dropped if and only if another of the same deadline is pending |
| Framing.RoundTrip | src/p2p/remote_file_protocol.cpp:23-32 | a serialized envelope is complete and executes to its payload, whatever follows it |
| Framing.ExecutedIsEnvelope | src/p2p/remote_file_protocol.cpp:175-195 | whatever is executed is the envelope of its payload, but for the checksum, which is not looked at |
| Framing.PrefixDecodes | src/p2p/remote_file_protocol.cpp:162-195 | any prefix of any stream of envelopes decodes to exactly the packets wholly inside it, and leaves a proper prefix of the next one |
| Framing.StreamDecodes | src/p2p/remote_file_protocol.cpp:162-195 | a whole stream decodes to all of its packets |
| Framing.DecodeInTwo | src/p2p/remote_file_protocol.cpp:162-195 | decoding what has come so far, and then the rest, is decoding all at once, for any bytes on which the first part goes well |
| Framing.ChunksDoNotMatter | src/p2p/remote_file_protocol.cpp:162-195 | however a stream of envelopes is cut into chunks, the same packets come out |
| Framing.CompleteExactly | src/p2p/remote_file_protocol.cpp:162-173 | the test for a complete packet is right if and only if the 32-bit sum does not wrap or the packet is there all the same |
| Framing.WrapBreaks | src/p2p/remote_file_protocol.cpp:172 | with the size 2^32 - 1, eight bytes pass for a complete packet |
| FramingLaws.EnvelopeLaw | src/p2p/remote_file_protocol.hpp:22-30 | a packet byte by byte: 0xBF, the size with its most significant byte first, the payload, two zero bytes, 0xEF |
| FramingLaws.CompleteLaw | src/p2p/remote_file_protocol.cpp:162-173 | data passes for complete if it has eight bytes, and as many as the 32-bit sum of the size says |
| FramingLaws.ExecLaw | src/p2p/remote_file_protocol.cpp:175-195 | a packet that is there is executed if and only if both flags are in their places |
| FramingLaws.ShortLaw | src/p2p/remote_file_protocol.cpp:175-195 | a packet that is not all there is read past its end |
| FramingLaws.PayloadLaw | src/p2p/remote_file_protocol.cpp:82-160 | a payload byte by byte: 1 or 3, the number of the method, the id of a request, the fields |
| Framing.Protocol.Serialize | src/p2p/remote_file_protocol.cpp:82-160 | for each of the eight kinds of message: requests are numbered one after the other, and each packet executes to its payload |
| Framing.Protocol.NextRid | src/p2p/remote_file_protocol.hpp:51-54 | the request id grows by one, modulo 2^32 |

## Left out

Text conversion
- Source buffers are sequences, since the loops only read them; the switches that fall through are written as the
  equivalent loops that Note A of the source gives. The debug output is left out.

UDT socket manager
- Locks and condition variables: each call, handshake and collection is one atomic step.
- UdtManager.CUDTUnited.Accept: modelled from the moment it no longer waits. The dereference of the lookup's result is not
  modelled, only when it finds nothing.
- UdtManager.CUDTUnited.Close: callers close what `newSocket` or `accept` gave them, not a connection still queued.
- UdtManager.CUDTUnited.ConnectComplete: CUDT calls it for a socket that is connecting (src/udt/newlib/core.cpp:654-660 and 760-766).
- A socket object is a record in a store keyed by its id, so two pointers to one object are one id; other aliasing is not modelled.
- CUDT, channels, queues and timers behind the few fields the manager reads; select, epoll, error records and startup.
- Failed allocations, and an id seed so low that ids would reach zero.

Line editor
- The terminal, prompts, key decoding, screen refresh apart from its bracket scan, history recall and history search.
- InputBuffers.InputBuffer.Press: the keys for history, search, suspension and clearing the screen are no commands of the model.
- InputBuffers.InputBuffer.GetInputLine: the same; what ctrl-C and ctrl-M do to the history is left out.
- KillRings.KillRing.Kill: killed texts hold no zero; `LineEdits.DoKeepsGood` shows that none gets into the line.
- InputBuffers.InputBuffer.CompleteLine: the listing of the completions after a second tab only prints, and is left out.
- The simpler editor in the two copies of linenoise.c, and the width tables.

Send pipeline and pools
- Accounts and requesters are records held by value in a map, as the containers of the source hold them.
- Services.Respondent.SendOutgoingData: that the poller may erase a requester while the loop runs is not modelled; a failed
  socket is marked as handed over for removal.
- Services.Requester.SendOutgoingData: a socket that keeps taking nothing would keep the loop going for ever; in the model it ends
  with the script of answers, which `ServiceState.ScriptIsLongEnough` shows to matter only then.
- Services.SendLoop: the same.
- The ring buffer behind the queues of the service is not part of this model; its capacity is taken to be unbounded. The overloads of
  the respondent that use a pointer as an object (service.hpp:189 and 220) are left out.
- Calls back into the pools from user callbacks, except those that schedule deferred connects.
- The connecting sockets themselves, their poller callbacks, and `socket_pool::count`, whose check looks inverted.
- Reading of input envelopes, whose stream type is not part of this model; Framing.Exec answers `PastEnd` where the stream would
  be read past its end.
- Framing.Protocol.Serialize: the fields of a message come as the bytes they are written as; what is done with a payload is left out.

Also left out: pollers and socket wrappers, interface enumeration, netlink, address parsing and printing, and persistent storage.
