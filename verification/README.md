# A verified model of a user-space TCP stack

The repository implements TCP in user space: `ByteStream`, `Reassembler`, `TCPReceiver`, `TCPSender`
and `Wrap32` under `src/`, and under `util/` the path from a TCP message to the bytes of an IPv4
datagram and back. This project models that code in Dafny and proves what it promises, including
whole-connection safety over a network that loses, repeats and reorders segments and
acknowledgments.

`dafny verify dfyconfig.toml` checks everything.

## How the model is built

Objects that change state are classes whose methods follow the C++ control flow (`TCPSender.Push`
with its two nested loops, `Reassembler.Insert`, `ByteStream.Pop`, `Parser`, `Serializer`,
`InternetChecksum`, ...). Each method is proved equal to a function on an immutable state
(`SenderState`, `ReassemblerState`, `ReceiverState`, `StreamState`), and the theorems are about
those functions and about runs of them. A C++ exception or out-of-bounds access is an explicit
outcome (`OutOfRange`, `None`, `ok == false`), and the theorems prove when it cannot occur.
Ghost state records every byte ever popped; the run theorems carry every segment first
transmitted, the time since the queue last made progress, and a ledger of every segment sent again.

| file | content |
|---|---|
| Bytes, Messages, Headers | machine words, strings of chunks, message types, packed fields |
| WrappingIntegers | 32-bit sequence numbers, the three-candidate `unwrap` |
| ByteStream | the deque of chunks as a bounded flat queue |
| Reassembler, ReassemblerProofs, ReassemblerContract, ReassemblerExample | buffer and bitmap; refinement and confluence on short streams; the exact contract and runs of any length; counterexamples |
| TcpReceiver, ReceiverProofs | placement of segments, acknowledgments, window edge |
| TcpSender, SenderProofs, SenderBlanks, SenderExample | push, receive, tick; conservation, contiguity, window, backoff over runs; segments of length zero; short runs into the corners |
| SenderWindow, SenderTimers, Resets | the window last advertised and what each push sends under it; every retransmission of a run; errors carried from end to end |
| Network, NetworkExample | both ends and the network; prefix and acknowledgment safety, before and after the FIN; two runs that lose a byte |
| Checksum, Parser, Ipv4, TcpSegment, TcpOverIp | checksums, chunked parsing, round trips, address matching |
| Ipv4Proofs, WireProofs | byte layout, which headers and datagrams are accepted, both checksums against their standards |

## Where the code does less than its documentation says

The code is modelled as it is. Each of these is stated exactly, as a condition that holds if and
only if the code behaves as intended, or as a concrete run:

- `Reassembler::insert` promises to keep every byte inside the window, to discard the rest and to close
  the stream after its last byte (src/reassembler.hh:27-34), in buffers no longer than the capacity
  (writeups/check1.md:16). Which insertions do all of that is `ReassemblerContract.ContractExactly`. Four
  correct in-window fragments can produce wrong output past the capacity
  (`ReassemblerExample.LongStreamCorrupted`), bytes outside the window can raise an exception
  (`ReassemblerExample.OutsideWindowThrows`), and the buffers can grow (`ReassemblerExample.BuffersGrow`).
  Runs in which every insertion keeps the contract are right at any length
  (`ReassemblerContract.LongRunFromEmpty`).
- An empty end marker at index `capacity` that arrives before any byte is in order is dropped
  (`ReassemblerProofs.EndMarkerDropped`), and the output is then never closed
  (`ReassemblerExample.EndMarkerLost`).
- A repeated SYN resets the acknowledgment number (`ReceiverProofs.ReceiveAckExact`). A FIN is counted
  by the first segment that is not ahead of its turn, its own or a later one, whether or not bytes are
  missing (`ReceiverProofs.FinHonestExactly`), and an empty FIN closes the output wherever it stands
  (`ReceiverProofs.EmptyFinCloses`). When such a count makes the sender release a byte the receiver never
  got is `Network.EarlyFinLosesExactly` for the immediate answer and `Network.AckLosesExactly` for any
  acknowledgment; two runs that lose one are `NetworkExample.EarlyFinRun` and
  `NetworkExample.LateFinRun`. Runs without such a count are safe (`Network.AckSafety`).
- `push` queues a zero-length segment when the FIN is outstanding and exactly fills a nonzero window
  (`SenderProofs.PushContiguousExactly`, reached in `SenderExample.StuckReached`), and never returns on a
  closed empty stream with a zero window and the SYN unsent (`TcpSenders.FillEndsExactly`, reached in
  `SenderExample.HangReached`).
- A payload can exceed `MAX_PAYLOAD_SIZE` when several chunks are buffered
  (`SenderProofs.PayloadLimitExactly`, reached in `SenderExample.LongPayloadReached`).
- An acknowledgment that ends at a middle segment releases nothing
  (`SenderProofs.DropAcknowledgedExactly`).
- The window is meant to be the free space, 65535 at most (util/tcp_receiver_message.hh:14-16). With a
  buffer above 65535 bytes it can fall short of the space or exceed it, exactly as
  `ReceiverProofs.WindowExactly` says; `ReceiverProofs.WindowExceeds` is a state that claims 65071 of 4000.
- The IPv4 header check recomputes the checksum from the fields it has read and compares. Without
  options it gives the verdict of RFC 791 except on headers with the reserved flag bit, which the fields
  do not keep, or with a stored checksum of all ones (`Ipv4Proofs.StandardExactly`, both kinds concrete
  in `Ipv4Proofs.ReservedMissed` and `Ipv4Proofs.AllOnesMissed`). Options are left out of the sum, so a
  correct header with options is refused unless they add nothing to it (`Ipv4Proofs.OptionsExactly`).

## Model

| member | source | states |
|---|---|---|
| Network.PrefixSafety | src/tcp_sender.cc:22-127 | end to end: in every run of writes, pushes, ticks, reads and of segments and acks lost, repeated and reordered (repeated SYNs and early FINs included), the assembled bytes are a prefix of the bytes written, and no segment in the network can make the receiver throw |
| Network.NextConsistent | src/tcp_receiver.cc:13-84 | each step of either end or the network keeps sender log, network contents and receiver consistent, and takes back neither written nor assembled bytes |
| Network.AckSafety | src/tcp_sender.cc:158-179 | end to end, before and after the FIN: in every run without a segment that makes the receiver count the FIN while bytes are missing, pushes in the stuck state included, the payloads of the released segments are a prefix of what the receiver has assembled, acks being lost, repeated and reordered |
| Network.AckSafetyBeforeFin | src/tcp_sender.cc:158-179 | the same in every run in which no FIN has been sent, without further conditions |
| Network.NextReleaseSafe | src/tcp_receiver.cc:73-99 | a step keeps every acknowledgment honest (the SYN, the assembled bytes and the FIN once nothing is missing), released bytes assembled and the queue tiling up to segments of length zero if and only if it is not an early count |
| Network.NextAckSafe | src/tcp_sender.cc:108-121 | a step keeps, with that, the tiling whole if and only if it is neither an early count nor a push in the stuck state |
| SenderBlanks.PushTiled | src/tcp_sender.cc:108-121 | every push, in the stuck state too, keeps the tiling up to segments of length zero, which come only after the FIN |
| SenderBlanks.CutReceives | src/tcp_sender.cc:158-179 | an acknowledgment releases the same segments whether or not such segments stand in the queue |
| Network.EarlyFinLosesExactly | src/tcp_receiver.cc:73-83 | after an early count, of any FIN and by any segment, the immediate answer makes the sender release a byte the receiver has not got if and only if the oldest outstanding segment ends at the number it carries; one that starts at the first missing byte must hold that byte alone |
| Network.AckLosesExactly | src/tcp_sender.cc:158-179 | any acknowledgment, at any time, honest or not, to a sender whose queue tiles: it loses a byte if and only if its number is the end of the oldest outstanding segment or of the whole queue and the payload up to it exceeds what is assembled |
| Network.EarlyFinExtends | src/tcp_receiver.cc:28-83 | from every state reached by safe steps in which a segment on its way will count the FIN early and the oldest outstanding segment ends where the answer will point, the run can go on to lose a byte |
| NetworkExample.EarlyFinRun | src/tcp_receiver.cc:63-83 | a concrete run from the initial state loses a byte: an empty FIN overtakes the segment in front of it |
| NetworkExample.LateFinRun | src/tcp_receiver.cc:40-83 | another one: a FIN heard ahead with its payload is not counted, and an empty segment without FIN then counts it while the first byte is missing |
| SenderProofs.EveryRunConserves | src/tcp_sender.cc:45-121 | in every run the payloads first transmitted are exactly the bytes taken from the input, each segment's number is isn plus its stream offset (plus one after the SYN), the in-flight count is the sum of queued lengths and at most 65536, and a retransmission is the oldest queued segment unchanged |
| SenderProofs.RunInvariant | src/tcp_sender.cc:22-204 | after each event of every run: conservation, stamping and backoff, and, if push was not called in the stuck state up to then, the gap-free tiling |
| SenderProofs.PushLogged | src/tcp_sender.cc:45-121 | one push: each byte popped is in exactly one new segment, in order, whatever early return ends the call |
| SenderProofs.PushContiguousExactly | src/tcp_sender.cc:108-121 | a push keeps the tiling of segments of positive length if and only if it is not called with the FIN outstanding and the nonzero window exactly full |
| SenderProofs.SegmentsTile | src/tcp_sender.cc:50-53 | under contiguity segment k starts where the first k segments end |
| SenderProofs.TilingEnd | src/tcp_sender.cc:129-142 | the end of the tiling is bytes popped plus SYN plus FIN, and is the number `make_empty_message` carries |
| SenderProofs.InFlightIsDistance | src/tcp_sender.cc:12-15 | `bytes_in_queue_` is the distance from the oldest outstanding number to the next unused one |
| SenderProofs.DropAcknowledgedExactly | src/tcp_sender.cc:158-179 | an ack releases the whole queue (its number is the end), exactly the front segment (its number is the front's end) or changes nothing at all; stale, partial, impossible and middle numbers change nothing |
| SenderProofs.EveryAckInRun | src/tcp_sender.cc:144-180 | the same three-way effect for each ack of each run in which, up to that ack, push was not called in the stuck state; for an input capacity below 2^31 - 65537, where unwrapping is exact |
| SenderProofs.ReleasedUpToAck | src/tcp_sender.cc:166-177 | whatever an ack releases ends exactly at the number it carries |
| SenderProofs.CapacityKeepsNear | src/tcp_sender.cc:163-164 | an input capacity below 2^31 - 65537 keeps every outstanding number close enough for exact unwrapping |
| SenderProofs.PushKeepsWindow | src/tcp_sender.cc:39-125 | push never raises in-flight above max(old, window) when the window is nonzero, then stops only with nothing buffered or the window full, and with FIN queued if there is room; through a zero window at most one byte, on an empty queue |
| SenderWindow.EveryPushInRun | src/tcp_sender.cc:22-127 | each push of each run, measured against the window of the last acknowledgment before it, whatever came earlier: under a nonzero window w at most max(in flight before, w) is outstanding afterwards and nothing sendable, FIN included, is left; under a zero window exactly the probe goes out; every segment has RST exactly if an error was there at the start, was set since, or came with an acknowledgment |
| SenderWindow.ZeroWindowPush | src/tcp_sender.cc:39-121 | every push through a zero window sends exactly one segment or none: the SYN if unsent; else, with bytes buffered, the next unread byte if nothing is outstanding (one byte if and only if so); else the FIN of a finished input if unsent; and the new state in full |
| SenderWindow.EveryWindowHeard | src/tcp_sender.cc:144-156 | in every run the sender's window is the one in the last acknowledgment, smaller or larger than before, its zero-window flag says whether that was zero, and its stream has an error exactly if one was set or an RST came |
| SenderWindow.PushMarks | src/tcp_sender.cc:26-53 | after any push the SYN is out; the first segment ever and no other carries it, each segment carries the stream's error as RST, only the last one a FIN, and under a nonzero window only the last one holds less than 1000 bytes |
| SenderTimers.EveryTickInRun | src/tcp_sender.cc:182-204 | each tick of each run transmits exactly the oldest outstanding segment, if something is outstanding and the time since the timer was last started, with this tick, reaches RTO * 2^k, and nothing otherwise; k counts the segments sent again since the last progress while the last acknowledgment had not closed the window |
| SenderTimers.LedgerAgrees | src/tcp_sender.cc:182-204 | timer and counter agree in every run with a ledger kept from the outside: clock, segments sent again, acknowledgments; all of those segments are the oldest outstanding one |
| SenderProofs.StepBackedOff | src/tcp_sender.cc:182-204 | every event keeps: time since progress >= RTO * (2^k - 1) + timer, and timer < RTO * 2^k |
| SenderProofs.PayloadLimitExactly | src/tcp_sender.cc:55-86 | a fresh segment exceeds 1000 payload bytes if and only if buffer and window allow more, the first chunk is shorter than 1000, and no run of leading chunks ends at exactly 1000 |
| SenderExample.StuckReached | src/tcp_sender.cc:108-121 | a run of six events reaches the stuck state through a window of two; the next push sends a segment and breaks the tiling |
| SenderExample.HangReached | src/tcp_sender.cc:55-86 | closing the input of a new sender is enough to reach the state in which push never returns |
| SenderExample.LongPayloadReached | src/tcp_sender.cc:55-86 | two strings of 600 bytes under a window of 1200, reached by a run, make a segment longer than 1000 bytes |
| TcpSenders.FillEndsExactly | src/tcp_sender.cc:55-86 | the inner loop of push terminates if and only if it is not the case that the window is zero, the SYN unsent and the stream closed and empty; in that case an iteration changes nothing |
| TcpSenders.FillTakes | src/tcp_sender.cc:55-86 | the inner loop takes a prefix of the buffered bytes, stays within a nonzero window and takes at most one byte through a zero one |
| TcpSenders.RoundShape | src/tcp_sender.cc:24-126 | one round of push either changes nothing or sends one correctly numbered segment, and repeats only with the SYN just sent or fewer bytes buffered |
| TcpSenders.TCPSender.Push | src/tcp_sender.cc:22-127 | the nested loops compute the push function: final state and transmitted segments in order |
| TcpSenders.TCPSender.Round | src/tcp_sender.cc:24-126 | one pass of the outer loop |
| TcpSenders.TCPSender.Fill | src/tcp_sender.cc:55-86 | the inner loop moves exactly the filled text from the input to the payload |
| TcpSenders.TCPSender.Emit | src/tcp_sender.cc:88-125 | FIN, the three reasons to withhold, queueing and the loop condition |
| TcpSenders.TCPSender.Receive | src/tcp_sender.cc:144-180 | window, reset and the release loop compute the receive function |
| TcpSenders.TCPSender.Tick | src/tcp_sender.cc:182-204 | timer, retransmission of the front segment and the counter, which stands still under a zero window |
| ReassemblerProofs.InsertRefines | src/reassembler.cc:8-84 | on a safe insertion of a fragment of any stream: no access out of bounds, output a prefix, every cell that will be read holds the stream's byte of its index, exactly the fragment's in-window indices become known, and the end marker is noted unless the index check turns the call away |
| ReassemblerProofs.RunFromEmpty | src/reassembler.cc:8-84 | for every run of overlapping, duplicated, reordered fragments and reads of a stream within the capacity: pushed bytes are the longest covered prefix, the bitmap marks exactly the covered indices beyond it, storage agrees there, and the stream is closed exactly when the end was seen and all is pushed |
| ReassemblerProofs.RunRefines | src/reassembler.cc:8-84 | the same from any good state |
| ReassemblerProofs.Confluence | src/reassembler.cc:16-83 | two orders of the same fragments, with any reads in between, end with the same output, marks, kept bytes, pending count and closing |
| ReassemblerProofs.InsertMarks | src/reassembler.cc:76-83 | with correct end markers the output closes exactly when the marker was noted and all bytes are pushed |
| ReassemblerProofs.EndMarkerDropped | src/reassembler.hh:58-68 | on a short stream the only correct end marker turned away is an empty one at index `capacity` while nothing is in order (if and only if) |
| ReassemblerProofs.InsertNotesEnd | src/reassembler.cc:76-83 | any other end marker sets the length and closes the output once it is reached |
| ReassemblerProofs.InsertMonotone | src/reassembler.cc:8-84 | no insertion, of any data at any index, takes back a pushed byte |
| ReassemblerProofs.InOrderStep | src/reassembler.cc:16-29 | an insertion without a gap pushes exactly min(available, max(0, end - next)) bytes and keeps none |
| ReassemblerProofs.InOrderRunRefines | src/reassembler.cc:16-83 | gap-free runs of any length, across the switch to modular addressing: no access out of bounds, bitmap all clear, output a prefix |
| ReassemblerContract.ContractExactly | src/reassembler.cc:8-84 | every insertion of part of a stream of any length, from any sound state, inside the window or not, empty or not, on an open output or a closed one: bytes, buffer size and end marker are as promised if and only if a condition on the state before the call holds, branch by branch; a cell counts as kept when the code will read it for its index, linearly up to the capacity and modulo it after that |
| ReassemblerContract.InOrderExactly | src/reassembler.cc:16-29 | without a gap: if and only if the next index stays in its block of `capacity` indices or no mark lies at or after its new position; on a closed output, the count must not outrun the capacity |
| ReassemblerContract.TurnedAwayExactly | src/reassembler.cc:33-35 | a call turned away by the index check: if and only if its in-window bytes are known already and there is no end marker left to note |
| ReassemblerContract.LinearBreaks | src/reassembler.cc:37-41 | beyond a gap in the linear buffer: a start past its end, or in-window bytes past it, break the contract |
| ReassemblerContract.LinearKept | src/reassembler.cc:37-41 | everything else there keeps it |
| ReassemblerContract.StartPastBuffer | src/reassembler.cc:37-41 | a start past the linear buffer that passes the index check raises an exception, even with nothing to keep |
| ReassemblerContract.AtCapacityExactly | src/reassembler.cc:42-74 | beyond a gap with exactly the capacity pushed, whatever is stored is cleared by the same call |
| ReassemblerContract.InWindowExactly | src/reassembler.cc:42-74 | beyond a gap with more than the capacity pushed, new bytes inside the window are kept for their own index if and only if the index check admits them and they end two cells before the end of the buffer, or are a single byte for its last cell |
| ReassemblerContract.OutsideExactly | src/reassembler.cc:42-74 | outside the window, if and only if storing changes no cell |
| ReassemblerContract.StorageGrows | src/reassembler.cc:42-47 | bytes that do not end inside the modular buffer make it longer than the capacity, contrary to writeups/check1.md |
| ReassemblerContract.LongRunRefines | src/reassembler.cc:8-84 | runs of any length in which every insertion keeps the contract: the known indices are those of an ideal set of in-window indices seen, the output is the stream up to the first missing one, and closing is exact |
| ReassemblerContract.LongRunFromEmpty | src/reassembler.cc:8-84 | the same from a fresh reassembler, with the bytes read |
| ReassemblerProofs.PendingIsCount | src/reassembler.cc:86-95 | the loop's count is the number of marked indices, as a set |
| ReassemblerExample.LongStreamCorrupted | src/reassembler.cc:42-74 | capacity 4, "abcdefgh" in four correct in-window fragments with the reader keeping up: the eighth byte comes out as "d" |
| ReassemblerExample.OutsideWindowThrows | src/reassembler.cc:37-41 | capacity 4, three bytes in order and unread: the sixth byte of any stream, outside the window, raises an exception instead of being discarded |
| ReassemblerExample.BuffersGrow | src/reassembler.cc:42-47 | capacity 4, any stream of nine bytes: after five bytes in order, two bytes for the last cell leave buffers longer than 4 |
| ReassemblerExample.EndMarkerLost | src/reassembler.cc:33-35 | for every non-empty stream that exactly fills the capacity: an empty end marker sent first is dropped, and after all the bytes the output is still open |
| Reassemblers.Reassembler.Insert | src/reassembler.cc:8-84 | the in-place method computes the insert function, and fails exactly where the C++ throws or reads out of bounds |
| Reassemblers.Reassembler.TakeInOrder | src/reassembler.cc:16-29 | the two branches without a gap, one with a search loop, are one cut of the data |
| Reassemblers.Reassembler.Flush | src/reassembler.cc:50-74 | pushes the run of marked bytes and clears the marks up to its end |
| Reassemblers.Reassembler.CountRun | src/reassembler.cc:56-63 | counts the run of marks from a position |
| Reassemblers.Reassembler.BytesPending | src/reassembler.cc:86-95 | counts the marks |
| ReceiverProofs.PlacementCorrect | src/tcp_receiver.cc:37-72 | whatever the receiver expects next (even after a reset by a repeated SYN), a genuine payload is inserted at its own stream index |
| ReceiverProofs.ReceiveSound | src/tcp_receiver.cc:13-84 | every genuine segment, SYN repeated or FIN early, is taken without a throw and keeps the receiver sound; pushed bytes only grow |
| ReceiverProofs.ReceiveShape | src/tcp_receiver.cc:40-83 | how far the expected number moves: by the bytes pushed and by each flag once, and not at all for a segment ahead of it |
| ReceiverProofs.SynRestarts | src/tcp_receiver.cc:22-30 | any segment, genuine or not: a SYN, first or repeated, restarts the numbering at its own number, and without one the zero point stays |
| ReceiverProofs.ReceiveAckExact | src/tcp_receiver.cc:73-78 | after a FIN-free segment the ack number is again isn + 1 + bytes pushed if and only if the segment was not a repeated SYN |
| ReceiverProofs.SendExact | src/tcp_receiver.cc:86-99 | for capacities up to 65535 the window is the available capacity, and ack + window = isn + 1 + capacity + bytes popped |
| ReceiverProofs.WindowExactly | src/tcp_receiver.cc:86-89 | for every capacity: when the window is min(free space, 65535), and when it claims no more than the space, each as a condition on capacity and bytes buffered |
| Resets.ResetEndToEnd | src/tcp_receiver.cc:16-99 | through the bytes of a datagram: a segment or empty message joined with the answer of the receiver beside it sets the errors of both streams at the connected peer, exactly if either stream at its origin had one |
| Resets.ReceiveNotesReset | src/tcp_receiver.cc:16-17 | a received RST and nothing else sets the stream's error, before a SYN too, and every answer then reports it |
| Resets.OfferMarked | src/tcp_sender.cc:28-30 | every segment of a push and every empty message has RST exactly if the stream has an error |
| ReceiverProofs.PlainRunExact | src/tcp_receiver.cc:13-99 | over every FIN-free run with one SYN, with reads: the ack is exact at the end, so after every prefix, and the right edge has not retreated (section 3.8.6 of RFC 9293) |
| ReceiverProofs.FinHonestExactly | src/tcp_receiver.cc:28-83 | an honest receiver stays honest if and only if the segment does not make it count a FIN, its own or one heard ahead, while bytes are missing that neither the segment carries nor the reassembler keeps; a receiver set back by a repeated SYN has numbers to spare |
| ReceiverProofs.FinCountedExactly | src/tcp_receiver.cc:28-83 | a FIN is counted exactly by a segment that is not ahead, once one has been heard; the number is then two more than the bytes pushed |
| ReceiverProofs.CompletesExactly | src/tcp_receiver.cc:40-72 | nothing is missing after a segment if and only if nothing was before, or the output is open and every index is pushed, kept or carried by it |
| ReceiverProofs.EmptyFinCloses | src/tcp_receiver.cc:63-71 | an empty FIN closes the output at once; it holds the whole stream if and only if all of it was already pushed |
| TcpReceivers.TCPReceiver.Receive | src/tcp_receiver.cc:13-84 | the method computes the receive function on the abstract state |
| TcpReceivers.TCPReceiver.Locate | src/tcp_receiver.cc:37-72 | the five-way choice of the insertion index and the early return |
| ByteStreams.PushRefinesQueue | src/byte_stream.cc:15-26 | an open stream appends the data cut to the free space to the flat queue; a closed one does not change |
| ByteStreams.PopRefinesQueue | src/byte_stream.cc:61-87 | exactly the first `len` bytes leave, across chunks, no chunk becomes empty and nothing pushed changes |
| ByteStreams.PopTwice | src/byte_stream.cc:61-87 | popping in two steps is popping once |
| ByteStreams.ByteStream.Push | src/byte_stream.cc:15-26 | deque and counters follow the flat queue |
| ByteStreams.ByteStream.Pop | src/byte_stream.cc:61-87 | the loop over chunks terminates and removes exactly `len` bytes, for `len` up to what is buffered |
| ByteStreams.ByteStream.BytesBuffered | src/byte_stream.cc:89-92 | the counter is the length of the flat queue, and zero exactly when the deque is empty, so `peek` is non-empty whenever bytes are buffered |
| ByteStreams.Read | src/byte_stream_helpers.cc:10-25 | returns exactly the first min(len, buffered) bytes and pops them; the empty-view exception cannot occur |
| WrappingIntegers.UnwrapIsNearest | src/wrapping_integers.cc:13-33 | for every value, zero point and checkpoint: the result wraps back to the value and no 64-bit number that does is nearer |
| WrappingIntegers.UnwrapExactBlock | src/wrapping_integers.cc:13-33 | the exact result, both ends of the 64-bit range and ties included |
| WrappingIntegers.UnwrapInvertsWrap | src/wrapping_integers.cc:8-33 | unwrap(wrap(n, z), z, c) = n whenever abs(n - c) < 2^31 |
| WrappingIntegers.WrapOffset | src/wrapping_integers.cc:8-11 | wrapping is addition modulo 2^32, and the offset from the zero point is n modulo 2^32 |
| Checksums.InternetChecksum.Add | util/checksum.hh:16-26 | the byte loop adds to the 32-bit sum what the bytes weigh, and flips parity by their number |
| Checksums.InternetChecksum.AddAll | util/checksum.hh:39-51 | over a list of strings only their concatenation matters, odd lengths included |
| Checksums.InternetChecksum.Value | util/checksum.hh:28-37 | the folding loop terminates in the complement of the folded sum |
| Checksums.ByteSumIsWordSum | util/checksum.hh:16-26 | byte-wise addition with a parity bit is the sum of big-endian 16-bit words, an odd last byte padded (section 1 of RFC 1071) |
| Checksums.FoldIsOnesComplement | util/checksum.hh:28-37 | folding is reduction modulo 65535 into 1..65535, zero only for zero |
| Checksums.StoredChecksumVerifies | util/checksum.hh:28-37 | the value stored in a zeroed 16-bit-aligned field makes the re-check zero, always (section 2 of RFC 1071) |
| Checksums.ComparedExactly | util/checksum.hh:28-37 | comparing a stored checksum with a recomputed one is the re-check, except for a stored value of all ones, which is never right |
| Checksums.AlteredByteDetected | util/checksum.hh:16-37 | a string that passes the check fails it once any one byte is changed |
| Parsers.IntegerRoundTrip | util/parser.hh:130-190 | a fixed-width integer comes back from its big-endian bytes |
| Parsers.BytesRoundTrip | util/parser.hh:130-190 | and the bytes from the integer they denote |
| Parsers.Parser.Integer | util/parser.hh:130-150 | over any chunking: too few bytes set the error and leave the value; otherwise the big-endian number is read and exactly its bytes are consumed |
| Parsers.Parser.RemovePrefix | util/parser.hh:43-55 | removes exactly min(count, left) bytes across chunks |
| Parsers.Parser.AllRemaining | util/parser.hh:57-72 | everything left, as a list of strings |
| Parsers.Parser.RemainingText | util/parser.hh:74-87 | everything left, as one string |
| Parsers.Serializer.Integer | util/parser.hh:181-190 | appends the big-endian bytes |
| Parsers.Serializer.Buffer | util/parser.hh:192-198 | appends the string after what was buffered |
| Parsers.Serializer.Output | util/parser.hh:215-219 | the chunks hold exactly the text written, none empty |
| Headers.FieldReadsBack | util/tcp_segment.cc:25-48 | a packed field is read back at its own offset, whatever surrounds it |
| TcpSegments.SegmentRoundTrip | util/tcp_segment.cc:11-91 | serialize with checksum, then parse: every field, number, flag and payload byte comes back, the two RST flags as their disjunction |
| TcpSegments.ChecksumVerifies | util/tcp_segment.cc:82-91 | the computed checksum passes the receiver's test |
| TcpSegments.CorruptionRejected | util/tcp_segment.cc:13-19 | a sent segment in which any one byte has changed is refused |
| TcpSegments.SerializeSegment | util/tcp_segment.cc:65-80 | the method writes exactly the wire image |
| TcpSegments.ComputeChecksum | util/tcp_segment.cc:82-91 | the method stores the checksum over the zeroed image |
| TcpSegments.ParseSegment | util/tcp_segment.cc:11-57 | the method computes the parse function over any chunking, errors included |
| Ipv4.HeaderRoundTrip | util/ipv4_header.cc:12-80 | a version 4 header with its checksum comes back unchanged for every header length from 5 to 15, and what follows the announced options is left |
| Ipv4Proofs.HeaderLayout | util/ipv4_header.hh:18-34 | which of the twenty bytes hold which field, most significant first |
| Ipv4Proofs.HeaderChecks | util/ipv4_header.cc:107-117 | the sum over the twenty bytes of every header sent, its checksum included, is all ones |
| Ipv4Proofs.AcceptedExactly | util/ipv4_header.cc:12-54 | of all byte strings, exactly these parse: twenty bytes, version 4, header length at least 5, stored checksum not all ones, and the sum over the bytes without the reserved bit is all ones |
| Ipv4Proofs.StandardExactly | util/ipv4_header.cc:48-53 | the verdict is that of RFC 791 on every header without reserved bit and without a stored checksum of all ones; on the others code and standard never both accept |
| Ipv4Proofs.OptionsExactly | util/ipv4_header.cc:46-53 | of the headers with options that the standard accepts, exactly those are accepted whose options, with the reserved bit, add nothing modulo 65535 |
| Ipv4Proofs.ReservedMissed | util/ipv4_header.cc:22-26 | a correct header with the reserved bit that is refused, and an incorrect one that is accepted |
| Ipv4Proofs.AllOnesMissed | util/ipv4_header.cc:48-53 | a correct header whose stored checksum is all ones is refused |
| Ipv4Proofs.CorruptionExactly | util/ipv4_header.cc:48-53 | a sent header with one byte replaced is accepted if and only if the byte is the same or only the reserved bit differs |
| Ipv4.SerializeHeader | util/ipv4_header.cc:57-80 | the method writes exactly the ten fields, or refuses a wrong version |
| Ipv4.ComputeChecksum | util/ipv4_header.cc:107-117 | the method stores the checksum over the zeroed header |
| Ipv4.ParseHeader | util/ipv4_header.cc:12-54 | the method computes the parse function over any chunking: short input, wrong version, short header length and bad checksum are errors |
| WireProofs.PseudoIsSum | util/ipv4_header.cc:98-105 | the pseudo-header checksum is the sum over the twelve bytes of section 3.1 of RFC 9293: both addresses, zero, protocol, payload length |
| WireProofs.SegmentLayout | util/tcp_segment.cc:65-80 | which bytes of a segment hold which field, the value of each flag bit, the payload from byte 20 on |
| WireProofs.WireStandard | util/tcp_over_ip.cc:77-96 | every wrapped message of at most 65495 payload bytes: the header's length is the number of bytes on the wire, addresses, protocol, TTL and ports stand where a router or peer reads them, the header sums to all ones, and so does the segment behind its pseudo-header |
| WireProofs.ReceivedExactly | util/tcp_over_ip.cc:26-73 | of all byte strings, exactly those deliver a message that are an accepted header of protocol 6 between the right addresses, with a segment that is long enough, sums to all ones behind its pseudo-header and has the right ports (or opens a connection to a listener); the message is what the segment's bytes say |
| TcpOverIp.DeliveredExactly | util/tcp_over_ip.cc:26-96 | who gets a wrapped message from its datagram's bytes: a connected peer with mirrored addresses, or a listening one on the right port if the message opens a connection, which then becomes that mirrored peer; nobody else |
| TcpOverIp.HandshakeConnects | util/tcp_over_ip.cc:26-96 | after one opening segment to a listening peer, messages pass in both directions |
| TcpOverIp.SerializeDatagram | util/ipv4_datagram.hh:22-28 | header bytes, then the payload chunks |
| TcpOverIp.ParseDatagram | util/ipv4_datagram.hh:16-20 | depends on the bytes alone, however they are cut into non-empty buffers |
| TcpOverIp.TCPOverIPv4Adapter.WrapTcpInIp | util/tcp_over_ip.cc:77-96 | the datagram built field by field serializes to exactly the wire bytes |
| TcpOverIp.TCPOverIPv4Adapter.UnwrapTcpInIp | util/tcp_over_ip.cc:26-73 | the guard chain computes the unwrap function and the new configuration |

## Left out

- 64-bit counters are unbounded numbers except where the code's wrap-around is visible: sequence
  numbers, candidates of `unwrap`, the end index, absolute positions and the in-flight count.
- Reassembler capacities of zero and of 2^31 or more: the code casts the capacity to `int`.
- Network.AckSafety: stated for runs without an early count of the FIN, because such a count makes an
  acknowledgment false (`NextReleaseSafe`) and can lose a byte (`EarlyFinRun`, `LateFinRun`).
- ReassemblerContract.ContractExactly: buffers longer than the capacity count as a violation even where
  the surplus bytes would still be delivered, since the design says they are never longer.
- Network.PrefixSafety: stated for streams no longer than the receive capacity, because longer ones can
  come out wrong (`LongStreamCorrupted`); longer runs are `InOrderRunRefines` and `LongRunRefines`.
- TcpSenders.TCPSender.Push: requires that the state is not the one in which the C++ never returns
  (`FillEndsExactly`).
- TcpSenders.TCPSender.Receive: requires an acknowledgment number when a segment is outstanding; the
  C++ dereferences an absent one there.
- ByteStreams.ByteStream.Pop: requires a non-empty deque to hold `len` bytes; beyond that the C++ reads
  the front of an empty deque.
- TcpSenders.TCPSender.Tick: the floating-point power of two is an exact natural number.
- Reassemblers.Reassembler.Insert: promises nothing about the state after an exception or an
  out-of-bounds access.
- TcpSegments.SegmentRoundTrip: payloads up to 130816 bytes, so that the 32-bit sum cannot overflow; an
  IPv4 datagram carries at most 65495.
- WireProofs.WireStandard: payloads up to 65495 bytes, the most an IPv4 datagram carries; beyond that its
  16-bit length wraps.
- WireProofs.ReceivedExactly: byte strings up to 130836 bytes, so that the 32-bit sum cannot overflow.
- Parsers.Parser.constructor: the buffers given to a parser are not empty strings; the C++ would read
  the front of an empty string.
- Bitmap characters are booleans, storage cells and deque entries are values: aliasing and moved-from
  strings are not modelled, and `Parser` and its buffer list are one class.
- The receiver's `prev_*` and `bytes_not_in_seq` fields, which influence nothing.
- Addresses are a 32-bit number and a port; the textual `Address` conversion and name resolution are
  not part of this model.
- `TCPPeer`, sockets, file descriptors, TUN devices, the event loop, threads and the applications.
- `NetworkInterface`, whose methods are empty, and ARP and Ethernet headers, which would repeat the
  integer round trip.
- `to_string` and debug output; `Parser::string`, which no modelled header uses.
