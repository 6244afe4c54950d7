# Selective-reject file transfer over UDP: a verified model

This project models the transfer of one file from `server` to `rcopy` with a selective-reject sliding window,
and proves what the protocol guarantees and where its guarantees end.

* `Bytes.dfy`, `Checksum.dfy`, `Pdu.dfy`, `Handshake.dfy`: the datagram layout, the Internet checksum
  (RFC 1071), the builders that fill byte buffers in place, and the file request.
* `Transfer.dfy`, `Window.dfy`, `Sender.dfy`, `Server.dfy`: the file cut into chunks, the sender's circular window
  (as a value, as a map, and as an object updated in place), the server's state functions as a step function,
  and the same functions as methods with their loops.
* `Receiver.dfy`, `Rcopy.dfy`: the client's IN_ORDER / OUT_OF_ORDER / FLUSH machine over its ring of slots, as a
  step function and as an object.
* `Protocol.dfy`: both programs joined by two channels that may lose, duplicate and reorder. A run is any
  list of steps, and every message in it is a byte string built by `createPDU`. `Reachable` is the inductive
  invariant over all runs; `AnyWindow.dfy` has the part of it that needs no relation between the window sizes.
* `Safety.dfy`, `Acks.dfy`, `Bounds.dfy`, `IdealRing.dfy`, `Lossless.dfy`, `Delivery.dfy`: the theorems about runs;
  `Channels.dfy` accounts for every message of a run, and `Wire.dfy` says in bytes and codes what is sent and when.
* `Limits.dfy`, `Failures.dfy`, `Losses.dfy`, `Duplication.dfy`: runs that attain the bounds, and for each promise the
  code breaks the exact configurations on which some run breaks it.
* `Refinement.dfy`: every run takes the receiver and the sender where their methods go on what the run delivers to
  them, having sent the same messages, and whatever the server object does on a script is a sender's run.

Notation: Ws is the server's window size, Wr the client's ring size, B the buffer size, N the number of chunks;
`base` is the oldest unacknowledged number (the next sequence number minus the window's valid count) and
`expected` the first number not yet written.

## What the proofs show

* **Safety, exactly.** On every file and every run the client has written a prefix of the file, byte for byte,
  if and only if Ws <= Wr + 1 (`SafeExactlyWhenWindowsFit`). The handshake intends Ws = Wr mod 65536, which a
  little-endian host does not give: a request for window 5 and buffer 1024 is not safe there
  (`LittleEndianRequestUnsafe`).
* **The ring needs no sequence numbers.** It behaves exactly like an unbounded map from numbers to payloads
  (`RingRefinesIdeal`), although a late SREJ can make the server resend another chunk under the requested number: a
  wrong payload in flight is always one the client no longer wants.
* **Late SREJs.** Some run answers an SREJ with another chunk, and some run kills the server on a null packet,
  exactly when Ws >= 2 and N > Ws (`LabelsTrueExactlyWhen`, `CrashFreeExactlyWhen`).
* **Incomplete files.** The repository's README says the EOF is sent once all data has been successfully
  transmitted. The code sends it as soon as the file is read and there is room in the window, and the client
  closes on it. A closed file is complete on every run exactly when Ws = 1 or the file is empty
  (`CompleteExactlyWhen`). Otherwise fewer than Ws chunks are missing, and that bound is attained
  (`ShortfallAtEof`, `ShortfallIsAttained`).
* **Delivery.** When no message is lost, reordered or duplicated and no timer fires while a message is on its
  way, a run can only come to rest with the whole file written and the server done. It has sent the EOF once if it
  recognises the EOF-ACK and eleven times if its byte order keeps it from doing so (`CleanNetworkDelivers`,
  `EofAckRecognisedExactlyWhen`).
* **Losses.** On such a network with one loss, the file is always completed exactly when it is empty, or is a single
  chunk sent with Ws = 1 (`OneLossRepairedExactlyWhen`): with Ws >= 2 the EOF follows a lost last chunk at once and
  closes the file, and with Ws = 1 the client never acknowledges a resend of a chunk whose RR was lost. Any number
  of losses is repaired exactly for the empty file (`AllLossesRepairedExactlyWhen`).
* **Timeouts.** The comment says the oldest packet is resent. The code resends the lowest valid slot, which is the
  oldest exactly when its number is a multiple of Ws (`TimeoutResends`); that holds at every timeout of every run
  exactly when Ws = 1 or N < Ws (`OldestResentExactlyWhen`). For 2 <= Ws <= N the server can therefore give up
  without ever resending a lost first packet (`LossNeedNotBeRepaired`).
* **Transmissions.** If acks are not duplicated the server sends at most N first sends, N SREJ replies and
  18N + 10 timeout resends (`TransmissionsAreBounded`). If they can be, there is a bound exactly when N <= 1
  (`BoundedExactlyWhen`): each copy of an SREJ is answered, and each copy of an old RR restarts the count of ten
  timeouts.
* **Corruption.** The checksum detects every error confined to one byte, but the client never tests it, although
  the README promises retransmission of corrupted packets. It treats a damaged packet as if built for the
  damaged payload; the damage is kept exactly when the packet would have been (`CorruptionIsWritten`).
  The ack handler tests no checksum either: whatever seven bytes it is handed, it dies exactly on flag 6 with a number
  whose slot is empty under another tag (`AckEffects`).
* **Byte order.** The built PDUs do not depend on the host. The sizes the server ends up using, and its
  test of an EOF-ACK, do; both work as intended on a network-order host and otherwise only when the bytes
  concerned happen to be equal (`UsedIsIntended`, `CompareCheckOnBuilt`).

## Model

Rows that depend on it say "With Ws <= Wr + 1"; the others about runs hold for any window sizes. All of them are
about a valid `Config`: 1 <= B <= 1400, 1 <= Ws <= 65535, 1 <= Wr < 2^30, N + 1 < 2^32, and either byte order.

| member | source | states |
|---|---|---|
| Protocol.Reachable | Workspace/rcopy.c:277-370 | With Ws <= Wr + 1: after every run: the window holds exactly the chunks base .. next-1, base <= expected <= next, the ring is truthful, every message in flight is acceptable |
| Safety.PrefixSafety | Workspace/rcopy.c:316-370 | With Ws <= Wr + 1, under any loss, duplication and reordering, the output is the file up to (expected - 1) * B bytes or its end |
| AnyWindow.WeaklyReachable | Workspace/rcopy.c:277-370 | For any window sizes: the window holds exactly the chunks base .. next-1, base <= expected <= next, expected <= highest + 1, and every message in flight has an acceptable number |
| Safety.OutputOnlyGrows | Workspace/rcopy.c:304-309 | Continuing a run only ever appends to the output, for any window sizes |
| Limits.SafeExactlyWhenWindowsFit | Workspace/server.c:252-256 | Every run on every file writes a prefix of it if and only if Ws <= Wr + 1 |
| Limits.WideWindowCorrupts | Workspace/rcopy.c:349-355 | For every Ws >= Wr + 2 a run that only reorders writes one chunk in place of another |
| Limits.RequestSafeExactlyWhen | Workspace/server.c:215-255 | For a request on either byte order with the sizes in force in range: always safe if and only if the window in force is at most the requested one plus one; on a network-order host always |
| Limits.LittleEndianRequestUnsafe | Workspace/server.c:252-256 | A request for window 5 and buffer 1024 runs with 1280 and 4 on a little-endian host and is not safe |
| Safety.WrongPayloadsAreStale | Workspace/circularQueue.c:49-56 | With Ws <= Wr + 1: A data PDU in flight whose payload is not the chunk of its number has a number below expected |
| Safety.WindowCoupling | Workspace/server.c:303-325 | For any window sizes: base <= expected <= next <= base + Ws; RRs in flight are at most expected, SREJs also below next, data below expected + Ws |
| Safety.UnwrittenChunksRetained | Workspace/server.c:416-421 | For any window sizes: every chunk sent and not yet written is in the window as the PDU first sent |
| Safety.WindowIsContiguous | Workspace/server.c:305-325 | For any window sizes: as a map the window has exactly the keys base .. next-1, each bound to its chunk's PDU |
| Safety.InsertNeverFails | Workspace/server.c:321 | For any window sizes: the insert whose return code is ignored is never refused |
| Safety.ModeMeaning | Workspace/rcopy.c:317-368 | With Ws <= Wr + 1: IN_ORDER: expected = highest + 1, ring empty; OUT_OF_ORDER: expected < highest, highest held, expected free if Ws <= Wr; FLUSH: expected <= highest, highest held |
| Safety.ShortfallAtEof | Workspace/rcopy.c:298-312 | With Ws <= Wr + 1: after the EOF at most Ws - 1 chunks are missing, and the file is complete if and only if expected is the EOF's number |
| Limits.ShortfallIsAttained | Workspace/server.c:367-381 | For any window sizes and every file of Ws - 1 chunks a run closes an empty output, Ws - 1 chunks short |
| Failures.CompleteExactlyWhen | Workspace/rcopy.c:298-312 | For any window sizes: a closed file is the whole file on every run if and only if Ws = 1 or the file is empty |
| Failures.LastChunkCanBeMissed | Workspace/server.c:305-314 | For any Ws >= 2 and nonempty file: a run that only lets the EOF overtake closes it without its last chunk |
| Failures.CrashFreeExactlyWhen | Workspace/server.c:422-429 | For any window sizes: no run dereferences a null packet if and only if Ws = 1 or N <= Ws |
| Failures.LabelsTrueExactlyWhen | Workspace/circularQueue.c:49-56 | For any window sizes: no SREJ in flight is ever answerable from another chunk's slot if and only if Ws = 1 or N <= Ws |
| Failures.ReplyCanCarryWrongChunk | Workspace/server.c:422-429 | Otherwise a run puts chunk Ws + 1 on the wire under number 1 |
| Failures.OldestResentExactlyWhen | Workspace/server.c:342-357 | For any window sizes: every timeout of every run resends the oldest chunk if and only if Ws = 1 or N < Ws |
| Failures.LossNeedNotBeRepaired | Workspace/server.c:336-364 | For every 2 <= Ws <= N: a run with two losses ends the server, and in no continuation is a byte written |
| Losses.OneLossRepairedExactlyWhen | Workspace/server.c:336-378 | In order, without duplication and with patient timers: every run with at most one loss that comes to rest has written the whole file if and only if the file is empty or Ws = N = 1 |
| Losses.AllLossesRepairedExactlyWhen | Workspace/server.c:336-378 | The same for any number of losses if and only if the file is empty |
| Losses.LastChunkLost | Workspace/server.c:367-381 | For every Ws >= 2 and N >= 1 such a run loses only the last chunk and rests one chunk short |
| Losses.RrLost | Workspace/rcopy.c:318-335 | For Ws = 1 and N >= 2 such a run loses only the first RR and rests with one chunk written |
| IdealRing.RingRefinesIdeal | Workspace/functions.c:135-145 | With Ws <= Wr + 1: in every run a slot is valid exactly when the one number of the span that maps to it is held in an unbounded map, and has its payload; state and output agree |
| IdealRing.RingAnswersLikeIdeal | Workspace/rcopy.c:316-369 | With Ws <= Wr + 1: in every run the ring and the unbounded map answer every message in flight alike |
| IdealRing.StepRefines | Workspace/rcopy.c:316-369 | One receiver step on the ring and on the map: same output, state and answer |
| Acks.AcksStrictlyIncrease | Workspace/rcopy.c:317-368 | With Ws <= Wr + 1: of any two messages with flag 5 that a run sends the later has the greater number, likewise with flag 6; the numbers are in 2 .. N + 1 and 1 .. N; the only other message is one EOF-ACK (35) numbered N + 1, and it is the last |
| Acks.SrejAnsweredTruthfully | Workspace/server.c:422-429 | With Ws <= Wr + 1: if acks are neither reordered nor duplicated, an SREJ k reaching a sending server finds k live and is answered with chunk k, and the server never dereferences a null packet |
| Bounds.RunsAreFinite | Workspace/server.c:303-365 | With Ws <= Wr + 1: without duplication a run without idle steps has at most 43N + 43 steps |
| Bounds.TransmissionsAreBounded | Workspace/server.c:336-364 | With Ws <= Wr + 1: if acks are not duplicated, the messages a run puts on the data channel include at most N with flag 16, N with flag 17 and 18N + 10 with flag 18 |
| Duplication.BoundedExactlyWhen | Workspace/server.c:336-364 | For any window sizes: some number bounds what the server sends in any run if and only if N <= 1, and then 22 does |
| Duplication.RepliesUnbounded | Workspace/server.c:422-429 | For Ws >= 2 and N >= 2, and for every b, a run with copies of one SREJ sends at least b messages with flag 17 |
| Duplication.ResendsUnbounded | Workspace/server.c:336-364 | For Ws = 1 and N >= 2, and for every b, a run with copies of one RR sends at least b messages with flag 18 |
| Channels.MessagesConserved | Workspace/server.c:202 | In every run and on each channel, the messages in flight and those delivered or lost are those sent and those copied, as multisets |
| Wire.ServerCodes | Workspace/server.c:305-434 | In every run, for any window sizes: 16 is sent exactly for a next chunk, 10 exactly when none is left or on silence while fewer than ten EOFs were repeated, 17 exactly on a 6 whose slot is in use, 18 exactly on silence with a full window |
| Wire.ClientCodes | Workspace/rcopy.c:298-368 | With Ws <= Wr + 1, in every run: 5 is sent exactly when the expected number has advanced and the state is IN_ORDER or FLUSH, 6 exactly on entering OUT_OF_ORDER, 35 exactly on a message with flag 10 while the file is open |
| Wire.ServerSpeaks | Workspace/server.c:305-434 | The same for one step on any message, with the number and payload that go with each code, and a good checksum |
| Wire.ClientSpeaks | Workspace/rcopy.c:284-369 | The same for one delivery, with the numbers; flags other than 10, 16, 17 and 18 change and send nothing |
| Wire.OnTheWire | Workspace/server.c:305-381 | In every run, for any window sizes: the messages with flag 16 are chunks 1, 2, .. in order, each once; an 18 carries the chunk of its number, a 17 a chunk of the same slot, a 10 is numbered N + 1 and empty; acks are seven bytes with flag 5, 6 or 35; all pass the checksum test on either byte order |
| Wire.OnlyRequestsDispatch | Workspace/server.c:111-114 | The test on which the server forks accepts every request and no message that any run sends on either channel |
| Lossless.OrderlyDataCompletes | Workspace/rcopy.c:318-323 | With Ws <= Wr + 1: if data is neither lost nor reordered: always IN_ORDER, no SREJ, and a processed EOF means the output is the file, however many timeouts and whatever the acks do |
| Delivery.CleanNetworkDelivers | Workspace/server.c:437-492 | With Ws <= Wr + 1: on a clean network with patient timers a run rests only when the file is complete and the server done, having repeated the EOF never if it recognises the EOF-ACK and ten times if not, after at most 43N + 43 steps |
| Delivery.EofAckRecognisedExactlyWhen | Workspace/server.c:454-468 | The server recognises the EOF-ACK if and only if its byte order is network order or the two checksum bytes are equal |
| Receivers.ReceiverStepInv | Workspace/rcopy.c:277-370 | Every delivery the network can make keeps the receiver invariant |
| Receivers.FlushLoopInv | Workspace/rcopy.c:350-355 | A flush writes consecutive chunks and stops at a true gap or past highest |
| Receivers.FlushWritesExactly | Workspace/rcopy.c:350-355 | A flush appends exactly the payloads of the slots from expected up to where it stops, in order |
| Receivers.EofWritesHeld | Workspace/rcopy.c:298-312 | On a message with flag 10 everything held from expected on without a gap is appended, in order, up to the first number not held or past highest, and the file is closed |
| Receivers.ReceiverAnswers | Workspace/rcopy.c:318-366 | A step sends an RR of the new expected number after progress, an SREJ of it on entering OUT_OF_ORDER, the EOF-ACK on an EOF, or nothing with state and expected number unchanged |
| Receivers.ChecksumIgnored | Workspace/rcopy.c:284-291 | Messages that differ only in the checksum field are treated alike |
| Receivers.DamageGoesUnnoticed | Workspace/rcopy.c:284-291 | In every state a PDU with one payload byte changed fails the checksum test and is treated as if built for the changed payload |
| Receivers.CorruptionIsWritten | Workspace/rcopy.c:316-369 | The damage reaches the file at once if and only if the packet is the expected one in IN_ORDER or OUT_OF_ORDER, and the file or the ring if and only if it is that or a later one with a free slot |
| Receivers.BufferedDamageIsWritten | Workspace/rcopy.c:342-355 | A damaged packet kept at any number k within a ring size is written as it came, after all before it, once the numbers between are held and the expected one and any third packet arrive |
| Senders.SenderStepInv | Workspace/server.c:303-365 | Every sender step keeps the window contiguous, moves base only to a processed RR, and emits only acceptable messages |
| Senders.SrejLookup | Workspace/server.c:422-429 | What an SREJ of a sent number produces: chunk k if live, else the live chunk sharing its slot under label k, else silence or a null dereference, by the slot's last tag |
| Senders.AckEffects | Workspace/server.c:386-434 | On any message: the server dies if and only if the flag is 6 and the slot of the number is empty under another tag; the window changes only on a 5, to the chunks from that number on; it sends only on a 6 with the slot in use, and then the chunk there under the number asked for |
| Senders.AnyMessageHandled | Workspace/server.c:305-364 | While polling or waiting: a message with a flag other than 5 that does not kill the server only resets its timeout count, one other than 6 sends nothing, and a 5 moves base to its number within the window |
| Senders.TimeoutResends | Workspace/server.c:342-357 | A timeout resends the live multiple of Ws, which is the oldest chunk if and only if base is a multiple of Ws |
| Senders.GivesUpAfterTenTimeouts | Workspace/server.c:358-362 | In silence the same PDU is resent at each of ten timeouts, then the server stops |
| Senders.AckBuysTenMore | Workspace/server.c:336-364 | A message that leaves the window full, whatever its flag and however many timeouts were counted, is followed in silence by ten more resends before the server stops |
| Senders.GivesUpAfterTenEofs | Workspace/server.c:481-492 | In silence the EOF is repeated ten times, then the server stops |
| Senders.DamagedEofAckRefused | Workspace/server.c:445-476 | On a network-order host the EOF-ACK ends the wait, and the EOF-ACK with any one byte changed leaves the server as it is |
| Senders.RemoveRangeContiguous | Workspace/server.c:418-421 | The loop of single removes leaves exactly the chunks from max(base, k) on, and none for k beyond the next number |
| Senders.InsertContiguous | Workspace/circularQueue.c:27-47 | With room in the window the next chunk's slot is free and the window stays contiguous |
| Senders.ContiguousIsMap | Workspace/circularQueue.c:27-47 | The contiguous window as a map: its keys, their PDUs, pairwise different slots, and the count equal to the number of keys |
| Windows.CircularQueue.constructor | Workspace/circularQueue.c:9-23 | All slots empty, count zero: the empty map |
| Windows.LiveDistinct | Workspace/circularQueue.c:31-34 | Keys in the map are pairwise distinct modulo the window size |
| Windows.InsertAccepts | Workspace/circularQueue.c:27-34 | Insert is refused exactly when the map has size many keys or one congruent to the new key |
| Windows.InsertRefinesMap | Workspace/circularQueue.c:35-46 | An accepted insert is a map update, a refused one changes nothing, and the count stays the number of keys |
| Windows.RemoveRefinesMap | Workspace/circularQueue.c:58-69 | Remove succeeds exactly on a key of the map and deletes just that key |
| Windows.RemoveRangeRefinesMap | Workspace/server.c:418-421 | A run of removes deletes exactly the keys in its range |
| Windows.GetAgainstMap | Workspace/circularQueue.c:49-56 | Lookup finds the key itself, a congruent key, a stale empty slot, or nothing, and exactly when |
| Windows.CircularQueue.InsertEntry | Workspace/circularQueue.c:27-47 | In place: new value and return code are those of insert on the old value |
| Windows.CircularQueue.GetEntry | Workspace/circularQueue.c:49-56 | The index the lookup yields, or -1 |
| Windows.CircularQueue.RemoveEntry | Workspace/circularQueue.c:58-69 | In place: new value and return code are those of remove on the old value |
| Windows.CircularQueue.Empty | Workspace/circularQueue.c:75-77 | True exactly when the map is empty |
| Windows.CircularQueue.Clear | Workspace/circularQueue.c:79-89 | Leaves the empty map |
| Servers.Server.WaitOnAckState | Workspace/server.c:386-434 | The window, the reply and survival are those of the abstract ack handling; without flag 5 the window is unchanged, without flag 6 nothing is sent and the process survives |
| Servers.Server.FillWindow | Workspace/server.c:305-333 | The fill and poll loops end where a number of abstract steps leads: window full, EOF sent, or dead |
| Servers.Server.AwaitSpace | Workspace/server.c:336-364 | The full-window loop ends with room, or stopped, where a number of abstract steps leads |
| Servers.Server.SendDataState | Workspace/server.c:295-382 | The whole state function terminates on every finite script and equals some number of abstract steps |
| Servers.Server.AwaitEofAck | Workspace/server.c:437-492 | Both EOF states, run to DONE, equal some number of abstract steps |
| Servers.Server.Serve | Workspace/server.c:153-165 | From SEND_DATA on, the child process always terminates, done or dead, in the state the abstract steps lead to |
| Rcopy.ReceiveInfo.FlushBuffered | Workspace/rcopy.c:304-309 | The in-place flush loop equals the abstract one and ends when nothing can be flushed |
| Rcopy.ReceiveInfo.BufferPacket | Workspace/functions.c:135-145 | In place: the slot is filled unless in use, and highest is raised |
| Rcopy.ReceiveInfo.HandlePacket | Workspace/rcopy.c:298-369 | One turn of the loop equals one abstract receiver step, with what it sends |
| Rcopy.ReceiveInfo.ProcessTransfer | Workspace/rcopy.c:272-373 | The loop ends closed or out of input, in the state the abstract steps on what it received lead to |
| Refinement.ClientFollowsProtocol | Workspace/rcopy.c:272-373 | In every run of the system, for any window sizes, the receiver is where ProcessTransfer gets on the delivered messages, and what entered the ack channel is what ProcessTransfer sends on them |
| Refinement.SenderFollowsPolls | Workspace/server.c:295-382 | In every run of the system, for any window sizes, the sender is where the polls it saw drive it, and what entered the data channel is what they make it send |
| Refinement.ServerFollowsPolls | Workspace/server.c:295-382 | Whatever its script, the server object's state and output are those some list of polls drives the protocol's sender to |
| Refinement.ServerCanFollowRun | Workspace/server.c:295-382 | In every run, the server object on the script of what the run lets it hear comes to the run's sender state, having sent exactly what entered the data channel |
| Pdus.DecodeEncode | Workspace/functions.c:66-83 | Extracting number, flag and payload inverts createPDU |
| Pdus.EncodeInBytes | Workspace/functions.c:22-54 | The built PDU in bytes: the number most significant byte first in bytes 0 to 3, the flag in byte 6, the payload from byte 7, and a checksum that passes on either byte order |
| Pdus.RetransmitRoundTrip | Workspace/server.c:347-352 | Rebuilding a PDU from its own number and packet + 7 changes nothing but flag and checksum |
| Pdus.ChecksumSound | Workspace/functions.c:45-54 | Every built PDU makes the in_cksum = 0 test succeed, on either byte order, for odd and even lengths |
| Pdus.EncodeOrderIndependent | Workspace/functions.c:45-48 | Storing the checksum without htons gives the same bytes on either byte order |
| Pdus.ByteErrorDetected | Workspace/functions.c:60 | Changing any one byte of an accepted PDU makes the test fail |
| Pdus.BitErrorDetected | Workspace/functions.c:60 | Flipping any one bit of a built PDU makes the test fail |
| Pdus.WordErrorUndetected | Workspace/functions.c:60 | Overwriting one aligned word goes undetected exactly when 0x0000 and 0xFFFF are exchanged and something else is nonzero |
| Pdus.CreatePdu | Workspace/functions.c:22-54 | Bytes 0 to 3 of the buffer are the number, most significant first, byte 6 the flag, then the payload; the in_cksum = 0 test succeeds; the rest of the buffer is untouched and the length is returned |
| Pdus.CreateRr | Workspace/functions.c:96-112 | send_rr puts seven bytes on the wire: the number, most significant byte first, 5 in byte 6, and a good checksum, the same bytes createPDU would build |
| Pdus.CreateSrej | Workspace/functions.c:114-132 | send_srej puts seven bytes on the wire: the number, most significant byte first, 6 in byte 6, and a good checksum, the same bytes createPDU would build |
| Pdus.CompareCheckOnBuilt | Workspace/server.c:454-465 | The EOF-ACK comparison accepts a built PDU exactly on a network-order host or when the two checksum bytes are equal |
| Pdus.CompareCheckImpliesZeroCheck | Workspace/server.c:454-465 | On a network-order host the comparison implies the in_cksum = 0 test |
| Checksum.StoredByteOrderIndependent | Workspace/functions.c:45-48 | RFC 1071, section 2(B), for any byte string |
| Checksum.ComputeInCksum | Workspace/checksum.h:5 | The summing and folding loops of RFC 1071, section 4.1, compute the checksum |
| Checksum.FoldCanonical | Workspace/checksum.h:5 | End-around carry picks the representative modulo 65535, never 0 for a nonzero sum |
| Handshake.RequestRoundTrip | Workspace/rcopy.c:141-160 | In bytes: number 0, flag 8, a checksum that passes, both sizes modulo 65536 high byte first, and the name; the server forks on it and its first decode finds what was asked for |
| Handshake.UsedIsIntended | Workspace/server.c:215-255 | The sizes in force are the requested ones exactly on a network-order host or when each requested size has two equal bytes |

## Left out

- Sockets, poll sets, fork, signals, host lookup and file descriptors; a poll reports a message or silence, and `fread` reads from a byte string.
- `in_cksum` itself is not in the repository as source; it is modelled from RFC 1071, so its 32-bit accumulator, which no PDU this short can overflow, is unbounded here.
- Handshake retries, the file-OK exchange, socket reopening, file-name and argument checks, and failing `malloc`, `calloc` or `fopen`.
- `CircularQueue_free`, which is clear followed by releasing the array.
- Bit corruption in the theorems about runs: neither the data receiver nor the RR and SREJ handler looks at a checksum, so they hold for networks that do not damage messages.
- Messages shorter than a header; and in the runs, foreign datagrams: everything in flight was built by one of the two programs.
- Fixed buffer sizes: payloads are byte strings of at most B bytes, and reply buffers are allocated to size.
- A window size of zero, which `Wr mod 65536` can yield: the server then sends nothing and gives up.
- Sequence number wrap-around: the programs increment modulo 2^32, and files are assumed to have fewer than 2^32 - 2 chunks.
- Repair of losses beyond what `OneLossRepairedExactlyWhen` and `AllLossesRepairedExactlyWhen` allow: the code does not provide it.
- Buffer sizes outside 1 .. 1400, which neither program rejects: a larger one would overrun the server's fixed buffers, and zero makes it send the EOF at once.
- The FILENAME and WRITE_FILE_OK_ACK states of the child process; `Serve` starts where they hand over to SEND_DATA.
- The nesting of the three loops of `send_data_state` in one function: each inner loop is a method of its own here.
