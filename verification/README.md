# Models and proofs for the measuring and messaging layer

This project models, in Dafny, the parts of the repository whose correctness is hardest to see from
the code, and proves what they promise.

* **Erasure codec** (`ml/fec/RSfec.c`). The tables of GF(2^8), the matrix routines and the coder are
  methods on arrays, proved against linear algebra over an abstract field. Main results: packet r of
  the code holds, for each byte, the value at x^(r - 1) of the polynomial over GF(2^8) that has the
  source packets' bytes at 0, 1, x, x^2, ... (`Interpolation.IsPacket`); from any k
  packets with different indices below n, in any order, `Packets.Decode` leaves the k source packets
  in place, and it reports an error exactly when the indices are not k different ones below n;
  `Packets.EncodeAndDecode` states the whole round trip.
  Layers: `Bytes`, `BitProducts`, `GF256`, `Generator` (the field and its generator x), `Fields`,
  `Vectors`, `Elimination`, `Polynomials` (any field), `Tables`, `Matrices`, `InvertMat`,
  `InvertVdm`, `Codes`, `Interpolation`, `Fec`, `Shuffle`, `Packets`.
* **Output pacing** (`ml/util/rateLimiter.c`, `ml/util/queueManagement.c`): `TokenBucket` is the
  leaky bucket in its mixed-unit, 32-bit arithmetic, `Queues` the two linked lists, `RateLimiter` the
  sender built from them. Main results: over every run the admission bound, and the exact level, so
  that no packet is held back that the bytes let through leave room for; the queue as a FIFO in which
  each packet is charged once and never waits without a pending drain event.
* **Fragmentation, reassembly and loss recovery** (`ml/ml.c`): `Fragments`, `Reassembly`, `Tracking`,
  `Delivery`, `Repeats`, `Retransmission`, `Requests`, `Receiver`. Main results: a message is cut into
  as few packets as its headers and the packet size allow; over every interleaved run, with
  any repetition and slots cleaned up at any time, what the application gets and when, which is every
  message whose packets all arrived before its slot was cleaned up, once and whole, if none is
  repeated; and over every run of packets and timers each gap has a timer or was asked for, so that
  every missing byte is sent again as long as fewer than 25 gaps were opened.
* **Connections** (`ml/ml.c`): `Connections`, `Handshake`, `Progress`, `Endpoint`. Main results:
  handshake safety over all runs with loss, repetition and reordering, and progress: in every state that
  is reached, messages that were sent make a connection that is not ready ready at both ends; callbacks in order and at most once; the exact
  number of time-outs before a connection is given up.
* **Statistics** (`monl/result_buffer.cpp`): `Statistics`, `ResultBuffer`. Main results: the circular
  buffer is the window, and every streamed or computed statistic is the batch one.
* **STUN messages** (`ml/util/stun.c`, after sections 11.1 and 11.2 of RFC 3489): `Stun`,
  `StunLayout`, `StunBuffers`. Main results: the bytes of every message, and the round trip through
  encoder and parser.

Code that changes state step by step is a class or a method on arrays whose contract gives the new
state as a function of the old one; the theorems are about those functions and about invariants that
the methods keep. Some invariants are written as `forall k :: Inside(k) ==> ...` (or with another
predicate that is always true): only proofs that mention `Inside` look at how a value is represented.

Where the code differs from what one might expect, the model follows the code:

* `HP & NO_RTX` is 0 in `send_msg`, so control messages are paced like any other;
  the priority is a free input of `Transmitter.QueueOrSendPacket`.
* A packet that finds the queue empty and the bucket full schedules a drain event even if the queue
  then has no room for it.
* An empty message is cut into one packet, but `recv_pkg` drops every packet of an empty message, so
  the round trip is about messages of 1 to 0x20000 bytes (`Receiver.FragmentsAreData` is exact).
* `arrivedBytes` counts repeated bytes again, so a message can be delivered with a hole
  (`Repeats.RepeatLeavesHole`, with packets that the layer itself resends). The theorems about runs
  take any repetition and say exactly when a message is delivered and what it holds; it is whole if
  none of its packets arrived twice before. The recovery of missing bytes needs no such condition.
* The room in a packet is a signed number, and so is the payload length, `min` being a function on
  `int` (ml/ml.c:189-193). Below the headers' size the length is negative, and exactly then
  (`Fragments.PayloadLenSign`), and is passed on as a huge unsigned one. Such sizes occur: an INVITE
  sets the size unchecked (ml/ml.c:799), and a message that was too long even for the smallest size
  leaves -1 behind (`Fragments.SizesBelowHeaders`). The theorems about sending are about sizes larger
  than the headers.
* Where the table of messages under way is full, `recv_data_msg` writes in front of it. A packet finds
  a slot exactly if no more messages need one than there are (`Delivery.RoomExact`).
* A gap that was filled can be touched again by a late packet, and its beginning is then behind its end:
  the timer asks for such a range, too. `Requests.WatchedAlways` is about gaps that have bytes in them.
* The planned drain event can come a byte too early and is then planned again.
  `TokenBucket.FirstEventExact` says exactly when, from what is known when it is planned: the free
  room in the bucket must make up for what rounding loses. A packet of 25 bytes (23 of header) that
  meets a full bucket of 25 bytes at 3 bytes a second is refused once (`TokenBucket.FirstEventCanFail`).
* A message all of whose packets arrive again after its slot was cleaned up is delivered again:
  `Delivery.FinishedOnce` counts one delivery for each life of the slot.
* A message restarted with smaller packets keeps its number; the delivery theorem is about the packets
  of one attempt.
* A statistics buffer that starts at zero keeps that zero in MIN and MAX; `ZeroStartExtremes` says
  exactly when they are nevertheless the extremes of the samples.
* `stunParseMessage` clears only eight bytes of the message it fills, so fields that were present stay
  present (`Stun.RoundTrip`); a string of 256 bytes is written but not accepted again.
* `pmtu_decrement` maps a size it does not know to 472, so a size grows exactly if it is below 472
  (`Fragments.PmtuRankIs`).

## Model

| member | source | states |
|---|---|---|
| Tables.Modnn | ml/fec/RSfec.c:171-180 | the shift-and-add loop ends and gives x mod 255 for every x >= 0 |
| GF256.XtimeXor | ml/fec/RSfec.c:276-300 | one shift-and-reduce step is linear over exclusive or |
| GF256.ExpTimes | ml/fec/RSfec.c:276-321 | multiplying powers of x adds their exponents |
| Generator.NoShortCycle | ml/fec/RSfec.c:261-321 | no power of x with an exponent from 1 to 254 is one: the polynomial is primitive |
| Generator.ExpOnto | ml/fec/RSfec.c:261-321 | every non-zero byte is a power of x, so logarithms exist |
| Generator.GFLawful | ml/fec/RSfec.c:203-212 | exclusive or, multiplication of polynomials modulo 1+x^2+x^3+x^4+x^8 and the inverse form a field |
| Generator.DescribesAll | ml/fec/RSfec.c:261-321 | exponent and logarithm tables determine the field's products and inverses |
| Tables.GfTables.GenerateGf | ml/fec/RSfec.c:261-321 | the loops fill gf_exp, gf_log and inverse with the powers of x, their logarithms and the inverses |
| Tables.GfTables.InitMulTable | ml/fec/RSfec.c:203-212 | every entry of the multiplication table is the field product |
| Tables.GfTables.InitFec | ml/fec/RSfec.c:620-630 | after initialisation all tables are those of the field |
| Matrices.Addmul1 | ml/fec/RSfec.c:340-371 | the unrolled loop and the rest loop together add c times the source, whatever the length |
| Matrices.Matmul | ml/fec/RSfec.c:381-396 | the triple loop computes the matrix product |
| Elimination.ExchangeStep | ml/fec/RSfec.c:495-535 | exchanging a pivot keeps the relation between inputs and outputs of the matrix |
| Elimination.NoPivotMeansSingular | ml/fec/RSfec.c:448-479 | without a pivot among unused rows and columns the matrix has a null vector |
| Vectors.InverseProducts | ml/fec/RSfec.c:415-425 | an inverse as a map is a two-sided inverse as a matrix product |
| InvertMat.Reduce | ml/fec/RSfec.c:440-535 | after all pivots the array represents the inverse up to the recorded swaps, or the matrix is singular |
| InvertMat.Unscramble | ml/fec/RSfec.c:536-547 | the reverse column swaps turn that into the inverse |
| InvertMat.Invert | ml/fec/RSfec.c:425-549 | returns 0 exactly when the matrix is non-singular, and then leaves its inverse in place |
| Polynomials.TooManyRoots | ml/fec/RSfec.c:551-563 | a polynomial of k coefficients with k different roots is zero |
| Polynomials.VandermondeNonsingular | ml/fec/RSfec.c:551-563 | a Vandermonde matrix of different points is non-singular, over any field |
| Polynomials.LagrangeInverse | ml/fec/RSfec.c:551-563 | the coefficients of the Lagrange basis polynomials are its two-sided inverse |
| InvertVdm.Coefficients | ml/fec/RSfec.c:588-599 | the loop that starts one slot late computes every coefficient of the product of (x - p) that is read, because the first point is 0 |
| InvertVdm.SyntheticDivision | ml/fec/RSfec.c:600-610 | b and t are the quotient by (x - p) and its value at p |
| InvertVdm.Invert | ml/fec/RSfec.c:564-617 | leaves the inverse of the Vandermonde matrix in place |
| Codes.AnyRowsNonsingular | ml/fec/RSfec.c:690-711 | any k rows of the encoding matrix with different numbers are linearly independent |
| Codes.Recovered | ml/fec/RSfec.c:853-862 | the inverse of the selected rows, applied to what was received, gives each source packet |
| Interpolation.PacketEvaluates | ml/fec/RSfec.c:690-745 | over any field, a packet has at its own point the value of every polynomial through the source |
| Interpolation.PacketIs | ml/fec/RSfec.c:690-745 | a packet is what the coder computes exactly if it has at x^(r - 1) the values of the polynomials that have the source bytes at 0, 1, x, ... |
| Fec.FillVandermonde | ml/fec/RSfec.c:686-697 | the first row of the extended matrix is 1, 0, 0, ..., and entry c of row r is x^((r - 1) c) |
| Fec.FecNew | ml/fec/RSfec.c:664-720 | for 1 <= k <= n <= 256 row r of the encoding matrix is packet r of the unit vectors, the identity on top; otherwise nothing is made |
| Packets.Encode | ml/fec/RSfec.c:726-745 | packet r < k is source packet r; packet r >= k has, for each byte, the value at x^(r - 1) of any k coefficients that give the source packets' bytes at 0, 1, x, x^2, ...; a bad index writes nothing |
| Shuffle.SwapHome | ml/fec/RSfec.c:751-783 | each swap puts one more index in its place, so shuffling ends |
| Shuffle.Place | ml/fec/RSfec.c:751-783 | succeeds exactly when no index below k is repeated; pairs of index and packet are permuted and every index below k is at its place |
| Packets.BuildDecodeMatrix | ml/fec/RSfec.c:791-820 | not null exactly when the indices are different and below n, and then the inverse of the rows received |
| Packets.Decode | ml/fec/RSfec.c:833-874 | returns 0 exactly for k different indices below n, and then leaves in pkt whatever source they are the packets of, in that sense |
| Packets.EncodeAndDecode | ml/fec/RSfec.c:664-874 | k packets encoded from a source and decoded: 0 exactly if no packet was taken twice, and then pkt holds the source |
| TokenBucket.LeakFits | ml/util/rateLimiter.c:139-149 | the leak that is computed is exact and below 2^32, for rates below 2^28 and levels below 2^31 |
| TokenBucket.DrainedExact | ml/util/rateLimiter.c:140-149 | the shortcut for a long pause agrees with the exact leak, on a monotone clock |
| TokenBucket.LeakBounds | ml/util/rateLimiter.c:145-146 | the leak is rate times time to within a byte, with one byte more only across a second boundary |
| TokenBucket.AdmissionBound | ml/util/rateLimiter.c:130-159 | any run lets through at most the room, the rate times the time, and a byte per second boundary |
| TokenBucket.LevelExact | ml/util/rateLimiter.c:130-159 | the level after any run is what came in less what leaked, since some request that found the bucket empty or since the beginning |
| TokenBucket.LevelAtLeast | ml/util/rateLimiter.c:130-159 | and it is at least that since any request, so the largest of these |
| TokenBucket.LevelAtMost | ml/util/rateLimiter.c:152-154 | and no more than what was there and what was let through |
| TokenBucket.RefusedExact | ml/util/rateLimiter.c:139-157 | a packet is refused exactly if it and the level after the leak exceed the size; so only if it and all that was let through exceed the room |
| TokenBucket.BurstGranted | ml/util/rateLimiter.c:152-154 | a burst that fits in the free room is let through as a whole, whatever the times |
| TokenBucket.Unpaced | ml/util/rateLimiter.c:134-137 | without a rate every packet is let through and the level is zero |
| TokenBucket.RunSplit | ml/util/rateLimiter.c:130-159 | so the bound holds between any two instants of a run |
| TokenBucket.NeverGranted | ml/util/rateLimiter.c:152-157 | a packet larger than the bucket is never let through |
| TokenBucket.DrainTimeExact | ml/util/rateLimiter.c:82-97 | the planned delay is a proper time and the drain time rounded down to a microsecond |
| TokenBucket.RefusedEvent | ml/util/rateLimiter.c:53-77 | a planned event that is refused has still brought the level down by at least the packet's size less the rounding |
| TokenBucket.SentInTheEnd | ml/util/rateLimiter.c:53-97 | a waiting packet that fits in the bucket is sent by as many planned events as such steps make room for it |
| TokenBucket.SecondEventSends | ml/util/rateLimiter.c:53-97 | the second one is enough for packets of at least 2 + 2 (rate / 10^6) bytes |
| TokenBucket.FirstEventExact | ml/util/rateLimiter.c:53-97 | the first planned event sends the packet exactly if the free room, when it was planned, is at least what rounding loses |
| TokenBucket.FirstEventSends | ml/util/rateLimiter.c:53-97 | with that room it sends the packet however late it fires |
| TokenBucket.FirstEventCanFail | ml/util/rateLimiter.c:82-97 | a packet of 25 bytes, a full bucket of 25 and a rate of 3: refused at its planned event, sent at the next |
| RateLimiter.WaitingBound | ml/util/rateLimiter.c:37-97 | the first packet that waits is refused by drain events in a row only as long as their sure leaks do not make room for it |
| RateLimiter.PacedBound | ml/util/rateLimiter.c:37-159 | what is sent through the bucket between two instants keeps the admission bound |
| RateLimiter.Transmitter.OutputRateControl | ml/util/rateLimiter.c:130-159 | the new level, time and answer are those of the bucket |
| RateLimiter.Transmitter.SetOutputRateParams | ml/util/rateLimiter.c:124-128 | settles the level at the old rate up to now, sets size and rate (bits to bytes, rounding down) and keeps the books |
| RateLimiter.Transmitter.PlanFreeSpaceInBucketEvent | ml/util/rateLimiter.c:82-97 | only called with a positive rate; adds an event after the drain time |
| RateLimiter.Transmitter.QueueOrSendPacket | ml/util/rateLimiter.c:99-122 | HP packets go past the bucket; others are sent, queued behind or dropped, each case exactly; an event is planned exactly when the bucket refuses, and the bucket is asked only if none waits; accepted = sent then queued, each sent one charged once, waiting packets have an event |
| RateLimiter.Transmitter.FreeSpaceInBucketCb | ml/util/rateLimiter.c:37-80 | the first packet is sent exactly if the bucket grants it; packets move in order, each asked for and followed by a new reading of the clock, until the first one that waits is refused, and then exactly one event is planned for it |
| RateLimiter.Transmitter.SendAndKeep | ml/util/rateLimiter.c:64-71 | keeps the packet behind exactly those that stay, or nothing changes with NO_RTX; the queue holds the newest of the sent packets without NO_RTX |
| Queues.PacketQueue.AddPacketTX | ml/util/queueManagement.c:71-89 | appends, or refuses exactly when the queue would exceed its size |
| Wire.Priorities | ml/util/rateLimiter.h:33-34 | HP is priority 1 and NO_RTX is 2, and 3 is both |
| Queues.PacketQueue.TakePacketToSend | ml/util/queueManagement.c:91-104 | takes out the oldest packet |
| Queues.PacketQueue.AddPacketRTX | ml/util/queueManagement.c:107-145 | evicts the old and then as many as room takes, appends, and never exceeds the size |
| Queues.EvictedExact | ml/util/queueManagement.c:112-127 | exactly those packets stay that are young enough and fit beside the new one with all newer ones |
| Queues.PacketQueue.RemoveOldestPacket | ml/util/queueManagement.c:147-157 | drops the oldest packet, 1 if there is none |
| Queues.PacketQueue.SearchPacketInRTX | ml/util/queueManagement.c:181-215 | finds the first packet of the message at that offset, if there is one |
| Queues.PacketQueue.RtxPacketsFromTo | ml/util/queueManagement.c:217-232 | ends, and sends packets that join on and begin before the end of the range, until it is covered (0) or the next one is not there (1) |
| Fragments.PayloadLenSign | ml/ml.c:506 | the payload length is negative exactly for sizes below the headers', and positive, while bytes remain, exactly for larger ones |
| Fragments.SizesBelowHeaders | ml/ml.c:189-193 | with size 10, and with the error value, the first length is -13 and -24 |
| Fragments.SendOnce | ml/ml.c:497-584 | for sizes larger than the headers, the packets taken are consecutive parts from the first byte on, each with its monitoring header and exactly as long as the size unless it ends the message; all of the message if none is refused |
| Fragments.SendMsg | ml/ml.c:422-586 | restarts with the size decremented once for each MSGLEN, ends, and what the last attempt sent are such packets of its size, a fragmentation if it got through |
| Fragments.FewestPackets | ml/ml.c:506 | no other fragmentation with these headers and this size has fewer packets |
| Fragments.SendTruncable | ml/ml.c:422-586 | a control message is one packet within the size, with as many of its bytes as it claims: all of them, or as many as fill the packet |
| Fragments.Partition | ml/ml.c:497-584 | every byte of the message lies in exactly one packet |
| Fragments.PmtuRankIs | ml/ml.c:1373-1395 | every size reaches the error value in at most four decrements, and a decrement lowers it exactly from 472 on |
| Reassembly.FillKeeps | ml/ml.c:1143-1156 | filling a gap takes no byte out of the gaps but those that arrived |
| Reassembly.CoveredExact | ml/ml.c:1131-1159 | after any arrivals, the next packet keeps the missing bytes covered exactly if it does not jump or its gap can be recorded |
| Reassembly.LossCoverage | ml/ml.c:1129-1160 | with fewer than 25 gaps opened, whatever arrived, every missing byte lies in a gap or at the tail |
| Tracking.GotAll | ml/ml.c:1163-1164 | as many bytes as the message has arrive only with all its packets |
| Tracking.TracksStep | ml/ml.c:1101-1164 | a packet, new or repeated, fills its own part, leaves all others, is counted, and keeps gaps at packet boundaries |
| Tracking.AllHeardExact | ml/ml.c:1114-1164 | when the message's bytes are counted, all packets arrived exactly if none arrived twice |
| Tracking.CompleteExact | ml/ml.c:1101-1164 | over all arrivals, repeated ones included, a message is complete exactly if some first part of them has its bytes |
| Tracking.CompleteHolds | ml/ml.c:1101-1164 | it then holds the message, with zeros where nothing had arrived, and is whole if no packet was repeated |
| Repeats.RepeatLeavesHole | ml/ml.c:1114-1164 | five packets, of which 0, 4, 2, then 1, 2 arrive: the message is complete and its fourth byte is zero |
| Delivery.GoodStep | ml/ml.c:1043-1126 | each packet, new or repeated, finds its message's slot or a free one, and leaves other messages alone |
| Delivery.RoomExact | ml/ml.c:1043-1058 | a packet finds a slot exactly if the table has as many as there are messages that need one |
| Delivery.GoodGone | ml/ml.c:938-1016 | cleaning up a message's slot frees that slot and leaves other messages alone |
| Delivery.RunDelivers | ml/ml.c:938-1287 | over every run, with any repetition, order, interleaving and cleaning, each slot is in the state its packets since the last cleaning lead to, and a message is delivered when its bytes are counted, with zeros where nothing arrived |
| Delivery.FinishedOnce | ml/ml.c:1096-1098 | a message is delivered as often as its slot was complete when cleaned up, and once more if it is complete now |
| Delivery.DeliveredWhole | ml/ml.c:1019-1287 | if no packet arrives twice, what is delivered are the bytes that were sent |
| Delivery.FinishedWhole | ml/ml.c:938-1287 | then a message is delivered at most once, and exactly if all its packets arrive before its slot is cleaned up |
| Receiver.RecvData.Enter | ml/ml.c:1101-1164 | buffer, counters, gaps and status after a packet are those of the step function |
| Receiver.RecvData.FillGaps | ml/ml.c:1143-1156 | the loop shrinks the first gap that the packet touches, only that one |
| Receiver.Receiver.RecvDataMsg | ml/ml.c:1037-1287 | table, deliveries and timers after a packet, for known, new and complete messages; the state moves as in `Requests` |
| Receiver.Receiver.RecvPkg | ml/ml.c:1543-1662 | what each kind of packet changes, and nothing else; a request is answered from the retransmission queue |
| Receiver.FragmentsAreData | ml/ml.c:1561-1611 | packets of a message are taken as data, never as STUN, exactly if it is neither empty nor too long |
| Receiver.ControlArrives | ml/ml.c:1571-1662 | a control message of the handshake is taken for one |
| Receiver.Receiver.PktRecvTimeoutCb | ml/ml.c:264-299 | the state moves as in `Requests`; every new request is one of those from which missing bytes are recovered |
| Receiver.Receiver.LastPktRecvTimeoutCb | ml/ml.c:301-327 | the same for the tail |
| Receiver.Receiver.RecvTimeoutCb | ml/ml.c:938-1016 | frees the slot, cancels the timer of its tail, and nothing else; the state moves as in `Requests` |
| Retransmission.ResendCovers | ml/util/queueManagement.c:217-232 | a range that begins at a packet is covered by a run of the message's packets, if the queue holds them |
| Retransmission.NeverStandsStill | ml/util/queueManagement.c:221-230 | the packets of a message that is not empty always move the loop on |
| Retransmission.LossRecovered | ml/ml.c:264-327 | whatever arrived of a message, repeated or not, for every missing byte one of the requests is answered with the packet that holds it |
| Retransmission.RunLossRecovered | ml/ml.c:264-327 | the same for the message's slot in any interleaved run in which slots are cleaned up |
| Requests.GapAsked | ml/ml.c:264-299 | the timer of a gap that is open sends a request with exactly that gap's bounds, that of a closed one none; it fires again as often as told |
| Requests.TailAsked | ml/ml.c:301-327 | the timer of a tail that is open sends a request from the expected offset to the message's end, that of a closed one none |
| Requests.FiringEnds | ml/ml.c:264-327 | every firing uses up work, so the timers run out when no packet comes |
| Requests.WatchedAlways | ml/ml.c:938-1287 | over every run of packets and timers each open gap and open tail has a timer that names it or was asked for since its message began, and every slot has the timer that frees it |
| Requests.LossAnswered | ml/ml.c:264-327 | over every such run, once a message's timers have fired, for every missing byte a request that was sent is answered with the packet that holds it |
| Receiver.NackArrives | ml/ml.c:247-260 | a request sent as a control message is classified and read as it was |
| Connections.TimeoutCounts | ml/ml.c:1290-1355 | a time-out uses up one of those left, and gives up with the last |
| Connections.GivenUpInTheEnd | ml/ml.c:1290-1355 | without an answer a connection is closed at exactly the last one left, with one failure callback, at most the eighteenth |
| Connections.EighteenTimeouts | ml/ml.c:1336-1351 | it is the eighteenth exactly from size 1464 on a connection tried internally first |
| Connections.StepCallbacks | ml/ml.c:824-886 | every step keeps called then pending as registered, calls only when ready, and leaves none pending when ready |
| Connections.CallbacksAlways | ml/ml.c:1982-2028 | so over every run each callback is called at most once, in order |
| Handshake.Agreement | ml/ml.c:691-891 | on a ready connection each side's external id is the slot the other side uses |
| Handshake.AlwaysAddressed | ml/ml.c:813-866 | CONNECT and READY never carry -1, and name a slot that is there |
| Handshake.StepSafe | ml/ml.c:684-891 | every step of every endpoint keeps handshake safety, a late INVITE included |
| Handshake.HandshakeSafety | ml/ml.c:691-891 | so it holds over every run with loss, repetition, reordering and simultaneous opening |
| Progress.ReadyEffect | ml/ml.c:864-889 | READY makes a connection in CONNECT ready and calls all pending callbacks in order, and changes nothing else |
| Progress.ConnectEffect | ml/ml.c:813-857 | CONNECT is answered by READY; one being opened becomes ready with the peer's slot number and its callbacks are called |
| Progress.InviteEffect | ml/ml.c:756-812 | INVITE is answered by CONNECT, in the connection's slot or the first free one |
| Progress.OpenEffect | ml/ml.c:1982-2046 | opening registers the callback, calling it at once on a ready connection; a new connection sends INVITE |
| Progress.TimeoutEffect | ml/ml.c:1290-1355 | a time-out that does not give up sends the message of the status again; size, trials and way to the peer change as stated |
| Progress.RunGoing | ml/ml.c:684-891 | over every run the message that the peer is to answer was sent for each connection that is not ready |
| Progress.OpeningCompletes | ml/ml.c:756-889 | in every such state, a connection being opened becomes ready at both ends by INVITE, CONNECT and READY, with all callbacks called |
| Progress.HandshakeCompletes | ml/ml.c:756-2046 | after any run, opening a connection and the three messages make it ready at both ends, each knowing the other's slot |
| Progress.AnsweringCompletes | ml/ml.c:813-889 | and a connection that waits for READY becomes ready at both ends in one or two rounds of CONNECT and READY |
| Endpoint.Endpoint.OpenConnection | ml/ml.c:1964-2047 | an existing connection takes or calls the callback; otherwise a free slot is taken and INVITE sent; -1 if there is none |
| Endpoint.Endpoint.RecvConnMsg | ml/ml.c:756-891 | slots and messages after INVITE, CONNECT and READY |
| Endpoint.Endpoint.PmtuTimeoutCb | ml/ml.c:1290-1355 | slots, messages and failure callbacks after a time-out |
| Endpoint.Endpoint.CloseConnection | ml/ml.c:2049-2074 | the slot is free and no other changes |
| Endpoint.ConnectData.Append | ml/ml.c:1997-2006 | adds a callback at the end of the linked list, head and last staying its ends |
| Endpoint.ConnectData.CallAll | ml/ml.c:838-847 | calls all callbacks of the list in order and leaves it empty |
| Statistics.MeanStep | monl/result_buffer.cpp:197-200 | the recurrence gives the mean of all samples |
| Statistics.VarianceStep | monl/result_buffer.cpp:202-206 | the recurrence gives the sample variance from the third sample on |
| Statistics.VarianceOfTwo | monl/result_buffer.cpp:202-206 | and with two samples, whatever the old variance was |
| ResultBuffers.ExtremesStep | monl/result_buffer.cpp:208-213 | the comparisons give the extremes of the start value and all samples |
| ResultBuffers.ZeroStartExtremes | monl/result_buffer.cpp:130-131 | starting at zero, MIN (MAX) is that of the samples exactly if one is at most (at least) zero |
| ResultBuffers.HoldsStep | monl/result_buffer.cpp:227-248 | writing at pos appends to the window, in place of its oldest sample when full |
| ResultBuffers.ResultBuffer.Init | monl/result_buffer.cpp:123-135 | the statistics of no samples, and an empty window |
| ResultBuffers.ResultBuffer.NewSample | monl/result_buffer.cpp:178-225 | SUM, AVG, VAR, MIN, MAX and LAST are those of all samples and WIN_SUM that of the window, which is the last `size` samples |
| ResultBuffers.ResultBuffer.NewSampleWin | monl/result_buffer.cpp:227-248 | the buffer holds the window with the sample appended |
| ResultBuffers.ResultBuffer.Resize | monl/result_buffer.cpp:144-175 | the window becomes its last s samples; apart from WIN_SUM, which is its sum, no statistic changes |
| ResultBuffers.ResultBuffer.UpdateStats | monl/result_buffer.cpp:252-277 | WIN_AVG, WIN_MIN, WIN_MAX and WIN_VAR are the mean, extremes and sample variance of the window |
| Stun.FirstRead | ml/util/stun.c:282-495 | the parser reads back the attribute that was written first, and goes on behind it, or rejects a string that is too long |
| Stun.RoundTrip | ml/util/stun.c:254-643 | parsing an encoded message gives its fields over those there were, exactly if no string has 256 bytes |
| Stun.RoundTripFields | ml/util/stun.c:254-643 | into a cleared message the fields and flags are the same exactly if the addresses are marked as IPv4 |
| StunLayout.Layout | ml/util/stun.c:539-643 | the bytes of a message: header, and each attribute with its number, length and value in network order |
| StunLayout.UnknownRead | ml/util/stun.c:484-492 | an unknown attribute is skipped from type 0x8000 on, and otherwise makes the message rejected |
| StunLayout.TruncatedRejected | ml/util/stun.c:288-297 | an attribute longer than what is left makes the message rejected |
| StunBuffers.EncodeMessage | ml/util/stun.c:539-643 | the buffer holds the bytes of the message, the length filled in last |
| StunBuffers.ParseMessage | ml/util/stun.c:254-498 | the loop ends for any bytes and gives what the parser function gives, for rejected messages, too |

## Left out

- Reed-Solomon sizes other than GF_BITS = 8: every shipped configuration uses bytes.
- Fec.FecNew: requires k >= 1; with k < 1 the source writes in front of its arrays (ml/fec/RSfec.c:591).
- Packets.Encode: requires an index that is not negative, on which the source reads in front of its array.
- Shuffle.Place: requires indices that are not negative, on which the source reads in front of its array.
- Packets.Decode: requires indices that are not negative, for the same reason.
- Row-major matrices: they are arrays of row buffers, and local scratch arrays are sequences; the flat index arithmetic is not modelled.
- The use of the codec inside `send_msg` and `recv_data_msg` (`#ifdef FEC`), `fec_free`, the magic check and allocation failures.
- Sockets, libevent, the wall clock, randomness, logging and DNS: clock readings, timer firings, arrivals and answers of the socket are inputs.
- RateLimiter.Transmitter.QueueOrSendPacket: requires a packet with NO_RTX or one that fits in the retransmission queue, see the next line.
- Queues.PacketQueue.AddPacketRTX: requires a packet that fits in the queue, because the eviction loop of the source would not end otherwise.
- Queues.PacketQueue.RtxPacketsFromTo: requires that no packet kept for the message is empty, because the loop of the source would not move on.
- Queues.PacketQueue.SearchPacketInRTX: only the mode that keeps the packet; the other is never used.
- Fragments.SendOnce: requires a packet size larger than the headers, or as large for an empty message: with an equal one the loop of the source would not end, and below it the source passes on a negative length (`Fragments.PayloadLenSign`); what it then reads is not modelled. The answers of the queue are an input.
- Fragments.SendMsg: requires the same of the size it begins with.
- Fragments.SendTruncable: requires a packet size that is at least the headers', for the same reason.
- Delivery.RunDelivers: requires a free slot for every packet that needs one, where the source writes outside its table (`Delivery.RoomExact` says exactly when); packets carry the same message under the same number throughout.
- Requests.WatchedAlways: a packet for which there is no slot, or that would run over its buffer, is taken to change nothing.
- Delivery.DeliveredWhole: requires that each packet arrives at most once; `Tracking.CompleteHolds` says what is delivered otherwise.
- Receiver.Receiver.RecvPkg: requires that a request has its 16 bytes, which the source does not check; byte order is the same on both sides.
- Receiver.Receiver.RecvDataMsg: requires a free slot for a new message and a packet that stays inside its buffer, which the source does not check; callbacks are taken to be registered.
- Handshake.HandshakeSafety: no connection is closed during the run, because slots would be used again; a control message that the path is too small for is lost like any other.
- Progress.OpeningCompletes: the peer is another endpoint, not the opener itself.
- Progress.HandshakeCompletes: the same.
- Progress.AnsweringCompletes: the same.
- Endpoint.Endpoint.RecvConnMsg: requires slot numbers that can be looked up, which `Handshake.AlwaysAddressed` proves; addresses are plain numbers, and send parameters and keep-alives are not modelled.
- Durations of the connection time-outs and their doubling.
- ResultBuffers.ResultBuffer.NewSample: samples are numbers (the caller filters others), doubles are reals, the size is at least 1; publishing, RATE and PERIOD_SUM are not modelled.
- STUN attributes MESSAGE-INTEGRITY, ERROR-CODE, UNKNOWN-ATTRIBUTES and XOR-ONLY: the parser function answers Foreign for them, because what the source writes for them is not what it reads.
- StunBuffers.EncodeMessage: requires a buffer that is large enough and strings whose length is divisible by four, as the source asserts for the strings only.
- The Windows variant of `sendPacketFinal`, which asks the bucket a second time.
- `mlSendAllData`, the monitoring dispatcher, manager and plugins, the repository publisher, the ALTO client and the common utilities: I/O, wrappers and list code.
