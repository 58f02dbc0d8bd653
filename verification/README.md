# Sponge: a user-space TCP/IP stack, modelled and proved

The project models the TCP endpoint of Sponge (byte stream, reassembler, receiver, sender, connection), two
such endpoints joined by an unreliable network, the ARP network interface, the router, and the wire format of
TCP over IPv4. `dafny verify dfyconfig.toml` checks all of it.

## How it is built

Each component has a value-level description (`StreamSpec`, `AssemblySpec`, `ReceiverSpec`, `SenderSpec`,
`ConnectionSpec`, `InterfaceSpec`, `RouterSpec`): datatypes and total functions, one per operation, with the
source's branches, integer widths and constants. Beside it stand the proofs about that description, and a
class with the source's own fields whose methods, loops included, are proved to take the abstract value of the
object exactly where the description says (`ByteStreams`, `Reassemblers`, `Receivers`, `Senders`,
`Connections`, `Interfaces`, `Routers`). An exception of the source is a result that is not `ok`, with the state it
leaves behind.

- *Reassembly* is described as a map from index to byte. `Chunks` and `Merging` prove that the list of chunks
  and its merge loop implement that map.
- *Sequence space.* A stream and its end are one sequence, `Image`: SYN, the bytes, FIN. A segment is honest if
  it is a slice of the image at its absolute number. Sender proofs say that outstanding segments and first
  transmissions tile the image.
- *The network* (`TwoEndpoints`) keeps every segment either side has ever sent and delivers any of them at any
  time, any number of times or never. It is assumed that the absolute sequence and acknowledgement numbers
  behind a delivered segment are less than 2^31 from the receiver's checkpoints, which stands for the segment
  lifetime of section 3.3 of RFC 793, and that no stream is longer than 2^63 bytes.
- *What is done and nothing else.* For the endpoint `Transmissions.WhatIsSent`, `Timers.TimerAfter`,
  `Closing.LingerAfter` and `Closing.EndsExactlyWhen`, and for the interface `Emissions.WhatIsPushed`, say for
  every event exactly what is sent, what happens to the timer, and when the endpoint lingers and ends.
- *History fields.* `firsts` (sender), `out` (connection), `log`, `heard`, `submitted`, `clock` (interface) and
  `routes` (router) record what happened so that properties of whole runs can be stated. No operation reads
  them; `InterfaceProofs.HistoryIsTheRun` ties those of the interface to the calls made.

## Where the code falls short of what it is for

For each of these an exact condition is proved for all inputs, and a run or an input that shows it is given.

- A late acknowledgement replaces the window although it does not move the acknowledged number
  (libsponge/tcp_sender.cc:77-84), so the sender may pass the window its peer has:
  `FlowControl.RunsRespectWindowIff`, `LateAcknowledgement.LateAckOverruns`.
- An acknowledgement that repeats the number and widens the window is returned from before the window is filled
  (libsponge/tcp_sender.cc:79-82), so data stays unsent although there is room: `Filling.ArrivalExhaustsIff`,
  `Scenarios.WiderWindowGoesUnused`. It never stalls the connection: `NoStall.NothingStalls`.
- The advertised window is cut to 16 bits, not limited to them (libsponge/tcp_connection.cc:95-116):
  `Advertising.WindowFieldExactIff`, `Advertising.FullWindowShowsAsZero`.
- An acknowledgement that completes no segment resets the count of retransmissions but not the timeout
  (libsponge/tcp_sender.cc:85-91): `Backoffs.BackoffExactOverRuns`, `Scenarios.PartialAckDerails`.
- FIN may pass the window by one (libsponge/tcp_sender.cc:54): `SenderProofs.FillPassesEdgeIff`,
  `Scenarios.FinPassesEdge`.
- `get_mask` yields an empty mask for prefix lengths above 32 (libsponge/router.hh:68-70), so such a route
  matches every destination before any other: `RouterProofs.LookupIsLongestPrefixIff`,
  `RouterProofs.ThirtyThreeBitRouteWins`.
- A datagram that does not serialize makes `recv_frame` throw while it drains the queue
  (libsponge/network_interface.cc:121-127): `DatagramOrder.AlwaysOrderlyIff`. The datagram stays in front, and later
  ones for the mapping just learned overtake it: `DatagramOrder.InOrderIff`,
  `AddressResolution.UnsendableIsOvertaken`.
- A mapping in the table is neither replaced nor refreshed by a newer ARP message
  (libsponge/network_interface.cc:117): `AddressResolution.LearnedIff`, `AddressResolution.MovedPeerIsNotLearned`.
- The datagram parser discards the verdict of the header parser (libsponge/tcp_helpers/ipv4_datagram.cc:13). A
  wrong checksum is always accepted; a wrong version, header length or total length is accepted where the payload
  length happens to fit: `IPv4Wire.RefusedHeaderAcceptedIff`, `IPv4Wire.WrongChecksumIsAccepted`,
  `IPv4Wire.WrongVersionIsAccepted`.
- The segment parser does the same (libsponge/tcp_helpers/tcp_segment.cc:20), so a header that claims fewer than
  five words is accepted: `TcpWire.RefusedHeaderAcceptedIff`, `TcpWire.ShortHeaderIsAccepted`.
- Header fields wider than their place on the wire are cut when a datagram is serialized
  (libsponge/tcp_helpers/ipv4_header.cc:78-110): `IPv4Wire.SerializedReadsBackIff`, `IPv4Wire.LargeOffsetIsLost`.
- `pop_output` does not limit its argument to the size in every counter (libsponge/byte_stream.cc:58-62):
  `ByteStreams.ByteStream.PopOutput`, `ByteStreams.PopFromEmpty`.

## What callers must provide

Class methods require what the source's `size_t` indices need: stream capacities below 2^64, a capacity above 0
where bytes are read from the stream (the ring index is a remainder by the capacity), and no overflow of the
64-bit stream indices. Times are natural numbers: the millisecond counters do not wrap. The specification
functions are total; theorems about runs of one endpoint have no such bound, and those about two endpoints only
the ones named above.
Theorems that the timer is running assume a positive initial timeout; what starts it and when it runs out is
proved for any.

## Model

| member | source | states |
|---|---|---|
| `TwoEndpoints.EndToEndSafety` | libsponge/tcp_connection.cc:37-116 | in every state of every run of two connections over a network that loses, duplicates, delays and reorders, the bytes each side has assembled are a prefix of what its peer wrote, and all of it once the inbound stream has ended |
| `TwoEndpoints.AcknowledgementSoundness` | libsponge/tcp_sender.cc:77-93 | in every such state each sender's acknowledged number is at most what the peer's receiver stands at: written bytes, SYN, and FIN once ended |
| `TwoEndpoints.CleanCloseIsComplete` | libsponge/tcp_connection.cc:118-148 | an endpoint that became inactive without an error has both streams complete at both ends |
| `TwoEndpoints.RunInv` | libsponge/tcp_connection.cc:26-180 | the invariant that links both endpoints and all segments in the network holds in every state of every run |
| `Endpoint.SegmentReceivedEnd` | libsponge/tcp_connection.cc:37-69 | a segment of a protocol-following peer within the age bound keeps what the endpoint has assembled a part of the peer's stream and what it sends honest |
| `Endpoint.PeerMoves` | libsponge/tcp_connection.cc:26-180 | an endpoint stays consistent with its peer while the peer moves forward |
| `Endpoint.LocalEnd` | libsponge/tcp_connection.cc:26-180 | local calls keep the endpoint consistent with its peer |
| `FlowControl.AckTakenIn` | libsponge/tcp_sender.cc:77-93 | an honest acknowledgement moves the acknowledged number to the larger of the two and always replaces the window; what it offers lies within the peer's right edge |
| `FlowControl.ArrivalWithinIff` | libsponge/tcp_sender.cc:77-84 | from inside the window its peer really has, an arriving segment takes a sender out of it if and only if it acknowledges and its window, put behind the larger acknowledged number, ends beyond the peer's right edge |
| `FlowControl.AckEdgeWithinIff` | libsponge/tcp_sender.cc:77-84 | the same for the window edge in every state of every run; an acknowledgement not older than the one taken in never does this |
| `FlowControl.RunsRespectWindowIff` | libsponge/tcp_sender.cc:26-93 | in a run both senders work in every state with windows inside those their peers really have, and have sent at most one number beyond them, if and only if no arriving segment overreaches |
| `LateAcknowledgement.LateAckOverruns` | libsponge/tcp_sender.cc:77-84 | a run of two endpoints with capacities of 3 in which the first answer, delivered again, makes a sender believe in numbers up to 6 and send them while its peer takes them up to 4 |
| `FlowControl.OrderedRunsRespectWindow` | libsponge/tcp_sender.cc:26-93 | in particular every run in which no acknowledgement arrives after a newer one stays within the windows |
| `ConnectionProofs.ApplyKeeps` | libsponge/tcp_connection.cc:26-180 | every call, with whatever segment arrives, keeps the connection invariant (both streams fail together and only inactive, inactive means failed or both directions done, linger off only after inbound ended, inbound ended means linger off or outbound at eof, at most 8 retransmissions while active) and moves the endpoint forward |
| `ConnectionProofs.RunKeeps` | libsponge/tcp_connection.cc:26-180 | the same over every run of calls |
| `ConnectionProofs.NewInv` | libsponge/tcp_connection.hh:14-44 | a new connection meets the invariant |
| `ConnectionProofs.OutboundStaysDone` | libsponge/tcp_connection.cc:118-148 | a finished outbound direction stays finished |
| `Lifecycle.LifeIsForward` | libsponge/tcp_helpers/tcp_state.cc:82-110 | over every run the sender and receiver summaries only move forward, errors are final, an inactive connection stays inactive and sends nothing, and sent segments are never taken back |
| `Lifecycle.SummariesForward` | libsponge/tcp_helpers/tcp_state.cc:82-110 | each single call moves the summaries only forward |
| `Lifecycle.InactiveSummaries` | libsponge/tcp_helpers/tcp_state.cc:61-72 | the two ways to be inactive are the official states CLOSED and RESET |
| `Lifecycle.SenderSummaryMeans` | libsponge/tcp_helpers/tcp_state.cc:94-110 | each sender summary holds if and only if: nothing was sent; the SYN was and is not acknowledged; it is acknowledged and no FIN was sent; a FIN was sent and not all is acknowledged; a FIN was sent and all is; or the stream failed |
| `Lifecycle.ReceiverSummaryMeans` | libsponge/tcp_helpers/tcp_state.cc:82-92 | each receiver summary holds if and only if: no SYN arrived; one did and the stream has not ended; it has ended; or it failed |
| `Lifecycle.NumberedFromLastSyn` | libsponge/tcp_receiver.cc:13-24 | in every run the receiver numbers the peer's bytes from the last SYN that arrived, and has none exactly if no SYN arrived |
| `Closing.ClockIsQuietTime` | libsponge/tcp_connection.cc:37-69 | the time since the last segment is the sum of the ticks since the last arrival |
| `Closing.CleanCloseLingers` | libsponge/tcp_connection.cc:118-148 | a clean close with lingering on happens only after ticks of at least ten retransmission timeouts since the last segment |
| `Closing.LingerAfter` | libsponge/tcp_connection.cc:89-92 | after any call lingering is off if and only if it was off, or the call is a segment after which the inbound stream has ended and the outbound one is not at eof |
| `Closing.LingerOverRuns` | libsponge/tcp_connection.cc:37-92 | in every run lingering has gone off if and only if in some state the inbound stream had ended while the outbound one was not at eof |
| `Closing.FirstToFinishLingers` | libsponge/tcp_connection.cc:89-148 | an endpoint whose outbound stream was at eof before its inbound one ended closes without an error only after ten retransmission timeouts without a segment |
| `Closing.LastToFinishCloses` | libsponge/tcp_connection.cc:89-148 | an endpoint whose inbound stream ended first closes with any tick once both directions are done |
| `Closing.EndsExactlyWhen` | libsponge/tcp_connection.cc:26-180 | any call ends an active connection if and only if it is a reset that arrives, a tick that makes a ninth retransmission in a row, or a tick or a repeated end of input with both directions done and lingering off or long enough |
| `Replies.SegmentsCarryCurrentAck` | libsponge/tcp_connection.cc:95-116 | every segment a call sends carries the ackno and window the receiver stands at after the call |
| `Advertising.WindowFieldExactIff` | libsponge/tcp_connection.cc:95-116 | in all runs every acknowledgement shows the window the receiver has if and only if the configured receive capacity is below 65536 |
| `Advertising.SynIsAnswered` | libsponge/tcp_connection.cc:37-69 | the answer to an opening SYN acknowledges it and shows the receive capacity cut to 16 bits |
| `Advertising.FullWindowShowsAsZero` | libsponge/tcp_connection.cc:95-116 | with a receive capacity of 65536 the first acknowledgement offers a window of 0 |
| `Replies.OccupyingSegmentIsAnswered` | libsponge/tcp_connection.cc:37-69 | a segment that occupies sequence space makes an active connection send at least one segment, unless it is a reset or finds the connection neither opened nor opening |
| `Filling.WriteAppends` | libsponge/tcp_connection.cc:71-81 | a write after end or before SYN changes nothing; any other appends exactly the bytes that fit and leaves nothing unsent that the window has room for |
| `Filling.EndingSendsFin` | libsponge/tcp_connection.cc:26-30 | ending adds no byte and leaves nothing unsent, FIN included, that the window has room for |
| `Filling.ArrivalExhaustsIff` | libsponge/tcp_connection.cc:37-69 | after a segment has arrived nothing is left unsent that the window has room for if and only if it opens the connection, or its acknowledgement is accepted, or nothing was left under the window it brings (the old one if it does not acknowledge) |
| `Scenarios.WiderWindowGoesUnused` | libsponge/tcp_sender.cc:77-84 | a run in which a repeated acknowledgement with a wider window leaves a byte unsent although there is room |
| `Scenarios.FinPassesEdge` | libsponge/tcp_sender.cc:54-58 | a run in which 1000 bytes and FIN go into a window of 1000 |
| `Scenarios.PartialAckDerails` | libsponge/tcp_sender.cc:85-91 | a run in which an acknowledgement of half a retransmitted segment leaves the count at 0 and the timeout doubled |
| `NoStall.NothingStalls` | libsponge/tcp_connection.cc:26-180 | in every state of every run with a positive timeout, whoever has sent SYN and has anything left to send or to be acknowledged has segments outstanding and a timer that has not run out |
| `NoStall.ApplyServes` | libsponge/tcp_connection.cc:26-180 | every call keeps: once SYN is sent, nothing outstanding means nothing unsent |
| `Recovery.EverythingCanArrive` | libsponge/tcp_connection.cc:26-180 | from every state of every run of two endpoints in which both are active, the peer has a receive capacity and the sender would still retransmit or has a deliverable copy of its oldest segment, the run has a continuation without another write in which the peer has assembled everything written, knows of the end, and all is acknowledged |
| `Recovery.EverythingCanArriveBack` | libsponge/tcp_connection.cc:26-180 | the same for the other direction |
| `Recovery.Round` | libsponge/tcp_connection.cc:26-180 | from such a state the acknowledged number can move on in at most five steps |
| `Recovery.Answered` | libsponge/tcp_connection.cc:37-69 | a delivered copy of the segment waited for makes the peer send an acknowledgement beyond it that may be delivered |
| `Soundness.CoveringAdvances` | libsponge/tcp_receiver.cc:13-33 | a segment that holds the first number a receiver may be missing takes the receiver past it |
| `Soundness.ApplyFit` | libsponge/tcp_connection.cc:26-180 | every call keeps what an endpoint keeps on its own: its invariant, nothing unsent without something outstanding, bounded payloads, and an empty queue with everything handed over while active |
| `Soundness.RunSound` | libsponge/tcp_connection.cc:26-180 | all of it holds for both endpoints in every state of every run |
| `Replies.ResetIsObeyed` | libsponge/tcp_connection.cc:37-69 | a reset makes the connection inactive with an error on both streams, whatever else the segment carries |
| `Replies.TickEndsExactlyWhen` | libsponge/tcp_connection.cc:151-180 | a tick ends an active connection if and only if more than 8 retransmissions are reached, or both directions are complete and lingering is off or long enough; it ends with an error exactly in the first case |
| `Replies.GivingUpSendsReset` | libsponge/tcp_connection.cc:151-180 | giving up sends at least one segment, and all it sends are resets |
| `Handover.NothingStaysBehind` | libsponge/tcp_connection.cc:95-116 | in every active state of every run the sender's queue is empty and every first transmission has been handed to the network with its number, SYN, payload and FIN |
| `Transmissions.WhatIsSent` | libsponge/tcp_connection.cc:26-180 | every call of an active endpoint sends exactly, and in order: the segments it has newly put into sequence space; else, to a segment that occupies sequence space, one empty segment; on a tick that runs the timer out, the oldest outstanding one; and nothing to a reset; all are resets exactly if it gives up |
| `Transmissions.OpensIff` | libsponge/tcp_connection.cc:26-69 | after any call SYN has been sent if and only if it had been, or the call connects, ends the input, or brings a SYN |
| `Timers.TimerAfter` | libsponge/tcp_sender.cc:69-117 | the timer after any call: started anew by a retransmission (timeout doubled unless the window is closed), by an acknowledgement that completes a segment or a first transmission after it had run out (initial timeout), and otherwise only advanced by the time of the call |
| `Timers.TimerCountsSinceStart` | libsponge/tcp_sender.cc:69-117 | in every run the elapsed time is the sum of the ticks since the last call that started the timer |
| `Timers.RetransmissionsAreTimed` | libsponge/tcp_sender.cc:96-117 | in every run a tick sends the oldest outstanding segment again if and only if the ticks since the timer was last started then reach the timeout, and sends nothing otherwise |
| `Backoffs.BackoffExactIff` | libsponge/tcp_connection.cc:26-180 | after any call the backoff is exact if and only if the call brings an acknowledgement that completes a segment, or it was exact and the call brings no partial one after a retransmission |
| `Backoffs.BackoffExactOverRuns` | libsponge/tcp_sender.cc:77-117 | in every run the timeout is RTO times 2^k, k being the retransmissions in a row, if and only if every partial acknowledgement after a retransmission has been followed by one that completes a segment; k is at most 8 while active |
| `SenderProofs.FillKeeps` | libsponge/tcp_sender.cc:26-73 | filling keeps tiling, conservation, numbering and bounds, and only moves forward |
| `SenderProofs.AckReceivedKeeps` | libsponge/tcp_sender.cc:77-93 | any acknowledgement keeps them |
| `SenderProofs.TickKeeps` | libsponge/tcp_sender.cc:96-117 | any tick keeps them, so a retransmission is the same slice of the stream as the first transmission |
| `SenderProofs.SendEmptyKeeps` | libsponge/tcp_sender.cc:121-127 | an empty segment keeps them |
| `SenderProofs.StreamGrows` | libsponge/tcp_sender.cc:26-73 | writing to or ending the outbound stream keeps them |
| `SenderProofs.NewSenderInv` | libsponge/tcp_sender.cc:17-22 | a new sender meets both sender invariants |
| `SenderProofs.DropAckedTiles` | libsponge/tcp_sender.cc:85-91 | the erase loop drops exactly the segments that end at or before the acknowledged number; the rest still tile up to the next number and the first holds the acknowledged number |
| `SenderProofs.TilesCarryImage` | libsponge/tcp_sender.cc:26-73 | segments that tile a range carry its symbols, each once and in order |
| `SenderProofs.FirstsCarryStream` | libsponge/tcp_sender.cc:26-73 | the first transmissions carry SYN, then the bytes read, then FIN, each once and in order, and the next number counts them |
| `SenderProofs.SyncFirst` | libsponge/tcp_sender.cc:32-39 | the first segment is the one that carries SYN |
| `SenderProofs.RoomIsExact` | libsponge/tcp_sender.cc:27-39 | the uint16_t room never wraps: it is the distance to the right edge of a window taken as at least 1 |
| `SenderProofs.WindowRespected` | libsponge/tcp_sender.cc:41-67 | SYN and payload of the next segment stay inside the window; it passes the edge, by one, if and only if the stream has ended and both what is left and the room for it are the maximum payload size |
| `SenderProofs.FillPassesEdgeIff` | libsponge/tcp_sender.cc:26-73 | a whole call sends beyond the right edge if and only if the stream has ended, FIN is unsent, and what is left fills the room up to the edge exactly in maximal segments |
| `SenderProofs.FinIncludedIff` | libsponge/tcp_sender.cc:54-58 | FIN rides on the next segment if and only if that takes all that is left of an ended stream, and leaves room or the room allows a maximal payload; and how much it takes |
| `SenderProofs.NextSegmentIsSlice` | libsponge/tcp_sender.cc:41-67 | the segment built is the slice of the stream's sequence space at the next number |
| `SenderProofs.FillStepConserves` | libsponge/tcp_sender.cc:26-73 | one turn of the loop keeps next number = SYN + bytes read + FIN |
| `SenderProofs.FillStops` | libsponge/tcp_sender.cc:26-73 | the loop stops only when no further segment can be sent |
| `SenderProofs.FillExhausts` | libsponge/tcp_sender.cc:26-73 | after filling, room in the window means that no byte and no FIN is left to send |
| `SenderProofs.FillWithinWindow` | libsponge/tcp_sender.cc:26-73 | whatever the window, filling passes its right edge by at most one number |
| `SenderProofs.AckReceivedExhaustsIff` | libsponge/tcp_sender.cc:77-93 | an acknowledgement leaves nothing unsent that the window has room for if and only if it is accepted or nothing was left for the window it brings |
| `SenderProofs.AckReceivedMoves` | libsponge/tcp_sender.cc:77-93 | what an acknowledgement may change and that it moves only forward |
| `SenderProofs.OldestIsRetransmitted` | libsponge/tcp_sender.cc:96-117 | an expired timer with data outstanding sends exactly the segment that holds the acknowledged number, restarts the timer, and backs off and counts unless the window is closed |
| `Timers.TickBeforeTimeout` | libsponge/tcp_sender.cc:96-117 | a tick that does not run the timer out, or finds nothing outstanding, changes nothing but the elapsed time |
| `Timers.TicksRetransmitExactly` | libsponge/tcp_sender.cc:96-117 | however a time is divided into ticks, the oldest segment goes out again with exactly the tick that brings the sum to the timeout; until then only the elapsed time changes |
| `Timers.FillTimer` | libsponge/tcp_sender.cc:69-71 | filling starts the timer if and only if it had run out and something is sent; a running timer is left alone |
| `Timers.AckTimer` | libsponge/tcp_sender.cc:77-93 | an acknowledgement starts the timer if and only if it completes a segment, or lets something out while the timer has run out |
| `SenderProofs.FillKeepsTimer` | libsponge/tcp_sender.cc:69-71 | filling keeps the timer invariant (outstanding data has an unexpired timer; without any, no retransmissions and the initial timeout; the timeout is RTO times 2^k with k at least the count) and changes neither timeout nor count |
| `SenderProofs.AckReceivedKeepsTimer` | libsponge/tcp_sender.cc:77-93 | an acknowledgement keeps the timer invariant |
| `SenderProofs.TickKeepsTimer` | libsponge/tcp_sender.cc:96-117 | a tick keeps the timer invariant |
| `SenderProofs.AckBackoffExactIff` | libsponge/tcp_sender.cc:77-93 | after an acknowledgement the backoff is exact if and only if it completes a segment, or the backoff was exact and it is not a partial one after a retransmission |
| `SenderProofs.TickKeepsBackoffExact` | libsponge/tcp_sender.cc:96-117 | a tick leaves the backoff exact if and only if it was |
| `Senders.TCPSender.constructor` | libsponge/tcp_sender.cc:17-22 | a new sender |
| `Senders.TCPSender.RoomLeft` | libsponge/tcp_sender.cc:27-39 | computes the room with the source's integer widths |
| `Senders.TCPSender.BuildSegment` | libsponge/tcp_sender.cc:41-58 | builds the next segment and takes its bytes off the stream |
| `Senders.TCPSender.TransmitSegment` | libsponge/tcp_sender.cc:59-71 | queues it, records it as outstanding, advances the number, and starts the timer if it had run out, leaving a running one alone (Timers.FillTimer) |
| `Senders.TCPSender.FillOnce` | libsponge/tcp_sender.cc:26-73 | one turn of the loop |
| `Senders.TCPSender.FillWindow` | libsponge/tcp_sender.cc:26-73 | the loop terminates in the state `Fill` defines |
| `Senders.TCPSender.AckReceived` | libsponge/tcp_sender.cc:77-93 | new state after an acknowledgement, erase loop included |
| `Senders.TCPSender.Tick` | libsponge/tcp_sender.cc:96-117 | new state after a tick: time counted, or the oldest segment sent again (Timers.TickBeforeTimeout, Timers.TicksRetransmitExactly) |
| `Senders.TCPSender.SendEmptySegment` | libsponge/tcp_sender.cc:121-127 | queues one empty segment with the next number |
| `ReceiverSpec.AdvertisedWindowIsAccepted` | libsponge/tcp_receiver.cc:13-35 | before the stream ends, a byte of an arriving segment at absolute number q becomes known if and only if it was known or ackno <= q < ackno + window |
| `ReceiverSpec.RightEdge` | libsponge/tcp_receiver.cc:26-35 | the right edge is 1 + bytes read + capacity + ended; neither segments nor reads move it left |
| `ReceiverSpec.NumbersAreTakenIn` | libsponge/tcp_receiver.cc:13-24 | whoever sent it, a payload whose true number is less than 2^31 from the next one needed is taken in at that number, exactly where it lies inside the window |
| `ReceiverSpec.StrayAtIsn` | libsponge/tcp_receiver.cc:13-24 | a segment numbered like the SYN but without it brings no byte, and a FIN on it puts the end one short of its payload |
| `ReceiverSpec.ReceiveTracks` | libsponge/tcp_receiver.cc:13-24 | an honest segment within the age bound keeps all assembled and held bytes equal to the peer's, and the end where the peer's is |
| `ReceiverSpec.AckPointWithinSent` | libsponge/tcp_receiver.cc:26-33 | a receiver never acknowledges more than the peer has sent |
| `ReceiverSpec.AckPointGrows` | libsponge/tcp_receiver.cc:13-33 | the acknowledged number never moves back |
| `Receivers.TCPReceiver.constructor` | libsponge/tcp_receiver.hh:32 | a new receiver |
| `Receivers.TCPReceiver.SegmentReceived` | libsponge/tcp_receiver.cc:13-24 | new state after a segment, SYN and FIN included |
| `Receivers.TCPReceiver.Ackno` | libsponge/tcp_receiver.cc:26-33 | none before SYN, afterwards the wrapped number of the first byte missing |
| `Receivers.TCPReceiver.WindowSize` | libsponge/tcp_receiver.cc:35 | the free capacity of the stream |
| `Segments.SliceMeans` | libsponge/tcp_helpers/tcp_segment.cc:25-27 | what a slice of the sequence space says about SYN, payload and FIN of a segment |
| `AssemblySpec.KnowsWhatArrivedInWindow` | libsponge/stream_reassembler.cc:67-107 | after any run of pushes and reads a byte is known if and only if some push brought it while it was in the window, and the first index not written is the least one missing |
| `AssemblySpec.PushKeepsInv` | libsponge/stream_reassembler.cc:67-107 | a push keeps held bytes strictly inside the window; input has ended exactly when eof was seen and every byte before it is written |
| `AssemblySpec.PushKnows` | libsponge/stream_reassembler.cc:76-101 | a push adds exactly those of its bytes that the window accepts |
| `AssemblySpec.PushBytes` | libsponge/stream_reassembler.cc:27-101 | a push with a new index in the window decides all bytes it brings there, also those held; any other leaves every byte as it was |
| `AssemblySpec.InputEndsWhenReached` | libsponge/stream_reassembler.cc:67-107 | after any run input has ended if and only if some push carried eof before the end and every byte before the place the last such push gave is written |
| `AssemblySpec.AcceptedIffInWindow` | libsponge/stream_reassembler.cc:76-88 | which bytes of a push are accepted: those from the first unassembled index up to the first unacceptable one |
| `AssemblySpec.PushAgrees` | libsponge/stream_reassembler.cc:67-107 | a push consistent with one stream leaves all bytes written a prefix of it and all bytes held equal to it |
| `AssemblySpec.WithinCapacity` | libsponge/stream_reassembler.cc:13-20 | buffered and unassembled bytes together never exceed the capacity |
| `Chunks.TotalIsSize` | libsponge/stream_reassembler.cc:109 | the byte count of separated chunks is the number of indices held |
| `Chunks.RunInOneChunk` | libsponge/stream_reassembler.cc:27-62 | consecutive held bytes lie in one chunk, since separated chunks are maximal |
| `Merging.MergeDone` | libsponge/stream_reassembler.cc:27-62 | although every chunk is compared with the original bounds only, when the loop ends no chunk left touches the grown one and together they hold the old and the new bytes |
| `Reassemblers.StreamReassembler.constructor` | libsponge/stream_reassembler.cc:13-20 | an empty reassembler |
| `Reassemblers.StreamReassembler.Merge` | libsponge/stream_reassembler.cc:27-62 | refuses, without having erased anything, if and only if a chunk contains the new one; otherwise absorbs exactly the touching chunks and leaves the others separated from it |
| `Reassemblers.StreamReassembler.Insert` | libsponge/stream_reassembler.cc:91-101 | merges, then writes out or keeps: the list still stands for the map |
| `Reassemblers.StreamReassembler.Accept` | libsponge/stream_reassembler.cc:76-101 | trims a push to the window and inserts it |
| `Reassemblers.StreamReassembler.PushSubstring` | libsponge/stream_reassembler.cc:67-107 | the chunk list after a push stands for the index-to-byte map after it, for every push, consistent or not |
| `Reassemblers.StreamReassembler.UnassembledBytes` | libsponge/stream_reassembler.cc:109 | the number of bytes held back |
| `Reassemblers.Trim` | libsponge/stream_reassembler.cc:76-88 | cuts a substring to the window |
| `Reassemblers.Join` | libsponge/stream_reassembler.cc:27-62 | one comparison of the merge loop |
| `ByteStreams.ByteStream.constructor` | libsponge/byte_stream.cc:15-23 | an empty stream |
| `ByteStreams.ByteStream.Write` | libsponge/byte_stream.cc:25-34 | the ring buffer takes the bytes that fit, behind those it holds; returns how many |
| `ByteStreams.ByteStream.PeekOutput` | libsponge/byte_stream.cc:37-55 | returns the first bytes held, across the end of the ring |
| `ByteStreams.ByteStream.PopOutput` | libsponge/byte_stream.cc:58-62 | removes bytes from the front and leaves a consistent stream if and only if at most the size is asked for; otherwise the size wraps below zero, as the source's subtraction does |
| `ByteStreams.PopFromEmpty` | libsponge/byte_stream.cc:58-62 | a byte popped from an empty stream leaves a size of 2^64 - 1 |
| `ByteStreams.ByteStream.Read` | libsponge/byte_stream.cc:67-71 | returns and removes the front |
| `ByteStreams.ByteStream.EndInput` | libsponge/byte_stream.cc:73 | marks the end |
| `ByteStreams.ByteStream.SetError` | libsponge/byte_stream.hh:48 | marks an error |
| `WrappingIntegers.OffsetIsResidue` | libsponge/wrapping_integers.cc:21 | the source's signed and unsigned conversions amount to the difference modulo 2^32 |
| `WrappingIntegers.WrapsToIffCongruent` | libsponge/wrapping_integers.cc:17-19 | a number wraps to n if and only if it is congruent to n - isn modulo 2^32 |
| `WrappingIntegers.UnwrapIsNearest` | libsponge/wrapping_integers.cc:33-45 | for every checkpoint, both ends of the 64-bit range included, the result wraps to n and no 64-bit number that does is closer |
| `WrappingIntegers.UnwrapTie` | libsponge/wrapping_integers.cc:33-45 | of two numbers equally near, the one in the checkpoint's own block of 2^32 numbers is returned |
| `WrappingIntegers.UnwrapInvertsWrap` | libsponge/wrapping_integers.cc:33-45 | a number less than 2^31 from the checkpoint is recovered |
| `Connections.TCPConnection.constructor` | libsponge/tcp_connection.hh:14-44 | a new connection |
| `Connections.TCPConnection.SendSegments` | libsponge/tcp_connection.cc:95-116 | every queued segment, completed and in order, goes to the outbound queue; nothing when inactive |
| `Connections.TCPConnection.Reset` | libsponge/tcp_connection.cc:83-87 | errors on both streams, inactive |
| `Connections.TCPConnection.TrySwitchingCloseMode` | libsponge/tcp_connection.cc:89-92 | lingering goes off if and only if the inbound stream has ended and the outbound one is not at eof (Closing.LingerAfter) |
| `Connections.TCPConnection.TryClosingConnection` | libsponge/tcp_connection.cc:118-148 | sends what is queued, then closes when both directions are complete |
| `Connections.TCPConnection.Connect` | libsponge/tcp_connection.cc:32-35 | sends SYN; keeps the invariant |
| `Connections.TCPConnection.Write` | libsponge/tcp_connection.cc:71-81 | new state and number of bytes taken; keeps the invariant |
| `Connections.TCPConnection.EndInputStream` | libsponge/tcp_connection.cc:26-30 | new state; keeps the invariant |
| `Connections.TCPConnection.HeedFlags` | libsponge/tcp_connection.cc:37-69 | RST and ACK of an arriving segment |
| `Connections.TCPConnection.React` | libsponge/tcp_connection.cc:37-69 | RST, ACK and the reply |
| `Connections.TCPConnection.SegmentReceived` | libsponge/tcp_connection.cc:37-69 | new state for any segment; keeps the invariant |
| `Connections.TCPConnection.GiveUpOrSendSegments` | libsponge/tcp_connection.cc:151-180 | resets after too many retransmissions, or sends |
| `Connections.TCPConnection.Tick` | libsponge/tcp_connection.cc:151-180 | new state; keeps the invariant |
| `InterfaceProofs.RequestsAreRateLimited` | libsponge/network_interface.cc:31-88 | in every run two ARP requests for one address are more than 5000 ms of ticks apart, although a reply erases the record early |
| `InterfaceProofs.MappingsAreFresh` | libsponge/network_interface.cc:36-62 | in every run a datagram is framed only by a mapping heard in the 30000 ms before |
| `DatagramOrder.NoneIsLost` | libsponge/network_interface.cc:31-155 | in every run, exceptions included, and for every hop the datagrams taken are those framed and those waiting |
| `DatagramOrder.DatagramsAreConserved` | libsponge/network_interface.cc:31-155 | in every run in which recv_frame does not throw, the datagrams taken for a hop are those framed, in order, followed by those waiting, and none wait for a hop with a live mapping |
| `DatagramOrder.ConservedIff` | libsponge/network_interface.cc:31-180 | a call keeps the datagrams of every hop in order if and only if it does not send one past a different one that waits; a frame never breaks the order, even if the call throws |
| `DatagramOrder.InOrderIff` | libsponge/network_interface.cc:31-180 | in a run they are in order in every state if and only if no call overtakes |
| `DatagramOrder.OrderlyIff` | libsponge/network_interface.cc:31-180 | a call leaves datagrams in order and none waiting for a live mapping if and only if it is not the arrival of an ARP message whose sender has a datagram waiting that does not serialize |
| `DatagramOrder.AlwaysOrderlyIff` | libsponge/network_interface.cc:31-180 | that holds in every state of a run if and only if recv_frame never throws in it |
| `DatagramOrder.SendableNeverThrows` | libsponge/network_interface.cc:112-127 | if every datagram given can be serialized, recv_frame never throws in any run |
| `AddressResolution.UnsendableIsOvertaken` | libsponge/network_interface.cc:115-127 | a run in which a datagram without a serialization makes recv_frame throw and is then overtaken |
| `AddressResolution.LifetimesAreExact` | libsponge/network_interface.cc:158-180 | a mapping lives exactly 30000 ms and a request exactly 5000 ms, however the time is divided into ticks |
| `InterfaceProofs.HistoryIsTheRun` | libsponge/network_interface.cc:31-180 | the recorded clock is the time of the ticks, the submissions are the sends that returned, and what was heard are the ARP messages to us with their times |
| `InterfaceProofs.ApplyKeeps` | libsponge/network_interface.cc:31-180 | every call, whether it returns or throws, keeps clocks, mappings and frames consistent |
| `InterfaceProofs.RunKeeps` | libsponge/network_interface.cc:31-180 | so does every run from a new interface |
| `InterfaceProofs.SubmitTimely` | libsponge/network_interface.cc:31-88 | sending keeps clocks and mappings, asking for an address at most once |
| `DatagramOrder.DrainEmptiesIff` | libsponge/network_interface.cc:121-127 | the drain loop, which calls send_datagram, never queues again: it empties the queue if and only if all of it serializes, and leaves the other queues alone |
| `InterfaceProofs.HeedTimely` | libsponge/network_interface.cc:112-153 | an ARP message keeps clocks and mappings, although a reply erases the request early |
| `InterfaceProofs.UnknownHopIsAsked` | libsponge/network_interface.cc:62-88 | a datagram for an unknown hop leaves a request out that is at most 5000 ms old |
| `AddressResolution.RequestIsAnswered` | libsponge/network_interface.cc:112-148 | a request leaves its sender in the table, and a reply to it as the last frame if what waits for it can be sent, otherwise no reply |
| `AddressResolution.LearnedIff` | libsponge/network_interface.cc:115-117 | a message is learned if and only if its sender is not in the table: a mapping is neither replaced nor refreshed |
| `AddressResolution.MovedPeerIsNotLearned` | libsponge/network_interface.cc:115-117 | a peer that moves to another Ethernet address is still mapped to the old one |
| `AddressResolution.ReplyIsLearned` | libsponge/network_interface.cc:112-153 | a reply from a new sender is learned, and empties the queue and settles the request if and only if what waits can be sent |
| `AddressResolution.ArpExchangeResolves` | libsponge/network_interface.cc:31-155 | between two interfaces, request and reply make each learn the other's Ethernet address, and the asker frames everything submitted |
| `AddressResolution.ResolvedHopDelivers` | libsponge/network_interface.cc:36-104 | a datagram for a resolved hop leaves as bytes that no other interface delivers and the one it is for delivers with a verifying checksum filled in, if and only if it fits the wire |
| `AddressResolution.FrameDelivers` | libsponge/network_interface.cc:91-105 | the same for any frame to an interface |
| `AddressResolution.FrameActsIff` | libsponge/network_interface.cc:91-155 | a frame changes tables, queues or frames if and only if it is an ARP message to us whose sender is new, or can be sent something, or, with nothing waiting, asks for us or has a request outstanding |
| `AddressResolution.RepeatedReplyIsSilent` | libsponge/network_interface.cc:112-153 | of two equal replies in a row the second changes nothing |
| `Emissions.WhatIsPushed` | libsponge/network_interface.cc:31-155 | every call pushes exactly: a datagram for a known hop; a request for an unknown one without a request outstanding; for an ARP message to us, what waits for its sender up to a datagram that throws, and then the reply, once, if it is a request |
| `Emissions.FramesOfRun` | libsponge/network_interface.cc:31-180 | the frames of a run are those of its calls, in order |
| `Emissions.WrittenIsRendered` | libsponge/network_interface.cc:36-148 | a frame carries our source address; a request goes to everyone with our addresses, the hop as target and a zero Ethernet address; a reply goes to the asker with our addresses and theirs; nothing else on it is left open |
| `Interfaces.NetworkInterface.constructor` | libsponge/network_interface.cc:19-23 | a new interface |
| `Interfaces.NetworkInterface.SendDatagram` | libsponge/network_interface.cc:31-88 | new state: framed, or queued and asked for, with the frames as they must be written (Emissions.Written); unchanged when it throws, and when that is |
| `Interfaces.NetworkInterface.DrainQueue` | libsponge/network_interface.cc:121-127 | new state after the drain loop |
| `Interfaces.NetworkInterface.RecvFrame` | libsponge/network_interface.cc:91-155 | new state and the datagram delivered, if any, and when it throws |
| `Interfaces.NetworkInterface.AgeTable` | libsponge/network_interface.cc:158-169 | the erase-or-age loop over mappings |
| `Interfaces.NetworkInterface.AgeRequests` | libsponge/network_interface.cc:170-180 | the erase-or-age loop over requests |
| `Interfaces.NetworkInterface.Tick` | libsponge/network_interface.cc:158-180 | both clocks |
| `RouterProofs.LookupIsLongestPrefix` | libsponge/router.cc:18-58 | for any history of routes of at most 32 bits the two-level table picks the longest matching route, the earliest added among equals |
| `RouterProofs.LookupIsBestByMask` | libsponge/router.cc:36-58 | for any history at all, the table picks the longest route whose masked prefix equals the masked destination, the earliest among equals |
| `RouterProofs.LookupIsLongestPrefixIff` | libsponge/router.cc:18-58 | for any history the table picks the interface of the longest matching route if and only if no route has more than 32 bits or the widest of those names the same interface |
| `RouterProofs.ThirtyThreeBitRouteAgrees` | libsponge/router.hh:68-70 | a 33-bit route that does no harm because it names the same interface |
| `RouterProofs.ThirtyThreeBitRouteWins` | libsponge/router.hh:68-70 | a concrete 33-bit route that takes a destination away from its exact route |
| `RouterProofs.SameKeyIsMatch` | libsponge/router.hh:68-70 | masked equality is equality of the leading bits up to 32, and always true beyond |
| `RouterProofs.BestIsLongest` | libsponge/router.cc:36-58 | the linear scan yields a matching route that no other matching one beats, or none matches |
| `RouterProofs.TableFindsEarliest` | libsponge/router.cc:18-33 | a later route with the same prefix never replaces an earlier one |
| `RouterProofs.DecideByLongestPrefix` | libsponge/router.cc:36-58 | forwards by the longest match with TTL reduced by one to the next hop or the destination, or drops at TTL <= 1 or without a match |
| `RouterProofs.DrainPortHandles` | libsponge/router.cc:60-69 | draining one port finishes if and only if all its datagrams are deliverable; then each was handled once, in order, and other queues are untouched |
| `RouterProofs.RouteHandlesEachOnce` | libsponge/router.cc:60-69 | routing finishes if and only if every forwarded datagram has an existing port and, for a known hop, a serialization; then all queues are empty and each port was given, once and in order, the datagrams decided for it |
| `Interruption.RouteStopsAtFirst` | libsponge/router.cc:36-69 | if routing stops it stops at the first datagram that throws: everything before is handled and gone, that one is in front with its TTL reduced, everything behind still waits |
| `Interruption.WhatAPortDoes` | libsponge/router.hh:35-40 | a frame makes a port push exactly the frames its interface owes, once, and queues a datagram if and only if the frame is for us and its bytes parse as one |
| `Forwarding.ForwardedOnTheWire` | libsponge/router.cc:36-69 | a well-formed datagram that arrives in a frame leaves by the longest-prefix port in a frame to the known hop, whatever else is queued, as bytes that the interface there reads as the datagram with TTL reduced by one and a verifying checksum |
| `Forwarding.RouteFromFrames` | libsponge/router.cc:60-69 | every queued datagram forwarded to a known hop is in a frame to it when routing is done |
| `Routers.Router.constructor` | libsponge/router.hh:45-66 | a router without ports and routes |
| `Routers.Router.AddInterface` | libsponge/router.hh:78-81 | adds a port and returns its number |
| `Routers.Router.RecvFrame` | libsponge/router.hh:35-40 | the interface object takes the frame and the datagram it delivers, if any, joins its queue; the other ports stay as they are; and when it throws |
| `Routers.Router.AddRoute` | libsponge/router.cc:18-33 | the table is that of the history of added routes |
| `Routers.Router.LongestMatch` | libsponge/router.cc:36-58 | the reverse scan over prefix lengths |
| `Routers.Router.RouteOneDatagram` | libsponge/router.cc:36-58 | new state for one datagram, exceptions included |
| `Routers.Router.DrainPort` | libsponge/router.cc:60-69 | new state after one port's loop |
| `Routers.Router.Route` | libsponge/router.cc:60-69 | new state after all ports |
| `Checksums.WordSumConcat` | libsponge/util/util.cc:89-98 | sums add up over pieces, an odd piece shifting the next by half a word |
| `Checksums.FoldKeepsResidue` | libsponge/util/util.cc:100-108 | folding keeps the residue modulo 65535 and is 0 only for 0 |
| `Checksums.VerifiesIff` | libsponge/util/util.cc:100-108 | a checksum verifies if and only if the sum is a positive multiple of 65535 |
| `Checksums.InsertedVerifies` | libsponge/util/util.cc:100-108 | adding the computed checksum makes the sum verify |
| `Checksums.InternetChecksum.constructor` | libsponge/util/util.cc:87 | starts from a given sum |
| `Checksums.InternetChecksum.Add` | libsponge/util/util.cc:89-98 | adds the word sum modulo 2^32 and tracks parity across calls |
| `Checksums.InternetChecksum.Value` | libsponge/util/util.cc:100-108 | folds and complements |
| `Parsers.FromToBytes` | libsponge/util/parser.cc:27-60 | an unparsed integer is parsed back |
| `Parsers.ReadsBack` | libsponge/util/parser.cc:27-43 | an integer in front of the input is read back and taken off |
| `Parsers.NetParser.ParseInt` | libsponge/util/parser.cc:27-43 | consumes a big-endian integer, or sets the error |
| `Parsers.NetParser.RemovePrefix` | libsponge/util/parser.cc:45-51 | drops bytes, or sets the error |
| `Parsers.UnparseInt` | libsponge/util/parser.cc:54-60 | appends a big-endian integer |
| `TcpWire.FieldLayout` | libsponge/tcp_helpers/tcp_header.cc:51-78 | each field lies at the offset section 3.1 of RFC 793 gives it |
| `TcpWire.HeaderReadsBack` | libsponge/tcp_helpers/tcp_header.cc:17-48 | every header field and what follows is read back |
| `TcpWire.FieldsOf` | libsponge/tcp_helpers/tcp_header.cc:17-48 | for any buffer of at least 20 bytes each field read is the one at its offset, and each flag its own bit of byte 13 |
| `TcpWire.HeaderOutcome` | libsponge/tcp_helpers/tcp_header.cc:17-48 | for any buffer, which verdict the header parser gives and what it leaves in the input |
| `TcpWire.OffsetReadsBackIff` | libsponge/tcp_helpers/tcp_header.cc:51-78 | the header length is read back if and only if it is at most 15 |
| `TcpWire.FieldAddsToSum` | libsponge/tcp_helpers/tcp_segment.cc:30-45 | writing a value into a zeroed field at an even offset adds it to the sum |
| `TcpWire.SegmentRoundTrip` | libsponge/tcp_helpers/tcp_segment.cc:12-45 | the serialized segment verifies and parses to the same fields and payload, with the checksum filled in |
| `TcpWire.RejectedIffSumWrong` | libsponge/tcp_helpers/tcp_segment.cc:12-23 | a buffer is rejected for its checksum if and only if its sum is not a positive multiple of 65535 |
| `TcpWire.AcceptedIff` | libsponge/tcp_helpers/tcp_segment.cc:12-23 | a buffer is accepted if and only if its sum verifies, it holds the fixed part of a header, and it holds the words the header claims or the header claims fewer than five |
| `TcpWire.AcceptedSegment` | libsponge/tcp_helpers/tcp_segment.cc:12-23 | an accepted segment has the header read, and as payload what follows the words it claims, or byte 20 if it claims fewer than five; which error a refused one gives |
| `TcpWire.SegmentSerializesIff` | libsponge/tcp_helpers/tcp_segment.cc:30-45 | serializing throws if and only if the header claims fewer than five words |
| `TcpWire.RefusedHeaderAcceptedIff` | libsponge/tcp_helpers/tcp_segment.cc:12-23 | the header parser refuses a buffer that is accepted if and only if its sum verifies and it claims fewer than five words |
| `TcpWire.ShortHeaderIsAccepted` | libsponge/tcp_helpers/tcp_segment.cc:12-23 | twenty zero bytes that the header parser rejects and the segment parser accepts |
| `IPv4Wire.FieldLayout` | libsponge/tcp_helpers/ipv4_header.cc:78-110 | each field lies at the offset section 3.1 of RFC 791 gives it |
| `IPv4Wire.FieldsReadBack` | libsponge/tcp_helpers/ipv4_header.cc:23-75 | every header field is read back |
| `IPv4Wire.FieldsOf` | libsponge/tcp_helpers/ipv4_header.cc:23-75 | for any buffer of at least 20 bytes each field read is the one at its offset, flags and fragment offset by their bits |
| `IPv4Wire.HeaderOutcome` | libsponge/tcp_helpers/ipv4_header.cc:23-75 | for any buffer, which verdict the header parser gives, the first fault first, and what it leaves in the input |
| `IPv4Wire.HeaderReadsBack` | libsponge/tcp_helpers/ipv4_header.cc:23-75 | the header parser accepts a well-formed datagram if and only if its header checksum verifies |
| `IPv4Wire.ParseIgnoresHeaderChecksum` | libsponge/tcp_helpers/ipv4_datagram.cc:11-21 | the datagram parser returns a well-formed datagram whatever its header checksum |
| `IPv4Wire.AcceptedIff` | libsponge/tcp_helpers/ipv4_datagram.cc:11-21 | a buffer is accepted if and only if it holds the fixed part of a header and is announced by it (version, header length, total length), or the payload length the header gives modulo 2^16 is that of what follows the fixed part |
| `IPv4Wire.AcceptedDatagram` | libsponge/tcp_helpers/ipv4_datagram.cc:11-21 | an accepted datagram has the header read, and as payload what follows the words of an announced header, or byte 20 of another; the only error is a packet too short |
| `IPv4Wire.SerializesIff` | libsponge/tcp_helpers/ipv4_datagram.cc:23-41 | serializing throws if and only if the version is not 4, the header has fewer than five words, or the payload length is not the one announced |
| `IPv4Wire.RefusedHeaderAcceptedIff` | libsponge/tcp_helpers/ipv4_datagram.cc:11-21 | the header parser refuses a buffer that is accepted if and only if it is announced and the checksum fails, or it is not announced and the payload length happens to fit |
| `IPv4Wire.WrongVersionIsAccepted` | libsponge/tcp_helpers/ipv4_datagram.cc:11-21 | twenty zero bytes, of version 0, are accepted as a datagram |
| `IPv4Wire.WrongChecksumIsAccepted` | libsponge/tcp_helpers/ipv4_datagram.cc:11-21 | a well-formed datagram that the header parser rejects for its checksum and the datagram parser accepts |
| `IPv4Wire.DatagramRoundTrip` | libsponge/tcp_helpers/ipv4_datagram.cc:11-41 | a serialized datagram has a header checksum that verifies and parses to the same datagram with it filled in |
| `IPv4Wire.SerializedReadsBackIff` | libsponge/tcp_helpers/ipv4_datagram.cc:11-41 | any datagram that serializes has a verifying header checksum and is read back if and only if its header length and fragment offset fit their places and its total length is right or its header has no options |
| `IPv4Wire.LargeOffsetIsLost` | libsponge/tcp_helpers/ipv4_header.cc:78-110 | a datagram with fragment offset 0x2000 serializes and is read back with offset 0 |
| `TcpOverIp.PseudoHeaderSum` | libsponge/tcp_helpers/ipv4_header.cc:125-131 | the initial sum of the TCP checksum is that of the pseudo-header of RFC 793 |
| `TcpOverIp.UnwrapsIff` | libsponge/tcp_helpers/tcp_over_ip.cc:26-73 | for any datagram a segment comes out if and only if it carries TCP that parses as a segment for our port, from our peer to us or, while listening, a SYN that is no reset; it is the one parsed; a listening endpoint is then bound to its two ends, and otherwise nothing changes |
| `TcpOverIp.TcpInIpRoundTrip` | libsponge/tcp_helpers/tcp_over_ip.cc:26-90 | a wrapped, serialized, parsed segment is unwrapped if and only if it is meant for that endpoint, unchanged apart from ports and checksum; a listening endpoint is then bound to its sender |
| `TcpOverIp.WrappedIsWellFormed` | libsponge/tcp_helpers/tcp_over_ip.cc:75-90 | wrapping yields a well-formed datagram from our address to the peer's, with TTL 128 and not to be fragmented |
| `WireMethods.SerializeTcpHeader` | libsponge/tcp_helpers/tcp_header.cc:51-78 | builds the header bytes field by field, refusing a header that is too short |
| `WireMethods.ParseTcpHeader` | libsponge/tcp_helpers/tcp_header.cc:17-48 | reads them field by field, each where TcpWire.FieldsOf says |
| `WireMethods.SerializeSegment` | libsponge/tcp_helpers/tcp_segment.cc:30-45 | sums the zeroed header and the payload and fills the checksum in |
| `WireMethods.ParseSegment` | libsponge/tcp_helpers/tcp_segment.cc:12-23 | checks the sum, then reads header and payload |
| `WireMethods.SerializeIPv4Header` | libsponge/tcp_helpers/ipv4_header.cc:78-110 | builds the header bytes field by field |
| `WireMethods.ParseIPv4Header` | libsponge/tcp_helpers/ipv4_header.cc:23-75 | reads them, with every error the source distinguishes |
| `WireMethods.SerializeDatagram` | libsponge/tcp_helpers/ipv4_datagram.cc:23-41 | refuses a wrong length, fills the checksum in |
| `WireMethods.ParseDatagram` | libsponge/tcp_helpers/ipv4_datagram.cc:11-21 | reads a datagram; only the payload length and running out of bytes are errors |

## Left out

- The applications, the event loop, sockets, file descriptors, threads and TUN/TAP or UDP adapters: replaced by the abstract network and by events.
- `Address`, name resolution and the text forms of addresses: an IP address is a 32-bit number.
- Reference counting in `Buffer` and `BufferList`: payloads are byte sequences.
- Debug output, `to_string`, `summary`, `hexdump` and the state names: they compute nothing the protocol uses.
- The destructor of `TCPConnection`, which resets a connection that is still active.
- Ethernet and ARP header serialization: frames and ARP messages are datatypes whose payload is either parsed or not.
- Wrap-around of the millisecond counters: times are natural numbers.
- Who takes segments off the outbound queues and when: the queues keep everything ever pushed.
- Choosing the initial sequence number at random: it is a parameter.
- Liveness: nothing says that a segment does arrive, so no stream must complete; `Recovery` proves that it can.
- A lower bound on the time between a segment's first transmission and its second: the timer may already have been running when it was sent, and counts from its own start.
- `TcpOverIp`: the adapter's configuration is a value that wrapping and unwrapping return, not an object updated in place.
- `libsponge/tcp_connection_current.cc` and `libsponge/tcp_connection_w_comments.cc`: copies of the connection that are not built upon.
- The conflict markers around an include line in `libsponge/router.hh`: they concern that line only.
- PopOutput: gives no abstract value when more than the size is asked for, because the source's counters then no longer describe a buffer.
- SegmentRoundTrip: requires the 32-bit running sum not to overflow, which every segment that fits an IPv4 datagram meets.
- AckBackoffExactIff: assumes a positive initial timeout, as the backoff lemmas do, because a timer of 0 ms has always run out.
