/** The sender: window filling, acknowledgement, and the retransmission timer (section 5 of RFC 6298). */
module SenderSpec {
  import opened Common
  import opened WrappingIntegers
  import opened StreamSpec
  import opened Segments

  const MAX_PAYLOAD_SIZE: nat := 1000

  datatype Timer = Timer(elapsed: nat, timeout: nat)

  predicate Expired(t: Timer) {
    t.elapsed >= t.timeout
  }

  // A segment with its absolute sequence number.
  datatype Outgoing = Outgoing(seqno: nat, segment: Segment)

  /**
   `firsts` records the first transmission of every segment, in order; the source has no such field. The
   queue `segmentsOut` keeps absolute numbers beside the segments, of which the source queues only the latter.
   */
  datatype Sender = Sender(
    isn: U32, segmentsOut: seq<Outgoing>, rto: nat, stream: Stream, next: nat, acked: nat, window: nat,
    outstanding: seq<Outgoing>, timer: Timer, retransmissions: nat, firsts: seq<Outgoing>)

  function NewSender(capacity: nat, rto: nat, isn: U32): Sender {
    Sender(isn, [], rto, NewStream(capacity), 0, 0, 1, [], Timer(0, rto), 0, [])
  }

  function InFlight(s: Sender): int {
    s.next - s.acked
  }

  // `n_bytes_to_send`: a size_t difference stored in a uint16_t.
  function Room(s: Sender): U16 {
    if s.window == 0 && InFlight(s) == 0 then 1 else ((s.window - InFlight(s)) % TWO_64) % TWO_16
  }

  predicate FinSent(s: Sender) {
    Eof(s.stream) && s.next >= |s.stream.written| + 2
  }

  // How many bytes the next segment may carry once its SYN is counted.
  function PayloadRoom(s: Sender): nat {
    var room := Room(s);
    Min(if s.next == 0 && room > 0 then room - 1 else room, MAX_PAYLOAD_SIZE)
  }

  function NextSegment(s: Sender): Segment {
    var n := PayloadRoom(s);
    var payload := Peek(s.stream, n);
    var rest := if n == MAX_PAYLOAD_SIZE then 1 else n - |payload|;
    var syn := s.next == 0 && Room(s) > 0;
    var fin := Eof(Pop(s.stream, n)) && rest > 0;
    Segment(DefaultHeader(Wrap(s.next % TWO_64, s.isn)).(syn := syn, fin := fin), payload)
  }

  predicate CanFill(s: Sender) {
    s.next <= s.acked + s.window && !FinSent(s) && Length(NextSegment(s)) > 0
  }

  // Queue a segment, remember it as outstanding, and start the timer if it is not running.
  function Transmit(s: Sender, seg: Segment): Sender {
    var out := Outgoing(s.next, seg);
    s.(segmentsOut := s.segmentsOut + [out],
       outstanding := s.outstanding + [out],
       firsts := s.firsts + [out],
       next := s.next + Length(seg),
       timer := if Expired(s.timer) then Timer(0, s.rto) else s.timer)
  }

  function FillStep(s: Sender): Sender {
    Transmit(s, NextSegment(s)).(stream := Pop(s.stream, PayloadRoom(s)))
  }

  function Unsent(s: Sender): nat {
    |Buffered(s.stream)| + Max(0, |s.stream.written| + 2 - s.next)
  }

  function Fill(s: Sender): Sender
    decreases Unsent(s)
  {
    if CanFill(s) then Fill(FillStep(s)) else s
  }

  function DropAcked(q: seq<Outgoing>, ack: nat): seq<Outgoing> {
    if q != [] && q[0].seqno + Length(q[0].segment) <= ack then DropAcked(q[1..], ack) else q
  }

  predicate AckAccepted(s: Sender, ackno: U32) {
    s.acked < Unwrap(ackno, s.isn, s.acked % TWO_64) <= s.next
  }

  // The state after an accepted acknowledgement, before the window is filled again.
  function Acknowledge(s: Sender, ack: nat): Sender {
    var q := DropAcked(s.outstanding, ack);
    s.(acked := ack,
       outstanding := q,
       timer := if |q| < |s.outstanding| then Timer(0, s.rto) else s.timer,
       retransmissions := 0)
  }

  function AckReceived(s: Sender, ackno: U32, window: U16): Sender {
    var s1 := s.(window := window);
    if AckAccepted(s, ackno) then Fill(Acknowledge(s1, Unwrap(ackno, s.isn, s.acked % TWO_64))) else s1
  }

  function Retransmit(s: Sender): Sender
    requires s.outstanding != []
  {
    var timeout := if s.window > 0 then s.timer.timeout * 2 else s.timer.timeout;
    s.(segmentsOut := s.segmentsOut + [s.outstanding[0]],
       retransmissions := if s.window > 0 then s.retransmissions + 1 else s.retransmissions,
       timer := Timer(0, timeout))
  }

  function Tick(s: Sender, ms: nat): Sender {
    var s1 := s.(timer := Timer(s.timer.elapsed + ms, s.timer.timeout));
    if Expired(s1.timer) && s1.outstanding != [] then Retransmit(s1) else s1
  }

  function SendEmpty(s: Sender): Sender {
    s.(segmentsOut := s.segmentsOut + [Outgoing(s.next, Segment(DefaultHeader(Wrap(s.next % TWO_64, s.isn)), []))])
  }
}
