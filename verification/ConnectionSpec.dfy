/** One endpoint of a connection: sender, receiver, and the rules for closing (section 3.5 of RFC 793). */
module ConnectionSpec {
  import opened Common
  import opened Segments
  import S = StreamSpec
  import R = ReceiverSpec
  import T = SenderSpec

  const MAX_RETX_ATTEMPTS: nat := 8

  // A segment handed to the network, with the true absolute numbers behind its 32-bit ones.
  datatype Packet = Packet(seqno: nat, ackno: nat, segment: Segment)

  /** `out` keeps every segment ever pushed onto the outbound queue; what its owner has taken off is not tracked. */
  datatype Connection = Connection(
    rtTimeout: nat, receiver: R.Receiver, sender: T.Sender, out: seq<Packet>,
    linger: bool, active: bool, sinceLastSegment: nat)

  function NewConnection(sendCapacity: nat, recvCapacity: nat, rtTimeout: nat, isn: U32): Connection {
    Connection(rtTimeout, R.NewReceiver(recvCapacity), T.NewSender(sendCapacity, rtTimeout, isn), [], true, true, 0)
  }

  predicate SynSent(c: Connection) {
    c.sender.next > 0
  }

  // The receiver's ackno and window go into every segment; the window is cut to 16 bits.
  function Stamp(o: T.Outgoing, r: R.Receiver, rst: bool): Packet {
    var h := o.segment.header;
    var h1 := if r.synReceived then
                h.(ack := true, ackno := R.Ackno(r).value, win := R.WindowSize(r) % TWO_16)
              else h;
    Packet(o.seqno, R.AckPoint(r), o.segment.(header := if rst then h1.(rst := true) else h1))
  }

  function StampAll(q: seq<T.Outgoing>, r: R.Receiver, rst: bool): seq<Packet> {
    if q == [] then [] else [Stamp(q[0], r, rst)] + StampAll(q[1..], r, rst)
  }

  function SendSegments(c: Connection, rst: bool): Connection {
    if !c.active then
      c
    else
      c.(out := c.out + StampAll(c.sender.segmentsOut, c.receiver, rst), sender := c.sender.(segmentsOut := []))
  }

  function Reset(c: Connection): Connection {
    c.(sender := c.sender.(stream := S.SetError(c.sender.stream)),
       receiver := c.receiver.(assembly := c.receiver.assembly.(output := S.SetError(c.receiver.assembly.output))),
       active := false)
  }

  predicate InboundDone(c: Connection) {
    c.receiver.assembly.output.ended && |c.receiver.assembly.held| == 0
  }

  predicate OutboundDone(c: Connection) {
    && S.Eof(c.sender.stream)
    && c.sender.next == |c.sender.stream.written| + 2
    && T.InFlight(c.sender) == 0
  }

  predicate LingeredEnough(c: Connection) {
    !c.linger || c.sinceLastSegment >= 10 * c.rtTimeout
  }

  function TryClosing(c: Connection): Connection {
    if !c.active then
      c
    else
      var c1 := SendSegments(c, false);
      if LingeredEnough(c1) && InboundDone(c1) && OutboundDone(c1) then c1.(active := false) else c1
  }

  function TrySwitchingCloseMode(c: Connection): Connection {
    if !S.Eof(c.sender.stream) && c.receiver.assembly.output.ended then c.(linger := false) else c
  }

  function FillWindow(c: Connection): Connection {
    c.(sender := T.Fill(c.sender))
  }

  function Connect(c: Connection): Connection {
    SendSegments(FillWindow(c), false)
  }

  predicate WriteRefused(c: Connection) {
    c.sender.stream.ended || !SynSent(c)
  }

  function Write(c: Connection, data: seq<Byte>): Connection {
    if WriteRefused(c) then
      c
    else
      SendSegments(FillWindow(c.(sender := c.sender.(stream := S.Write(c.sender.stream, data)))), false)
  }

  function EndInputStream(c: Connection): Connection {
    TryClosing(FillWindow(c.(sender := c.sender.(stream := S.EndInput(c.sender.stream)))))
  }

  function EnsureQueued(c: Connection): Connection {
    if c.sender.segmentsOut == [] then c.(sender := T.SendEmpty(c.sender)) else c
  }

  // Tick, after the sender's own tick: give up, or send what the sender queued.
  function GiveUpOrSend(c: Connection): Connection {
    if c.sender.retransmissions > MAX_RETX_ATTEMPTS then
      Reset(SendSegments(EnsureQueued(c), true))
    else
      SendSegments(c, false)
  }

  function Tick(c: Connection, ms: nat): Connection {
    if !c.active then
      c
    else
      TryClosing(GiveUpOrSend(c.(sender := T.Tick(c.sender, ms), sinceLastSegment := c.sinceLastSegment + ms)))
  }

  // The stages of `segment_received`, in the order of the source.
  function Receive(c: Connection, seg: Segment): Connection {
    c.(receiver := R.SegmentReceived(c.receiver, seg), sinceLastSegment := 0)
  }

  function ObeyRst(c: Connection, seg: Segment): Connection {
    if seg.header.rst then Reset(c) else c
  }

  function ObeyAck(c: Connection, seg: Segment): Connection {
    if seg.header.ack then c.(sender := T.AckReceived(c.sender, seg.header.ackno, seg.header.win)) else c
  }

  function Reply(c: Connection, seg: Segment): Connection {
    if SynSent(c) then SendSegments(if Length(seg) > 0 then EnsureQueued(c) else c, false) else c
  }

  function AnswerSyn(c: Connection, seg: Segment): Connection {
    if seg.header.syn && !SynSent(c) then Connect(c) else c
  }

  function SegmentReceived(c: Connection, seg: Segment): Connection {
    TrySwitchingCloseMode(AnswerSyn(Reply(ObeyAck(ObeyRst(Receive(c, seg), seg), seg), seg), seg))
  }

  function ReadInbound(c: Connection, len: nat): Connection {
    c.(receiver := R.ReadInbound(c.receiver, len))
  }

  /** Everything that can happen to an endpoint. */
  datatype Event =
    | Connecting
    | Writing(data: seq<Byte>)
    | Ending
    | Arriving(segment: Segment)
    | Ticking(ms: nat)
    | Reading(len: nat)

  function Apply(c: Connection, e: Event): Connection {
    match e
    case Connecting => Connect(c)
    case Writing(data) => Write(c, data)
    case Ending => EndInputStream(c)
    case Arriving(segment) => SegmentReceived(c, segment)
    case Ticking(ms) => Tick(c, ms)
    case Reading(len) => ReadInbound(c, len)
  }

  function After(c: Connection, events: seq<Event>): Connection {
    if events == [] then c else Apply(After(c, events[..|events| - 1]), events[|events| - 1])
  }
}
