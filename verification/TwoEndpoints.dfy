/**
 Two endpoints and a network that may lose, duplicate, delay and reorder segments: it delivers any segment
 the peer has ever sent, at any time and any number of times, as long as the age bound holds.
 */
module TwoEndpoints {
  import opened Common
  import opened WrappingIntegers
  import opened Segments
  import opened ConnectionSpec
  import opened ConnectionProofs
  import opened Endpoint
  import A = AssemblySpec
  import R = ReceiverSpec
  import T = SenderSpec
  import P = SenderProofs

  // Counters are 64-bit; no application writes more than this into one direction.
  const STREAM_LIMIT: int := 0x8000_0000_0000_0000

  datatype System = System(a: Connection, b: Connection)

  ghost predicate Init(s: System) {
    && (exists sc: nat, rc: nat, rto: nat, isn: U32 :: s.a == NewConnection(sc, rc, rto, isn))
    && (exists sc: nat, rc: nat, rto: nat, isn: U32 :: s.b == NewConnection(sc, rc, rto, isn))
  }

  // Endpoint `x`, whose peer is `y`, acts on its own.
  ghost predicate ActsAlone(x: Connection, x': Connection) {
    exists e: Event :: !e.Arriving? && x' == Apply(x, e) && |x'.sender.stream.written| <= STREAM_LIMIT
  }

  // The network delivers one of the segments that `y` has sent.
  ghost predicate GetsSegment(x: Connection, y: Connection, x': Connection) {
    exists k: Packet :: k in y.out && Recent(x, k) && x' == Apply(x, Arriving(k.segment))
  }

  ghost predicate Acts(x: Connection, y: Connection, x': Connection) {
    ActsAlone(x, x') || GetsSegment(x, y, x')
  }

  ghost predicate Next(s: System, s': System) {
    || (Acts(s.a, s.b, s'.a) && s'.b == s.b)
    || (Acts(s.b, s.a, s'.b) && s'.a == s.a)
  }

  ghost predicate IsRun(run: seq<System>) {
    && run != [] && Init(run[0])
    && forall i | 0 < i < |run| :: Next(run[i - 1], run[i])
  }

  /** Half of the system invariant: endpoint `x` against its peer `y`. */
  ghost predicate Half(x: Connection, y: Connection) {
    Inv(x) && EndInv(x, AsPeer(y)) && |x.sender.stream.written| <= STREAM_LIMIT
  }

  ghost predicate SystemInv(s: System) {
    Half(s.a, s.b) && Half(s.b, s.a)
  }

  lemma NextWithinImage(s: T.Sender)
    requires P.Inv(s)
    ensures s.next <= |s.stream.written| + 2
  {
    hide P.Tiles, P.Queued;
  }

  lemma PeerIsSane(x: Connection, y: Connection)
    requires Half(x, y) && Half(y, x)
    ensures Sane(AsPeer(y))
  {
    hide P.Tiles, P.Queued, P.TimerInv, A.Inv, PacketOk;
    NextWithinImage(y.sender);
    R.FirstWithinSent(y.receiver, x.sender.isn, x.sender.stream.written, x.sender.stream.ended, x.sender.next);
  }

  lemma PeersPacket(y: Connection, k: Packet, isn: U32)
    requires PacketOk(y, k, isn)
    ensures FromPeer(k, AsPeer(y), isn)
  {
    hide R.Honest, Wrap;
  }

  function Sent(c: Connection): seq<Byte> {
    c.sender.stream.written
  }

  function Received(c: Connection): seq<Byte> {
    c.receiver.assembly.output.written
  }

  // Neither the segment's own stages nor a reply change what the application wrote.
  lemma StagesKeepWritten(c: Connection, seg: Segment)
    ensures ObeyRst(Receive(c, seg), seg).sender.stream.written == Sent(c)
    ensures Reply(c, seg).sender.stream.written == Sent(c)
    ensures TrySwitchingCloseMode(c).sender.stream.written == Sent(c)
  {
    hide R.SegmentReceived, StampAll;
  }

  lemma AckKeepsWritten(c: Connection, seg: Segment)
    requires Steady(c)
    ensures Sent(ObeyAck(c, seg)) == Sent(c)
  {
    hide T.AckReceived, P.Inv, P.Progress;
    if seg.header.ack {
      P.AckReceivedMoves(c.sender, seg.header.ackno, seg.header.win);
    }
  }

  lemma AnswerKeepsWritten(c: Connection, seg: Segment)
    requires Steady(c)
    ensures Sent(AnswerSyn(c, seg)) == Sent(c)
  {
    hide T.Fill, P.Inv, StampAll;
    P.FillKeeps(c.sender);
  }

  // An arriving segment never changes what the application wrote.
  lemma ArrivalKeepsWritten(x: Connection, seg: Segment)
    requires Steady(x)
    ensures Sent(SegmentReceived(x, seg)) == Sent(x)
  {
    hide Receive, ObeyRst, ObeyAck, Reply, AnswerSyn, TrySwitchingCloseMode, Steady, Forward;
    var c1 := Receive(x, seg);
    ReceiveStage(x, seg);
    var c2 := ObeyRst(c1, seg);
    ObeyRstStage(c1, seg);
    StagesKeepWritten(x, seg);
    var c3 := ObeyAck(c2, seg);
    ObeyAckStage(c2, seg);
    AckKeepsWritten(c2, seg);
    var c4 := Reply(c3, seg);
    ReplyStage(c3, seg);
    StagesKeepWritten(c3, seg);
    var c5 := AnswerSyn(c4, seg);
    AnswerKeepsWritten(c4, seg);
    StagesKeepWritten(c5, seg);
  }

  lemma DeliveryKeeps(x: Connection, y: Connection, k: Packet)
    requires Half(x, y) && Half(y, x) && k in y.out && Recent(x, k)
    ensures Half(Apply(x, Arriving(k.segment)), y) && Forward(x, Apply(x, Arriving(k.segment)))
  {
    hide Inv, Steady, PacketOk, Follows, SegmentReceived, FromPeer, Recent, Sane, Forward;
    ApplyKeeps(x, Arriving(k.segment));
    assert Steady(x) && PacketOk(y, k, x.sender.isn);
    ArrivalKeepsWritten(x, k.segment);
    PeerIsSane(x, y);
    PeersPacket(y, k, x.sender.isn);
    SegmentReceivedEnd(x, k, AsPeer(y));
  }

  lemma ActKeeps(x: Connection, y: Connection, x': Connection)
    requires Half(x, y) && Half(y, x) && Acts(x, y, x')
    ensures Half(x', y) && Half(y, x')
  {
    hide Inv, EndInv, Apply, Recent, Forward;
    if ActsAlone(x, x') {
      var e: Event :| !e.Arriving? && x' == Apply(x, e) && |x'.sender.stream.written| <= STREAM_LIMIT;
      ApplyKeeps(x, e);
      LocalEnd(x, e, AsPeer(y));
    } else {
      var k: Packet :| k in y.out && Recent(x, k) && x' == Apply(x, Arriving(k.segment));
      DeliveryKeeps(x, y, k);
    }
    SenderInv(x');
    NextWithinImage(x'.sender);
    PeerMoves(y, x, x');
  }

  lemma InitHolds(s: System)
    requires Init(s)
    ensures SystemInv(s)
  {
    hide A.Agrees;
    var sc: nat, rc: nat, rto: nat, isn: U32 :| s.a == NewConnection(sc, rc, rto, isn);
    NewInv(sc, rc, rto, isn);
    var sc': nat, rc': nat, rto': nat, isn': U32 :| s.b == NewConnection(sc', rc', rto', isn');
    NewInv(sc', rc', rto', isn');
    NewFollows(rc, AsPeer(s.b));
    NewFollows(rc', AsPeer(s.a));
  }

  lemma NewFollows(capacity: nat, p: Peer)
    ensures Follows(R.NewReceiver(capacity), p)
  {
  }

  /** The invariant holds in every state of every run. */
  lemma {:induction false} RunInv(run: seq<System>, i: nat)
    requires IsRun(run) && i < |run|
    ensures SystemInv(run[i])
  {
    hide Init, Acts, Half;
    if i == 0 {
      InitHolds(run[0]);
    } else {
      RunInv(run, i - 1);
      var s, s' := run[i - 1], run[i];
      if Acts(s.a, s.b, s'.a) && s'.b == s.b {
        ActKeeps(s.a, s.b, s'.a);
      } else {
        ActKeeps(s.b, s.a, s'.b);
      }
    }
  }

  ghost predicate StreamSafe(x: Connection, y: Connection) {
    && Received(y) <= Sent(x)
    && (InboundEnded(y) ==> x.sender.stream.ended && Received(y) == Sent(x))
  }

  lemma HalfIsStreamSafe(x: Connection, y: Connection)
    requires Half(y, x)
    ensures StreamSafe(x, y)
  {
    hide P.Inv, P.TimerInv, PacketOk;
  }

  /**
   End-to-end stream safety: in every state of every run, what each endpoint has assembled is a prefix of what
   its peer wrote, and all of it once the inbound stream has ended.
   */
  lemma EndToEndSafety(run: seq<System>, i: nat)
    requires IsRun(run) && i < |run|
    ensures StreamSafe(run[i].a, run[i].b) && StreamSafe(run[i].b, run[i].a)
  {
    hide Half, StreamSafe;
    RunInv(run, i);
    HalfIsStreamSafe(run[i].a, run[i].b);
    HalfIsStreamSafe(run[i].b, run[i].a);
  }

  /** Acknowledged by the peer means assembled by the peer. */
  ghost predicate AckSound(x: Connection, y: Connection) {
    x.sender.acked <= AckBound(y.receiver) <= x.sender.next
  }

  lemma HalfIsAckSound(x: Connection, y: Connection)
    requires Half(x, y) && Half(y, x)
    ensures AckSound(x, y)
  {
    hide P.Tiles, P.Queued, P.TimerInv, PacketOk;
    if y.receiver.synReceived {
      R.AckPointWithinSent(y.receiver, x.sender.isn, Sent(x), x.sender.stream.ended, x.sender.next);
    }
  }

  lemma AcknowledgementSoundness(run: seq<System>, i: nat)
    requires IsRun(run) && i < |run|
    ensures AckSound(run[i].a, run[i].b) && AckSound(run[i].b, run[i].a)
  {
    hide Half, AckSound;
    RunInv(run, i);
    HalfIsAckSound(run[i].a, run[i].b);
    HalfIsAckSound(run[i].b, run[i].a);
  }

  lemma CleanCloseOf(x: Connection, y: Connection)
    requires Half(x, y) && Half(y, x) && !x.active && !Failed(x)
    ensures InboundEnded(y) && Received(y) == Sent(x)
    ensures InboundEnded(x) && Received(x) == Sent(y)
  {
    hide P.Tiles, P.Queued, P.TimerInv, A.Inv, PacketOk, Follows;
    HalfIsAckSound(x, y);
    HalfIsStreamSafe(x, y);
    HalfIsStreamSafe(y, x);
  }

  /** An endpoint that closed without an error has both streams complete at both ends. */
  lemma CleanCloseIsComplete(run: seq<System>, i: nat)
    requires IsRun(run) && i < |run|
    ensures forall x, y | (x, y) == (run[i].a, run[i].b) || (x, y) == (run[i].b, run[i].a) ::
              !x.active && !Failed(x) ==>
                && InboundEnded(x) && Received(x) == Sent(y)
                && InboundEnded(y) && Received(y) == Sent(x)
  {
    hide Half;
    RunInv(run, i);
    var a, b := run[i].a, run[i].b;
    if !a.active && !Failed(a) {
      CleanCloseOf(a, b);
    }
    if !b.active && !Failed(b) {
      CleanCloseOf(b, a);
    }
  }
}
