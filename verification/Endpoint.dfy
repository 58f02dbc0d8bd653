/** An endpoint whose peer follows the protocol: what it holds is the peer's, and what it sends is its own. */
module Endpoint {
  import opened Common
  import opened WrappingIntegers
  import opened Segments
  import opened ConnectionSpec
  import opened ConnectionProofs
  import S = StreamSpec
  import A = AssemblySpec
  import R = ReceiverSpec
  import T = SenderSpec
  import P = SenderProofs

  // What an endpoint may rely on about its peer. `ackBound` is 0 until the peer has seen our SYN; `edge` is the
  // right edge of the peer's window.
  datatype Peer = Peer(isn: U32, written: seq<Byte>, ended: bool, next: nat, ackBound: nat, edge: nat)

  function AckBound(r: R.Receiver): nat {
    if r.synReceived then R.AckPoint(r) else 0
  }

  function RightEdge(r: R.Receiver): nat {
    R.AckPoint(r) + R.WindowSize(r)
  }

  function AsPeer(c: Connection): Peer {
    Peer(c.sender.isn, c.sender.stream.written, c.sender.stream.ended, c.sender.next, AckBound(c.receiver),
         RightEdge(c.receiver))
  }

  // The peer's counters fit in 64 bits.
  predicate Sane(p: Peer) {
    p.next <= |p.written| + 2 < TWO_64 && p.ackBound < TWO_64
  }

  ghost predicate Follows(r: R.Receiver, p: Peer) {
    R.Tracks(r, p.isn, p.written, p.ended, p.next)
  }

  ghost predicate OwnSlice(s: T.Sender, k: Packet) {
    R.Honest(k.seqno, k.segment, s.isn, s.stream.written, s.stream.ended, s.next)
  }

  /**
   A packet's acknowledgement is for the peer's numbering and never exceeds what was assembled; the window it
   offers never reaches beyond the receiver's.
   */
  predicate SoundAck(r: R.Receiver, k: Packet, peerIsn: U32) {
    k.segment.header.ack ==>
      && r.synReceived && k.ackno <= R.AckPoint(r)
      && k.segment.header.ackno == Wrap(k.ackno % TWO_64, peerIsn)
      && k.ackno + k.segment.header.win <= RightEdge(r)
  }

  ghost predicate PacketOk(c: Connection, k: Packet, peerIsn: U32) {
    OwnSlice(c.sender, k) && SoundAck(c.receiver, k, peerIsn)
  }

  ghost predicate EndInv(c: Connection, p: Peer) {
    && Steady(c)
    && Follows(c.receiver, p)
    && c.sender.acked <= p.ackBound
    && forall k | k in c.out :: PacketOk(c, k, p.isn)
  }

  lemma OwnSliceGrows(s: T.Sender, s': T.Sender, k: Packet)
    requires OwnSlice(s, k) && P.Progress(s, s')
    ensures OwnSlice(s', k)
  {
    hide Slice, Image, Wrap;
    P.ImageGrows(s.stream.written, s.stream.ended, s'.stream.written, s'.stream.ended);
    SliceOfPrefix(P.ImageOf(s), P.ImageOf(s'), k.seqno, k.segment);
  }

  lemma PacketsGrow(c: Connection, c': Connection, peerIsn: U32)
    requires Forward(c, c') && forall k | k in c.out :: PacketOk(c, k, peerIsn)
    ensures forall k | k in c.out :: PacketOk(c', k, peerIsn)
  {
    hide R.Honest, Wrap;
    forall k | k in c.out
      ensures PacketOk(c', k, peerIsn)
    {
      OwnSliceGrows(c.sender, c'.sender, k);
    }
  }

  // A stage that sends nothing.
  lemma SilentStage(c: Connection, c': Connection, p: Peer)
    requires EndInv(c, p) && Stage(c, c') && c'.out == c.out
    requires Follows(c'.receiver, p) && c'.sender.acked <= p.ackBound
    ensures EndInv(c', p)
  {
    hide Steady, Follows, PacketOk;
    PacketsGrow(c, c', p.isn);
  }

  // Stamping changes neither the symbols a segment carries nor its number.
  lemma StampIsHonest(s: T.Sender, o: T.Outgoing, r: R.Receiver, rst: bool)
    requires P.Queued(s, o)
    ensures OwnSlice(s, Stamp(o, r, rst))
  {
    hide Wrap, Image;
    var k := Stamp(o, r, rst);
    assert Symbols(k.segment) == Symbols(o.segment);
  }

  lemma {:induction false} StampedOk(c: Connection, q: seq<T.Outgoing>, rst: bool, peerIsn: U32, k: Packet)
    requires forall o | o in q :: P.Queued(c.sender, o)
    requires c.receiver.synReceived ==> c.receiver.isn == peerIsn
    requires k in StampAll(q, c.receiver, rst)
    ensures PacketOk(c, k, peerIsn)
  {
    hide P.Queued, OwnSlice, Wrap;
    if k == Stamp(q[0], c.receiver, rst) {
      StampIsHonest(c.sender, q[0], c.receiver, rst);
      QueuedHasNoAck(c.sender, q[0]);
    } else {
      StampedOk(c, q[1..], rst, peerIsn, k);
    }
  }

  lemma QueuedHasNoAck(s: T.Sender, o: T.Outgoing)
    requires P.Queued(s, o)
    ensures !o.segment.header.ack
  {
    hide Wrap, Slice;
  }

  lemma SendSegmentsEnd(c: Connection, rst: bool, p: Peer)
    requires EndInv(c, p)
    ensures EndInv(SendSegments(c, rst), p)
  {
    hide P.Tiles, P.TimerInv, A.Inv, P.Queued, PacketOk, A.Agrees;
    var c' := SendSegments(c, rst);
    SendSegmentsStage(c, rst);
    PacketsGrow(c, c', p.isn);
    if c.active {
      forall k | k in c'.out
        ensures PacketOk(c', k, p.isn)
      {
        if k !in c.out {
          assert k in StampAll(c.sender.segmentsOut, c.receiver, rst);
          StampedOk(c, c.sender.segmentsOut, rst, p.isn, k);
          PacketOkDrained(c, k, p.isn);
        }
      }
    }
  }

  lemma PacketOkDrained(c: Connection, k: Packet, peerIsn: U32)
    requires PacketOk(c, k, peerIsn)
    ensures PacketOk(SendSegments(c, false), k, peerIsn)
    ensures PacketOk(SendSegments(c, true), k, peerIsn)
  {
    hide R.Honest, Wrap, StampAll;
  }

  lemma FillWindowEnd(c: Connection, p: Peer)
    requires EndInv(c, p)
    ensures EndInv(FillWindow(c), p)
  {
    hide P.Inv, P.TimerInv, A.Inv, T.Fill, Follows, PacketOk;
    FillWindowStage(c);
    P.FillKeeps(c.sender);
    SilentStage(c, FillWindow(c), p);
  }

  lemma ConnectEnd(c: Connection, p: Peer)
    requires EndInv(c, p)
    ensures EndInv(Connect(c), p)
  {
    hide EndInv, FillWindow, SendSegments;
    FillWindowEnd(c, p);
    SendSegmentsEnd(FillWindow(c), false, p);
  }

  // The application writes to, ends or breaks off its stream.
  lemma StreamEnd(c: Connection, stream: S.Stream, p: Peer)
    requires EndInv(c, p) && stream.popped == c.sender.stream.popped && stream.error == c.sender.stream.error
    requires c.sender.stream.written <= stream.written
    requires c.sender.stream.ended ==> stream.ended && stream.written == c.sender.stream.written
    ensures EndInv(c.(sender := c.sender.(stream := stream)), p)
  {
    hide P.Inv, P.TimerInv, A.Inv, Follows, PacketOk;
    var s := c.sender.(stream := stream);
    P.StreamGrows(c.sender, stream);
    StreamTimer(c.sender, stream);
    SenderStage(c, s);
    SilentStage(c, c.(sender := s), p);
  }

  lemma WriteEnd(c: Connection, data: seq<Byte>, p: Peer)
    requires EndInv(c, p)
    ensures EndInv(Write(c, data), p)
  {
    hide EndInv, FillWindow, SendSegments;
    if !WriteRefused(c) {
      var stream := S.Write(c.sender.stream, data);
      StreamEnd(c, stream, p);
      var c1 := c.(sender := c.sender.(stream := stream));
      FillWindowEnd(c1, p);
      SendSegmentsEnd(FillWindow(c1), false, p);
    }
  }

  lemma TryClosingEnd(c: Connection, p: Peer)
    requires EndInv(c, p)
    ensures EndInv(TryClosing(c), p)
  {
    hide P.Inv, P.TimerInv, A.Inv, SendSegments, Follows, PacketOk;
    SendSegmentsEnd(c, false, p);
    TryClosingStage(c);
    if c.active && TryClosing(c) != SendSegments(c, false) {
      var c1 := SendSegments(c, false);
      forall k | k in c1.out
        ensures PacketOk(TryClosing(c), k, p.isn)
      {
        PacketOkFlags(c1, TryClosing(c), k, p.isn);
      }
    }
  }

  lemma PacketOkFlags(c: Connection, c': Connection, k: Packet, peerIsn: U32)
    requires PacketOk(c, k, peerIsn) && c'.sender == c.sender && c'.receiver == c.receiver
    ensures PacketOk(c', k, peerIsn)
  {
    hide R.Honest, Wrap;
  }

  lemma EndInputEnd(c: Connection, p: Peer)
    requires EndInv(c, p)
    ensures EndInv(EndInputStream(c), p)
  {
    hide EndInv, FillWindow, TryClosing;
    var stream := S.EndInput(c.sender.stream);
    StreamEnd(c, stream, p);
    var c1 := c.(sender := c.sender.(stream := stream));
    FillWindowEnd(c1, p);
    TryClosingEnd(FillWindow(c1), p);
  }

  lemma EnsureQueuedEnd(c: Connection, p: Peer)
    requires EndInv(c, p) && SynSent(c)
    ensures EndInv(EnsureQueued(c), p)
  {
    hide P.Inv, P.TimerInv, A.Inv, Follows, PacketOk;
    EnsureQueuedStage(c);
    SilentStage(c, EnsureQueued(c), p);
  }

  lemma ResetEnd(c: Connection, p: Peer)
    requires EndInv(c, p)
    ensures EndInv(Reset(c), p)
  {
    hide P.Inv, P.TimerInv, PacketOk;
    ResetStage(c);
    SilentStage(c, Reset(c), p);
  }

  lemma TickEnd(c: Connection, ms: nat, p: Peer)
    requires EndInv(c, p)
    ensures EndInv(Tick(c, ms), p)
  {
    hide P.Tiles, P.TimerInv, A.Inv, T.Tick, GiveUpOrSend, TryClosing, Follows, PacketOk;
    if c.active {
      var c1 := c.(sender := T.Tick(c.sender, ms), sinceLastSegment := c.sinceLastSegment + ms);
      TickSenderSteady(c, ms);
      TickAcked(c.sender, ms);
      PacketsGrow(c, c1, p.isn);
      assert EndInv(c1, p);
      GiveUpOrSendEnd(c1, p);
      TryClosingEnd(GiveUpOrSend(c1), p);
    }
  }

  lemma TickAcked(s: T.Sender, ms: nat)
    ensures T.Tick(s, ms).acked == s.acked
  {
  }

  lemma GiveUpOrSendEnd(c: Connection, p: Peer)
    requires EndInv(c, p)
    ensures EndInv(GiveUpOrSend(c), p)
  {
    hide P.Tiles, P.Queued, P.TimerInv, A.Inv, Reset, SendSegments, EnsureQueued, Follows, PacketOk;
    if c.sender.retransmissions > MAX_RETX_ATTEMPTS {
      assert SynSent(c);
      EnsureQueuedEnd(c, p);
      SendSegmentsEnd(EnsureQueued(c), true, p);
      ResetEnd(SendSegments(EnsureQueued(c), true), p);
    } else {
      SendSegmentsEnd(c, false, p);
    }
  }

  lemma ReadEnd(c: Connection, len: nat, p: Peer)
    requires EndInv(c, p)
    ensures EndInv(ReadInbound(c, len), p)
  {
    hide P.Inv, P.TimerInv, PacketOk;
    ReadStage(c, len);
    SilentStage(c, ReadInbound(c, len), p);
  }

  /** The age bound: the true numbers of an arriving packet are less than 2^31 from the checkpoints in use. */
  predicate Recent(c: Connection, k: Packet) {
    && Distance(k.seqno, A.First(c.receiver.assembly) + 1) < TWO_31
    && (k.segment.header.ack ==> Distance(k.ackno, c.sender.acked) < TWO_31)
  }

  // A packet as the peer sends it to us.
  ghost predicate FromPeer(k: Packet, p: Peer, isn: U32) {
    && R.Honest(k.seqno, k.segment, p.isn, p.written, p.ended, p.next)
    && (k.segment.header.ack ==>
          && k.ackno <= p.ackBound && k.segment.header.ackno == Wrap(k.ackno % TWO_64, isn)
          && k.ackno + k.segment.header.win <= p.edge)
  }

  lemma ReceiveEnd(c: Connection, k: Packet, p: Peer)
    requires EndInv(c, p) && Sane(p) && FromPeer(k, p, c.sender.isn) && Recent(c, k)
    ensures EndInv(Receive(c, k.segment), p)
  {
    hide P.Inv, P.TimerInv, A.Inv, PacketOk, R.Tracks, R.Honest, R.SegmentReceived;
    R.ReceiveTracks(c.receiver, k.seqno, k.segment, p.isn, p.written, p.ended, p.next);
    ReceiveStage(c, k.segment);
    SilentStage(c, Receive(c, k.segment), p);
  }

  lemma ObeyAckEnd(c: Connection, k: Packet, p: Peer)
    requires EndInv(c, p) && Sane(p) && FromPeer(k, p, c.sender.isn)
    requires k.segment.header.ack ==> Distance(k.ackno, c.sender.acked) < TWO_31
    ensures EndInv(ObeyAck(c, k.segment), p)
  {
    hide P.Inv, P.TimerInv, A.Inv, PacketOk, Follows, R.Honest, T.AckReceived, Wrap, Unwrap;
    if k.segment.header.ack {
      var h := k.segment.header;
      P.AckReceivedMoves(c.sender, h.ackno, h.win);
      assert c.sender.acked % TWO_64 == c.sender.acked && k.ackno % TWO_64 == k.ackno;
      UnwrapInvertsWrap(k.ackno, c.sender.isn, c.sender.acked);
      ObeyAckStage(c, k.segment);
      SilentStage(c, ObeyAck(c, k.segment), p);
    }
  }

  lemma ReplyEnd(c: Connection, seg: Segment, p: Peer)
    requires EndInv(c, p)
    ensures EndInv(Reply(c, seg), p)
  {
    hide EndInv, EnsureQueued, SendSegments;
    if SynSent(c) {
      if Length(seg) > 0 {
        EnsureQueuedEnd(c, p);
        SendSegmentsEnd(EnsureQueued(c), false, p);
      } else {
        SendSegmentsEnd(c, false, p);
      }
    }
  }

  lemma SwitchEnd(c: Connection, p: Peer)
    requires EndInv(c, p)
    ensures EndInv(TrySwitchingCloseMode(c), p)
  {
    hide P.Inv, P.TimerInv, A.Inv, Follows, PacketOk;
    SwitchStage(c);
    SilentStage(c, TrySwitchingCloseMode(c), p);
  }

  // Before the acknowledgement is looked at, a segment changes neither our numbering nor what is acknowledged.
  lemma SenderKept(c: Connection, seg: Segment)
    ensures var c2 := ObeyRst(Receive(c, seg), seg);
            c2.sender.isn == c.sender.isn && c2.sender.acked == c.sender.acked
  {
    hide R.SegmentReceived;
  }

  /** A packet of the peer within the age bound keeps the endpoint honest and on track. */
  lemma SegmentReceivedEnd(c: Connection, k: Packet, p: Peer)
    requires EndInv(c, p) && Sane(p) && FromPeer(k, p, c.sender.isn) && Recent(c, k)
    ensures EndInv(SegmentReceived(c, k.segment), p)
  {
    hide EndInv, FromPeer, Receive, ObeyRst, ObeyAck, Reply, AnswerSyn, TrySwitchingCloseMode;
    var seg := k.segment;
    var c1 := Receive(c, seg);
    ReceiveEnd(c, k, p);
    var c2 := ObeyRst(c1, seg);
    ObeyRstEnd(c1, seg, p);
    SenderKept(c, seg);
    var c3 := ObeyAck(c2, seg);
    ObeyAckEnd(c2, k, p);
    var c4 := Reply(c3, seg);
    ReplyEnd(c3, seg, p);
    var c5 := AnswerSyn(c4, seg);
    AnswerSynEnd(c4, seg, p);
    SwitchEnd(c5, p);
  }

  lemma ObeyRstEnd(c: Connection, seg: Segment, p: Peer)
    requires EndInv(c, p)
    ensures EndInv(ObeyRst(c, seg), p)
  {
    hide EndInv, Reset;
    if seg.header.rst {
      ResetEnd(c, p);
    }
  }

  lemma AnswerSynEnd(c: Connection, seg: Segment, p: Peer)
    requires EndInv(c, p)
    ensures EndInv(AnswerSyn(c, seg), p)
  {
    hide EndInv, Connect;
    if seg.header.syn && !SynSent(c) {
      ConnectEnd(c, p);
    }
  }

  lemma LocalEnd(c: Connection, e: Event, p: Peer)
    requires EndInv(c, p) && !e.Arriving?
    ensures EndInv(Apply(c, e), p)
  {
    hide EndInv, Connect, Write, EndInputStream, Tick, ReadInbound;
    match e {
      case Connecting => ConnectEnd(c, p);
      case Writing(data) => WriteEnd(c, data, p);
      case Ending => EndInputEnd(c, p);
      case Ticking(ms) => TickEnd(c, ms, p);
      case Reading(len) => ReadEnd(c, len, p);
    }
  }

  /** An endpoint stays on track while its peer moves forward. */
  lemma PeerMoves(c: Connection, d: Connection, d': Connection)
    requires EndInv(c, AsPeer(d)) && Forward(d, d') && d'.sender.next <= |d'.sender.stream.written| + 2
    ensures EndInv(c, AsPeer(d'))
  {
    hide P.Inv, P.TimerInv, A.Inv, PacketOk, A.Agrees;
    var s, s' := d.sender, d'.sender;
    R.SentBytesGrow(s.stream.written, s.next, s'.stream.written, s'.next);
    R.AgreesWithLonger(c.receiver.assembly, R.SentBytes(s.stream.written, s.next),
                       R.SentBytes(s'.stream.written, s'.next));
  }
}
