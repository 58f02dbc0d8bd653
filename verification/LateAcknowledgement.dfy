/** A run of two endpoints in which a late acknowledgement takes a sender beyond the window of its peer. */
module LateAcknowledgement {
  import opened Common
  import opened WrappingIntegers
  import opened Segments
  import opened ConnectionSpec
  import opened ConnectionProofs
  import opened Endpoint
  import opened TwoEndpoints
  import opened FlowControl
  import opened Scenarios
  import S = StreamSpec
  import A = AssemblySpec
  import R = ReceiverSpec
  import T = SenderSpec
  import P = SenderProofs
  import Advertising

  // An active connection with all its parts.
  predicate Is(c: Connection, r: R.Receiver, s: T.Sender, out: seq<Packet>) {
    Running(c, s) && c.receiver == r && c.out == out
  }

  // The segment without content that answers when nothing else is queued.
  function EmptyOut(s: T.Sender): T.Outgoing {
    T.Outgoing(s.next, Segment(DefaultHeader(Wrap(s.next % TWO_64, s.isn)), []))
  }

  function Synchronized(isn: U32): R.Receiver {
    R.Receiver(A.NewAssembly(3), true, isn)
  }

  // Receivers

  // A segment without payload or FIN leaves an empty receiver empty.
  lemma EmptyReceived(r: R.Receiver, seg: Segment)
    requires r.assembly == A.NewAssembly(3) && seg.payload == [] && !seg.header.fin && (r.synReceived || seg.header.syn)
    ensures R.SegmentReceived(r, seg) == Synchronized(if seg.header.syn then seg.header.seqno else r.isn)
  {
    hide A.Push, R.StreamIndex;
    Advertising.EmptyPushKeeps(3, R.StreamIndex(R.NoteSyn(r, seg.header), seg.header));
  }

  function Filled(isn: U32, x: Byte, y: Byte): R.Receiver {
    R.Receiver(A.Assembly(S.StreamState(3, [x, y], 0, false, false), map[], None), true, isn)
  }

  lemma BytesPushed(x: Byte, y: Byte)
    ensures A.Push(A.NewAssembly(3), [x, y], 0, false) == Filled(0, x, y).assembly
  {
    var r := A.NewAssembly(3);
    var m: map<nat, Byte> := map[0 := x, 1 := y];
    var arrived := A.Accepted(r, [x, y], 0);
    assert forall i: nat :: i in arrived <==> 0 <= i < 2;
    assert arrived[0] == x && arrived[1] == y;
    assert arrived == m;
    assert 0 in m && A.Merged(map[], m) == m;
    assert A.Run(m, 2, 3) == [];
    assert A.Run(m, 1, 3) == [y] + A.Run(m, 2, 3) == [y];
    assert A.Run(m, 0, 3) == [x] + [y] == [x, y];
    assert A.From(m, 2) == map[];
    assert [] + [x, y][..2] == [x, y];
  }

  lemma BytesReceived(isn: U32, seg: Segment, x: Byte, y: Byte)
    requires seg.header.seqno == Wrap(1, isn) && seg.payload == [x, y] && !seg.header.syn && !seg.header.fin
    ensures R.SegmentReceived(Synchronized(isn), seg) == Filled(isn, x, y)
  {
    hide Wrap, Unwrap, A.Push;
    UnwrapInvertsWrap(1, isn, 1);
    BytesPushed(x, y);
  }

  // Calls

  lemma Connects(c: Connection, rto: nat, isn: U32, r: R.Receiver, out: seq<Packet>)
    requires Is(c, r, T.NewSender(3, rto, isn), out)
    ensures Is(Connect(c), r, Opened(3, rto, isn), out + [Stamp(SynOut(isn), r, false)])
  {
    hide Wrap, T.Fill, Opened;
    ConnectRuns(c, c.sender);
    Opening(3, rto, isn);
    OpenedStream(3, rto, isn);
    StampOne(SynOut(isn), r);
  }

  lemma StampOne(o: T.Outgoing, r: R.Receiver)
    ensures StampAll([o], r, false) == [Stamp(o, r, false)]
  {
    assert [o][1..] == [];
  }

  // A SYN at an endpoint that has not connected yet.
  lemma Accepts(c: Connection, rto: nat, isn: U32, seg: Segment)
    requires Is(c, R.NewReceiver(3), T.NewSender(3, rto, isn), [])
    requires seg.header.syn && !seg.header.ack && !seg.header.rst && !seg.header.fin && seg.payload == []
    ensures var r := Synchronized(seg.header.seqno);
            Is(SegmentReceived(c, seg), r, Opened(3, rto, isn), [Stamp(SynOut(isn), r, false)])
  {
    hide Wrap, Connect, R.SegmentReceived, Opened, Stamp;
    var r := Synchronized(seg.header.seqno);
    EmptyReceived(c.receiver, seg);
    var c1 := c.(receiver := r, sinceLastSegment := 0);
    Connects(c1, rto, isn, r, []);
    assert [] + [Stamp(SynOut(isn), r, false)] == [Stamp(SynOut(isn), r, false)];
  }

  // The reply when nothing is queued: an empty segment if one was received that occupies numbers.
  lemma RepliesEmpty(c: Connection, seg: Segment)
    requires c.active && c.sender.next > 0 && c.sender.segmentsOut == []
    ensures Reply(c, seg) ==
            if Length(seg) > 0 then c.(out := c.out + [Stamp(EmptyOut(c.sender), c.receiver, false)]) else c
  {
    hide Stamp, Wrap;
    if Length(seg) > 0 {
      assert EnsureQueued(c).sender.segmentsOut == [EmptyOut(c.sender)];
      StampOne(EmptyOut(c.sender), c.receiver);
    } else {
      assert c.out + [] == c.out;
    }
  }

  // An acknowledgement after which there is nothing to send.
  lemma Hears(c: Connection, r: R.Receiver, s: T.Sender, out: seq<Packet>, seg: Segment, s': T.Sender)
    requires Is(c, r, s, out) && s.next > 0 && P.Inv(s)
    requires seg.header.ack && !seg.header.rst && !seg.header.fin
    requires T.AckReceived(s, seg.header.ackno, seg.header.win) == s' && s'.segmentsOut == []
    ensures var r' := R.SegmentReceived(r, seg);
            Is(SegmentReceived(c, seg), r', s', if Length(seg) > 0 then out + [Stamp(EmptyOut(s'), r', false)] else out)
  {
    hide T.AckReceived, P.Inv, R.SegmentReceived, Wrap, Stamp, Reply, EmptyOut, Length;
    P.AckReceivedMoves(s, seg.header.ackno, seg.header.win);
    NoFinNoEnd(r, seg);
    var c3 := c.(receiver := R.SegmentReceived(r, seg), sinceLastSegment := 0, sender := s');
    assert ObeyAck(ObeyRst(Receive(c, seg), seg), seg) == c3;
    RepliesEmpty(c3, seg);
  }

  // What a sender queues while filling is what it sends.
  lemma Writes(c: Connection, r: R.Receiver, s: T.Sender, out: seq<Packet>, data: seq<Byte>, s': T.Sender, o: T.Outgoing)
    requires Is(c, r, s, out) && s.next > 0 && !s.stream.ended
    requires T.Fill(s.(stream := S.Write(s.stream, data))) == s'.(segmentsOut := [o]) && s'.segmentsOut == []
    ensures Is(Write(c, data), r, s', out + [Stamp(o, r, false)])
  {
    hide T.Fill, Stamp, S.Write;
    WriteRuns(c, s, data);
    StampOne(o, r);
  }

  // The sender that has written two bytes into a window of three.
  function BothSent(rto: nat, isn: U32, x: Byte, y: Byte): T.Sender {
    var s := Established(3, rto, isn, 3);
    s.(stream := S.StreamState(3, [x, y], 2, false, false), next := 3,
       outstanding := [DataOut(1, isn, [x, y])], firsts := s.firsts + [DataOut(1, isn, [x, y])])
  }

  lemma SendingBoth(rto: nat, isn: U32, x: Byte, y: Byte)
    ensures var s := Established(3, rto, isn, 3);
            T.Fill(s.(stream := S.Write(s.stream, [x, y]))) ==
            BothSent(rto, isn, x, y).(segmentsOut := [DataOut(1, isn, [x, y])])
  {
    hide Wrap;
    var s0 := Established(3, rto, isn, 3);
    var s := s0.(stream := S.Write(s0.stream, [x, y]));
    assert s.stream == S.StreamState(3, [x, y], 0, false, false);
    assert S.Peek(s.stream, 3) == [x, y];
    assert T.NextSegment(s) == DataOut(1, isn, [x, y]).segment;
    assert S.Buffered(T.FillStep(s).stream) == [];
    FillOnce(s);
  }

  // Both bytes are acknowledged, and the peer has room for one more.
  function BothAcked(rto: nat, isn: U32, x: Byte, y: Byte, window: U16): T.Sender {
    BothSent(rto, isn, x, y).(acked := 3, window := window, outstanding := [], timer := T.Timer(0, rto))
  }

  lemma AcknowledgingBoth(rto: nat, isn: U32, x: Byte, y: Byte)
    ensures T.AckReceived(BothSent(rto, isn, x, y), Wrap(3, isn), 1) == BothAcked(rto, isn, x, y, 1)
  {
    hide Wrap, Unwrap;
    var s := BothSent(rto, isn, x, y);
    UnwrapInvertsWrap(3, isn, 1);
    assert s.outstanding[1..] == [];
    assert T.DropAcked(s.outstanding, 3) == T.DropAcked([], 3) == [];
    var s1 := BothAcked(rto, isn, x, y, 1);
    assert S.Buffered(s1.stream) == [];
    FillNot(s1);
  }

  // The acknowledgement of SYN arrives again: it is not accepted, but its window is.
  lemma AcknowledgingLate(rto: nat, isn: U32, x: Byte, y: Byte)
    ensures T.AckReceived(BothAcked(rto, isn, x, y, 1), Wrap(1, isn), 3) == BothAcked(rto, isn, x, y, 3)
  {
    hide Wrap, Unwrap, T.Fill, T.Acknowledge;
    UnwrapInvertsWrap(1, isn, 3);
  }

  lemma SendingThree(rto: nat, isn: U32, x: Byte, y: Byte)
    ensures var s := BothAcked(rto, isn, x, y, 3);
            var s' := T.Fill(s.(stream := S.Write(s.stream, [x, y, x])));
            s'.next == 6 && s'.acked == 3 && s'.window == 3 && |s'.stream.written| == 5
  {
    hide Wrap;
    var s0 := BothAcked(rto, isn, x, y, 3);
    var s := s0.(stream := S.Write(s0.stream, [x, y, x]));
    assert s.stream == S.StreamState(3, [x, y, x, y, x], 2, false, false) by {
      assert [x, y] + [x, y, x][..3] == [x, y, x, y, x];
    }
    assert S.Peek(s.stream, 3) == [x, y, x];
    FillOnce(s);
  }

  // The run

  /** Two endpoints with capacities of 3, and what they do in turn. */
  datatype Cast = Cast(rto: nat, p: U32, q: U32, x: Byte, y: Byte)

  function A0(k: Cast): Connection {
    NewConnection(3, 3, k.rto, k.p)
  }

  function B0(k: Cast): Connection {
    NewConnection(3, 3, k.rto, k.q)
  }

  // The SYN of `a`, the answer of `b` that offers a window of 3, and the acknowledgement of both bytes.
  function Opens(k: Cast): Packet {
    Stamp(SynOut(k.p), R.NewReceiver(3), false)
  }

  function Answers(k: Cast): Packet {
    Stamp(SynOut(k.q), Synchronized(k.p), false)
  }

  function Carries(k: Cast): Packet {
    Stamp(DataOut(1, k.p, [k.x, k.y]), Synchronized(k.q), false)
  }

  function Settles(k: Cast): Packet {
    Stamp(EmptyOut(Established(3, k.rto, k.q, 3)), Filled(k.p, k.x, k.y), false)
  }

  lemma PacketFacts(k: Cast)
    ensures Opens(k).seqno == 0 && Opens(k).segment == SynOut(k.p).segment
    ensures var n := Answers(k);
            && n.seqno == 0 && n.ackno == 1
            && n.segment ==
               Segment(DefaultHeader(Wrap(0, k.q)).(syn := true, ack := true, ackno := Wrap(1, k.p), win := 3), [])
    ensures var n := Carries(k);
            && n.seqno == 1 && n.ackno == 1
            && n.segment == Segment(DefaultHeader(Wrap(1, k.p)).(ack := true, ackno := Wrap(1, k.q), win := 3), [k.x, k.y])
    ensures var n := Settles(k);
            && n.seqno == 1 && n.ackno == 3
            && n.segment == Segment(DefaultHeader(Wrap(1, k.q)).(ack := true, ackno := Wrap(3, k.p), win := 1), [])
  {
    hide Wrap;
  }

  function A1(k: Cast): Connection {
    Apply(A0(k), Connecting)
  }

  function B1(k: Cast): Connection {
    Apply(B0(k), Arriving(Opens(k).segment))
  }

  function A2(k: Cast): Connection {
    Apply(A1(k), Arriving(Answers(k).segment))
  }

  function A3(k: Cast): Connection {
    Apply(A2(k), Writing([k.x, k.y]))
  }

  function B2(k: Cast): Connection {
    Apply(B1(k), Arriving(Carries(k).segment))
  }

  function A4(k: Cast): Connection {
    Apply(A3(k), Arriving(Settles(k).segment))
  }

  function A5(k: Cast): Connection {
    Apply(A4(k), Arriving(Answers(k).segment))
  }

  function A6(k: Cast): Connection {
    Apply(A5(k), Writing([k.x, k.y, k.x]))
  }

  lemma OpenAndAnswer(k: Cast)
    ensures Is(A1(k), R.NewReceiver(3), Opened(3, k.rto, k.p), [Opens(k)]) && Inv(A1(k))
    ensures Is(B1(k), Synchronized(k.p), Opened(3, k.rto, k.q), [Answers(k)]) && Inv(B1(k))
  {
    hide Wrap, Connect, SegmentReceived, Opened, Stamp, Inv;
    Connects(A0(k), k.rto, k.p, R.NewReceiver(3), []);
    assert [] + [Opens(k)] == [Opens(k)];
    PacketFacts(k);
    R.WrapOfZero(k.p);
    Accepts(B0(k), k.rto, k.q, Opens(k).segment);
    NewInv(3, 3, k.rto, k.p);
    NewInv(3, 3, k.rto, k.q);
    ApplyKeeps(A0(k), Connecting);
    ApplyKeeps(B0(k), Arriving(Opens(k).segment));
  }

  lemma WriteBoth(k: Cast)
    ensures exists n :: Is(A2(k), Synchronized(k.q), Established(3, k.rto, k.p, 3), [Opens(k), n])
                     && Is(A3(k), Synchronized(k.q), BothSent(k.rto, k.p, k.x, k.y), [Opens(k), n, Carries(k)])
    ensures Inv(A2(k)) && Inv(A3(k))
  {
    hide Wrap, Write, SegmentReceived, Opened, Established, BothSent, Stamp, Inv, R.SegmentReceived, T.AckReceived, T.Fill;
    OpenAndAnswer(k);
    PacketFacts(k);
    R.WrapOfZero(k.q);
    var s1, s2 := Opened(3, k.rto, k.p), Established(3, k.rto, k.p, 3);
    OpenedStream(3, k.rto, k.p);
    EstablishedNumbers(3, k.rto, k.p, 3);
    SenderInv(A1(k));
    Establishing(3, k.rto, k.p, 3);
    EmptyReceived(R.NewReceiver(3), Answers(k).segment);
    Hears(A1(k), R.NewReceiver(3), s1, [Opens(k)], Answers(k).segment, s2);
    var n := Stamp(EmptyOut(s2), Synchronized(k.q), false);
    assert [Opens(k)] + [n] == [Opens(k), n];
    SendingBoth(k.rto, k.p, k.x, k.y);
    BothSentQueue(k);
    Writes(A2(k), Synchronized(k.q), s2, [Opens(k), n], [k.x, k.y],
           BothSent(k.rto, k.p, k.x, k.y), DataOut(1, k.p, [k.x, k.y]));
    assert [Opens(k), n] + [Carries(k)] == [Opens(k), n, Carries(k)];
    ApplyKeeps(A1(k), Arriving(Answers(k).segment));
    ApplyKeeps(A2(k), Writing([k.x, k.y]));
  }

  lemma BothSentQueue(k: Cast)
    ensures BothSent(k.rto, k.p, k.x, k.y).segmentsOut == [] && BothSent(k.rto, k.p, k.x, k.y).next == 3
    ensures forall w: U16 :: BothAcked(k.rto, k.p, k.x, k.y, w).segmentsOut == []
    ensures forall w: U16 :: BothAcked(k.rto, k.p, k.x, k.y, w).next == 3 && !BothAcked(k.rto, k.p, k.x, k.y, w).stream.ended
    ensures forall w: U16 :: BothAcked(k.rto, k.p, k.x, k.y, w).acked == 3 && BothAcked(k.rto, k.p, k.x, k.y, w).window == w
    ensures BothSent(k.rto, k.p, k.x, k.y).acked == 1
  {
    hide Wrap;
  }

  lemma TakeBoth(k: Cast)
    ensures Is(B2(k), Filled(k.p, k.x, k.y), Established(3, k.rto, k.q, 3), [Answers(k), Settles(k)])
  {
    hide Wrap, SegmentReceived, Opened, Established, Stamp, Inv, R.SegmentReceived, T.AckReceived;
    OpenAndAnswer(k);
    PacketFacts(k);
    OpenedStream(3, k.rto, k.q);
    EstablishedNumbers(3, k.rto, k.q, 3);
    SenderInv(B1(k));
    Establishing(3, k.rto, k.q, 3);
    BytesReceived(k.p, Carries(k).segment, k.x, k.y);
    Hears(B1(k), Synchronized(k.p), Opened(3, k.rto, k.q), [Answers(k)], Carries(k).segment, Established(3, k.rto, k.q, 3));
    assert [Answers(k)] + [Settles(k)] == [Answers(k), Settles(k)];
  }

  lemma SettleAndRepeat(k: Cast)
    ensures Running(A4(k), BothAcked(k.rto, k.p, k.x, k.y, 1)) && A4(k).receiver == Synchronized(k.q)
    ensures Running(A5(k), BothAcked(k.rto, k.p, k.x, k.y, 3)) && A5(k).receiver == Synchronized(k.q)
  {
    hide Wrap, SegmentReceived, Established, BothSent, BothAcked, Stamp, Inv, R.SegmentReceived, T.AckReceived;
    WriteBoth(k);
    PacketFacts(k);
    R.WrapOfZero(k.q);
    BothSentQueue(k);
    SenderInv(A3(k));
    AcknowledgingBoth(k.rto, k.p, k.x, k.y);
    EmptyReceived(Synchronized(k.q), Settles(k).segment);
    Hears(A3(k), Synchronized(k.q), A3(k).sender, A3(k).out, Settles(k).segment, BothAcked(k.rto, k.p, k.x, k.y, 1));
    ApplyKeeps(A3(k), Arriving(Settles(k).segment));
    SenderInv(A4(k));
    AcknowledgingLate(k.rto, k.p, k.x, k.y);
    EmptyReceived(Synchronized(k.q), Answers(k).segment);
    Hears(A4(k), Synchronized(k.q), A4(k).sender, A4(k).out, Answers(k).segment, BothAcked(k.rto, k.p, k.x, k.y, 3));
  }

  lemma Overrun(k: Cast)
    ensures var s := A6(k).sender;
            s.next == 6 && s.acked == 3 && s.window == 3 && |s.stream.written| == 5
  {
    hide Wrap, Write, BothAcked, T.Fill, S.Write, A5, Running;
    SettleAndRepeat(k);
    BothSentQueue(k);
    var s := BothAcked(k.rto, k.p, k.x, k.y, 3);
    WriteRuns(A5(k), s, [k.x, k.y, k.x]);
    SendingThree(k.rto, k.p, k.x, k.y);
    RunningSender(A6(k), T.Fill(s.(stream := S.Write(s.stream, [k.x, k.y, k.x]))));
  }

  lemma RunningSender(c: Connection, s: T.Sender)
    requires Running(c, Drained(s))
    ensures c.sender == Drained(s)
  {
  }

  function TheRun(k: Cast): seq<System> {
    [System(A0(k), B0(k)), System(A1(k), B0(k)), System(A1(k), B1(k)), System(A2(k), B1(k)), System(A3(k), B1(k)),
     System(A3(k), B2(k)), System(A4(k), B2(k)), System(A5(k), B2(k)), System(A6(k), B2(k))]
  }

  lemma Alone(x: Connection, e: Event)
    requires !e.Arriving? && |Apply(x, e).sender.stream.written| <= STREAM_LIMIT
    ensures ActsAlone(x, Apply(x, e))
  {
    hide Apply;
  }

  lemma Gets(x: Connection, y: Connection, n: Packet)
    requires n in y.out && Recent(x, n)
    ensures GetsSegment(x, y, Apply(x, Arriving(n.segment)))
  {
    hide Apply, Recent;
  }

  lemma StepsOfA(k: Cast)
    ensures ActsAlone(A0(k), A1(k)) && GetsSegment(A1(k), B1(k), A2(k)) && ActsAlone(A2(k), A3(k))
  {
    hide Apply, Stamp, Opened, Established, BothSent, Inv, Wrap;
    OpenAndAnswer(k);
    OpenedStream(3, k.rto, k.p);
    Alone(A0(k), Connecting);
    PacketFacts(k);
    OpenedAcked(3, k.rto, k.p);
    Gets(A1(k), B1(k), Answers(k));
    WriteBoth(k);
    BothSentStream(k);
    Alone(A2(k), Writing([k.x, k.y]));
  }

  lemma BothSentStream(k: Cast)
    ensures |BothSent(k.rto, k.p, k.x, k.y).stream.written| == 2
  {
    hide Wrap;
  }

  lemma OpenedAcked(capacity: nat, rto: nat, isn: U32)
    ensures Opened(capacity, rto, isn).acked == 0
  {
  }

  lemma StepsOfB(k: Cast)
    ensures GetsSegment(B0(k), A1(k), B1(k)) && GetsSegment(B1(k), A3(k), B2(k))
  {
    hide Apply, Stamp, Opened, Established, BothSent, Inv, Wrap;
    OpenAndAnswer(k);
    PacketFacts(k);
    Gets(B0(k), A1(k), Opens(k));
    WriteBoth(k);
    OpenedAcked(3, k.rto, k.q);
    Gets(B1(k), A3(k), Carries(k));
  }

  lemma LateSteps(k: Cast)
    ensures GetsSegment(A3(k), B2(k), A4(k)) && GetsSegment(A4(k), B2(k), A5(k)) && ActsAlone(A5(k), A6(k))
  {
    hide Apply, Stamp, Established, BothSent, BothAcked, Inv, Wrap;
    WriteBoth(k);
    TakeBoth(k);
    PacketFacts(k);
    BothSentQueue(k);
    Gets(A3(k), B2(k), Settles(k));
    SettleAndRepeat(k);
    Gets(A4(k), B2(k), Answers(k));
    Overrun(k);
    Alone(A5(k), Writing([k.x, k.y, k.x]));
  }

  /**
   `a` writes two bytes, which `b` acknowledges, leaving a window of 1. Then the first answer of `b`, which
   offered 3, is delivered again: `a` believes in numbers up to 6 while `b` takes them up to 4, and sends them.
   */
  lemma LateAckOverruns(k: Cast)
    ensures var run := TheRun(k);
            && IsRun(run)
            && SenderEdge(run[7].a) == 6 && RightEdge(run[7].b.receiver) == 4 && !WithinPeerWindow(run[7].a, run[7].b)
            && run[8].a.sender.next == 6 && RightEdge(run[8].b.receiver) == 4
  {
    hide A1, A2, A3, A4, A5, A6, B1, B2, ActsAlone, GetsSegment, BothAcked, Established;
    StepsOfA(k);
    StepsOfB(k);
    LateSteps(k);
    TakeBoth(k);
    SettleAndRepeat(k);
    BothSentQueue(k);
    Overrun(k);
    assert Init(TheRun(k)[0]);
  }
}
