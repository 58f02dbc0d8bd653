/** From every reachable state in which both endpoints are active, everything written can still arrive. */
module Recovery {
  import opened Common
  import opened WrappingIntegers
  import opened Segments
  import opened ConnectionSpec
  import opened ConnectionProofs
  import opened Endpoint
  import opened TwoEndpoints
  import opened Advertising
  import opened NoStall
  import opened Replies
  import opened Soundness
  import Handover
  import FlowControl
  import A = AssemblySpec
  import R = ReceiverSpec
  import T = SenderSpec
  import P = SenderProofs

  // The copy that is delivered

  predicate Covers(k: Packet, n: nat) {
    k.seqno <= n < k.seqno + Length(k.segment)
  }

  /** A segment of `x` with the number it waits for, which the network may deliver to `y`. */
  ghost predicate FreshCopy(x: Connection, y: Connection, k: Packet) {
    k in x.out && Covers(k, x.sender.acked) && Recent(y, k) && !k.segment.header.rst
  }

  // What `x` keeps in a round, apart from what is acknowledged.
  predicate Keeps(x: Connection, x': Connection) {
    && x'.active == x.active && Sent(x') == Sent(x) && x'.sender.stream.ended == x.sender.stream.ended
    && x.sender.next <= x'.sender.next && Capacity(x') == Capacity(x)
  }

  lemma KeepsTrans(a: Connection, b: Connection, c: Connection)
    requires Keeps(a, b) && Keeps(b, c)
    ensures Keeps(a, c)
  {
  }

  // The next timeout retransmits instead of giving up.
  predicate WillRetry(s: T.Sender) {
    s.window == 0 || s.retransmissions < MAX_RETX_ATTEMPTS
  }

  // Numbers of a sound system lie close together.
  lemma CloseNumbers(x: Connection, y: Connection)
    requires Sound(x, y)
    ensures var first, bound := A.First(y.receiver.assembly) + 1, AckBound(y.receiver);
            && x.sender.acked <= bound <= x.sender.next <= x.sender.acked + TWO_16
            && (y.receiver.synReceived ==> first <= bound <= first + 1)
            && (!y.receiver.synReceived ==> first == 1)
    ensures x.sender.next <= |Sent(x)| + 2 && |Sent(x)| <= STREAM_LIMIT
  {
    hide P.Tiles, P.Queued, P.TimerInv, PacketOk, Handover.Handed, A.Agrees, A.HeldInWindow;
    HalfIsAckSound(x, y);
    NextWithinImage(x.sender);
  }

  lemma FrontIsOut(s: T.Sender)
    requires P.Inv(s) && Small(s) && s.acked < s.next
    ensures s.outstanding != []
    ensures var o := s.outstanding[0];
            && o.seqno <= s.acked < o.seqno + Length(o.segment) && Length(o.segment) <= T.MAX_PAYLOAD_SIZE + 2
            && !o.segment.header.rst && !o.segment.header.ack
  {
    hide P.Tiles, P.Queued, Slice, Image, Wrap;
    assert P.WellNumbered(s.outstanding[0], s.isn);
  }

  // A timeout of a sender that does not give up.
  lemma TickSends(x: Connection, ms: nat)
    requires x.active && x.sender.acked < x.sender.next && x.sender.segmentsOut == [] && x.sender.outstanding != []
    requires WillRetry(x.sender) && x.sender.retransmissions <= MAX_RETX_ATTEMPTS
    requires x.sender.timer.elapsed + ms >= x.sender.timer.timeout
    ensures var x' := Tick(x, ms);
            && x'.out == x.out + [Stamp(x.sender.outstanding[0], x.receiver, false)]
            && x'.receiver == x.receiver && Keeps(x, x')
            && x'.sender.acked == x.sender.acked && x'.sender.next == x.sender.next
  {
    hide Stamp;
    var o := x.sender.outstanding[0];
    assert [o][1..] == [];
    assert StampAll([o], x.receiver, false) == [Stamp(o, x.receiver, false)] + StampAll([], x.receiver, false);
    assert [Stamp(o, x.receiver, false)] + [] == [Stamp(o, x.receiver, false)];
    var c1 := x.(sender := T.Tick(x.sender, ms), sinceLastSegment := x.sinceLastSegment + ms);
    assert c1.sender.segmentsOut == [o];
    var c2 := SendSegments(c1, false);
    assert c2.out + [] == c2.out;
  }

  lemma StampIsCopy(x: Connection, y: Connection)
    requires Sound(x, y) && x.sender.acked < x.sender.next
    ensures x.sender.outstanding != []
    ensures var k := Stamp(x.sender.outstanding[0], x.receiver, false);
            Covers(k, x.sender.acked) && Recent(y, k) && !k.segment.header.rst
  {
    hide P.Inv, Half, Handover.Handed, Wrap, A.First;
    FrontOfFit(x);
    CloseNumbers(x, y);
    SoundSwap(x, y);
    CloseNumbers(y, x);
  }

  lemma FrontOfFit(x: Connection)
    requires Fit(x) && x.sender.acked < x.sender.next
    ensures x.sender.outstanding != []
    ensures var s, o := x.sender, x.sender.outstanding[0];
            && o.seqno <= s.acked < o.seqno + Length(o.segment) && Length(o.segment) <= T.MAX_PAYLOAD_SIZE + 2
            && !o.segment.header.rst && !o.segment.header.ack
  {
    hide P.Inv, Handover.Handed;
    FrontIsOut(x.sender);
  }

  // The peer

  lemma ConnectKeepsReceiver(y: Connection)
    ensures Connect(y).receiver == y.receiver && Connect(y).active == y.active
    ensures Connect(y).sender.acked == T.Fill(y.sender).acked && Connect(y).sender.next == T.Fill(y.sender).next
    ensures Connect(y).sender.stream == T.Fill(y.sender).stream
  {
    hide T.Fill, StampAll;
  }

  lemma FillOpens(s: T.Sender)
    requires P.Inv(s)
    ensures T.Fill(s).next > 0 && T.Fill(s).acked == s.acked && s.next <= T.Fill(s).next
    ensures T.Fill(s).stream.(popped := s.stream.popped) == s.stream
  {
    hide T.Fill, T.CanFill, T.FillStep, P.Inv;
    P.FillKeeps(s);
    if s.next == 0 {
      FillStarts(s);
    }
  }

  lemma FillStarts(s: T.Sender)
    requires P.Inv(s) && s.next == 0
    ensures T.Fill(s).next > 0
  {
    hide P.Tiles, P.Queued, T.Fill, T.NextSegment;
    P.SyncFirst(s);
    assert T.CanFill(s);
    P.FillStepKeeps(s);
    P.FillKeeps(T.FillStep(s));
    P.StepShape(s);
    FillUnfolds(s);
  }

  lemma FillUnfolds(s: T.Sender)
    requires T.CanFill(s)
    ensures T.Fill(s) == T.Fill(T.FillStep(s))
  {
    hide T.CanFill, T.FillStep;
  }

  /** `y` connects if it has not, and its application reads all there is: then it can take the next byte. */
  lemma Prepare(x: Connection, y: Connection, k: Packet) returns (y1: Connection, y2: Connection)
    requires Sound(x, y) && y.active && 0 < Capacity(y) && Recent(y, k)
    ensures ActsAlone(y, y1) && ActsAlone(y1, y2)
    ensures Sound(x, y2) && SynSent(y2) && 0 < R.WindowSize(y2.receiver) && Recent(y2, k) && Keeps(y, y2)
  {
    hide Half, Fit, Sound, Connect, T.Fill;
    y1 := Apply(y, Connecting);
    ConnectKeepsReceiver(y);
    InvOfSound(x, y);
    FillOpens(y.sender);
    LimitOfSound(x, y);
    assert ActsAlone(y, y1);
    SoundSwap(x, y);
    ActSound(y, x, y1);
    y2 := Apply(y1, Reading(Capacity(y)));
    assert ActsAlone(y1, y2);
    ActSound(y1, x, y2);
    SoundSwap(x, y2);
    ReadingFrees(y1.receiver);
  }

  lemma ReadingFrees(r: R.Receiver)
    ensures var r' := R.ReadInbound(r, r.assembly.output.capacity);
            && R.WindowSize(r') == r.assembly.output.capacity == r'.assembly.output.capacity
            && A.First(r'.assembly) == A.First(r.assembly)
  {
  }

  lemma InvOfSound(x: Connection, y: Connection)
    requires Sound(x, y)
    ensures P.Inv(x.sender) && P.Inv(y.sender) && Inv(x) && Inv(y)
    ensures (x.active ==> x.sender.segmentsOut == []) && (y.active ==> y.sender.segmentsOut == [])
    ensures Served(x.sender)
  {
    hide P.Inv, Handover.Handed, Half;
  }

  lemma LimitOfSound(x: Connection, y: Connection)
    requires Sound(x, y)
    ensures |Sent(x)| <= STREAM_LIMIT && |Sent(y)| <= STREAM_LIMIT
  {
    hide Inv, EndInv, Fit;
  }

  // What an arriving segment makes an endpoint with an empty queue send is numbered from its next number on.

  lemma {:induction false} FillQueuesFrom(s: T.Sender, n: nat)
    requires n <= s.next && forall o | o in s.segmentsOut :: n <= o.seqno
    ensures forall o | o in T.Fill(s).segmentsOut :: n <= o.seqno
    decreases T.Unsent(s)
  {
    hide T.CanFill, T.NextSegment;
    if T.CanFill(s) {
      P.FillShrinks(s);
      FillQueuesFrom(T.FillStep(s), n);
    }
  }

  lemma AckQueuesFrom(s: T.Sender, ackno: U32, window: U16)
    requires s.segmentsOut == []
    ensures forall o | o in T.AckReceived(s, ackno, window).segmentsOut :: s.next <= o.seqno
  {
    hide T.Fill, Unwrap;
    if T.AckAccepted(s, ackno) {
      FillQueuesFrom(T.Acknowledge(s.(window := window), Unwrap(ackno, s.isn, s.acked % TWO_64)), s.next);
    }
  }

  lemma {:induction false} StampKeepsNumber(q: seq<T.Outgoing>, r: R.Receiver, rst: bool, k: Packet)
    requires k in StampAll(q, r, rst)
    ensures exists o | o in q :: o.seqno == k.seqno && (k.segment.header.rst ==> rst || o.segment.header.rst)
  {
    hide Stamp;
    if k == Stamp(q[0], r, rst) {
      StampNumber(q[0], r, rst);
      assert q[0] in q;
    } else {
      StampKeepsNumber(q[1..], r, rst, k);
    }
  }

  lemma StampNumber(o: T.Outgoing, r: R.Receiver, rst: bool)
    ensures Stamp(o, r, rst).seqno == o.seqno
    ensures Stamp(o, r, rst).segment.header.rst ==> rst || o.segment.header.rst
  {
  }

  lemma ReplyNumbers(c: Connection, seg: Segment, n: nat)
    requires n <= c.sender.next && forall o | o in c.sender.segmentsOut :: n <= o.seqno && !o.segment.header.rst
    ensures c.out <= Reply(c, seg).out
    ensures forall i | |c.out| <= i < |Reply(c, seg).out| ::
              n <= Reply(c, seg).out[i].seqno && !Reply(c, seg).out[i].segment.header.rst
  {
    hide StampAll;
    if SynSent(c) && c.active {
      var c1 := if Length(seg) > 0 then EnsureQueued(c) else c;
      var more := StampAll(c1.sender.segmentsOut, c1.receiver, false);
      forall i | |c.out| <= i < |Reply(c, seg).out|
        ensures n <= Reply(c, seg).out[i].seqno && !Reply(c, seg).out[i].segment.header.rst
      {
        assert Reply(c, seg).out[i] == more[i - |c.out|];
        StampKeepsNumber(c1.sender.segmentsOut, c1.receiver, false, more[i - |c.out|]);
      }
    }
  }

  lemma ArrivalNumbers(c: Connection, seg: Segment)
    requires P.Inv(c.sender) && c.sender.segmentsOut == [] && SynSent(c) && !seg.header.rst
    ensures var c' := SegmentReceived(c, seg);
            forall i | |c.out| <= i < |c'.out| :: c.sender.next <= c'.out[i].seqno && !c'.out[i].segment.header.rst
  {
    hide Reply, T.AckReceived, R.SegmentReceived, P.Inv;
    var c3 := ObeyAck(Receive(c, seg), seg);
    AckQueuesFrom(c.sender, seg.header.ackno, seg.header.win);
    P.AckReceivedMoves(c.sender, seg.header.ackno, seg.header.win);
    P.AckReceivedKeeps(c.sender, seg.header.ackno, seg.header.win);
    QueueHasNoResets(T.AckReceived(c.sender, seg.header.ackno, seg.header.win));
    ReplyNumbers(c3, seg, c.sender.next);
    ReplySynSent(c3, seg);
  }

  lemma ReplySynSent(c: Connection, seg: Segment)
    ensures Reply(c, seg).sender.next == c.sender.next
  {
    hide StampAll;
  }

  lemma QueueHasNoResets(s: T.Sender)
    requires P.Inv(s)
    ensures forall o | o in s.segmentsOut :: !o.segment.header.rst
  {
    hide P.Tiles, Slice, Wrap;
  }

  // What an arriving segment without RST leaves alone.

  lemma AckKeepsStream(c: Connection, seg: Segment)
    requires Steady(c)
    ensures ObeyAck(c, seg).sender.stream.ended == c.sender.stream.ended && Sent(ObeyAck(c, seg)) == Sent(c)
    ensures ObeyAck(c, seg).active == c.active
  {
    hide T.AckReceived, P.Inv, P.Progress;
    if seg.header.ack {
      P.AckReceivedMoves(c.sender, seg.header.ackno, seg.header.win);
    }
  }

  lemma QueueKeepsStream(c: Connection, seg: Segment)
    ensures Reply(c, seg).sender.stream == c.sender.stream && Reply(c, seg).active == c.active
    ensures TrySwitchingCloseMode(c).sender == c.sender && TrySwitchingCloseMode(c).active == c.active
  {
    hide StampAll;
  }

  lemma AnswerKeepsStream(c: Connection, seg: Segment)
    requires Steady(c)
    ensures AnswerSyn(c, seg).sender.stream.ended == c.sender.stream.ended && Sent(AnswerSyn(c, seg)) == Sent(c)
    ensures AnswerSyn(c, seg).active == c.active
  {
    hide T.Fill, P.Inv, StampAll;
    P.FillKeeps(c.sender);
  }

  lemma ArrivalKeepsAll(c: Connection, seg: Segment)
    requires Inv(c) && !seg.header.rst
    ensures Keeps(c, SegmentReceived(c, seg))
  {
    hide ObeyAck, Reply, AnswerSyn, TrySwitchingCloseMode, Steady, R.SegmentReceived, Capacity;
    var c1 := Receive(c, seg);
    ReceiveStage(c, seg);
    var c3 := ObeyAck(c1, seg);
    ObeyAckStage(c1, seg);
    AckKeepsStream(c1, seg);
    var c4 := Reply(c3, seg);
    ReplyStage(c3, seg);
    QueueKeepsStream(c3, seg);
    var c5 := AnswerSyn(c4, seg);
    AnswerKeepsStream(c4, seg);
    QueueKeepsStream(c5, seg);
    ArrivalKeepsCapacity(c, seg);
    SegmentReceivedStage(c, seg);
  }

  // One round

  lemma PacketOfSound(x: Connection, y: Connection, k: Packet)
    requires Sound(x, y) && k in x.out
    ensures R.Honest(k.seqno, k.segment, x.sender.isn, Sent(x), x.sender.stream.ended, x.sender.next)
    ensures R.Tracks(y.receiver, x.sender.isn, Sent(x), x.sender.stream.ended, x.sender.next)
  {
    hide R.Honest, R.Tracks, Inv, Steady, Fit;
    assert PacketOk(x, k, y.sender.isn);
  }

  /** A copy of the segment that `x` waits for makes `y` acknowledge beyond it. */
  lemma Answered(x: Connection, y: Connection, k: Packet) returns (n: Packet)
    requires Sound(x, y) && y.active && SynSent(y) && 0 < R.WindowSize(y.receiver) && FreshCopy(x, y, k)
    ensures var y' := Apply(y, Arriving(k.segment));
            && GetsSegment(y, x, y') && Sound(x, y') && Keeps(y, y')
            && n in y'.out && n.segment.header.ack && !n.segment.header.rst
            && n.ackno > x.sender.acked && Recent(x, n)
  {
    hide Sound, SegmentReceived, R.SegmentReceived, R.Tracks, R.Honest, A.First, Keeps, Inv, P.Inv, R.WindowSize;
    var y' := Apply(y, Arriving(k.segment));
    assert GetsSegment(y, x, y');
    SoundSwap(x, y);
    ActSound(y, x, y');
    SoundSwap(x, y');
    InvOfSound(x, y);
    PacketOfSound(x, y, k);
    CloseNumbers(x, y);
    CoveringAdvances(y.receiver, k.seqno, k.segment, x.sender.isn, Sent(x), x.sender.stream.ended, x.sender.next,
                     x.sender.acked);
    ArrivalReceiver(y, k.segment);
    OccupyingSegmentIsAnswered(y, k.segment);
    SegmentsCarryCurrentAck(y, Arriving(k.segment), |y.out|);
    ArrivalNumbers(y, k.segment);
    ArrivalKeepsAll(y, k.segment);
    n := y'.out[|y.out|];
    AnswerIsRecent(x, y, y', n);
  }

  lemma AnswerIsRecent(x: Connection, y: Connection, y': Connection, n: Packet)
    requires Sound(x, y) && Sound(x, y') && n in y'.out && y.sender.next <= n.seqno
    requires y'.receiver.synReceived && n.ackno == R.AckPoint(y'.receiver)
    ensures Recent(x, n)
  {
    hide Sound, A.First, R.Honest, R.Tracks;
    CloseNumbers(x, y');
    SoundSwap(x, y);
    SoundSwap(x, y');
    CloseNumbers(y, x);
    CloseNumbers(y', x);
    PacketOfSound(y', x, n);
    NumberWithin(n, y');
  }

  lemma NumberWithin(n: Packet, y: Connection)
    requires R.Honest(n.seqno, n.segment, y.sender.isn, Sent(y), y.sender.stream.ended, y.sender.next)
    ensures n.seqno <= y.sender.next
  {
  }

  lemma AckResetsCount(s: T.Sender, ackno: U32, window: U16)
    requires P.Inv(s)
    ensures T.AckReceived(s, ackno, window).acked != s.acked ==> T.AckReceived(s, ackno, window).retransmissions == 0
  {
    hide P.Inv, Unwrap, T.Fill, T.Acknowledge;
    if T.AckAccepted(s, ackno) {
      var ack := Unwrap(ackno, s.isn, s.acked % TWO_64);
      P.WindowFree(s, window);
      P.AcknowledgeKeeps(s.(window := window), ack);
      P.AcknowledgeFrame(s.(window := window), ack);
      P.FillKeeps(T.Acknowledge(s.(window := window), ack));
    }
  }

  lemma ArrivalResetsCount(c: Connection, seg: Segment)
    requires Inv(c) && !seg.header.rst && SegmentReceived(c, seg).sender.acked != c.sender.acked
    ensures SegmentReceived(c, seg).sender.retransmissions == 0
  {
    hide Steady, T.AckReceived, Reply, AnswerSyn, TrySwitchingCloseMode, R.SegmentReceived, Forward;
    var c1 := Receive(c, seg);
    ReceiveStage(c, seg);
    var c3 := ObeyAck(c1, seg);
    ObeyAckStage(c1, seg);
    FlowControl.ArrivalWindow(c, seg);
    SteadySender(c1);
    AckResetsCount(c1.sender, seg.header.ackno, seg.header.win);
    var c4 := Reply(c3, seg);
    ReplyStage(c3, seg);
    AnswerSynStage(c4, seg);
    SwitchStage(AnswerSyn(c4, seg));
  }

  /** The acknowledgement arrives: `x` moves on, and its count of retransmissions starts anew. */
  lemma Acknowledged(x: Connection, y: Connection, n: Packet)
    requires Sound(x, y) && n in y.out && n.segment.header.ack && !n.segment.header.rst
    requires n.ackno > x.sender.acked && Recent(x, n)
    ensures var x' := Apply(x, Arriving(n.segment));
            && GetsSegment(x, y, x') && Sound(x', y) && Keeps(x, x')
            && x'.sender.acked > x.sender.acked && x'.sender.retransmissions == 0
  {
    hide Sound, SegmentReceived, Keeps, Inv, P.Inv, Half, Fit, Recent;
    var x' := Apply(x, Arriving(n.segment));
    assert GetsSegment(x, y, x');
    ActSound(x, y, x');
    InvOfSound(x, y);
    HalvesOfSound(x, y);
    FlowControl.AckTakenIn(x, y, n);
    ArrivalKeepsAll(x, n.segment);
    ArrivalResetsCount(x, n.segment);
  }

  lemma HalvesOfSound(x: Connection, y: Connection)
    requires Sound(x, y)
    ensures Half(x, y) && Half(y, x)
  {
    hide Half, Fit;
  }

  // Paths of the system, with `x` as the first endpoint

  ghost predicate IsPath(path: seq<System>) {
    path != [] && forall i | 0 < i < |path| :: Next(path[i - 1], path[i])
  }

  function Last(path: seq<System>): System
    requires path != []
  {
    path[|path| - 1]
  }

  lemma Joined(p: seq<System>, q: seq<System>)
    requires IsPath(p) && IsPath(q) && Last(p) == q[0]
    ensures IsPath(p + q[1..]) && Last(p + q[1..]) == Last(q) && (p + q[1..])[0] == p[0]
  {
    hide Next;
    var r := p + q[1..];
    forall i | 0 < i < |r|
      ensures Next(r[i - 1], r[i])
    {
      if i >= |p| {
        assert r[i] == q[i - |p| + 1] && r[i - 1] == q[i - |p|];
      }
    }
  }

  lemma Step(s: System, s': System)
    requires Next(s, s')
    ensures IsPath([s, s'])
  {
    hide Next;
  }

  // The end of a path: both endpoints still sound and active, with the same streams.
  ghost predicate EndsAt(path: seq<System>, x: Connection, y: Connection) {
    && IsPath(path) && path[0] == System(x, y)
    && var s := Last(path);
       Sound(s.a, s.b) && Keeps(x, s.a) && Keeps(y, s.b)
  }

  /** With a fresh copy to deliver, four steps move the acknowledged number on. */
  lemma RoundFrom(x: Connection, y: Connection, k: Packet) returns (path: seq<System>)
    requires Sound(x, y) && y.active && 0 < Capacity(y) && FreshCopy(x, y, k)
    ensures EndsAt(path, x, y) && |path| == 5
    ensures Last(path).a.sender.acked > x.sender.acked && Last(path).a.sender.retransmissions == 0
  {
    hide Sound, Apply, Recent, Keeps, Capacity, R.WindowSize, ActsAlone, GetsSegment;
    var y1, y2 := Prepare(x, y, k);
    ActiveKept(y, y2);
    var n := Answered(x, y2, k);
    var y3 := Apply(y2, Arriving(k.segment));
    KeepsTrans(y, y2, y3);
    Acknowledged(x, y3, n);
    var x' := Apply(x, Arriving(n.segment));
    path := [System(x, y), System(x, y1), System(x, y2), System(x, y3), System(x', y3)];
  }

  lemma ActiveKept(y: Connection, y': Connection)
    requires Keeps(y, y')
    ensures y'.active == y.active && Capacity(y') == Capacity(y) && Sent(y') == Sent(y)
    ensures y'.sender.stream.ended == y.sender.stream.ended && y.sender.next <= y'.sender.next
  {
  }

  /** The endpoint can still get its oldest segment to the peer: it will retransmit, or a copy is at hand. */
  ghost predicate CanResend(x: Connection, y: Connection) {
    WillRetry(x.sender) || exists k :: FreshCopy(x, y, k)
  }

  lemma KeepsItself(x: Connection)
    ensures Keeps(x, x)
  {
  }

  // The timeout comes, and leaves a fresh copy.
  lemma Retransmit(x: Connection, y: Connection) returns (x': Connection, k: Packet)
    requires Sound(x, y) && x.active && x.sender.acked < x.sender.next && WillRetry(x.sender)
    ensures ActsAlone(x, x') && Sound(x', y) && Keeps(x, x') && FreshCopy(x', y, k)
    ensures x'.sender.acked == x.sender.acked
  {
    hide Sound, Tick, Inv, P.Inv, Recent, Stamp, Capacity;
    var ms := x.sender.timer.timeout;
    InvOfSound(x, y);
    StampIsCopy(x, y);
    CountOfInv(x);
    TickSends(x, ms);
    x' := Apply(x, Ticking(ms));
    k := Stamp(x.sender.outstanding[0], x.receiver, false);
    LimitOfSound(x, y);
    assert ActsAlone(x, x');
    ActSound(x, y, x');
    assert x'.out[|x.out|] == k;
  }

  lemma CountOfInv(x: Connection)
    requires Inv(x)
    ensures x.active ==> x.sender.retransmissions <= MAX_RETX_ATTEMPTS
  {
    hide Steady;
  }

  /** From a sound state with both endpoints active, the acknowledged number can move on in at most five steps. */
  lemma Round(x: Connection, y: Connection) returns (path: seq<System>)
    requires Sound(x, y) && x.active && y.active && 0 < Capacity(y)
    requires x.sender.acked < x.sender.next && CanResend(x, y)
    ensures EndsAt(path, x, y) && |path| <= 6
    ensures Last(path).a.sender.acked > x.sender.acked && Last(path).a.sender.retransmissions == 0
  {
    hide Sound, Recent, Keeps, Capacity, FreshCopy, Acts, ActsAlone;
    if k :| FreshCopy(x, y, k) {
      path := RoundFrom(x, y, k);
    } else {
      var x1, k := Retransmit(x, y);
      var rest := RoundFrom(x1, y, k);
      AloneIsStep(x, x1, y);
      Step(System(x, y), System(x1, y));
      Joined([System(x, y), System(x1, y)], rest);
      path := [System(x, y), System(x1, y)] + rest[1..];
      KeepsTrans(x, x1, Last(rest).a);
    }
  }

  lemma AloneIsStep(x: Connection, x': Connection, y: Connection)
    requires ActsAlone(x, x')
    ensures Next(System(x, y), System(x', y))
  {
    hide ActsAlone;
  }

  /** The peer has assembled everything written, and knows of the end if there is one. */
  ghost predicate Complete(x: Connection, y: Connection) {
    Received(y) == Sent(x) && (x.sender.stream.ended ==> InboundEnded(y))
  }

  lemma AllAcknowledged(x: Connection, y: Connection)
    requires Sound(x, y) && x.sender.acked == x.sender.next > 0
    ensures Complete(x, y)
  {
    hide Half, P.Tiles, P.Queued, P.TimerInv, A.Inv, Handover.Handed, Small;
    CloseNumbers(x, y);
    HalvesOfSound(x, y);
    HalfIsStreamSafe(x, y);
    NothingOut(x.sender);
    PrefixOfLength(Received(y), Sent(x));
  }

  lemma NothingOut(s: T.Sender)
    requires P.Inv(s) && Served(s) && s.acked == s.next > 0
    ensures s.next == |s.stream.written| + 1 + (if s.stream.ended then 1 else 0)
  {
    hide P.Queued, Slice, Image, P.AllWellNumbered;
    if s.outstanding != [] {
      var o := s.outstanding[0];
      P.TilesBound(s.outstanding[1..], o.seqno + Length(o.segment), s.next, P.ImageOf(s));
      assert false;
    }
  }

  lemma PrefixOfLength(a: seq<Byte>, b: seq<Byte>)
    requires a <= b
    ensures a == b <==> |a| == |b|
  {
    assert a == b[..|a|];
  }

  /** From a sound state with both endpoints active, everything written can be delivered and acknowledged. */
  lemma {:induction false} Deliver(x: Connection, y: Connection) returns (path: seq<System>)
    requires Sound(x, y) && x.active && y.active && 0 < Capacity(y) && 0 < x.sender.next
    requires x.sender.acked == x.sender.next || CanResend(x, y)
    ensures EndsAt(path, x, y)
    ensures Last(path).a.sender.acked == Last(path).a.sender.next && Complete(Last(path).a, Last(path).b)
    decreases |Sent(x)| + 2 - x.sender.acked
  {
    hide Sound, Keeps, Capacity, FreshCopy, Complete, Next;
    CloseNumbers(x, y);
    if x.sender.acked == x.sender.next {
      AllAcknowledged(x, y);
      path := [System(x, y)];
      KeepsItself(x);
      KeepsItself(y);
    } else {
      var first := Round(x, y);
      var x1, y1 := Last(first).a, Last(first).b;
      ActiveKept(x, x1);
      ActiveKept(y, y1);
      CloseNumbers(x1, y1);
      var rest := Deliver(x1, y1);
      Joined(first, rest);
      path := first + rest[1..];
      KeepsTrans(x, x1, Last(rest).a);
      KeepsTrans(y, y1, Last(rest).b);
    }
  }

  lemma Opens(x: Connection, y: Connection) returns (x': Connection)
    requires Sound(x, y)
    ensures ActsAlone(x, x') && Sound(x', y) && Keeps(x, x') && 0 < x'.sender.next
    ensures x.sender.next == 0 ==> WillRetry(x'.sender)
  {
    hide Half, Fit, Sound, Connect, T.Fill, P.Inv, Inv;
    x' := Apply(x, Connecting);
    ConnectKeepsReceiver(x);
    InvOfSound(x, y);
    FillOpens(x.sender);
    LimitOfSound(x, y);
    assert ActsAlone(x, x');
    ActSound(x, y, x');
    ConnectKeepsCount(x);
    FreshCount(x.sender);
  }

  lemma ConnectKeepsCount(x: Connection)
    requires P.Inv(x.sender)
    ensures Connect(x).sender.retransmissions == x.sender.retransmissions
  {
    hide P.Inv, T.Fill, StampAll;
    P.FillKeeps(x.sender);
  }

  lemma FreshCount(s: T.Sender)
    requires P.Inv(s)
    ensures s.next == 0 ==> s.retransmissions == 0
  {
    hide P.Tiles, P.Queued;
  }

  lemma DeliverAll(x: Connection, y: Connection) returns (path: seq<System>)
    requires Sound(x, y) && x.active && y.active && 0 < Capacity(y)
    requires x.sender.acked == x.sender.next || CanResend(x, y)
    ensures EndsAt(path, x, y)
    ensures Last(path).a.sender.acked == Last(path).a.sender.next && Complete(Last(path).a, Last(path).b)
  {
    hide Sound, Keeps, Capacity, FreshCopy, Complete, Next, ActsAlone;
    if x.sender.next > 0 {
      path := Deliver(x, y);
    } else {
      var x1 := Opens(x, y);
      ActiveKept(x, x1);
      AloneIsStep(x, x1, y);
      Step(System(x, y), System(x1, y));
      var rest := Deliver(x1, y);
      Joined([System(x, y), System(x1, y)], rest);
      path := [System(x, y), System(x1, y)] + rest[1..];
      KeepsTrans(x, x1, Last(rest).a);
    }
  }

  // Continuations of runs

  lemma {:induction false} RunThenPath(run: seq<System>, path: seq<System>)
    requires IsRun(run) && IsPath(path) && run[|run| - 1] == path[0]
    ensures IsRun(run + path[1..]) && (run + path[1..])[|run| + |path| - 2] == Last(path)
  {
    hide Next, Init;
    var r := run + path[1..];
    forall i | 0 < i < |r|
      ensures Next(r[i - 1], r[i])
    {
      if i >= |run| {
        assert r[i] == path[i - |run| + 1] && r[i - 1] == path[i - |run|];
      }
    }
  }

  // The system with the endpoints exchanged.
  function Swap(s: System): System {
    System(s.b, s.a)
  }

  function SwapAll(path: seq<System>): (r: seq<System>)
    ensures |r| == |path| && forall i | 0 <= i < |path| :: r[i] == Swap(path[i])
  {
    seq(|path|, i requires 0 <= i < |path| => Swap(path[i]))
  }

  lemma SwapIsPath(path: seq<System>)
    requires IsPath(path)
    ensures IsPath(SwapAll(path))
  {
    hide Acts;
    var r := SwapAll(path);
    forall i | 0 < i < |r|
      ensures Next(r[i - 1], r[i])
    {
      assert Next(path[i - 1], path[i]);
    }
  }

  /**
   No run of two endpoints gets stuck. From every state of every run in which both are active, the peer has a
   receive capacity, and the sender would still retransmit or has a deliverable copy of its oldest segment,
   the run has a continuation, without another write, in which the peer has assembled everything written and
   knows of the end if there is one, and all of it is acknowledged.
   */
  lemma EverythingCanArrive(run: seq<System>) returns (more: seq<System>)
    requires IsRun(run)
    requires var s := run[|run| - 1];
             && s.a.active && s.b.active && 0 < Capacity(s.b)
             && (s.a.sender.acked == s.a.sender.next || CanResend(s.a, s.b))
    ensures IsRun(run + more)
    ensures var s, e := run[|run| - 1], (run + more)[|run| + |more| - 1];
            && Sent(e.a) == Sent(s.a) && e.a.sender.stream.ended == s.a.sender.stream.ended
            && Complete(e.a, e.b) && e.a.sender.acked == e.a.sender.next
  {
    hide Sound, CanResend, Complete, Capacity, IsPath, IsRun, Keeps;
    var n := |run| - 1;
    RunNotEmpty(run);
    RunSound(run, n);
    var s := run[n];
    var path := DeliverAll(s.a, s.b);
    PathNotEmpty(path);
    RunThenPath(run, path);
    more := path[1..];
    ActiveKept(s.a, Last(path).a);
  }

  lemma RunNotEmpty(run: seq<System>)
    requires IsRun(run)
    ensures run != []
  {
  }

  /** The same for the other direction. */
  lemma EverythingCanArriveBack(run: seq<System>) returns (more: seq<System>)
    requires IsRun(run)
    requires var s := run[|run| - 1];
             && s.a.active && s.b.active && 0 < Capacity(s.a)
             && (s.b.sender.acked == s.b.sender.next || CanResend(s.b, s.a))
    ensures IsRun(run + more)
    ensures var s, e := run[|run| - 1], (run + more)[|run| + |more| - 1];
            && Sent(e.b) == Sent(s.b) && e.b.sender.stream.ended == s.b.sender.stream.ended
            && Complete(e.b, e.a) && e.b.sender.acked == e.b.sender.next
  {
    hide Sound, CanResend, Complete, Capacity, IsPath, IsRun, Keeps;
    var n := |run| - 1;
    RunNotEmpty(run);
    RunSound(run, n);
    var s := run[n];
    SoundSwap(s.a, s.b);
    var path := DeliverAll(s.b, s.a);
    PathNotEmpty(path);
    SwapIsPath(path);
    RunThenPath(run, SwapAll(path));
    more := SwapAll(path)[1..];
    ActiveKept(s.b, Last(path).a);
  }

  lemma PathNotEmpty(path: seq<System>)
    requires IsPath(path)
    ensures path != []
  {
  }
}
