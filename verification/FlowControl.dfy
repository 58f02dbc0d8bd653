/** When a sender stays inside the window its peer really has. */
module FlowControl {
  import opened Common
  import opened WrappingIntegers
  import opened Segments
  import opened ConnectionSpec
  import opened ConnectionProofs
  import opened Endpoint
  import opened TwoEndpoints
  import S = StreamSpec
  import A = AssemblySpec
  import R = ReceiverSpec
  import T = SenderSpec
  import P = SenderProofs

  // The right edge of the window as the sender sees it.
  function SenderEdge(c: Connection): nat {
    c.sender.acked + c.sender.window
  }

  // The window is the same, and nothing is sent that passes its edge by more than one.
  predicate SameWindow(c: Connection, c': Connection) {
    && c'.sender.acked == c.sender.acked && c'.sender.window == c.sender.window
    && c'.sender.next <= Max(c.sender.next, SenderEdge(c) + 1)
  }

  lemma FillSameWindow(c: Connection)
    requires Steady(c)
    ensures SameWindow(c, FillWindow(c))
  {
    hide P.Inv, T.Fill;
    P.FillKeeps(c.sender);
    P.FillWithinWindow(c.sender);
  }

  lemma SendSameWindow(c: Connection, rst: bool)
    ensures SameWindow(c, SendSegments(c, rst)) && SameWindow(c, EnsureQueued(c)) && SameWindow(c, Reset(c))
    ensures SameWindow(c, TryClosing(c))
  {
    hide StampAll, InboundDone, OutboundDone;
  }

  lemma TickSameWindow(c: Connection, ms: nat)
    ensures SameWindow(c, Tick(c, ms))
  {
    hide SendSegments, EnsureQueued, Reset, TryClosing;
    var c1 := c.(sender := T.Tick(c.sender, ms), sinceLastSegment := c.sinceLastSegment + ms);
    SendSameWindow(c1, false);
    SendSameWindow(EnsureQueued(c1), true);
    SendSameWindow(SendSegments(EnsureQueued(c1), true), true);
    SendSameWindow(GiveUpOrSend(c1), true);
  }

  lemma LocalSameWindow(c: Connection, e: Event)
    requires Steady(c) && !e.Arriving?
    ensures SameWindow(c, Apply(c, e))
  {
    hide Steady, SendSegments, FillWindow, TryClosing, Tick;
    match e {
      case Connecting =>
        FillSameWindow(c);
        SendSameWindow(FillWindow(c), false);
      case Writing(data) =>
        if !WriteRefused(c) {
          var c1 := c.(sender := c.sender.(stream := S.Write(c.sender.stream, data)));
          StreamSteady(c, c1.sender.stream);
          FillSameWindow(c1);
          SendSameWindow(FillWindow(c1), false);
        }
      case Ending =>
        var c1 := c.(sender := c.sender.(stream := S.EndInput(c.sender.stream)));
        StreamSteady(c, c1.sender.stream);
        FillSameWindow(c1);
        SendSameWindow(FillWindow(c1), false);
      case Ticking(ms) => TickSameWindow(c, ms);
      case Reading(len) =>
    }
  }

  lemma StreamSteady(c: Connection, stream: S.Stream)
    requires Steady(c) && stream.popped == c.sender.stream.popped && stream.error == c.sender.stream.error
    requires c.sender.stream.written <= stream.written
    requires c.sender.stream.ended ==> stream.ended && stream.written == c.sender.stream.written
    ensures Steady(c.(sender := c.sender.(stream := stream)))
  {
    hide P.Inv, P.TimerInv, A.Inv;
    P.StreamGrows(c.sender, stream);
    StreamTimer(c.sender, stream);
    SenderStage(c, c.sender.(stream := stream));
  }

  // After the acknowledgement is taken in, the rest of `segment_received` leaves the window alone.
  lemma ArrivalWindow(c: Connection, seg: Segment)
    requires Steady(c)
    ensures var c3 := ObeyAck(ObeyRst(Receive(c, seg), seg), seg);
            SameWindow(c3, SegmentReceived(c, seg))
  {
    hide Steady, Receive, ObeyRst, ObeyAck, SendSegments, FillWindow, EnsureQueued;
    var c2 := ObeyRst(Receive(c, seg), seg);
    ReceiveStage(c, seg);
    ObeyRstStage(Receive(c, seg), seg);
    var c3 := ObeyAck(c2, seg);
    ObeyAckStage(c2, seg);
    var c4 := Reply(c3, seg);
    ReplyStage(c3, seg);
    SendSameWindow(c3, false);
    SendSameWindow(EnsureQueued(c3), false);
    FillSameWindow(c4);
    SendSameWindow(FillWindow(c4), false);
  }

  /** An honest acknowledgement moves the acknowledged number to the larger one and always replaces the window. */
  lemma AckTakenIn(x: Connection, y: Connection, k: Packet)
    requires Half(x, y) && Half(y, x) && k in y.out && Recent(x, k) && k.segment.header.ack
    ensures var x' := Apply(x, Arriving(k.segment));
            && x'.sender.acked == Max(x.sender.acked, k.ackno)
            && x'.sender.window == k.segment.header.win
            && k.ackno + k.segment.header.win <= RightEdge(y.receiver)
            && x'.sender.next <= Max(x.sender.next, SenderEdge(x') + 1)
  {
    hide P.Inv, P.TimerInv, A.Inv, Follows, R.Honest, R.SegmentReceived, T.AckReceived, Wrap, Unwrap, Reply, AnswerSyn,
         TrySwitchingCloseMode, Sane;
    var seg := k.segment;
    var c2 := ObeyRst(Receive(x, seg), seg);
    ReceiveStage(x, seg);
    ObeyRstStage(Receive(x, seg), seg);
    ArrivalWindow(x, seg);
    HalfIsAckSound(x, y);
    assert PacketOk(y, k, x.sender.isn);
    SmallCounters(x, y);
    assert k.ackno % TWO_64 == k.ackno && x.sender.acked % TWO_64 == x.sender.acked;
    UnwrapInvertsWrap(k.ackno, x.sender.isn, x.sender.acked);
    P.AckReceivedMoves(c2.sender, seg.header.ackno, seg.header.win);
    P.AckReceivedWithinWindow(c2.sender, seg.header.ackno, seg.header.win);
  }

  lemma SmallCounters(x: Connection, y: Connection)
    requires Half(x, y) && Half(y, x)
    ensures x.sender.acked < TWO_64 && R.AckPoint(y.receiver) < TWO_64
  {
    hide P.Tiles, P.Queued, P.TimerInv, A.Inv, PacketOk;
    NextWithinImage(x.sender);
    R.FirstWithinSent(y.receiver, x.sender.isn, x.sender.stream.written, x.sender.stream.ended, x.sender.next);
  }

  /** The sender believes in no more window than its peer has, and has passed it by at most one. */
  ghost predicate WithinPeerWindow(x: Connection, y: Connection) {
    SenderEdge(x) <= RightEdge(y.receiver) && x.sender.next <= RightEdge(y.receiver) + 1
  }

  /**
   Put behind what `x` has had acknowledged, the window of `k` ends beyond the one `y` has. That takes an
   acknowledgement older than one already taken in: the source replaces the window regardless.
   */
  predicate Overreaches(x: Connection, y: Connection, k: Packet) {
    k.segment.header.ack && Max(x.sender.acked, k.ackno) + k.segment.header.win > RightEdge(y.receiver)
  }

  lemma SteadyOfHalf(x: Connection, y: Connection)
    requires Half(x, y)
    ensures Steady(x)
  {
    hide Steady;
  }

  lemma PlainArrivalSameWindow(x: Connection, seg: Segment)
    requires Steady(x) && !seg.header.ack
    ensures SameWindow(x, SegmentReceived(x, seg))
  {
    hide Steady, R.SegmentReceived, Reply, AnswerSyn, TrySwitchingCloseMode;
    ArrivalWindow(x, seg);
  }

  /** From inside the peer's window, an arriving segment leads out of it exactly if it overreaches. */
  lemma ArrivalWithinIff(x: Connection, y: Connection, k: Packet)
    requires Half(x, y) && Half(y, x) && k in y.out && Recent(x, k) && WithinPeerWindow(x, y)
    ensures WithinPeerWindow(Apply(x, Arriving(k.segment)), y) <==> !Overreaches(x, y, k)
  {
    hide Half, Apply, Recent, Steady;
    if k.segment.header.ack {
      AckTakenIn(x, y, k);
    } else {
      SteadyOfHalf(x, y);
      ArrivalIs(x, k.segment);
      PlainArrivalSameWindow(x, k.segment);
    }
  }

  /**
   In every state of every run: the edge a sender takes from an acknowledgement is within the window its peer
   really has exactly if the acknowledgement does not overreach, and one that is not older than what was
   taken in never does.
   */
  lemma AckEdgeWithinIff(run: seq<System>, i: nat, x: Connection, y: Connection, k: Packet)
    requires IsRun(run) && i < |run|
    requires (x, y) == (run[i].a, run[i].b) || (x, y) == (run[i].b, run[i].a)
    requires k in y.out && Recent(x, k) && k.segment.header.ack
    ensures SenderEdge(Apply(x, Arriving(k.segment))) <= RightEdge(y.receiver) <==>
            Max(x.sender.acked, k.ackno) + k.segment.header.win <= RightEdge(y.receiver)
    ensures x.sender.acked <= k.ackno ==> !Overreaches(x, y, k)
  {
    hide Half, Apply, Recent;
    RunInv(run, i);
    AckTakenIn(x, y, k);
  }

  // Runs in which nothing that arrives overreaches.

  ghost predicate GetsModestSegment(x: Connection, y: Connection, x': Connection) {
    exists k: Packet ::
      k in y.out && Recent(x, k) && !Overreaches(x, y, k) && x' == Apply(x, Arriving(k.segment))
  }

  ghost predicate ActsModestly(x: Connection, y: Connection, x': Connection) {
    ActsAlone(x, x') || GetsModestSegment(x, y, x')
  }

  ghost predicate NextModest(s: System, s': System) {
    || (ActsModestly(s.a, s.b, s'.a) && s'.b == s.b)
    || (ActsModestly(s.b, s.a, s'.b) && s'.a == s.a)
  }

  ghost predicate IsModestRun(run: seq<System>) {
    && run != [] && Init(run[0])
    && forall i | 0 < i < |run| :: NextModest(run[i - 1], run[i])
  }

  ghost predicate BothWithin(s: System) {
    WithinPeerWindow(s.a, s.b) && WithinPeerWindow(s.b, s.a)
  }

  lemma LocalWithin(x: Connection, y: Connection, x': Connection)
    requires Half(x, y) && WithinPeerWindow(x, y) && ActsAlone(x, x')
    ensures WithinPeerWindow(x', y)
  {
    hide Half, Apply, Steady;
    SteadyOfHalf(x, y);
    var e: Event :| !e.Arriving? && x' == Apply(x, e) && |x'.sender.stream.written| <= STREAM_LIMIT;
    LocalSameWindow(x, e);
  }

  // Whatever `x` does, its own window never shrinks, so `y` stays inside it.
  lemma PeerStaysWithin(x: Connection, y: Connection, x': Connection)
    requires Half(x, y) && Acts(x, y, x') && WithinPeerWindow(y, x)
    ensures WithinPeerWindow(y, x')
  {
    hide Half, Acts, Steady;
    ActForward(x, y, x');
  }

  lemma ActWithinIff(x: Connection, y: Connection, x': Connection)
    requires Half(x, y) && Half(y, x) && Acts(x, y, x') && WithinPeerWindow(x, y)
    ensures WithinPeerWindow(x', y) <==> ActsModestly(x, y, x')
  {
    hide Half, Apply, Recent, Overreaches, WithinPeerWindow, ActsAlone;
    if ActsAlone(x, x') {
      LocalWithin(x, y, x');
    } else {
      assert GetsSegment(x, y, x');
      forall k: Packet | k in y.out && Recent(x, k) && x' == Apply(x, Arriving(k.segment))
        ensures WithinPeerWindow(x', y) <==> !Overreaches(x, y, k)
      {
        ArrivalWithinIff(x, y, k);
      }
    }
  }

  lemma ModestActs(x: Connection, y: Connection, x': Connection)
    requires ActsModestly(x, y, x')
    ensures Acts(x, y, x')
  {
    hide Apply, Recent, Overreaches;
  }

  lemma StepWithinIff(s: System, s': System)
    requires SystemInv(s) && BothWithin(s) && Next(s, s')
    ensures BothWithin(s') <==> NextModest(s, s')
  {
    hide Half, Acts, ActsModestly, WithinPeerWindow;
    if Acts(s.a, s.b, s'.a) && s'.b == s.b {
      ActWithinIff(s.a, s.b, s'.a);
      PeerStaysWithin(s.a, s.b, s'.a);
    }
    if Acts(s.b, s.a, s'.b) && s'.a == s.a {
      ActWithinIff(s.b, s.a, s'.b);
      PeerStaysWithin(s.b, s.a, s'.b);
    }
    if ActsModestly(s.a, s.b, s'.a) {
      ModestActs(s.a, s.b, s'.a);
    }
    if ActsModestly(s.b, s.a, s'.b) {
      ModestActs(s.b, s.a, s'.b);
    }
  }

  lemma ArrivalIs(x: Connection, seg: Segment)
    ensures Apply(x, Arriving(seg)) == SegmentReceived(x, seg)
  {
  }

  lemma ActForward(x: Connection, y: Connection, x': Connection)
    requires Half(x, y) && Acts(x, y, x')
    ensures Forward(x, x')
  {
    hide Inv, EndInv, Apply, Recent, Forward;
    if ActsAlone(x, x') {
      var e: Event :| !e.Arriving? && x' == Apply(x, e) && |x'.sender.stream.written| <= STREAM_LIMIT;
      ApplyKeeps(x, e);
    } else {
      var k: Packet :| k in y.out && Recent(x, k) && x' == Apply(x, Arriving(k.segment));
      ApplyKeeps(x, Arriving(k.segment));
    }
  }

  lemma NewWithin(s: System)
    requires Init(s)
    ensures BothWithin(s)
  {
  }

  lemma {:induction false} ModestPrefixIsWithin(run: seq<System>, i: nat)
    requires IsRun(run) && i < |run| && forall j | 0 < j <= i :: NextModest(run[j - 1], run[j])
    ensures BothWithin(run[i])
  {
    hide Init, NextModest, SystemInv, BothWithin;
    if i == 0 {
      NewWithin(run[0]);
    } else {
      ModestPrefixIsWithin(run, i - 1);
      RunInv(run, i - 1);
      StepWithinIff(run[i - 1], run[i]);
    }
  }

  /**
   In a run, both senders work in every state with windows inside those their peers really have, and have
   sent at most one number beyond them (a FIN, or the probe of a closed window), exactly if no segment that
   arrives overreaches.
   */
  lemma RunsRespectWindowIff(run: seq<System>)
    requires IsRun(run)
    ensures (forall i | 0 <= i < |run| :: BothWithin(run[i])) <==> IsModestRun(run)
  {
    hide Init, NextModest, SystemInv, BothWithin, Next;
    if IsModestRun(run) {
      forall i | 0 <= i < |run|
        ensures BothWithin(run[i])
      {
        ModestPrefixIsWithin(run, i);
      }
    }
    if forall i | 0 <= i < |run| :: BothWithin(run[i]) {
      forall i | 0 < i < |run|
        ensures NextModest(run[i - 1], run[i])
      {
        RunInv(run, i - 1);
        assert BothWithin(run[i - 1]) && BothWithin(run[i]) && Next(run[i - 1], run[i]);
        StepWithinIff(run[i - 1], run[i]);
      }
    }
  }

  // Runs in which no acknowledgement arrives after a newer one.

  ghost predicate GetsNewerSegment(x: Connection, y: Connection, x': Connection) {
    exists k: Packet ::
      && k in y.out && Recent(x, k) && (k.segment.header.ack ==> x.sender.acked <= k.ackno)
      && x' == Apply(x, Arriving(k.segment))
  }

  ghost predicate ActsInOrder(x: Connection, y: Connection, x': Connection) {
    ActsAlone(x, x') || GetsNewerSegment(x, y, x')
  }

  ghost predicate NextInOrder(s: System, s': System) {
    || (ActsInOrder(s.a, s.b, s'.a) && s'.b == s.b)
    || (ActsInOrder(s.b, s.a, s'.b) && s'.a == s.a)
  }

  ghost predicate IsOrderedRun(run: seq<System>) {
    && run != [] && Init(run[0])
    && forall i | 0 < i < |run| :: NextInOrder(run[i - 1], run[i])
  }

  lemma OrderedActs(x: Connection, y: Connection, x': Connection)
    requires ActsInOrder(x, y, x')
    ensures Acts(x, y, x')
  {
    hide Apply, Recent;
  }

  lemma OrderedRunIsRun(run: seq<System>)
    requires IsOrderedRun(run)
    ensures IsRun(run)
  {
    hide ActsInOrder, Acts, Init;
    forall i | 0 < i < |run|
      ensures Next(run[i - 1], run[i])
    {
      var s, s' := run[i - 1], run[i];
      assert NextInOrder(s, s');
      if ActsInOrder(s.a, s.b, s'.a) && s'.b == s.b {
        OrderedActs(s.a, s.b, s'.a);
      } else {
        OrderedActs(s.b, s.a, s'.b);
      }
    }
  }

  lemma NewerIsModest(x: Connection, y: Connection, x': Connection)
    requires Half(x, y) && Half(y, x) && ActsInOrder(x, y, x')
    ensures ActsModestly(x, y, x')
  {
    hide Half, Apply, Recent;
    if !ActsAlone(x, x') {
      var k: Packet :| k in y.out && Recent(x, k) && (k.segment.header.ack ==> x.sender.acked <= k.ackno)
                       && x' == Apply(x, Arriving(k.segment));
      if k.segment.header.ack {
        AckTakenIn(x, y, k);
      }
      assert !Overreaches(x, y, k);
    }
  }

  /** In particular every run without a late acknowledgement does. */
  lemma OrderedRunsRespectWindow(run: seq<System>, i: nat)
    requires IsOrderedRun(run) && i < |run|
    ensures BothWithin(run[i])
  {
    hide Init, ActsInOrder, ActsModestly, Half, BothWithin;
    OrderedRunIsRun(run);
    forall j | 0 < j < |run|
      ensures NextModest(run[j - 1], run[j])
    {
      RunInv(run, j - 1);
      var s, s' := run[j - 1], run[j];
      assert NextInOrder(s, s');
      if ActsInOrder(s.a, s.b, s'.a) && s'.b == s.b {
        NewerIsModest(s.a, s.b, s'.a);
      } else {
        NewerIsModest(s.b, s.a, s'.b);
      }
    }
    ModestPrefixIsWithin(run, i);
  }
}
