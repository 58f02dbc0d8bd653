/** What the two endpoints keep of themselves and of each other, and what brings a receiver forward. */
module Soundness {
  import opened Common
  import opened WrappingIntegers
  import opened Segments
  import opened ConnectionSpec
  import opened ConnectionProofs
  import opened Endpoint
  import opened TwoEndpoints
  import opened NoStall
  import Handover
  import S = StreamSpec
  import A = AssemblySpec
  import R = ReceiverSpec
  import T = SenderSpec
  import P = SenderProofs

  // The receiver

  // A receiver that still misses number `n` has not ended.
  lemma MissingMeansOpen(r: R.Receiver, isn: U32, written: seq<Byte>, ended: bool, next: nat, n: nat)
    requires R.Tracks(r, isn, written, ended, next) && r.synReceived && R.AckPoint(r) <= n < next
    ensures !r.assembly.output.ended && A.First(r.assembly) + 1 == R.AckPoint(r)
  {
  }

  lemma ByteAdvances(r: R.Receiver, at: nat, seg: Segment, isn: U32, written: seq<Byte>, ended: bool, next: nat, n: nat)
    requires R.Tracks(r, isn, written, ended, next) && R.Honest(at, seg, isn, written, ended, next)
    requires next <= |written| + 2 < TWO_64 && Distance(at, A.First(r.assembly) + 1) < TWO_31
    requires r.synReceived && R.AckPoint(r) == n < next && 0 < R.WindowSize(r)
    requires PayloadIndex(at, seg) + 1 <= n < PayloadIndex(at, seg) + 1 + |seg.payload|
    ensures R.AckPoint(R.SegmentReceived(r, seg)) > n
  {
    hide A.Push, R.StreamIndex, Slice, Image, Symbols, Wrap;
    MissingMeansOpen(r, isn, written, ended, next, n);
    R.HonestPayload(at, seg, isn, written, ended, next);
    R.WrapOfZero(isn);
    R.FirstWithinSent(r, isn, written, ended, next);
    R.TrueIndex(R.NoteSyn(r, seg.header), at, seg, isn);
    R.AdvertisedWindowIsAccepted(r, seg, n);
    R.ReceiveTracks(r, at, seg, isn, written, ended, next);
    R.AckPointGrows(r, seg);
  }

  lemma FinAdvances(r: R.Receiver, at: nat, seg: Segment, isn: U32, written: seq<Byte>, ended: bool, next: nat, n: nat)
    requires R.Tracks(r, isn, written, ended, next) && R.Honest(at, seg, isn, written, ended, next)
    requires next <= |written| + 2 < TWO_64 && Distance(at, A.First(r.assembly) + 1) < TWO_31
    requires r.synReceived && R.AckPoint(r) == n < next
    requires seg.header.fin && n == PayloadIndex(at, seg) + 1 + |seg.payload|
    ensures R.AckPoint(R.SegmentReceived(r, seg)) > n
  {
    hide A.Accepted, A.Merged, A.Run, R.StreamIndex, Slice, Image, Symbols, Wrap;
    MissingMeansOpen(r, isn, written, ended, next, n);
    R.HonestPayload(at, seg, isn, written, ended, next);
    R.WrapOfZero(isn);
    R.TrueIndex(R.NoteSyn(r, seg.header), at, seg, isn);
    var index := PayloadIndex(at, seg);
    assert (index + |seg.payload|) % TWO_64 == index + |seg.payload|;
    A.AdvanceShape(A.Arrived(r.assembly, seg.payload, index, true));
  }

  /** A segment that holds the first number a receiver may be missing takes the receiver past it. */
  lemma CoveringAdvances(r: R.Receiver, at: nat, seg: Segment, isn: U32, written: seq<Byte>, ended: bool, next: nat, n: nat)
    requires R.Tracks(r, isn, written, ended, next) && R.Honest(at, seg, isn, written, ended, next)
    requires next <= |written| + 2 < TWO_64 && Distance(at, A.First(r.assembly) + 1) < TWO_31
    requires 0 < R.WindowSize(r) && at <= n < at + Length(seg) && n <= AckBound(r)
    ensures var r' := R.SegmentReceived(r, seg);
            r'.synReceived && R.AckPoint(r') > n
  {
    hide R.Tracks, R.SegmentReceived, A.First, R.WindowSize, Slice, Image, Wrap;
    R.AckPointGrows(r, seg);
    R.HonestPayload(at, seg, isn, written, ended, next);
    if r.synReceived && R.AckPoint(r) == n {
      PositiveAck(r);
      if n < PayloadIndex(at, seg) + 1 + |seg.payload| {
        ByteAdvances(r, at, seg, isn, written, ended, next, n);
      } else {
        FinAdvances(r, at, seg, isn, written, ended, next, n);
      }
    } else if !r.synReceived {
      SynAdvances(r, seg);
    }
  }

  lemma PositiveAck(r: R.Receiver)
    ensures R.AckPoint(r) >= 1
  {
  }

  lemma SynAdvances(r: R.Receiver, seg: Segment)
    requires seg.header.syn
    ensures R.SegmentReceived(r, seg).synReceived && R.AckPoint(R.SegmentReceived(r, seg)) > 0
  {
    hide A.Push, R.StreamIndex;
  }

  // The sender

  /** No outstanding segment carries more than the maximum payload. */
  ghost predicate Small(s: T.Sender) {
    forall o | o in s.outstanding :: |o.segment.payload| <= T.MAX_PAYLOAD_SIZE
  }

  lemma StepSmall(s: T.Sender)
    requires Small(s)
    ensures Small(T.FillStep(s))
  {
    hide Wrap, T.Room;
  }

  lemma {:induction false} FillSmall(s: T.Sender)
    requires Small(s)
    ensures Small(T.Fill(s))
    decreases T.Unsent(s)
  {
    hide Small, T.CanFill, T.FillStep;
    if T.CanFill(s) {
      StepSmall(s);
      P.FillShrinks(s);
      FillSmall(T.FillStep(s));
    }
  }

  lemma {:induction false} DropAckedWithin(q: seq<T.Outgoing>, ack: nat)
    ensures forall o | o in T.DropAcked(q, ack) :: o in q
  {
    if q != [] && q[0].seqno + Length(q[0].segment) <= ack {
      DropAckedWithin(q[1..], ack);
    }
  }

  lemma AckSmall(s: T.Sender, ackno: U32, window: U16)
    requires Small(s)
    ensures Small(T.AckReceived(s, ackno, window))
  {
    hide T.Fill, Unwrap;
    if T.AckAccepted(s, ackno) {
      var ack := Unwrap(ackno, s.isn, s.acked % TWO_64);
      DropAckedWithin(s.outstanding, ack);
      FillSmall(T.Acknowledge(s.(window := window), ack));
    }
  }

  // Sending, closing and resetting leave what is outstanding alone.
  lemma QueueSmall(c: Connection, rst: bool)
    requires Small(c.sender)
    ensures Small(SendSegments(c, rst).sender) && Small(EnsureQueued(c).sender) && Small(Reset(c).sender)
    ensures Small(TryClosing(c).sender) && Small(TrySwitchingCloseMode(c).sender) && Small(FillWindow(c).sender)
  {
    hide StampAll, InboundDone, OutboundDone, LingeredEnough, T.Fill;
    FillSmall(c.sender);
  }

  lemma TickingSmall(c: Connection, ms: nat)
    requires Small(c.sender)
    ensures Small(Tick(c, ms).sender)
  {
    hide SendSegments, EnsureQueued, Reset, TryClosing;
    var c1 := c.(sender := T.Tick(c.sender, ms), sinceLastSegment := c.sinceLastSegment + ms);
    QueueSmall(c1, false);
    QueueSmall(EnsureQueued(c1), true);
    QueueSmall(SendSegments(EnsureQueued(c1), true), true);
    QueueSmall(GiveUpOrSend(c1), false);
  }

  lemma ArrivalSmall(c: Connection, seg: Segment)
    requires Small(c.sender)
    ensures Small(SegmentReceived(c, seg).sender)
  {
    hide Small, T.AckReceived, SendSegments, EnsureQueued, Reset, FillWindow, TrySwitchingCloseMode, R.SegmentReceived;
    var c1 := Receive(c, seg);
    QueueSmall(c1, false);
    var c2 := ObeyRst(c1, seg);
    AckSmall(c2.sender, seg.header.ackno, seg.header.win);
    var c3 := ObeyAck(c2, seg);
    QueueSmall(c3, false);
    QueueSmall(EnsureQueued(c3), false);
    var c4 := Reply(c3, seg);
    QueueSmall(c4, false);
    QueueSmall(FillWindow(c4), false);
    QueueSmall(AnswerSyn(c4, seg), false);
  }

  lemma ApplySmall(c: Connection, e: Event)
    requires Small(c.sender)
    ensures Small(Apply(c, e).sender)
  {
    hide SendSegments, TryClosing, FillWindow, SegmentReceived, Tick;
    match e {
      case Connecting =>
        QueueSmall(c, false);
        QueueSmall(FillWindow(c), false);
      case Writing(data) =>
        var c1 := c.(sender := c.sender.(stream := S.Write(c.sender.stream, data)));
        QueueSmall(c1, false);
        QueueSmall(FillWindow(c1), false);
      case Ending =>
        var c1 := c.(sender := c.sender.(stream := S.EndInput(c.sender.stream)));
        QueueSmall(c1, false);
        QueueSmall(FillWindow(c1), false);
      case Arriving(seg) => ArrivalSmall(c, seg);
      case Ticking(ms) => TickingSmall(c, ms);
      case Reading(len) =>
    }
  }

  // Everything an endpoint keeps on its own.
  ghost predicate Fit(c: Connection) {
    && Inv(c) && Served(c.sender) && Small(c.sender)
    && (c.active ==> Handover.Handed(c) && c.sender.segmentsOut == [])
  }

  lemma ApplyFit(c: Connection, e: Event)
    requires Fit(c)
    ensures Fit(Apply(c, e))
  {
    hide Steady, Served, Small, Handover.Handed, Apply, Forward;
    ApplyKeeps(c, e);
    ApplyServes(c, e);
    ApplySmall(c, e);
    if Apply(c, e).active {
      Handover.StaysActive(c, e);
      Handover.ApplyHands(c, e);
    }
  }

  lemma NewFit(sendCapacity: nat, recvCapacity: nat, rto: nat, isn: U32)
    ensures Fit(NewConnection(sendCapacity, recvCapacity, rto, isn))
  {
    hide Inv;
    NewInv(sendCapacity, recvCapacity, rto, isn);
  }

  /** The system invariant, with what each endpoint keeps on its own. */
  ghost predicate Sound(x: Connection, y: Connection) {
    Half(x, y) && Half(y, x) && Fit(x) && Fit(y)
  }

  lemma ActSound(x: Connection, y: Connection, x': Connection)
    requires Sound(x, y) && Acts(x, y, x')
    ensures Sound(x', y)
  {
    hide Half, Apply, Fit, Recent;
    ActKeeps(x, y, x');
    if ActsAlone(x, x') {
      var e: Event :| !e.Arriving? && x' == Apply(x, e) && |x'.sender.stream.written| <= STREAM_LIMIT;
      ApplyFit(x, e);
    } else {
      var k: Packet :| k in y.out && Recent(x, k) && x' == Apply(x, Arriving(k.segment));
      ApplyFit(x, Arriving(k.segment));
    }
  }

  lemma SoundSwap(x: Connection, y: Connection)
    ensures Sound(x, y) <==> Sound(y, x)
  {
    hide Half, Fit;
  }

  lemma {:induction false} RunSound(run: seq<System>, i: nat)
    requires IsRun(run) && i < |run|
    ensures Sound(run[i].a, run[i].b)
  {
    hide Acts, Sound, Init;
    if i == 0 {
      InitSound(run[0]);
    } else {
      RunSound(run, i - 1);
      var s, s' := run[i - 1], run[i];
      if Acts(s.a, s.b, s'.a) && s'.b == s.b {
        ActSound(s.a, s.b, s'.a);
      } else {
        SoundSwap(s.a, s.b);
        ActSound(s.b, s.a, s'.b);
        SoundSwap(s'.a, s'.b);
      }
    }
  }

  lemma InitSound(s: System)
    requires Init(s)
    ensures Sound(s.a, s.b)
  {
    hide Half, Fit;
    InitHolds(s);
    var sc: nat, rc: nat, rto: nat, isn: U32 :| s.a == NewConnection(sc, rc, rto, isn);
    NewFit(sc, rc, rto, isn);
    var sc': nat, rc': nat, rto': nat, isn': U32 :| s.b == NewConnection(sc', rc', rto', isn');
    NewFit(sc', rc', rto', isn');
  }
}
