/** How an endpoint ends: cleanly, after lingering if it finished first, or by a reset. */
module Closing {
  import opened Segments
  import opened ConnectionSpec
  import opened ConnectionProofs
  import opened Lifecycle
  import S = StreamSpec
  import A = AssemblySpec
  import R = ReceiverSpec
  import T = SenderSpec
  import P = SenderProofs
  import Replies

  /** The time of ticks since the last segment arrived. */
  function QuietTime(events: seq<Event>): nat {
    if events == [] then 0
    else
      var n := |events| - 1;
      match events[n]
      case Arriving(_) => 0
      case Ticking(ms) => QuietTime(events[..n]) + ms
      case _ => QuietTime(events[..n])
  }

  // The clock of an active endpoint after one event.
  function ClockAfter(clock: nat, e: Event): nat {
    match e
    case Arriving(_) => 0
    case Ticking(ms) => clock + ms
    case _ => clock
  }

  lemma ArrivalResetsClock(c: Connection, seg: Segment)
    ensures SegmentReceived(c, seg).sinceLastSegment == 0 && SegmentReceived(c, seg).rtTimeout == c.rtTimeout
  {
    hide T.Fill, T.SendEmpty, T.AckReceived, R.SegmentReceived, StampAll;
    var c3 := ObeyAck(ObeyRst(Receive(c, seg), seg), seg);
    assert c3.sinceLastSegment == 0 && c3.rtTimeout == c.rtTimeout;
    var c5 := AnswerSyn(Reply(c3, seg), seg);
    assert c5.sinceLastSegment == 0 && c5.rtTimeout == c.rtTimeout;
  }

  lemma ClockStep(c: Connection, e: Event)
    requires c.active
    ensures Apply(c, e).sinceLastSegment == ClockAfter(c.sinceLastSegment, e)
    ensures Apply(c, e).rtTimeout == c.rtTimeout
  {
    hide T.Tick, T.Fill, T.SendEmpty, SegmentReceived, StampAll, InboundDone, OutboundDone;
    if e.Arriving? {
      ArrivalResetsClock(c, e.segment);
    }
  }

  lemma ClosingStep(c: Connection, e: Event)
    requires Inv(c) && c.active && !Apply(c, e).active && !Failed(Apply(c, e)) && Apply(c, e).linger
    ensures Apply(c, e).sinceLastSegment >= 10 * c.rtTimeout
  {
    hide T.Tick, T.Fill, T.SendEmpty, SegmentReceived, StampAll, InboundDone, OutboundDone;
    if e.Arriving? {
      ArrivalClosesByReset(c, e.segment);
    }
  }

  lemma ArrivalClosesByReset(c: Connection, seg: Segment)
    requires Inv(c) && c.active && !SegmentReceived(c, seg).active
    ensures Failed(SegmentReceived(c, seg))
  {
    hide Steady, ObeyAck, Reply, AnswerSyn, TrySwitchingCloseMode, R.SegmentReceived;
    var c2 := ObeyRst(Receive(c, seg), seg);
    ReceiveStage(c, seg);
    ObeyRstStage(Receive(c, seg), seg);
    var c3 := ObeyAck(c2, seg);
    ObeyAckStage(c2, seg);
    var c4 := Reply(c3, seg);
    ReplyStage(c3, seg);
    var c5 := AnswerSyn(c4, seg);
    AnswerSynStage(c4, seg);
    SwitchStage(c5);
    StaysActive(c2, seg);
  }

  // After the RST check nothing in `segment_received` touches the active flag.
  lemma StaysActive(c: Connection, seg: Segment)
    ensures TrySwitchingCloseMode(AnswerSyn(Reply(ObeyAck(c, seg), seg), seg)).active == c.active
  {
    hide T.Fill, T.SendEmpty, T.AckReceived, StampAll;
  }

  lemma {:induction false} ClockIsQuietTime(c: Connection, events: seq<Event>)
    requires Inv(c) && c.sinceLastSegment == 0 && After(c, events).active
    ensures After(c, events).sinceLastSegment == QuietTime(events)
    ensures After(c, events).rtTimeout == c.rtTimeout
  {
    hide Inv, Apply;
    if events != [] {
      var before := events[..|events| - 1];
      RunKeeps(c, before);
      ApplyKeeps(After(c, before), events[|events| - 1]);
      ClockIsQuietTime(c, before);
      ClockStep(After(c, before), events[|events| - 1]);
    }
  }

  /** A clean close while lingering comes only after ten retransmission timeouts without a segment. */
  lemma CleanCloseLingers(c: Connection, events: seq<Event>, last: Event)
    requires Inv(c) && c.sinceLastSegment == 0
    requires After(c, events).active && !After(c, events + [last]).active
    requires !Failed(After(c, events + [last])) && After(c, events + [last]).linger
    ensures QuietTime(events + [last]) >= 10 * c.rtTimeout
  {
    hide Inv, Apply;
    assert (events + [last])[..|events|] == events;
    RunKeeps(c, events);
    ClockIsQuietTime(c, events);
    ClockStep(After(c, events), last);
    ClosingStep(After(c, events), last);
  }

  // Who closes last lingers

  lemma StageKeepsLinger(c: Connection, seg: Segment)
    ensures AnswerSyn(Reply(ObeyAck(ObeyRst(Receive(c, seg), seg), seg), seg), seg).linger == c.linger
  {
    hide T.Fill, T.SendEmpty, T.AckReceived, R.SegmentReceived, StampAll;
  }

  /** Lingering is given up exactly by a segment after which the peer's stream has ended and ours is not used up. */
  lemma LingerAfter(c: Connection, e: Event)
    ensures !Apply(c, e).linger <==>
            || !c.linger
            || (e.Arriving? && InboundEnded(Apply(c, e)) && !S.Eof(Apply(c, e).sender.stream))
  {
    hide T.Tick, T.Fill, T.SendEmpty, StampAll, InboundDone, OutboundDone, AnswerSyn;
    if e.Arriving? {
      StageKeepsLinger(c, e.segment);
    }
  }

  /** The peer's stream has ended while ours is not used up. */
  predicate EndedFirst(c: Connection) {
    InboundEnded(c) && !S.Eof(c.sender.stream)
  }

  lemma EndedFirstDecides(c: Connection, c': Connection)
    requires Inv(c) && EndedFirst(c) && Forward(c, c')
    ensures !c'.linger
  {
  }

  ghost predicate EverEndedFirst(c: Connection, events: seq<Event>) {
    exists i: nat :: i <= |events| && EndedFirst(After(c, events[..i]))
  }

  lemma {:induction false} SomeStateEndedFirst(c: Connection, events: seq<Event>)
    requires c.linger && !After(c, events).linger
    ensures EverEndedFirst(c, events)
  {
    hide Apply, EndedFirst;
    if events != [] {
      var n := |events| - 1;
      LingerAfter(After(c, events[..n]), events[n]);
      if After(c, events[..n]).linger {
        assert EndedFirst(After(c, events)) by {
          EndsFirst(After(c, events[..n]), events[n]);
        }
        assert events[..n + 1] == events;
      } else {
        SomeStateEndedFirst(c, events[..n]);
        var i: nat :| i <= n && EndedFirst(After(c, events[..n][..i]));
        assert events[..n][..i] == events[..i];
      }
    }
  }

  lemma EndsFirst(c: Connection, e: Event)
    requires c.linger && !Apply(c, e).linger
    ensures EndedFirst(Apply(c, e))
  {
    hide Apply;
    LingerAfter(c, e);
  }

  /** In every run, lingering has been given up exactly if the peer's stream ended before ours was used up. */
  lemma LingerOverRuns(c: Connection, events: seq<Event>)
    requires Inv(c) && c.linger
    ensures After(c, events).linger <==> !EverEndedFirst(c, events)
  {
    hide Inv, After, Apply, EndedFirst, Forward;
    if EverEndedFirst(c, events) {
      var i: nat :| i <= |events| && EndedFirst(After(c, events[..i]));
      assert events == events[..i] + events[i..];
      AfterSplit(c, events[..i], events[i..]);
      RunKeeps(c, events[..i]);
      RunKeeps(After(c, events[..i]), events[i..]);
      EndedFirstDecides(After(c, events[..i]), After(c, events));
    } else if !After(c, events).linger {
      SomeStateEndedFirst(c, events);
    }
  }

  lemma {:induction false} UsedUpKeepsLinger(c: Connection, events: seq<Event>)
    requires Inv(c) && c.linger && S.Eof(c.sender.stream)
    ensures After(c, events).linger && S.Eof(After(c, events).sender.stream)
  {
    hide Inv, Apply;
    if events != [] {
      var n := |events| - 1;
      var mid := After(c, events[..n]);
      UsedUpKeepsLinger(c, events[..n]);
      RunKeeps(c, events[..n]);
      LingerAfter(mid, events[n]);
      ApplyKeeps(mid, events[n]);
      StaysUsedUp(mid, Apply(mid, events[n]));
    }
  }

  lemma StaysUsedUp(c: Connection, c': Connection)
    requires Inv(c') && Forward(c, c') && S.Eof(c.sender.stream)
    ensures S.Eof(c'.sender.stream)
  {
    hide P.Tiles, P.Queued, P.TimerInv, A.Inv;
  }

  lemma OpenInboundLingers(c: Connection)
    requires Inv(c) && !InboundEnded(c)
    ensures c.linger
  {
  }

  /**
   An endpoint whose own stream was used up before its peer's ended closes without an error only after ten
   retransmission timeouts without a segment.
   */
  lemma FirstToFinishLingers(c: Connection, before: seq<Event>, later: seq<Event>, last: Event)
    requires Inv(c) && c.sinceLastSegment == 0
    requires S.Eof(After(c, before).sender.stream) && !InboundEnded(After(c, before))
    requires After(c, before + later).active && !After(c, before + later + [last]).active
    requires !Failed(After(c, before + later + [last]))
    ensures QuietTime(before + later + [last]) >= 10 * c.rtTimeout
  {
    hide Inv, Apply, After, QuietTime, Forward;
    var mid := After(c, before);
    RunKeeps(c, before);
    OpenInboundLingers(mid);
    UsedUpKeepsLinger(mid, later + [last]);
    AfterSplit(c, before, later + [last]);
    assert before + later + [last] == before + (later + [last]);
    CleanCloseLingers(c, before + later, last);
  }

  /** One whose peer's stream ended first closes with the first tick after both directions are done. */
  lemma LastToFinishCloses(c: Connection, before: seq<Event>, later: seq<Event>, ms: nat)
    requires Inv(c) && EndedFirst(After(c, before))
    requires var end := After(c, before + later);
             end.active && InboundDone(end) && OutboundDone(end)
    ensures !After(c, before + later + [Ticking(ms)]).active
  {
    hide Inv, After, EndedFirst, Forward, InboundDone, OutboundDone, Tick;
    RunKeeps(c, before);
    RunKeeps(After(c, before), later);
    AfterSplit(c, before, later);
    var end := After(c, before + later);
    EndedFirstDecides(After(c, before), end);
    Replies.DoneMeans(end);
    Replies.TickEndsExactlyWhen(end, ms);
    AfterOne(c, before + later, Ticking(ms));
  }

  lemma AfterOne(c: Connection, events: seq<Event>, e: Event)
    ensures After(c, events + [e]) == Apply(After(c, events), e)
  {
    hide Apply;
    assert (events + [e])[..|events|] == events;
  }

  // When an endpoint ends

  /** Both directions are done, and the endpoint has lingered long enough or need not. */
  predicate MayClose(c: Connection, quiet: nat) {
    && c.receiver.assembly.output.ended && c.receiver.assembly.held == map[]
    && S.Eof(c.sender.stream) && c.sender.next == |c.sender.stream.written| + 2 && c.sender.acked == c.sender.next
    && (!c.linger || quiet >= 10 * c.rtTimeout)
  }

  lemma EndingEndsIff(c: Connection)
    requires Inv(c) && c.active
    ensures !EndInputStream(c).active <==> MayClose(c, c.sinceLastSegment)
  {
    hide P.Tiles, P.Queued, P.TimerInv, A.Inv, T.Fill, StampAll;
    var s := c.sender.(stream := S.EndInput(c.sender.stream));
    P.StreamGrows(c.sender, s.stream);
    P.FillKeeps(s);
    if OutboundDone(c) {
      OutboundStaysDone(c.sender, T.Fill(s));
    }
  }

  /**
   An event ends an active endpoint exactly if it is a reset from the peer, a tick that makes too many
   retransmissions, or a tick or a repeated end of input that finds the endpoint ready to close.
   */
  lemma EndsExactlyWhen(c: Connection, e: Event)
    requires Inv(c) && c.active
    ensures !Apply(c, e).active <==>
            match e
            case Arriving(seg) => seg.header.rst
            case Ticking(ms) => T.Tick(c.sender, ms).retransmissions > 8 || MayClose(c, c.sinceLastSegment + ms)
            case Ending => MayClose(c, c.sinceLastSegment)
            case _ => false
  {
    hide Inv, T.Fill, StampAll, Tick, EndInputStream, SegmentReceived;
    match e
    case Arriving(seg) => ArrivalEndsIff(c, seg);
    case Ticking(ms) => Replies.TickEndsExactlyWhen(c, ms);
    case Ending => EndingEndsIff(c);
    case _ =>
  }

  lemma ArrivalEndsIff(c: Connection, seg: Segment)
    requires c.active
    ensures !SegmentReceived(c, seg).active <==> seg.header.rst
  {
    hide T.Fill, StampAll, R.SegmentReceived, ObeyAck, Reply, AnswerSyn, TrySwitchingCloseMode;
    StaysActive(ObeyRst(Receive(c, seg), seg), seg);
  }
}
