/** When the retransmission timeout is the initial one, doubled once per consecutive retransmission. */
module Backoffs {
  import opened Common
  import opened Segments
  import opened ConnectionSpec
  import opened ConnectionProofs
  import S = StreamSpec
  import T = SenderSpec
  import P = SenderProofs

  predicate SameClock(s: T.Sender, s': T.Sender) {
    s'.timer.timeout == s.timer.timeout && s'.rto == s.rto && s'.retransmissions == s.retransmissions
  }

  /** The event brings an acknowledgement that is accepted, completes no segment, and follows a retransmission. */
  predicate Derails(c: Connection, e: Event) {
    && e.Arriving? && e.segment.header.ack
    && P.PartialAck(c.sender, e.segment.header.ackno)
    && c.sender.retransmissions > 0
  }

  /** The event brings an acknowledgement that completes a segment. */
  predicate Restores(c: Connection, e: Event) {
    e.Arriving? && e.segment.header.ack && P.CompletingAck(c.sender, e.segment.header.ackno)
  }

  lemma SendingKeepsClock(c: Connection, rst: bool)
    ensures SameClock(c.sender, SendSegments(c, rst).sender)
    ensures SameClock(c.sender, TryClosing(c).sender)
    ensures SameClock(c.sender, EnsureQueued(c).sender)
    ensures SameClock(c.sender, Reset(c).sender)
    ensures SameClock(c.sender, TrySwitchingCloseMode(c).sender)
  {
    hide StampAll, InboundDone, OutboundDone;
  }

  lemma FillKeepsClock(c: Connection)
    requires SenderOk(c.sender) && 0 < c.sender.rto
    ensures SameClock(c.sender, FillWindow(c).sender)
  {
    hide P.Inv, P.TimerInv, T.Fill;
    P.FillKeepsTimer(c.sender);
  }

  lemma ConnectKeepsClock(c: Connection)
    requires SenderOk(c.sender) && 0 < c.sender.rto
    ensures SameClock(c.sender, Connect(c).sender)
  {
    hide SenderOk, FillWindow, SendSegments;
    FillKeepsClock(c);
    SendingKeepsClock(FillWindow(c), false);
  }

  lemma ReplyKeepsClock(c: Connection, seg: Segment)
    ensures SameClock(c.sender, Reply(c, seg).sender)
  {
    hide EnsureQueued, SendSegments;
    SendingKeepsClock(c, false);
    SendingKeepsClock(EnsureQueued(c), false);
  }

  lemma WriteKeepsClock(c: Connection, data: seq<Byte>)
    requires SenderOk(c.sender) && 0 < c.sender.rto
    ensures SameClock(c.sender, Write(c, data).sender)
  {
    hide P.Inv, P.TimerInv, FillWindow, SendSegments;
    if !WriteRefused(c) {
      var c1 := c.(sender := c.sender.(stream := S.Write(c.sender.stream, data)));
      P.StreamGrows(c.sender, c1.sender.stream);
      StreamTimer(c.sender, c1.sender.stream);
      FillKeepsClock(c1);
      SendingKeepsClock(FillWindow(c1), false);
    }
  }

  lemma EndingKeepsClock(c: Connection)
    requires SenderOk(c.sender) && 0 < c.sender.rto
    ensures SameClock(c.sender, EndInputStream(c).sender)
  {
    hide P.Inv, P.TimerInv, FillWindow, TryClosing;
    var c1 := c.(sender := c.sender.(stream := S.EndInput(c.sender.stream)));
    P.StreamGrows(c.sender, c1.sender.stream);
    StreamTimer(c.sender, c1.sender.stream);
    FillKeepsClock(c1);
    SendingKeepsClock(FillWindow(c1), false);
  }

  lemma TickKeepsExact(c: Connection, ms: nat)
    ensures P.ExactBackoff(Tick(c, ms).sender) <==> P.ExactBackoff(c.sender)
  {
    hide T.Tick, P.Backoff, EnsureQueued, SendSegments, Reset, TryClosing;
    P.TickKeepsBackoffExact(c.sender, ms);
    var c1 := c.(sender := T.Tick(c.sender, ms), sinceLastSegment := c.sinceLastSegment + ms);
    SendingKeepsClock(c1, false);
    SendingKeepsClock(EnsureQueued(c1), true);
    SendingKeepsClock(SendSegments(EnsureQueued(c1), true), true);
    SendingKeepsClock(GiveUpOrSend(c1), false);
  }

  lemma ArrivalExactIff(c: Connection, seg: Segment)
    requires Steady(c) && 0 < c.rtTimeout
    ensures P.ExactBackoff(SegmentReceived(c, seg).sender) <==>
            Restores(c, Arriving(seg)) || (P.ExactBackoff(c.sender) && !Derails(c, Arriving(seg)))
  {
    hide P.Inv, P.TimerInv, P.Backoff, T.AckReceived, Reply, TrySwitchingCloseMode, Reset, Connect, Receive;
    var c1 := Receive(c, seg);
    ReceiveStage(c, seg);
    var c2 := ObeyRst(c1, seg);
    ObeyRstStage(c1, seg);
    ResetKeepsNumbers(c1);
    var c3 := ObeyAck(c2, seg);
    ObeyAckStage(c2, seg);
    if seg.header.ack {
      P.AckBackoffExactIff(c2.sender, seg.header.ackno, seg.header.win);
    }
    var c4 := Reply(c3, seg);
    ReplyKeepsClock(c3, seg);
    ReplyStage(c3, seg);
    if seg.header.syn && !SynSent(c4) {
      ConnectKeepsClock(c4);
    }
    SendingKeepsClock(AnswerSyn(c4, seg), false);
  }

  lemma ResetKeepsNumbers(c: Connection)
    ensures var s := Reset(c).sender;
            s == c.sender.(stream := s.stream)
  {
  }

  /** After an event the backoff is exact exactly if the event restores it, or it was exact and is not derailed. */
  lemma BackoffExactIff(c: Connection, e: Event)
    requires Inv(c) && 0 < c.rtTimeout
    ensures P.ExactBackoff(Apply(c, e).sender) <==>
            Restores(c, e) || (P.ExactBackoff(c.sender) && !Derails(c, e))
  {
    hide P.Inv, P.TimerInv, P.Backoff, T.Tick, Connect, Write, EndInputStream, SegmentReceived, Tick;
    match e
    case Connecting => ConnectKeepsClock(c);
    case Writing(data) => WriteKeepsClock(c, data);
    case Ending => EndingKeepsClock(c);
    case Arriving(seg) => ArrivalExactIff(c, seg);
    case Ticking(ms) => TickKeepsExact(c, ms);
    case Reading(len) =>
  }

  lemma NotBoth(c: Connection, e: Event)
    ensures !(Restores(c, e) && Derails(c, e))
  {
  }

  // The `i`-th event of a run derails or restores the backoff.
  predicate DerailsAt(c: Connection, events: seq<Event>, i: nat) {
    i < |events| && Derails(After(c, events[..i]), events[i])
  }

  predicate RestoresAt(c: Connection, events: seq<Event>, i: nat) {
    i < |events| && Restores(After(c, events[..i]), events[i])
  }

  // Every derailment has been followed by a restoration.
  ghost predicate AllRestored(c: Connection, events: seq<Event>) {
    forall i: nat | DerailsAt(c, events, i) :: exists j: nat :: i < j && RestoresAt(c, events, j)
  }

  lemma AllRestoredStep(c: Connection, events: seq<Event>)
    requires events != []
    ensures var n := |events| - 1;
            AllRestored(c, events) <==>
            RestoresAt(c, events, n) || (AllRestored(c, events[..n]) && !DerailsAt(c, events, n))
  {
    hide Derails, Restores, After;
    var n := |events| - 1;
    var before := events[..n];
    forall i: nat | i < n
      ensures DerailsAt(c, events, i) == DerailsAt(c, before, i) && RestoresAt(c, events, i) == RestoresAt(c, before, i)
    {
      assert before[..i] == events[..i];
    }
    NotBoth(After(c, events[..n]), events[n]);
    if AllRestored(c, events) && !RestoresAt(c, events, n) {
      forall i: nat | DerailsAt(c, before, i)
        ensures exists j: nat :: i < j && RestoresAt(c, before, j)
      {
        assert DerailsAt(c, events, i);
        var j: nat :| i < j && RestoresAt(c, events, j);
        assert RestoresAt(c, before, j);
      }
    }
    if AllRestored(c, before) && !DerailsAt(c, events, n) {
      forall i: nat | DerailsAt(c, events, i)
        ensures exists j: nat :: i < j && RestoresAt(c, events, j)
      {
        assert DerailsAt(c, before, i);
        var j: nat :| i < j && RestoresAt(c, before, j);
        assert RestoresAt(c, events, j);
      }
    }
  }

  lemma {:induction false} BackoffOverRuns(c: Connection, events: seq<Event>)
    requires Inv(c) && 0 < c.rtTimeout && P.ExactBackoff(c.sender)
    ensures P.ExactBackoff(After(c, events).sender) <==> AllRestored(c, events)
  {
    hide Steady, Apply, P.ExactBackoff, Derails, Restores, Forward, AllRestored;
    if events == [] {
      assert AllRestored(c, []) by {
        NoneYet(c);
      }
    } else {
      var n := |events| - 1;
      var before := events[..n];
      BackoffOverRuns(c, before);
      RunKeeps(c, before);
      KeepsTimeout(c, After(c, before));
      BackoffExactIff(After(c, before), events[n]);
      AllRestoredStep(c, events);
    }
  }

  lemma NoneYet(c: Connection)
    ensures AllRestored(c, [])
  {
  }

  /**
   In every run of a new connection with a positive timeout, the timeout is RTO times 2^k, with k the
   retransmissions in a row, exactly if every acknowledgement that was partial after a retransmission has
   been followed by one that completes a segment; and k is at most 8 while the connection is active.
   */
  lemma BackoffExactOverRuns(sendCapacity: nat, recvCapacity: nat, rto: nat, isn: U32, events: seq<Event>)
    requires 0 < rto
    ensures var c := NewConnection(sendCapacity, recvCapacity, rto, isn);
            var s := After(c, events).sender;
            && (s.timer.timeout == P.Backoff(rto, s.retransmissions) <==> AllRestored(c, events))
            && (After(c, events).active ==> s.retransmissions <= MAX_RETX_ATTEMPTS)
  {
    hide Steady, After, P.Backoff, AllRestored, Forward;
    var c := NewConnection(sendCapacity, recvCapacity, rto, isn);
    NewInv(sendCapacity, recvCapacity, rto, isn);
    assert P.Backoff(rto, 0) == rto by {
      NoBackoff(rto);
    }
    BackoffOverRuns(c, events);
    RunKeeps(c, events);
    KeepsTimeout(c, After(c, events));
  }

  lemma NoBackoff(rto: nat)
    ensures P.Backoff(rto, 0) == rto
  {
  }

  lemma KeepsTimeout(c: Connection, c': Connection)
    requires Steady(c) && Steady(c') && Forward(c, c')
    ensures c'.rtTimeout == c.rtTimeout == c'.sender.rto
  {
  }
}
