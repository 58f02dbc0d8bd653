/** The retransmission timer: what starts it, what leaves it running, and when it runs out. */
module Timers {
  import opened Common
  import opened Segments
  import opened WrappingIntegers
  import opened ConnectionSpec
  import opened ConnectionProofs
  import opened Backoffs
  import opened Transmissions
  import S = StreamSpec
  import T = SenderSpec
  import R = ReceiverSpec
  import P = SenderProofs
  import Handover

  // The sender alone

  /** A tick that does not run the timer out, or that finds nothing outstanding, only adds to the elapsed time. */
  lemma TickBeforeTimeout(s: T.Sender, ms: nat)
    requires s.outstanding == [] || s.timer.elapsed + ms < s.timer.timeout
    ensures T.Tick(s, ms) == s.(timer := T.Timer(s.timer.elapsed + ms, s.timer.timeout))
  {
  }

  /** Filling starts the timer exactly if it had run out and something is sent; a running timer is left alone. */
  lemma {:induction false} FillTimer(s: T.Sender)
    ensures T.Fill(s).timer == if T.Expired(s.timer) && T.Fill(s).next > s.next then T.Timer(0, s.rto) else s.timer
    ensures !T.Expired(s.timer) ==> T.Fill(s).timer == s.timer
    ensures s.next <= T.Fill(s).next && T.Fill(s).rto == s.rto
    decreases T.Unsent(s)
  {
    hide T.NextSegment;
    if T.CanFill(s) {
      P.FillShrinks(s);
      FillTimer(T.FillStep(s));
    }
  }

  function Sum(ticks: seq<nat>): nat {
    if ticks == [] then 0 else Sum(ticks[..|ticks| - 1]) + ticks[|ticks| - 1]
  }

  // The sender after the calls `tick(ticks[0])`, `tick(ticks[1])`, and so on.
  function TickAll(s: T.Sender, ticks: seq<nat>): T.Sender {
    if ticks == [] then s else T.Tick(TickAll(s, ticks[..|ticks| - 1]), ticks[|ticks| - 1])
  }

  lemma {:induction false} QuietTicks(s: T.Sender, ticks: seq<nat>)
    requires s.outstanding == [] || s.timer.elapsed + Sum(ticks) < s.timer.timeout
    ensures TickAll(s, ticks) == s.(timer := T.Timer(s.timer.elapsed + Sum(ticks), s.timer.timeout))
  {
    hide T.Tick;
    if ticks != [] {
      var n := |ticks| - 1;
      QuietTicks(s, ticks[..n]);
      TickBeforeTimeout(TickAll(s, ticks[..n]), ticks[n]);
    }
  }

  /**
   However a time is divided into ticks, the oldest outstanding segment goes out again with exactly the tick
   that brings the sum to the timeout, and until then nothing but the elapsed time changes.
   */
  lemma TicksRetransmitExactly(s: T.Sender, ticks: seq<nat>, last: nat)
    requires s.outstanding != [] && s.timer.elapsed + Sum(ticks) < s.timer.timeout
    ensures var total := s.timer.elapsed + Sum(ticks) + last;
            var s' := TickAll(s, ticks + [last]);
            && s'.segmentsOut == s.segmentsOut + (if total >= s.timer.timeout then [s.outstanding[0]] else [])
            && (total < s.timer.timeout ==> s' == s.(timer := T.Timer(total, s.timer.timeout)))
            && (total >= s.timer.timeout ==>
                  s' == s.(segmentsOut := s'.segmentsOut,
                           timer := T.Timer(0, if s.window == 0 then s.timer.timeout else 2 * s.timer.timeout),
                           retransmissions := s.retransmissions + if s.window == 0 then 0 else 1))
  {
    assert (ticks + [last])[..|ticks|] == ticks;
    QuietTicks(s, ticks);
  }

  /**
   An acknowledgement that completes a segment starts the timer with the initial timeout; any other leaves it
   as it is, but for what it lets out while the timer has run out.
   */
  lemma AckTimer(s: T.Sender, ackno: U32, window: U16)
    ensures var s' := T.AckReceived(s, ackno, window);
            && s.next <= s'.next && s'.rto == s.rto
            && (P.CompletingAck(s, ackno) || s'.next > s.next ==> T.AckAccepted(s, ackno) && 0 < s.next)
            && s'.timer == if P.CompletingAck(s, ackno) || (T.Expired(s.timer) && s'.next > s.next)
                           then T.Timer(0, s.rto) else s.timer
  {
    hide T.Fill, Unwrap, T.DropAcked;
    var s1 := s.(window := window);
    if T.AckAccepted(s, ackno) {
      var ack := Unwrap(ackno, s.isn, s.acked % TWO_64);
      P.DropAckedShorter(s.outstanding, ack);
      FillTimer(T.Acknowledge(s1, ack));
    }
  }

  // Endpoints

  // What the sender's timer depends on.
  predicate SameTimer(s: T.Sender, s': T.Sender) {
    s'.timer == s.timer && s'.next == s.next && s'.rto == s.rto
  }

  lemma SendingKeepsTimer(c: Connection, rst: bool)
    ensures SameTimer(c.sender, SendSegments(c, rst).sender)
    ensures SameTimer(c.sender, TryClosing(c).sender)
    ensures SameTimer(c.sender, EnsureQueued(c).sender)
    ensures SameTimer(c.sender, Reset(c).sender)
    ensures SameTimer(c.sender, TrySwitchingCloseMode(c).sender)
  {
    hide StampAll, InboundDone, OutboundDone;
  }

  // The tick runs the timer out while something is outstanding.
  predicate Retransmits(c: Connection, e: Event) {
    && e.Ticking? && c.active
    && c.sender.outstanding != [] && c.sender.timer.elapsed + e.ms >= c.sender.timer.timeout
  }

  // The event sends something for the first time after the timer had run out.
  predicate SendsAtRest(c: Connection, e: Event) {
    T.Expired(c.sender.timer) && Apply(c, e).sender.next > c.sender.next
  }

  /** The events that start the timer. */
  predicate StartsTimer(c: Connection, e: Event) {
    Retransmits(c, e) || Restores(c, e) || SendsAtRest(c, e)
  }

  // The time an event lets pass; a closed connection has stopped counting.
  function Passing(c: Connection, e: Event): nat {
    if e.Ticking? && c.active then e.ms else 0
  }

  lemma TickTimer(c: Connection, ms: nat)
    requires c.active
    ensures Tick(c, ms).sender.timer == T.Tick(c.sender, ms).timer && Tick(c, ms).sender.next == c.sender.next
  {
    hide EnsureQueued, SendSegments, Reset, TryClosing;
    var c1 := c.(sender := T.Tick(c.sender, ms), sinceLastSegment := c.sinceLastSegment + ms);
    SendingKeepsTimer(c1, false);
    SendingKeepsTimer(EnsureQueued(c1), true);
    SendingKeepsTimer(SendSegments(EnsureQueued(c1), true), true);
    SendingKeepsTimer(GiveUpOrSend(c1), false);
  }

  lemma ReplyTimer(c: Connection, seg: Segment)
    ensures SameTimer(c.sender, Reply(c, seg).sender)
  {
    hide EnsureQueued, SendSegments;
    SendingKeepsTimer(c, false);
    SendingKeepsTimer(EnsureQueued(c), false);
  }

  lemma ConnectTimer(c: Connection)
    ensures var s := Connect(c).sender;
            s.timer == if T.Expired(c.sender.timer) && s.next > c.sender.next
                       then T.Timer(0, c.sender.rto) else c.sender.timer
  {
    hide T.Fill, SendSegments;
    FillTimer(c.sender);
    SendingKeepsTimer(FillWindow(c), false);
  }

  lemma WriteTimer(c: Connection, data: seq<Byte>)
    ensures var s := Write(c, data).sender;
            s.timer == if T.Expired(c.sender.timer) && s.next > c.sender.next
                       then T.Timer(0, c.sender.rto) else c.sender.timer
  {
    hide T.Fill, SendSegments;
    if !WriteRefused(c) {
      var c1 := c.(sender := c.sender.(stream := S.Write(c.sender.stream, data)));
      FillTimer(c1.sender);
      SendingKeepsTimer(FillWindow(c1), false);
    }
  }

  lemma EndingTimer(c: Connection)
    ensures var s := EndInputStream(c).sender;
            s.timer == if T.Expired(c.sender.timer) && s.next > c.sender.next
                       then T.Timer(0, c.sender.rto) else c.sender.timer
  {
    hide T.Fill, TryClosing;
    var c1 := c.(sender := c.sender.(stream := S.EndInput(c.sender.stream)));
    FillTimer(c1.sender);
    SendingKeepsTimer(FillWindow(c1), false);
  }

  lemma ArrivalTimer(c: Connection, seg: Segment)
    ensures var s := SegmentReceived(c, seg).sender;
            s.timer == if Restores(c, Arriving(seg)) || (T.Expired(c.sender.timer) && s.next > c.sender.next)
                       then T.Timer(0, c.sender.rto) else c.sender.timer
  {
    hide T.AckReceived, T.DropAcked, Unwrap, Reply, TrySwitchingCloseMode, Reset, Connect, R.SegmentReceived;
    var c2 := ObeyRst(Receive(c, seg), seg);
    SendingKeepsTimer(Receive(c, seg), false);
    ResetKeepsNumbers(Receive(c, seg));
    var c3 := ObeyAck(c2, seg);
    if seg.header.ack {
      AckTimer(c2.sender, seg.header.ackno, seg.header.win);
    }
    var c4 := Reply(c3, seg);
    ReplyTimer(c3, seg);
    if seg.header.syn && !SynSent(c4) {
      ConnectTimer(c4);
    }
    SendingKeepsTimer(AnswerSyn(c4, seg), false);
  }

  /**
   The timer after any event: a retransmission starts it with the timeout doubled unless the window is closed;
   an acknowledgement that completes a segment, or a first transmission after it had run out, starts it with
   the initial timeout; otherwise it only counts what the event lets pass.
   */
  lemma TimerAfter(c: Connection, e: Event)
    ensures var timer := Apply(c, e).sender.timer;
            && (Retransmits(c, e) ==>
                  timer == T.Timer(0, if c.sender.window == 0 then c.sender.timer.timeout
                                      else 2 * c.sender.timer.timeout))
            && (Restores(c, e) || SendsAtRest(c, e) ==> timer == T.Timer(0, c.sender.rto))
            && (!StartsTimer(c, e) ==>
                  timer == T.Timer(c.sender.timer.elapsed + Passing(c, e), c.sender.timer.timeout))
  {
    hide Connect, Write, EndInputStream, SegmentReceived, Tick, P.CompletingAck;
    match e
    case Connecting => ConnectTimer(c);
    case Writing(data) => WriteTimer(c, data);
    case Ending => EndingTimer(c);
    case Arriving(seg) => ArrivalTimer(c, seg);
    case Ticking(ms) =>
      if c.active {
        TickTimer(c, ms);
      } else {
        ClosedTick(c, ms);
      }
    case Reading(len) =>
  }

  lemma ClosedTick(c: Connection, ms: nat)
    requires !c.active
    ensures Tick(c, ms) == c
  {
  }

  lemma ElapsedAfter(c: Connection, e: Event)
    ensures Apply(c, e).sender.timer.elapsed ==
            if StartsTimer(c, e) then 0 else c.sender.timer.elapsed + Passing(c, e)
  {
    hide Apply, Retransmits, Restores, SendsAtRest;
    TimerAfter(c, e);
  }

  /** The time that has passed since the last event of a run that started the timer. */
  function SinceStart(c: Connection, events: seq<Event>): nat {
    if events == [] then 0
    else
      var n := |events| - 1;
      var mid := After(c, events[..n]);
      if StartsTimer(mid, events[n]) then 0 else SinceStart(c, events[..n]) + Passing(mid, events[n])
  }

  lemma {:induction false} TimerCountsSinceStart(c: Connection, events: seq<Event>)
    requires c.sender.timer.elapsed == 0
    ensures After(c, events).sender.timer.elapsed == SinceStart(c, events)
  {
    hide Apply, StartsTimer, Passing;
    if events != [] {
      var n := |events| - 1;
      TimerCountsSinceStart(c, events[..n]);
      ElapsedAfter(After(c, events[..n]), events[n]);
    }
  }

  /**
   In every run of a new connection, a tick sends the oldest outstanding segment again exactly if the time
   since the timer was last started has then reached the timeout; otherwise it sends nothing.
   */
  lemma RetransmissionsAreTimed(
    sendCapacity: nat, recvCapacity: nat, rto: nat, isn: U32, events: seq<Event>, ms: nat)
    requires var c := After(NewConnection(sendCapacity, recvCapacity, rto, isn), events);
             c.active && c.sender.outstanding != []
    ensures var start := NewConnection(sendCapacity, recvCapacity, rto, isn);
            var c := After(start, events);
            var c' := Tick(c, ms);
            var due := SinceStart(start, events) + ms >= c.sender.timer.timeout;
            && c.out <= c'.out
            && CarryAll(c'.out[|c.out|..], if due then [c.sender.outstanding[0]] else [], Failed(c'))
  {
    hide After, Inv, Apply, SinceStart, CarryAll;
    var start := NewConnection(sendCapacity, recvCapacity, rto, isn);
    var c := After(start, events);
    NewInv(sendCapacity, recvCapacity, rto, isn);
    RunKeeps(start, events);
    Handover.NothingStaysBehind(sendCapacity, recvCapacity, rto, isn, events);
    TimerCountsSinceStart(start, events);
    Transmissions.TickSends(c, ms);
  }
}
