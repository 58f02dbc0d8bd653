/** The state summaries of an endpoint and its life over whole runs. */
module Lifecycle {
  import opened Common
  import opened Segments
  import opened ConnectionSpec
  import opened ConnectionProofs
  import S = StreamSpec
  import A = AssemblySpec
  import R = ReceiverSpec
  import T = SenderSpec
  import P = SenderProofs

  datatype SenderSummary = CLOSED | SYN_SENT | SYN_ACKED | FIN_SENT | FIN_ACKED | SENDER_ERROR

  datatype ReceiverSummary = LISTEN | SYN_RECV | FIN_RECV | RECEIVER_ERROR

  function SummarizeSender(s: T.Sender): SenderSummary {
    if s.stream.error then SENDER_ERROR
    else if s.next == 0 then CLOSED
    else if s.next == T.InFlight(s) then SYN_SENT
    else if !S.Eof(s.stream) then SYN_ACKED
    else if s.next < |s.stream.written| + 2 then SYN_ACKED
    else if T.InFlight(s) != 0 then FIN_SENT
    else FIN_ACKED
  }

  function SummarizeReceiver(r: R.Receiver): ReceiverSummary {
    if r.assembly.output.error then RECEIVER_ERROR
    else if R.Ackno(r).None? then LISTEN
    else if r.assembly.output.ended then FIN_RECV
    else SYN_RECV
  }

  function SenderRank(s: SenderSummary): nat {
    match s
    case CLOSED => 0
    case SYN_SENT => 1
    case SYN_ACKED => 2
    case FIN_SENT => 3
    case FIN_ACKED => 4
    case SENDER_ERROR => 5
  }

  function ReceiverRank(r: ReceiverSummary): nat {
    match r
    case LISTEN => 0
    case SYN_RECV => 1
    case FIN_RECV => 2
    case RECEIVER_ERROR => 3
  }

  lemma SummariesForward(c: Connection, c': Connection)
    requires Inv(c) && Inv(c') && Forward(c, c')
    ensures SenderRank(SummarizeSender(c.sender)) <= SenderRank(SummarizeSender(c'.sender))
    ensures ReceiverRank(SummarizeReceiver(c.receiver)) <= ReceiverRank(SummarizeReceiver(c'.receiver))
  {
    hide P.Tiles, P.Queued, P.TimerInv, A.Inv;
    if OutboundDone(c) {
      OutboundStaysDone(c.sender, c'.sender);
    }
  }

  /** The two ways to be inactive are the official states CLOSED and RESET. */
  lemma InactiveSummaries(c: Connection)
    requires Inv(c)
    ensures !c.active && !Failed(c) ==>
              SummarizeSender(c.sender) == FIN_ACKED && SummarizeReceiver(c.receiver) == FIN_RECV
    ensures Failed(c) <==> SummarizeSender(c.sender) == SENDER_ERROR
    ensures Failed(c) <==> SummarizeReceiver(c.receiver) == RECEIVER_ERROR
  {
    hide P.Tiles, P.Queued, P.TimerInv;
  }

  lemma {:induction false} AfterSplit(c: Connection, before: seq<Event>, later: seq<Event>)
    ensures After(c, before + later) == After(After(c, before), later)
  {
    hide Apply;
    if later == [] {
      assert before + later == before;
    } else {
      var n := |later| - 1;
      assert (before + later)[..|before| + n] == before + later[..n];
      AfterSplit(c, before, later[..n]);
    }
  }

  /**
   Over every run the summaries only move forward, an error is final, and a connection that has become
   inactive never becomes active nor sends a segment again.
   */
  lemma LifeIsForward(c: Connection, before: seq<Event>, later: seq<Event>)
    requires Inv(c)
    ensures var mid, end := After(c, before), After(c, before + later);
            && SenderRank(SummarizeSender(mid.sender)) <= SenderRank(SummarizeSender(end.sender))
            && ReceiverRank(SummarizeReceiver(mid.receiver)) <= ReceiverRank(SummarizeReceiver(end.receiver))
            && (!mid.active ==> !end.active && end.out == mid.out)
            && mid.out <= end.out
  {
    hide After, Inv, SenderRank, ReceiverRank, SummarizeSender, SummarizeReceiver;
    RunKeeps(c, before);
    RunKeeps(After(c, before), later);
    AfterSplit(c, before, later);
    SummariesForward(After(c, before), After(c, before + later));
  }

  // What the summaries say

  lemma {:induction false} TilesFin(q: seq<T.Outgoing>, lo: nat, hi: nat, written: seq<Byte>, ended: bool)
    requires P.Tiles(q, lo, hi, Image(written, ended)) && lo <= |written| + 1
    ensures (exists o | o in q :: o.segment.header.fin) <==> hi == |written| + 2
  {
    hide Image, Slice;
    if q != [] {
      var seg := q[0].segment;
      var n := Length(seg);
      SliceEnd(written, ended, lo, seg);
      if lo + n <= |written| + 1 {
        TilesFin(q[1..], lo + n, hi, written, ended);
        assert forall o | o in q :: o == q[0] || o in q[1..];
      } else {
        P.TilesBound(q[1..], lo + n, hi, Image(written, ended));
      }
    }
  }

  lemma SliceEnd(written: seq<Byte>, ended: bool, at: nat, seg: Segment)
    requires Slice(Image(written, ended), at, seg) && Length(seg) > 0
    ensures seg.header.fin <==> at + Length(seg) == |written| + 2
    ensures at + Length(seg) <= |written| + 2
  {
    SliceAt(written, ended, at, seg, Length(seg) - 1);
  }

  predicate FinTransmitted(s: T.Sender) {
    exists o | o in s.firsts :: o.segment.header.fin
  }

  /** The sender's summary, by what it has sent and what of it is acknowledged. */
  lemma SenderSummaryMeans(c: Connection)
    requires Inv(c)
    ensures var s, summary := c.sender, SummarizeSender(c.sender);
            && (summary == SENDER_ERROR <==> Failed(c))
            && (summary == CLOSED <==> !Failed(c) && s.firsts == [])
            && (summary == SYN_SENT <==> !Failed(c) && s.firsts != [] && s.acked == 0)
            && (summary == SYN_ACKED <==> !Failed(c) && 0 < s.acked && !FinTransmitted(s))
            && (summary == FIN_SENT <==> !Failed(c) && 0 < s.acked < s.next && FinTransmitted(s))
            && (summary == FIN_ACKED <==> !Failed(c) && 0 < s.acked == s.next && FinTransmitted(s))
  {
    hide P.TimerInv, P.Queued, P.Tiles, A.Inv, Image, FinTransmitted;
    FinMeans(c.sender);
    NothingTransmitted(c.sender);
  }

  lemma FinMeans(s: T.Sender)
    requires P.Inv(s)
    ensures FinTransmitted(s) <==> s.next == |s.stream.written| + 2
  {
    hide P.TimerInv, P.Queued, P.Tiles, Image;
    TilesFin(s.firsts, 0, s.next, s.stream.written, s.stream.ended);
  }

  lemma NothingTransmitted(s: T.Sender)
    requires P.Inv(s)
    ensures s.firsts == [] <==> s.next == 0
  {
    hide P.TimerInv, P.Queued, Slice, Image;
    if s.firsts != [] {
      P.TilesBound(s.firsts[1..], Length(s.firsts[0].segment), s.next, P.ImageOf(s));
    }
  }

  /** The number of the last SYN that arrived. */
  function LastSyn(events: seq<Event>): Option<U32> {
    if events == [] then None
    else
      var e := events[|events| - 1];
      if e.Arriving? && e.segment.header.syn then Some(e.segment.header.seqno) else LastSyn(events[..|events| - 1])
  }

  lemma ArrivalNotesSyn(c: Connection, seg: Segment)
    ensures var r := SegmentReceived(c, seg).receiver;
            if seg.header.syn then r.synReceived && r.isn == seg.header.seqno
            else r.synReceived == c.receiver.synReceived && r.isn == c.receiver.isn
  {
    hide T.AckReceived, A.Push, R.StreamIndex, Reset, SendSegments, EnsureQueued, FillWindow, TrySwitchingCloseMode;
    var c2 := ObeyRst(Receive(c, seg), seg);
    SendingKeepsNumbering(Receive(c, seg), false);
    var c3 := ObeyAck(c2, seg);
    SendingKeepsNumbering(c3, false);
    SendingKeepsNumbering(EnsureQueued(c3), false);
    var c4 := Reply(c3, seg);
    SendingKeepsNumbering(c4, false);
    SendingKeepsNumbering(FillWindow(c4), false);
    SendingKeepsNumbering(AnswerSyn(c4, seg), false);
  }

  predicate SameNumbering(c: Connection, c': Connection) {
    c'.receiver.synReceived == c.receiver.synReceived && c'.receiver.isn == c.receiver.isn
  }

  lemma SendingKeepsNumbering(c: Connection, rst: bool)
    ensures SameNumbering(c, SendSegments(c, rst)) && SameNumbering(c, EnsureQueued(c)) && SameNumbering(c, Reset(c))
    ensures SameNumbering(c, FillWindow(c)) && SameNumbering(c, TrySwitchingCloseMode(c))
  {
    hide StampAll, T.Fill;
  }

  lemma OnlyArrivalsNumber(c: Connection, e: Event)
    requires !e.Arriving?
    ensures var r := Apply(c, e).receiver;
            r.synReceived == c.receiver.synReceived && r.isn == c.receiver.isn
  {
    hide T.Tick, T.Fill, T.SendEmpty, StampAll, InboundDone, OutboundDone;
  }

  /** In every run the receiver numbers the peer's bytes from the last SYN that arrived, and from none before one. */
  lemma {:induction false} NumberedFromLastSyn(
    sendCapacity: nat, recvCapacity: nat, rto: nat, isn: U32, events: seq<Event>)
    ensures var r := After(NewConnection(sendCapacity, recvCapacity, rto, isn), events).receiver;
            && (r.synReceived <==> LastSyn(events).Some?)
            && (r.synReceived ==> r.isn == LastSyn(events).value)
  {
    hide Apply;
    if events != [] {
      var n := |events| - 1;
      var c := After(NewConnection(sendCapacity, recvCapacity, rto, isn), events[..n]);
      NumberedFromLastSyn(sendCapacity, recvCapacity, rto, isn, events[..n]);
      if events[n].Arriving? {
        ArrivalNotesSyn(c, events[n].segment);
        ArrivalIs(c, events[n].segment);
      } else {
        OnlyArrivalsNumber(c, events[n]);
      }
    }
  }

  lemma ArrivalIs(c: Connection, seg: Segment)
    ensures Apply(c, Arriving(seg)) == SegmentReceived(c, seg)
  {
    hide SegmentReceived;
  }

  /** The receiver's summary, by what has arrived. */
  lemma ReceiverSummaryMeans(c: Connection)
    requires Inv(c)
    ensures var r, summary := c.receiver, SummarizeReceiver(c.receiver);
            && (summary == RECEIVER_ERROR <==> Failed(c))
            && (summary == LISTEN <==> !Failed(c) && !r.synReceived)
            && (summary == SYN_RECV <==> !Failed(c) && r.synReceived && !InboundEnded(c))
            && (summary == FIN_RECV <==> !Failed(c) && InboundEnded(c))
  {
    hide P.Inv, P.TimerInv, A.Inv;
  }
}
