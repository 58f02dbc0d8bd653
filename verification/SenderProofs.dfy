/** What every operation of the sender keeps: tiling, conservation, window respect, timer and backoff. */
module SenderProofs {
  import opened Common
  import opened WrappingIntegers
  import opened StreamSpec
  import opened Segments
  import opened SenderSpec

  function ImageOf(s: Sender): seq<Symbol> {
    Image(s.stream.written, s.stream.ended)
  }

  /** The segments of `q` are non-empty slices of the image, one after the other, from `lo` to `hi`. */
  ghost predicate Tiles(q: seq<Outgoing>, lo: nat, hi: nat, image: seq<Symbol>) {
    if q == [] then
      lo == hi
    else
      && q[0].seqno == lo
      && Length(q[0].segment) > 0
      && Slice(image, lo, q[0].segment)
      && Tiles(q[1..], lo + Length(q[0].segment), hi, image)
  }

  // The header carries the number of its segment and no flag but SYN and FIN.
  predicate WellNumbered(o: Outgoing, isn: U32) {
    var h := o.segment.header;
    h == DefaultHeader(Wrap(o.seqno % TWO_64, isn)).(syn := h.syn, fin := h.fin)
  }

  ghost predicate AllWellNumbered(q: seq<Outgoing>, isn: U32) {
    forall o | o in q :: WellNumbered(o, isn)
  }

  /** SYN, then the bytes read from the stream, then FIN: exactly these have sequence numbers. */
  predicate Conserved(s: Sender) {
    || (s.next == 0 && s.stream.popped == 0)
    || s.next == 1 + s.stream.popped
    || (s.next == 2 + s.stream.popped && Eof(s.stream))
  }

  /** The first outstanding segment contains the acknowledged number. */
  predicate FrontHoldsAcked(s: Sender) {
    if s.outstanding == [] then
      s.acked == s.next
    else
      s.outstanding[0].seqno <= s.acked < s.outstanding[0].seqno + Length(s.outstanding[0].segment)
  }

  // A queued segment is a slice of what was sent, or an empty segment after the SYN.
  ghost predicate Queued(s: Sender, o: Outgoing) {
    && WellNumbered(o, s.isn)
    && o.seqno + Length(o.segment) <= s.next
    && Slice(ImageOf(s), o.seqno, o.segment)
    && (Length(o.segment) == 0 ==> 1 <= o.seqno)
  }

  ghost predicate Inv(s: Sender) {
    && Conserved(s)
    && s.acked <= s.next <= s.acked + TWO_16
    && s.window < TWO_16
    && (s.retransmissions > 0 ==> s.next > 0)
    && FrontHoldsAcked(s)
    && Tiles(s.outstanding, if s.outstanding == [] then s.next else s.outstanding[0].seqno, s.next, ImageOf(s))
    && AllWellNumbered(s.outstanding, s.isn)
    && Tiles(s.firsts, 0, s.next, ImageOf(s))
    && forall o | o in s.segmentsOut :: Queued(s, o)
  }

  // Tiling

  lemma {:induction false} TilesAppend(q: seq<Outgoing>, lo: nat, hi: nat, image: seq<Symbol>, seg: Segment)
    requires Tiles(q, lo, hi, image) && Length(seg) > 0 && Slice(image, hi, seg)
    ensures Tiles(q + [Outgoing(hi, seg)], lo, hi + Length(seg), image)
  {
    hide Slice;
    var q' := q + [Outgoing(hi, seg)];
    if q == [] {
      assert q'[1..] == [];
    } else {
      assert q'[1..] == q[1..] + [Outgoing(hi, seg)];
      TilesAppend(q[1..], lo + Length(q[0].segment), hi, image, seg);
    }
  }

  lemma {:induction false} TilesLonger(q: seq<Outgoing>, lo: nat, hi: nat, image: seq<Symbol>, image': seq<Symbol>)
    requires Tiles(q, lo, hi, image) && image <= image'
    ensures Tiles(q, lo, hi, image')
  {
    if q != [] {
      SliceOfPrefix(image, image', lo, q[0].segment);
      TilesLonger(q[1..], lo + Length(q[0].segment), hi, image, image');
    }
  }

  lemma {:induction false} TilesBound(q: seq<Outgoing>, lo: nat, hi: nat, image: seq<Symbol>)
    requires Tiles(q, lo, hi, image)
    ensures lo <= hi && (q != [] ==> lo + Length(q[0].segment) <= hi <= |image|)
  {
    if q != [] {
      TilesBound(q[1..], lo + Length(q[0].segment), hi, image);
    }
  }

  /** Acknowledging drops exactly the leading segments that end at or before the acknowledged number. */
  lemma {:induction false} DropAckedTiles(q: seq<Outgoing>, lo: nat, hi: nat, image: seq<Symbol>, ack: nat)
    requires Tiles(q, lo, hi, image) && lo <= ack <= hi
    ensures var q' := DropAcked(q, ack);
            && Tiles(q', if q' == [] then hi else q'[0].seqno, hi, image)
            && (if q' == [] then ack == hi else q'[0].seqno <= ack < q'[0].seqno + Length(q'[0].segment))
    ensures |DropAcked(q, ack)| <= |q| && forall o | o in DropAcked(q, ack) :: o in q
  {
    if q != [] && q[0].seqno + Length(q[0].segment) <= ack {
      DropAckedTiles(q[1..], lo + Length(q[0].segment), hi, image, ack);
    }
  }

  function Concat(q: seq<Outgoing>): seq<Symbol> {
    if q == [] then [] else Symbols(q[0].segment) + Concat(q[1..])
  }

  /** Segments that tile a range carry the symbols of that range, each once and in order. */
  lemma {:induction false} TilesCarryImage(q: seq<Outgoing>, lo: nat, hi: nat, image: seq<Symbol>)
    requires Tiles(q, lo, hi, image) && hi <= |image|
    ensures lo <= hi && Concat(q) == image[lo..hi]
  {
    if q != [] {
      var mid := lo + Length(q[0].segment);
      TilesBound(q[1..], mid, hi, image);
      TilesCarryImage(q[1..], mid, hi, image);
      assert image[lo..hi] == image[lo..mid] + image[mid..hi];
    }
  }

  // Filling the window

  /** The uint16_t room never wraps: it is the distance to the right edge of the window, taken as at least 1. */
  lemma RoomIsExact(s: Sender)
    requires s.acked <= s.next <= s.acked + s.window && s.window < TWO_16
    ensures Room(s) == s.acked + Max(s.window, 1) - s.next
  {
    var d := s.window - InFlight(s);
    assert d % TWO_64 == d && d % TWO_16 == d;
  }

  // The right edge of the window, which is taken as at least 1.
  function Edge(s: Sender): nat {
    s.acked + Max(s.window, 1)
  }

  // The room for bytes up to the edge, once SYN is counted.
  function DataRoom(s: Sender): int {
    Edge(s) - s.next - (if s.next == 0 then 1 else 0)
  }

  /**
   SYN and payload of the next segment stay inside the window. The segment passes the edge, by one, exactly if
   the stream has ended, and what is left of it and the room for it are both the maximum payload size.
   */
  lemma WindowRespected(s: Sender)
    requires s.acked <= s.next <= s.acked + s.window && s.window < TWO_16
    ensures var seg := NextSegment(s);
            && s.next + |seg.payload| + (if seg.header.syn then 1 else 0) <= Edge(s)
            && s.next + Length(seg) <= Edge(s) + 1
            && (s.next + Length(seg) > Edge(s) <==>
                s.stream.ended && |Buffered(s.stream)| == MAX_PAYLOAD_SIZE == DataRoom(s))
  {
    hide Wrap;
    RoomIsExact(s);
  }

  /** FIN rides on the next segment exactly if that takes all that is left, and leaves room or could be maximal. */
  lemma FinIncludedIff(s: Sender)
    requires s.acked <= s.next <= s.acked + s.window && s.window < TWO_16
    ensures NextSegment(s).header.fin <==>
              && s.stream.ended && |Buffered(s.stream)| <= Min(DataRoom(s), MAX_PAYLOAD_SIZE)
              && (|Buffered(s.stream)| < DataRoom(s) || DataRoom(s) >= MAX_PAYLOAD_SIZE)
    ensures |NextSegment(s).payload| == Min(|Buffered(s.stream)|, Min(DataRoom(s), MAX_PAYLOAD_SIZE))
  {
    hide Wrap, Room;
    RoomIsExact(s);
  }

  lemma SyncFirst(s: Sender)
    requires s.acked <= s.next <= s.acked + s.window && s.window < TWO_16
    ensures NextSegment(s).header.syn <==> s.next == 0
  {
    hide Wrap;
    RoomIsExact(s);
  }

  // The stream index at which the next segment takes its payload, and where the image has it.
  lemma NextSegmentAt(s: Sender, i: nat)
    requires Conserved(s) && s.acked <= s.next <= s.acked + s.window && s.window < TWO_16
    requires !FinSent(s) && i < Length(NextSegment(s))
    ensures s.next + i < |ImageOf(s)| && Symbols(NextSegment(s))[i] == ImageOf(s)[s.next + i]
  {
    hide Wrap, Room, Symbols, Image;
    var seg := NextSegment(s);
    SyncFirst(s);
    SymbolAt(seg, i);
    assert s.next + i < |ImageOf(s)|;
    ImageAt(s.stream.written, s.stream.ended, s.next + i);
  }

  /** The segment `fill_window` builds is the slice of the image at the next number. */
  lemma NextSegmentIsSlice(s: Sender)
    requires Conserved(s) && s.acked <= s.next <= s.acked + s.window && s.window < TWO_16
    requires !FinSent(s)
    ensures Slice(ImageOf(s), s.next, NextSegment(s))
  {
    hide NextSegment, Symbols, Image;
    var seg := NextSegment(s);
    forall i: nat | i < Length(seg)
      ensures s.next + i < |ImageOf(s)| && Symbols(seg)[i] == ImageOf(s)[s.next + i]
    {
      NextSegmentAt(s, i);
    }
    if Length(seg) > 0 {
      NextSegmentAt(s, Length(seg) - 1);
    }
  }

  lemma FillStepConserves(s: Sender)
    requires Conserved(s) && s.acked <= s.next <= s.acked + s.window && s.window < TWO_16
    requires !FinSent(s)
    ensures Conserved(FillStep(s))
  {
    hide Wrap, Room;
    SyncFirst(s);
  }

  lemma QueuedGrows(s: Sender, s': Sender, o: Outgoing)
    requires Queued(s, o) && s'.isn == s.isn && s.next <= s'.next && ImageOf(s) <= ImageOf(s')
    ensures Queued(s', o)
  {
    hide Slice;
    SliceOfPrefix(ImageOf(s), ImageOf(s'), o.seqno, o.segment);
  }

  // Transmitting a non-empty slice at the next number keeps the queues in order.
  lemma TransmitKeeps(s: Sender, seg: Segment, stream: Stream)
    requires Inv(s) && Length(seg) > 0 && Slice(ImageOf(s), s.next, seg) && WellNumbered(Outgoing(s.next, seg), s.isn)
    requires stream.written == s.stream.written && stream.ended == s.stream.ended
    requires s.next + Length(seg) <= s.acked + TWO_16
    requires Conserved(Transmit(s, seg).(stream := stream))
    ensures Inv(Transmit(s, seg).(stream := stream))
  {
    hide Slice, Image, Conserved, WellNumbered;
    var s' := Transmit(s, seg).(stream := stream);
    var lo := if s.outstanding == [] then s.next else s.outstanding[0].seqno;
    TilesAppend(s.outstanding, lo, s.next, ImageOf(s), seg);
    TilesAppend(s.firsts, 0, s.next, ImageOf(s), seg);
    forall o | o in s'.segmentsOut
      ensures Queued(s', o)
    {
      if o in s.segmentsOut {
        QueuedGrows(s, s', o);
      }
    }
  }

  lemma FillStepKeeps(s: Sender)
    requires Inv(s) && CanFill(s)
    ensures Inv(FillStep(s))
  {
    hide Slice, Image, Conserved, FinSent, Tiles, Queued, Room, Wrap;
    NextSegmentIsSlice(s);
    FillStepConserves(s);
    WindowRespected(s);
    TransmitKeeps(s, NextSegment(s), Pop(s.stream, PayloadRoom(s)));
  }

  // Filling touches neither what the application wrote nor what was acknowledged.
  ghost predicate OnlySent(s: Sender, s': Sender) {
    && s'.isn == s.isn && s'.rto == s.rto && s'.acked == s.acked && s'.window == s.window
    && s'.stream.(popped := s.stream.popped) == s.stream && s.stream.popped <= s'.stream.popped
    && s.next <= s'.next && s'.retransmissions == s.retransmissions
    && s.segmentsOut <= s'.segmentsOut
  }

  lemma {:induction false} FillKeeps(s: Sender)
    requires Inv(s)
    ensures Inv(Fill(s)) && OnlySent(s, Fill(s))
    decreases Unsent(s)
  {
    hide Inv, CanFill, NextSegment;
    if CanFill(s) {
      FillStepKeeps(s);
      FillShrinks(s);
      FillKeeps(FillStep(s));
    }
  }

  lemma FillShrinks(s: Sender)
    requires CanFill(s)
    ensures Unsent(FillStep(s)) < Unsent(s)
  {
    hide Wrap, Room;
  }

  lemma {:induction false} FillStops(s: Sender)
    ensures !CanFill(Fill(s))
    decreases Unsent(s)
  {
    hide CanFill, NextSegment;
    if CanFill(s) {
      FillShrinks(s);
      FillStops(FillStep(s));
    }
  }

  /** Filling passes the right edge of the window by at most one. */
  lemma {:induction false} FillWithinWindow(s: Sender)
    requires Inv(s)
    ensures Fill(s).next <= Max(s.next, s.acked + s.window + 1)
    decreases Unsent(s)
  {
    hide Tiles, Queued, NextSegment, Room;
    if CanFill(s) {
      WindowRespected(s);
      FillShrinks(s);
      FillStepKeeps(s);
      FillWithinWindow(FillStep(s));
    }
  }

  /**
   What is left of an ended stream fills the room up to the edge exactly, in segments that are all maximal.
   */
  predicate FillsExactly(s: Sender) {
    && s.stream.ended && !FinSent(s)
    && 0 < |Buffered(s.stream)| == DataRoom(s) && |Buffered(s.stream)| % MAX_PAYLOAD_SIZE == 0
  }

  lemma FillStepExactly(s: Sender)
    requires Inv(s) && CanFill(s) && FillStep(s).next <= Edge(s)
    ensures FillsExactly(FillStep(s)) <==> FillsExactly(s)
  {
    hide Tiles, Queued, NextSegment, Room;
    WindowRespected(s);
    FinIncludedIff(s);
    SyncFirst(s);
    StepShape(s);
  }

  lemma StepShape(s: Sender)
    requires CanFill(s)
    ensures var s' := FillStep(s);
            && s'.acked == s.acked && s'.window == s.window && s'.next == s.next + Length(NextSegment(s)) > 0
            && s'.stream.ended == s.stream.ended && s'.stream.written == s.stream.written
            && |Buffered(s'.stream)| == |Buffered(s.stream)| - |NextSegment(s).payload|
  {
    hide Wrap, Room;
  }

  lemma FillsExactlyCanFill(s: Sender)
    requires Inv(s) && FillsExactly(s)
    ensures CanFill(s)
  {
    hide Tiles, Queued, NextSegment, Room;
    FinIncludedIff(s);
  }

  /** Filling sends beyond the right edge of the window exactly if what is left of an ended stream fills it exactly. */
  lemma {:induction false} FillPassesEdgeIff(s: Sender)
    requires Inv(s)
    ensures Fill(s).next > Max(s.next, Edge(s)) <==> FillsExactly(s)
    decreases Unsent(s)
  {
    hide Inv, NextSegment, CanFill, FillStep, FillsExactly;
    if FillsExactly(s) {
      FillsExactlyCanFill(s);
    }
    if CanFill(s) {
      FillShrinks(s);
      FillStepKeeps(s);
      StepShape(s);
      if FillStep(s).next <= Edge(s) {
        FillStepExactly(s);
        FillPassesEdgeIff(FillStep(s));
      } else {
        OvershootIsExact(s);
      }
    }
  }

  lemma OvershootIsExact(s: Sender)
    requires Inv(s) && CanFill(s) && FillStep(s).next > Edge(s)
    ensures FillsExactly(s) && Fill(FillStep(s)) == FillStep(s)
  {
    hide Tiles, Queued, NextSegment, Room;
    WindowRespected(s);
    StepShape(s);
    FinIncludedIff(s);
    SyncFirst(s);
  }

  lemma AckReceivedWithinWindow(s: Sender, ackno: U32, window: U16)
    requires Inv(s)
    ensures var s' := AckReceived(s, ackno, window);
            s'.next <= Max(s.next, s'.acked + s'.window + 1)
  {
    hide Inv, Fill, Unwrap, Acknowledge;
    if AckAccepted(s, ackno) {
      var ack := Unwrap(ackno, s.isn, s.acked % TWO_64);
      WindowFree(s, window);
      AcknowledgeKeeps(s.(window := window), ack);
      AcknowledgeFrame(s.(window := window), ack);
      FillKeeps(Acknowledge(s.(window := window), ack));
      FillWithinWindow(Acknowledge(s.(window := window), ack));
    }
  }

  /** Room in the window means that there is nothing left to send. */
  predicate Exhausted(s: Sender) {
    s.next < s.acked + Max(s.window, 1) ==> Buffered(s.stream) == [] && (s.stream.ended ==> FinSent(s))
  }

  /** After filling, nothing is left unsent that the window has room for. */
  lemma FillExhausts(s: Sender)
    requires Inv(s)
    ensures Exhausted(Fill(s))
  {
    hide Wrap, Room, Tiles, Queued;
    var s' := Fill(s);
    FillKeeps(s);
    FillStops(s);
    if s'.next < s'.acked + Max(s'.window, 1) {
      RoomIsExact(s');
      SyncFirst(s');
      assert !FinSent(s') ==> |NextSegment(s').payload| == 0 && !NextSegment(s').header.fin;
    }
  }

  /**
   An acknowledgement leaves nothing unsent that the window has room for exactly if it is accepted, or nothing
   was left for the window it brings: otherwise the window is replaced and then not filled.
   */
  lemma AckReceivedExhaustsIff(s: Sender, ackno: U32, window: U16)
    requires Inv(s)
    ensures Exhausted(AckReceived(s, ackno, window)) <==>
            AckAccepted(s, ackno) || Exhausted(s.(window := window))
  {
    hide Inv, Fill, Unwrap, Acknowledge, Exhausted;
    if AckAccepted(s, ackno) {
      var ack := Unwrap(ackno, s.isn, s.acked % TWO_64);
      WindowFree(s, window);
      AcknowledgeKeeps(s.(window := window), ack);
      FillExhausts(Acknowledge(s.(window := window), ack));
    }
  }

  // The other operations

  lemma AcknowledgeKeeps(s: Sender, ack: nat)
    requires Inv(s) && s.acked < ack <= s.next
    ensures Inv(Acknowledge(s, ack))
  {
    hide Slice, Image, Tiles;
    var lo := if s.outstanding == [] then s.next else s.outstanding[0].seqno;
    DropAckedTiles(s.outstanding, lo, s.next, ImageOf(s), ack);
  }

  lemma AckReceivedKeeps(s: Sender, ackno: U32, window: U16)
    requires Inv(s)
    ensures Inv(AckReceived(s, ackno, window))
  {
    hide Slice, Image, Tiles, Unwrap, Fill;
    var s1 := s.(window := window);
    if AckAccepted(s, ackno) {
      var ack := Unwrap(ackno, s.isn, s.acked % TWO_64);
      AcknowledgeKeeps(s1, ack);
      FillKeeps(Acknowledge(s1, ack));
    }
  }

  /** A retransmission carries the same slice of the image as the first transmission did. */
  lemma TickKeeps(s: Sender, ms: nat)
    requires Inv(s)
    ensures Inv(Tick(s, ms))
  {
    hide Slice, Image, WellNumbered;
    if s.outstanding != [] {
      TilesBound(s.outstanding, s.outstanding[0].seqno, s.next, ImageOf(s));
    }
  }

  /**
   When the timer runs out with data outstanding, the segment that holds the acknowledged number goes out
   again, and the timer starts anew; a closed window neither counts as a retransmission nor backs off.
   */
  lemma OldestIsRetransmitted(s: Sender, ms: nat)
    requires Inv(s) && s.acked < s.next && s.timer.elapsed + ms >= s.timer.timeout
    ensures exists o ::
              && Tick(s, ms).segmentsOut == s.segmentsOut + [o]
              && o.seqno <= s.acked < o.seqno + Length(o.segment)
              && Slice(ImageOf(s), o.seqno, o.segment)
    ensures var s' := Tick(s, ms);
            && s'.timer == Timer(0, if s.window == 0 then s.timer.timeout else 2 * s.timer.timeout)
            && s'.retransmissions == if s.window == 0 then s.retransmissions else s.retransmissions + 1
  {
    hide Slice, Image, Queued;
    var o := s.outstanding[0];
    assert Tick(s, ms).segmentsOut == s.segmentsOut + [o];
  }

  lemma SendEmptyKeeps(s: Sender)
    requires Inv(s) && 1 <= s.next
    ensures Inv(SendEmpty(s))
  {
    hide Wrap, Tiles;
    assert s.next <= |ImageOf(s)|;
    assert ImageOf(s)[s.next..s.next] == [];
  }

  lemma ImageGrows(written: seq<Byte>, ended: bool, more: seq<Byte>, ended': bool)
    requires written <= more && (ended ==> ended' && more == written)
    ensures Image(written, ended) <= Image(more, ended')
  {
    var a, b := Image(written, ended), Image(more, ended');
    forall i: nat | i < |a|
      ensures a[i] == b[i]
    {
      ImageAt(written, ended, i);
      ImageAt(more, ended', i);
    }
  }

  // The application appends to the outbound stream, or ends it.
  lemma StreamGrows(s: Sender, stream: Stream)
    requires Inv(s) && stream.popped == s.stream.popped
    requires s.stream.written <= stream.written
    requires s.stream.ended ==> stream.ended && stream.written == s.stream.written
    ensures Inv(s.(stream := stream))
  {
    hide Slice, Image;
    var s' := s.(stream := stream);
    ImageGrows(s.stream.written, s.stream.ended, stream.written, stream.ended);
    var lo := if s.outstanding == [] then s.next else s.outstanding[0].seqno;
    TilesLonger(s.outstanding, lo, s.next, ImageOf(s), ImageOf(s'));
    TilesLonger(s.firsts, 0, s.next, ImageOf(s), ImageOf(s'));
    forall o | o in s'.segmentsOut
      ensures Queued(s', o)
    {
      QueuedGrows(s, s', o);
    }
  }

  /** The first transmissions carry SYN, the bytes read so far and, once sent, FIN: each once, in order. */
  lemma FirstsCarryStream(s: Sender)
    requires Inv(s)
    ensures s.next <= |ImageOf(s)| && Concat(s.firsts) == ImageOf(s)[..s.next]
    ensures s.next == (if s.next > 0 then 1 else 0) + s.stream.popped + (if FinSent(s) then 1 else 0)
  {
    TilesCarryImage(s.firsts, 0, s.next, ImageOf(s));
  }

  lemma NewSenderInv(capacity: nat, rto: nat, isn: U32)
    ensures Inv(NewSender(capacity, rto, isn)) && TimerInv(NewSender(capacity, rto, isn))
  {
    assert rto == Backoff(rto, 0);
  }

  // Timer and backoff

  // rto * 2^k
  function Backoff(rto: nat, k: nat): nat {
    if k == 0 then rto else 2 * Backoff(rto, k - 1)
  }

  // The timeout has been doubled at least `least` times since it was last reset.
  ghost predicate BackedOff(timeout: nat, rto: nat, least: nat) {
    exists k: nat :: least <= k && timeout == Backoff(rto, k)
  }

  /** Outstanding data has a running timer; without any, nothing is backed off. */
  ghost predicate TimerInv(s: Sender) {
    0 < s.rto ==>
      && (s.outstanding != [] ==> !Expired(s.timer))
      && (s.outstanding == [] ==> s.retransmissions == 0 && s.timer.timeout == s.rto)
      && BackedOff(s.timer.timeout, s.rto, s.retransmissions)
  }

  lemma FreshBackoff(rto: nat)
    ensures BackedOff(rto, rto, 0)
  {
    assert rto == Backoff(rto, 0);
  }

  lemma Doubled(timeout: nat, rto: nat, least: nat)
    requires BackedOff(timeout, rto, least) && 0 < rto
    ensures BackedOff(timeout * 2, rto, least + 1) && BackedOff(timeout, rto, 0) && 0 < timeout
  {
    var k: nat :| least <= k && timeout == Backoff(rto, k);
    BackoffPositive(rto, k);
    assert timeout * 2 == Backoff(rto, k + 1);
  }

  lemma {:induction false} BackoffPositive(rto: nat, k: nat)
    ensures Backoff(rto, k) >= rto && (0 < rto && 0 < k ==> Backoff(rto, k) > rto)
  {
    if k > 0 {
      BackoffPositive(rto, k - 1);
    }
  }

  // Filling restarts an expired timer, but then it was at rest with the initial timeout.
  lemma {:induction false} FillKeepsTimer(s: Sender)
    requires TimerInv(s) && 0 < s.rto
    ensures TimerInv(Fill(s)) && Fill(s).rto == s.rto
    ensures Fill(s).timer.timeout == s.timer.timeout && Fill(s).retransmissions == s.retransmissions
    decreases Unsent(s)
  {
    hide CanFill, NextSegment, BackedOff;
    if CanFill(s) {
      FillShrinks(s);
      FillKeepsTimer(FillStep(s));
    }
  }

  lemma {:induction false} DropAckedShorter(q: seq<Outgoing>, ack: nat)
    ensures |DropAcked(q, ack)| <= |q|
    ensures |DropAcked(q, ack)| == |q| ==> DropAcked(q, ack) == q
  {
    if q != [] && q[0].seqno + Length(q[0].segment) <= ack {
      DropAckedShorter(q[1..], ack);
    }
  }

  lemma AcknowledgeKeepsTimer(s: Sender, ack: nat)
    requires TimerInv(s) && 0 < s.rto
    ensures TimerInv(Acknowledge(s, ack))
    ensures Acknowledge(s, ack).timer.timeout ==
            if DropAcked(s.outstanding, ack) == s.outstanding then s.timer.timeout else s.rto
  {
    hide BackedOff;
    DropAckedShorter(s.outstanding, ack);
    FreshBackoff(s.rto);
    Doubled(s.timer.timeout, s.rto, s.retransmissions);
  }

  lemma AckReceivedKeepsTimer(s: Sender, ackno: U32, window: U16)
    requires TimerInv(s) && 0 < s.rto
    ensures TimerInv(AckReceived(s, ackno, window))
  {
    hide Fill, Unwrap, BackedOff, Acknowledge;
    var s1 := s.(window := window);
    if AckAccepted(s, ackno) {
      var ack := Unwrap(ackno, s.isn, s.acked % TWO_64);
      AcknowledgeKeepsTimer(s1, ack);
      AcknowledgeFrame(s1, ack);
      FillKeepsTimer(Acknowledge(s1, ack));
    }
  }

  lemma AcknowledgeFrame(s: Sender, ack: nat)
    ensures var s' := Acknowledge(s, ack);
            s'.rto == s.rto && s'.isn == s.isn && s'.stream == s.stream && s'.next == s.next && s'.acked == ack
            && s'.segmentsOut == s.segmentsOut && s'.retransmissions == 0 && s'.window == s.window
  {
  }

  lemma TickKeepsTimer(s: Sender, ms: nat)
    requires TimerInv(s) && 0 < s.rto
    ensures TimerInv(Tick(s, ms))
  {
    hide BackedOff;
    Doubled(s.timer.timeout, s.rto, s.retransmissions);
  }

  /** The timeout is doubled once for every consecutive retransmission. */
  predicate ExactBackoff(s: Sender) {
    s.timer.timeout == Backoff(s.rto, s.retransmissions)
  }

  // The acknowledgement is accepted but completes no segment: the count is reset, the timeout is not.
  predicate PartialAck(s: Sender, ackno: U32) {
    && AckAccepted(s, ackno)
    && DropAcked(s.outstanding, Unwrap(ackno, s.isn, s.acked % TWO_64)) == s.outstanding
  }

  lemma TickKeepsBackoffExact(s: Sender, ms: nat)
    ensures ExactBackoff(Tick(s, ms)) <==> ExactBackoff(s)
  {
    hide Backoff;
    BackoffDoubles(s.rto, s.retransmissions);
  }

  lemma BackoffDoubles(rto: nat, k: nat)
    ensures Backoff(rto, k + 1) == Backoff(rto, k) * 2
  {
  }

  // The acknowledgement is accepted and completes a segment: count and timeout start anew.
  predicate CompletingAck(s: Sender, ackno: U32) {
    AckAccepted(s, ackno) && !PartialAck(s, ackno)
  }

  /**
   After an acknowledgement the backoff is exact exactly if it completes a segment, or the backoff was exact
   and the acknowledgement is not a partial one after a retransmission.
   */
  lemma AckBackoffExactIff(s: Sender, ackno: U32, window: U16)
    requires TimerInv(s) && 0 < s.rto
    ensures ExactBackoff(AckReceived(s, ackno, window)) <==>
            CompletingAck(s, ackno) || (ExactBackoff(s) && !(PartialAck(s, ackno) && s.retransmissions > 0))
  {
    hide Fill, Unwrap, Acknowledge;
    var s1 := s.(window := window);
    if AckAccepted(s, ackno) {
      var ack := Unwrap(ackno, s.isn, s.acked % TWO_64);
      AcknowledgeKeepsTimer(s1, ack);
      AcknowledgeFrame(s1, ack);
      FillKeepsTimer(Acknowledge(s1, ack));
      BackoffPositive(s.rto, s.retransmissions);
      var k: nat :| s.retransmissions <= k && s.timer.timeout == Backoff(s.rto, k);
      BackoffPositive(s.rto, k);
    }
  }

  /** How a sender moves, whatever is called on it: forward. */
  ghost predicate Progress(s: Sender, s': Sender) {
    && s'.isn == s.isn && s'.rto == s.rto
    && s.stream.written <= s'.stream.written
    && s.stream.popped <= s'.stream.popped
    && (s.stream.ended ==> s'.stream.ended && s'.stream.written == s.stream.written)
    && (s.stream.error ==> s'.stream.error)
    && s.next <= s'.next && s.acked <= s'.acked
  }

  lemma AckReceivedMoves(s: Sender, ackno: U32, window: U16)
    requires Inv(s)
    ensures var s' := AckReceived(s, ackno, window);
            && Progress(s, s') && s'.stream.(popped := s.stream.popped) == s.stream
            && s'.acked == (if AckAccepted(s, ackno) then Unwrap(ackno, s.isn, s.acked % TWO_64) else s.acked)
            && s'.retransmissions <= s.retransmissions && s'.window == window
  {
    hide Inv, Fill, Unwrap, Acknowledge;
    var s1 := s.(window := window);
    if AckAccepted(s, ackno) {
      var ack := Unwrap(ackno, s.isn, s.acked % TWO_64);
      assert Inv(s1) by {
        WindowFree(s, window);
      }
      AcknowledgeKeeps(s1, ack);
      AcknowledgeFrame(s1, ack);
      FillKeeps(Acknowledge(s1, ack));
    }
  }

  lemma WindowFree(s: Sender, window: U16)
    requires Inv(s)
    ensures Inv(s.(window := window))
  {
  }
}
