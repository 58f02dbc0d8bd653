/** The receiver: it turns wrapped sequence numbers into stream indices and advertises ackno and window. */
module ReceiverSpec {
  import opened Common
  import opened WrappingIntegers
  import opened StreamSpec
  import opened AssemblySpec
  import opened Segments

  datatype Receiver = Receiver(assembly: Assembly, synReceived: bool, isn: U32)

  function NewReceiver(capacity: nat): Receiver {
    Receiver(NewAssembly(capacity), false, 0)
  }

  // The absolute number of the next byte needed; a uint64_t in the source.
  function AckPoint(r: Receiver): nat {
    First(r.assembly) + 1 + (if r.assembly.output.ended then 1 else 0)
  }

  function Ackno(r: Receiver): Option<U32> {
    if r.synReceived then Some(Wrap(AckPoint(r) % TWO_64, r.isn)) else None
  }

  function WindowSize(r: Receiver): nat {
    Remaining(r.assembly.output)
  }

  // A segment without SYN that unwraps to 0 makes the index wrap around to 2^64 - 1.
  function StreamIndex(r: Receiver, header: Header): U64 {
    var abs := Unwrap(header.seqno, r.isn, (First(r.assembly) + 1) % TWO_64);
    if header.syn then abs else (abs - 1) % TWO_64
  }

  function NoteSyn(r: Receiver, header: Header): Receiver {
    if header.syn then r.(synReceived := true, isn := header.seqno) else r
  }

  function SegmentReceived(r: Receiver, seg: Segment): Receiver {
    var r1 := NoteSyn(r, seg.header);
    if !r1.synReceived then
      r1
    else
      r1.(assembly := Push(r1.assembly, seg.payload, StreamIndex(r1, seg.header), seg.header.fin))
  }

  function ReadInbound(r: Receiver, len: nat): Receiver {
    r.(assembly := AssemblySpec.Pop(r.assembly, len))
  }

  /** Before the stream ends, what a segment carries is accepted exactly inside [ackno, ackno + window). */
  lemma AdvertisedWindowIsAccepted(r: Receiver, seg: Segment, q: nat)
    requires Inv(r.assembly) && (r.synReceived || seg.header.syn) && !r.assembly.output.ended
    requires var index := StreamIndex(NoteSyn(r, seg.header), seg.header);
             index + |seg.payload| < TWO_64 && index + 1 <= q < index + 1 + |seg.payload|
    ensures Knows(SegmentReceived(r, seg).assembly, q - 1) <==>
            Knows(r.assembly, q - 1) || AckPoint(r) <= q < AckPoint(r) + WindowSize(r)
  {
    hide Push, Accepted, StreamIndex, Inv, Knows;
    var index := StreamIndex(NoteSyn(r, seg.header), seg.header);
    PushKnows(r.assembly, seg.payload, index, seg.header.fin);
    AcceptedIffInWindow(r.assembly, seg.payload, index, q - 1);
  }

  /** The right edge of the window is fixed by what was read; arriving segments never move it left. */
  lemma RightEdge(r: Receiver, seg: Segment, len: nat)
    ensures AckPoint(r) + WindowSize(r) ==
            1 + r.assembly.output.popped + r.assembly.output.capacity + (if r.assembly.output.ended then 1 else 0)
    ensures AckPoint(r) + WindowSize(r) <= AckPoint(SegmentReceived(r, seg)) + WindowSize(SegmentReceived(r, seg))
    ensures AckPoint(r) + WindowSize(r) <= AckPoint(ReadInbound(r, len)) + WindowSize(ReadInbound(r, len))
  {
    hide StreamIndex, Accepted, Advance, Run;
    var r1 := NoteSyn(r, seg.header);
    if r1.synReceived {
      AdvanceShape(Arrived(r1.assembly, seg.payload, StreamIndex(r1, seg.header), seg.header.fin));
    }
  }

  // The bytes among the first `next` numbers of a direction.
  function SentBytes(written: seq<Byte>, next: nat): seq<Byte> {
    written[..if next == 0 then 0 else Min(|written|, next - 1)]
  }

  /**
   The receiver tracks a peer whose initial number is `isn` and who has sent the numbers below `next` of the
   image of `written`: it holds only bytes of the peer at their own indices, and believes in an end only if
   the peer has sent its FIN there.
   */
  ghost predicate Tracks(r: Receiver, isn: U32, written: seq<Byte>, ended: bool, next: nat) {
    && Inv(r.assembly)
    && Agrees(r.assembly, SentBytes(written, next))
    && (r.synReceived ==> r.isn == isn && 1 <= next)
    && (!r.synReceived ==> First(r.assembly) == 0 && r.assembly.held == map[] && r.assembly.eofAt.None?)
    && (r.assembly.eofAt.Some? ==> ended && r.assembly.eofAt.value == |written| && next == |written| + 2)
  }

  /** A segment as the peer sends it: a slice of its image, numbered by its true absolute number `at`. */
  ghost predicate Honest(at: nat, seg: Segment, isn: U32, written: seq<Byte>, ended: bool, next: nat) {
    && at + Length(seg) <= next
    && seg.header.seqno == Wrap(at % TWO_64, isn)
    && Slice(Image(written, ended), at, seg)
    && (Length(seg) == 0 ==> 1 <= at)
  }

  lemma SentBytesGrow(written: seq<Byte>, next: nat, written': seq<Byte>, next': nat)
    requires written <= written' && next <= next'
    ensures SentBytes(written, next) <= SentBytes(written', next')
  {
  }

  lemma AgreesWithLonger(a: Assembly, s: seq<Byte>, s': seq<Byte>)
    requires Agrees(a, s) && s <= s'
    ensures Agrees(a, s')
  {
  }

  lemma PushNothingAgrees(a: Assembly, index: U64, s: seq<Byte>)
    requires Agrees(a, s)
    ensures Agrees(Push(a, [], index, false), s)
  {
    if !a.output.ended {
      assert Arrived(a, [], index, false) == a;
      AdvanceAgrees(a, s);
    }
  }

  lemma PushEofAt(a: Assembly, data: seq<Byte>, index: U64, eof: bool)
    requires index + |data| < TWO_64
    ensures Push(a, data, index, eof).eofAt == if eof && !a.output.ended then Some(index + |data|) else a.eofAt
  {
    assert (index + |data|) % TWO_64 == index + |data|;
  }

  // Within the age bound the receiver recovers the true number, and so the true stream index.
  lemma TrueIndex(r: Receiver, at: nat, seg: Segment, isn: U32)
    requires at < TWO_64 && First(r.assembly) + 1 < TWO_64 && Distance(at, First(r.assembly) + 1) < TWO_31
    requires r.isn == isn && seg.header.seqno == Wrap(at % TWO_64, isn)
    requires seg.header.syn || 1 <= at
    ensures StreamIndex(r, seg.header) == PayloadIndex(at, seg)
  {
    hide Wrap, Unwrap;
    assert at % TWO_64 == at && (First(r.assembly) + 1) % TWO_64 == First(r.assembly) + 1;
    UnwrapInvertsWrap(at, isn, First(r.assembly) + 1);
  }

  /**
   Whoever sent it: the payload of a segment whose true number `at` is less than 2^31 from the next one needed
   is taken in at that number, exactly where it lies inside [ackno, ackno + window).
   */
  lemma NumbersAreTakenIn(r: Receiver, seg: Segment, at: nat, q: nat)
    requires Inv(r.assembly) && (r.synReceived || seg.header.syn) && !r.assembly.output.ended
    requires seg.header.seqno == Wrap(at % TWO_64, if seg.header.syn then seg.header.seqno else r.isn)
    requires at + Length(seg) < TWO_64 && First(r.assembly) + 1 < TWO_64
    requires Distance(at, First(r.assembly) + 1) < TWO_31 && (seg.header.syn || 1 <= at)
    requires var lo := if seg.header.syn then at + 1 else at;
             lo <= q < lo + |seg.payload|
    ensures Knows(SegmentReceived(r, seg).assembly, q - 1) <==>
            Knows(r.assembly, q - 1) || AckPoint(r) <= q < AckPoint(r) + WindowSize(r)
  {
    hide Inv, Knows, Wrap, SegmentReceived;
    TrueIndex(NoteSyn(r, seg.header), at, seg, NoteSyn(r, seg.header).isn);
    AdvertisedWindowIsAccepted(r, seg, q);
  }

  /** A segment numbered like the SYN but without it brings no byte; a FIN on it ends the stream one short. */
  lemma StrayAtIsn(r: Receiver, seg: Segment, i: nat)
    requires Inv(r.assembly) && r.synReceived && !seg.header.syn && !r.assembly.output.ended
    requires seg.header.seqno == r.isn && First(r.assembly) + 1 < TWO_31 && WindowEnd(r.assembly) < TWO_64
    ensures Knows(SegmentReceived(r, seg).assembly, i) <==> Knows(r.assembly, i)
    ensures SegmentReceived(r, seg).assembly.eofAt ==
            if seg.header.fin then Some((|seg.payload| - 1) % TWO_64) else r.assembly.eofAt
  {
    hide Inv, Knows, Wrap, Unwrap;
    WrapOfZero(r.isn);
    UnwrapInvertsWrap(0, r.isn, First(r.assembly) + 1);
    assert StreamIndex(r, seg.header) == TWO_64 - 1;
    PushKnows(r.assembly, seg.payload, TWO_64 - 1, seg.header.fin);
  }

  lemma HonestPayload(at: nat, seg: Segment, isn: U32, written: seq<Byte>, ended: bool, next: nat)
    requires Honest(at, seg, isn, written, ended, next) && Length(seg) > 0
    ensures seg.header.syn <==> at == 0
    ensures var index, sent := PayloadIndex(at, seg), SentBytes(written, next);
            0 <= index && index + |seg.payload| <= |sent| && seg.payload == sent[index..index + |seg.payload|]
    ensures seg.header.fin ==> ended && PayloadIndex(at, seg) + |seg.payload| == |written| && |written| + 2 <= next
  {
    SliceMeans(written, ended, at, seg);
    var index, sent := PayloadIndex(at, seg), SentBytes(written, next);
    assert sent[index..index + |seg.payload|] == written[index..index + |seg.payload|];
  }

  // The case of a segment that reaches the reassembler.
  lemma PushTracks(r: Receiver, at: nat, seg: Segment, isn: U32, written: seq<Byte>, ended: bool, next: nat)
    requires Tracks(r, isn, written, ended, next) && Honest(at, seg, isn, written, ended, next)
    requires next <= |written| + 2 < TWO_64
    requires r.synReceived || seg.header.syn
    ensures var index := PayloadIndex(at, seg);
            && 0 <= index < TWO_64
            && Tracks(r.(synReceived := true, isn := isn, assembly := Push(r.assembly, seg.payload, index, seg.header.fin)),
                      isn, written, ended, next)
  {
    hide Push, Inv, Agrees, Wrap, Slice, Symbols, Image;
    var index, sent := PayloadIndex(at, seg), SentBytes(written, next);
    if Length(seg) > 0 {
      HonestPayload(at, seg, isn, written, ended, next);
      PushAgrees(r.assembly, seg.payload, index, seg.header.fin, sent);
    } else {
      assert seg.payload == [];
      PushNothingAgrees(r.assembly, index, sent);
    }
    PushKeepsInv(r.assembly, seg.payload, index, seg.header.fin);
    PushEofAt(r.assembly, seg.payload, index, seg.header.fin);
  }

  /** An honest segment within the age bound keeps the receiver on track. */
  lemma ReceiveTracks(r: Receiver, at: nat, seg: Segment, isn: U32, written: seq<Byte>, ended: bool, next: nat)
    requires Tracks(r, isn, written, ended, next) && Honest(at, seg, isn, written, ended, next)
    requires next <= |written| + 2 < TWO_64 && Distance(at, First(r.assembly) + 1) < TWO_31
    ensures Tracks(SegmentReceived(r, seg), isn, written, ended, next)
  {
    hide Push, Inv, Agrees, Wrap, Slice, Symbols, Image, StreamIndex;
    var r1 := NoteSyn(r, seg.header);
    if r1.synReceived {
      if seg.header.syn {
        HonestPayload(at, seg, isn, written, ended, next);
        WrapOfZero(isn);
      }
      PushTracks(r, at, seg, isn, written, ended, next);
      FirstWithinSent(r, isn, written, ended, next);
      TrueIndex(r1, at, seg, isn);
    }
  }

  lemma FirstWithinSent(r: Receiver, isn: U32, written: seq<Byte>, ended: bool, next: nat)
    requires Tracks(r, isn, written, ended, next)
    ensures First(r.assembly) <= |written|
  {
  }

  lemma WrapOfZero(isn: U32)
    ensures Wrap(0, isn) == isn
  {
  }

  /** A receiver never acknowledges more than the peer has sent. */
  lemma AckPointWithinSent(r: Receiver, isn: U32, written: seq<Byte>, ended: bool, next: nat)
    requires Tracks(r, isn, written, ended, next) && r.synReceived
    ensures AckPoint(r) <= next
  {
  }

  lemma AckPointGrows(r: Receiver, seg: Segment)
    ensures AckPoint(r) <= AckPoint(SegmentReceived(r, seg))
    ensures r.synReceived ==> SegmentReceived(r, seg).synReceived
  {
    hide StreamIndex, Accepted, Advance, Run;
    var r1 := NoteSyn(r, seg.header);
    if r1.synReceived {
      AdvanceShape(Arrived(r1.assembly, seg.payload, StreamIndex(r1, seg.header), seg.header.fin));
    }
  }
}
