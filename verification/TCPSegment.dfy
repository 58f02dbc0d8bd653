/** TCP segments and the sequence space they occupy (section 3.3 of RFC 793). */
module Segments {
  import opened Common

  datatype Header = Header(
    sport: U16, dport: U16, seqno: U32, ackno: U32, doff: Byte,
    urg: bool, ack: bool, psh: bool, rst: bool, syn: bool, fin: bool,
    win: U16, cksum: U16, uptr: U16)

  // The header a C++ `TCPHeader{}` starts out as, with a sequence number.
  function DefaultHeader(seqno: U32): Header {
    Header(0, 0, seqno, 0, 5, false, false, false, false, false, false, 0, 0, 0)
  }

  datatype Segment = Segment(header: Header, payload: seq<Byte>)

  function Length(seg: Segment): nat {
    |seg.payload| + (if seg.header.syn then 1 else 0) + (if seg.header.fin then 1 else 0)
  }

  /** One place in the sequence space of a connection's direction. */
  datatype Symbol = Syn | Data(value: Byte) | Fin

  function DataSymbols(s: seq<Byte>): seq<Symbol> {
    seq(|s|, i requires 0 <= i < |s| => Data(s[i]))
  }

  function Symbols(seg: Segment): (s: seq<Symbol>)
    ensures |s| == Length(seg)
  {
    (if seg.header.syn then [Syn] else []) + DataSymbols(seg.payload) + (if seg.header.fin then [Fin] else [])
  }

  /** Everything a direction will ever put into its sequence space, given all the bytes written. */
  function Image(written: seq<Byte>, ended: bool): (s: seq<Symbol>)
    ensures |s| == 1 + |written| + (if ended then 1 else 0)
  {
    [Syn] + DataSymbols(written) + (if ended then [Fin] else [])
  }

  /** `seg` carries the symbols of `image` that start at absolute number `at`. */
  ghost predicate Slice(image: seq<Symbol>, at: nat, seg: Segment) {
    at + Length(seg) <= |image| && Symbols(seg) == image[at..at + Length(seg)]
  }

  lemma SliceOfPrefix(image: seq<Symbol>, longer: seq<Symbol>, at: nat, seg: Segment)
    requires Slice(image, at, seg) && image <= longer
    ensures Slice(longer, at, seg)
  {
    assert longer[at..at + Length(seg)] == image[at..at + Length(seg)];
  }

  lemma ImageAt(written: seq<Byte>, ended: bool, i: nat)
    requires i < |Image(written, ended)|
    ensures Image(written, ended)[i] ==
            if i == 0 then Syn else if i <= |written| then Data(written[i - 1]) else Fin
  {
  }

  lemma SymbolAt(seg: Segment, i: nat)
    requires i < Length(seg)
    ensures var shift := if seg.header.syn then 1 else 0;
            Symbols(seg)[i] ==
            if i < shift then Syn else if i < shift + |seg.payload| then Data(seg.payload[i - shift]) else Fin
  {
  }

  lemma SliceAt(written: seq<Byte>, ended: bool, at: nat, seg: Segment, i: nat)
    requires Slice(Image(written, ended), at, seg) && i < Length(seg)
    ensures var shift := if seg.header.syn then 1 else 0;
            (if i < shift then Syn else if i < shift + |seg.payload| then Data(seg.payload[i - shift]) else Fin) ==
            (if at + i == 0 then Syn else if at + i <= |written| then Data(written[at + i - 1]) else Fin)
  {
    SymbolAt(seg, i);
    ImageAt(written, ended, at + i);
    assert Symbols(seg)[i] == Image(written, ended)[at..at + Length(seg)][i];
  }

  // The stream index of the first payload byte of a segment at absolute number `at`.
  function PayloadIndex(at: nat, seg: Segment): int {
    if seg.header.syn then at else at - 1
  }

  /** What a slice of an image says about flags and payload. */
  lemma SliceMeans(written: seq<Byte>, ended: bool, at: nat, seg: Segment)
    requires Slice(Image(written, ended), at, seg) && Length(seg) > 0
    ensures seg.header.syn <==> at == 0
    ensures var index := PayloadIndex(at, seg);
            && 0 <= index && index + |seg.payload| <= |written|
            && seg.payload == written[index..index + |seg.payload|]
            && (seg.header.fin ==> ended && index + |seg.payload| == |written|)
  {
    var index := PayloadIndex(at, seg);
    SliceAt(written, ended, at, seg, 0);
    SliceAt(written, ended, at, seg, Length(seg) - 1);
    var shift := if seg.header.syn then 1 else 0;
    if seg.payload != [] {
      SliceAt(written, ended, at, seg, shift + |seg.payload| - 1);
    }
    forall i | 0 <= i < |seg.payload|
      ensures seg.payload[i] == written[index + i]
    {
      SliceAt(written, ended, at, seg, shift + i);
    }
  }
}
