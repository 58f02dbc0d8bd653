/** TCP segments inside IPv4 datagrams. */
module TcpOverIp {
  import opened Common
  import opened Segments
  import opened Datagrams
  import opened Parsers
  import opened Checksums
  import Tcp = TcpWire
  import Ip = IPv4Wire

  const PROTO_TCP: Byte := 6

  datatype Socket = Socket(ip: IP, port: U16)

  datatype Adapter = Adapter(source: Socket, destination: Socket, listening: bool)

  // The pseudo-header's part of the TCP checksum.
  function PseudoChecksum(h: IPv4Header): (r: U32)
    ensures r <= 327930
  {
    var src, dst := Ip.Number(h.src), Ip.Number(h.dst);
    src / 0x1_0000 + src % 0x1_0000 + dst / 0x1_0000 + dst % 0x1_0000 + h.proto + PayloadLength(h)
  }

  // The pseudo-header of section 3.1 of RFC 793: both addresses, a zero, the protocol, the TCP length.
  function PseudoHeader(h: IPv4Header): seq<Byte> {
    (ToBytes(Ip.Number(h.src), 4) + ToBytes(Ip.Number(h.dst), 4)) + (ToBytes(h.proto, 2) + ToBytes(PayloadLength(h), 2))
  }

  /** The number the source starts the TCP checksum from is the sum of the pseudo-header. */
  lemma PseudoHeaderSum(h: IPv4Header)
    ensures PseudoChecksum(h) == WordSum(PseudoHeader(h), false)
  {
    hide WordSum, ToBytes, Ip.Number, PayloadLength;
    var src, dst, tail := ToBytes(Ip.Number(h.src), 4), ToBytes(Ip.Number(h.dst), 4), ToBytes(h.proto, 2);
    Tcp.FourBytesSum(Ip.Number(h.src));
    Tcp.FourBytesSum(Ip.Number(h.dst));
    Tcp.WordSumOfWord(h.proto);
    Tcp.WordSumOfWord(PayloadLength(h));
    WordSumConcat(src, dst, false);
    WordSumConcat(tail, ToBytes(PayloadLength(h), 2), false);
    WordSumConcat(src + dst, tail + ToBytes(PayloadLength(h), 2), false);
  }

  function Addressed(a: Adapter, seg: Segment): Segment {
    seg.(header := seg.header.(sport := a.source.port, dport := a.destination.port))
  }

  function WrapHeader(a: Adapter, seg: Segment): IPv4Header {
    Ip.DefaultHeader().(src := a.source.ip, dst := a.destination.ip,
                        len := (20 + seg.header.doff * 4 + |seg.payload|) % TWO_16)
  }

  // `None`: the source throws.
  function WrapTcpInIp(a: Adapter, seg: Segment): Option<Datagram> {
    var h := WrapHeader(a, seg);
    var wire := Tcp.SerializeSegment(Addressed(a, seg), PseudoChecksum(h));
    if wire.None? then None else Some(Datagram(h, wire.value))
  }

  function Rejected(a: Adapter): (Adapter, Option<Segment>) {
    (a, None)
  }

  function UnwrapTcpInIp(a: Adapter, d: Datagram): (Adapter, Option<Segment>) {
    if !a.listening && d.header.dst != a.source.ip then Rejected(a)
    else if !a.listening && d.header.src != a.destination.ip then Rejected(a)
    else if d.header.proto != PROTO_TCP then Rejected(a)
    else
      var p := Tcp.ParseSegment(d.payload, PseudoChecksum(d.header));
      var h := p.segment.header;
      if p.result != NoError then Rejected(a)
      else if h.dport != a.source.port then Rejected(a)
      else if a.listening && !(h.syn && !h.rst) then Rejected(a)
      else
        var a1 := if a.listening then
                    Adapter(Socket(d.header.dst, a.source.port), Socket(d.header.src, h.sport), false)
                  else a;
        if h.sport != a1.destination.port then Rejected(a1) else (a1, Some(p.segment))
  }

  /**
   Whatever the datagram: a segment comes out exactly if the datagram says it carries TCP, its payload parses
   as a segment for our port, and it is from our peer to us or, while we listen, a SYN that is no reset. It is
   then the one parsed, and a listening adapter is bound to its two ends; otherwise nothing changes.
   */
  lemma UnwrapsIff(a: Adapter, d: Datagram)
    ensures var (a', seg) := UnwrapTcpInIp(a, d);
            var p := Tcp.ParseSegment(d.payload, PseudoChecksum(d.header));
            var h := p.segment.header;
            && (seg.Some? <==>
                  && d.header.proto == 6 && p.result == NoError && h.dport == a.source.port
                  && if a.listening then h.syn && !h.rst
                     else d.header.dst == a.source.ip && d.header.src == a.destination.ip && h.sport == a.destination.port)
            && (seg.Some? ==> seg.value == p.segment)
            && a' == if seg.Some? && a.listening
                     then Adapter(Socket(d.header.dst, a.source.port), Socket(d.header.src, h.sport), false) else a
  {
    hide Tcp.ParseSegment, PseudoChecksum;
  }

  predicate Fits(seg: Segment) {
    5 <= seg.header.doff <= 15 && 20 + 4 * seg.header.doff + |seg.payload| < 0x1_0000
  }

  // The peer listens on our destination port, or is connected to us.
  predicate Reaches(a: Adapter, b: Adapter, seg: Segment) {
    && b.source.port == a.destination.port
    && if b.listening then seg.header.syn && !seg.header.rst
       else b.source.ip == a.destination.ip && b.destination == a.source
  }

  /** The datagram goes from our address to the peer's, with a TTL of 128, whole and not to be fragmented. */
  lemma WrappedIsWellFormed(a: Adapter, seg: Segment)
    requires Fits(seg)
    ensures var d := WrapTcpInIp(a, seg);
            && d.Some? && Ip.WellFormed(d.value)
            && var h := d.value.header;
               && h.src == a.source.ip && h.dst == a.destination.ip && h.proto == 6 && h.ttl == 128
               && h.hlen == 5 && h.tos == 0 && h.id == 0 && h.df && !h.mf && h.offset == 0
               && |d.value.payload| == 4 * seg.header.doff + |seg.payload|
  {
    hide WordSum, Checksum;
    var n := 20 + seg.header.doff * 4 + |seg.payload|;
    assert n % TWO_16 == n;
  }

  // A listening adapter binds itself to the segment that opens the connection.
  function Bound(a: Adapter, b: Adapter): Adapter {
    if b.listening then Adapter(Socket(a.destination.ip, b.source.port), a.source, false) else b
  }

  /**
   A segment wrapped in a datagram, serialized and parsed is unwrapped at another endpoint exactly if it is
   meant for it. It comes out with every field and the payload unchanged, apart from the ports it was given
   and the checksum, and a listening endpoint is then connected to the sender; any other is left as it was.
   */
  lemma TcpInIpRoundTrip(a: Adapter, b: Adapter, seg: Segment)
    requires Fits(seg)
    ensures var d := WrapTcpInIp(a, seg);
            d.Some? &&
            var wire := Ip.Serialize(d.value);
            wire.Some? &&
            var parsed := Ip.Parse(wire.value);
            parsed.result == NoError &&
            exists c: U16 ::
              UnwrapTcpInIp(b, parsed.datagram) ==
              if Reaches(a, b, seg) then
                (Bound(a, b), Some(Addressed(a, seg).(header := Addressed(a, seg).header.(cksum := c))))
              else
                (b, None)
  {
    hide WordSum, Checksum, Tcp.HeaderBytes, Ip.HeaderBytes, Tcp.ParseSegment, Ip.Parse, Tcp.SerializeSegment, Ip.Serialize,
         Ip.ParseHeader, PseudoChecksum;
    var out, h := Addressed(a, seg), WrapHeader(a, seg);
    WrappedIsWellFormed(a, seg);
    var d := WrapTcpInIp(a, seg).value;
    Ip.DatagramRoundTrip(d);
    var parsed := Ip.Parse(Ip.Serialize(d).value).datagram;
    SamePseudo(h, parsed.header);
    Tcp.SegmentRoundTrip(out, PseudoChecksum(h));
  }

  lemma SamePseudo(h: IPv4Header, h': IPv4Header)
    requires h' == h.(cksum := h'.cksum)
    ensures PseudoChecksum(h') == PseudoChecksum(h)
  {
    hide Ip.Number;
  }
}
