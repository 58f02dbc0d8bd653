/** Parsing and serializing step by step, against the wire formats. */
module WireMethods {
  import opened Common
  import opened Segments
  import opened Datagrams
  import opened Parsers
  import opened Checksums
  import Tcp = TcpWire
  import Ip = IPv4Wire

  // Grow `s` with zeros to `size` bytes.
  method Resize(s: seq<Byte>, size: nat) returns (r: seq<Byte>)
    requires |s| <= size
    ensures r == s + Tcp.Zeros(size - |s|)
  {
    r := s;
    assert s + [] == s;
    for i := |s| to size
      invariant |r| == i && r == s + Tcp.Zeros(i - |s|)
    {
      ZerosAppend(i - |s|);
      r := r + [0];
    }
  }

  lemma {:induction false} ZerosAppend(n: nat)
    ensures Tcp.Zeros(n + 1) == Tcp.Zeros(n) + [0]
  {
    if n > 0 {
      ZerosAppend(n - 1);
    }
  }

  // TCP

  method SerializeTcpFront(h: Header) returns (r: seq<Byte>)
    ensures r == Tcp.Front(h)
  {
    hide ToBytes, Tcp.FlagByte;
    r := UnparseInt([], h.sport, 2);
    assert [] + ToBytes(h.sport, 2) == ToBytes(h.sport, 2);
    r := UnparseInt(r, h.dport, 2);
    r := UnparseInt(r, h.seqno, 4);
    r := UnparseInt(r, h.ackno, 4);
    r := UnparseInt(r, (h.doff * 16) % 256, 1);
    r := UnparseInt(r, Tcp.FlagByte(h), 1);
    r := UnparseInt(r, h.win, 2);
  }

  method SerializeTcpHeader(h: Header) returns (r: Option<seq<Byte>>)
    ensures r == if h.doff < 5 then None else Some(Tcp.HeaderBytes(h))
  {
    hide ToBytes, Tcp.Zeros, Tcp.Front;
    if h.doff < 5 {
      return None;
    }
    var bytes := SerializeTcpFront(h);
    bytes := UnparseInt(bytes, h.cksum, 2);
    bytes := UnparseInt(bytes, h.uptr, 2);
    bytes := Resize(bytes, 4 * h.doff);
    return Some(bytes);
  }

  method ParseTcpHeader(p: NetParser) returns (h: Header, result: ParseResult)
    modifies p
    ensures Tcp.ParseHeader(old(p.Value())) == Tcp.ParsedHeader(h, p.Value(), result)
  {
    hide IntOf, Past;
    var sport := p.ParseInt(2);
    var dport := p.ParseInt(2);
    var seqno := p.ParseInt(4);
    var ackno := p.ParseInt(4);
    var offset := p.ParseInt(1);
    var fl := p.ParseInt(1);
    var win := p.ParseInt(2);
    var cksum := p.ParseInt(2);
    var uptr := p.ParseInt(2);
    h := Header(sport, dport, seqno, ackno, offset / 16,
                fl / 32 % 2 == 1, fl / 16 % 2 == 1, fl / 8 % 2 == 1, fl / 4 % 2 == 1, fl / 2 % 2 == 1, fl % 2 == 1,
                win, cksum, uptr);
    if h.doff < 5 {
      return h, HeaderTooShort;
    }
    p.RemovePrefix(h.doff * 4 - 20);
    result := p.error;
  }

  method SerializeSegment(seg: Segment, pseudo: U32) returns (r: Option<seq<Byte>>)
    ensures r == Tcp.SerializeSegment(seg, pseudo)
  {
    hide WordSum, Tcp.HeaderBytes, Checksum;
    var zeroed := SerializeTcpHeader(seg.header.(cksum := 0));
    if zeroed.None? {
      return None;
    }
    var check := new InternetChecksum(pseudo);
    check.Add(zeroed.value);
    check.Add(seg.payload);
    var cksum := check.Value();
    var header := SerializeTcpHeader(seg.header.(cksum := cksum));
    return Some(header.value + seg.payload);
  }

  method ParseSegment(buffer: seq<Byte>, pseudo: U32) returns (seg: Segment, result: ParseResult)
    ensures Tcp.ParsedSegment(seg, result) == Tcp.ParseSegment(buffer, pseudo)
  {
    hide WordSum, Checksum, Tcp.ParseHeader;
    var check := new InternetChecksum(pseudo);
    check.Add(buffer);
    var value := check.Value();
    if value != 0 {
      return Segment(DefaultHeader(0), []), BadChecksum;
    }
    var p := new NetParser(buffer);
    var h, ignored := ParseTcpHeader(p);
    return Segment(h, p.buffer), p.error;
  }

  // IPv4

  method SerializeIPv4Front(h: IPv4Header) returns (r: seq<Byte>)
    ensures r == Ip.Front(h)
  {
    hide ToBytes, Ip.FragmentWord;
    r := UnparseInt([], (h.ver * 16) % 256 + h.hlen % 16, 1);
    assert [] + ToBytes((h.ver * 16) % 256 + h.hlen % 16, 1) == ToBytes((h.ver * 16) % 256 + h.hlen % 16, 1);
    r := UnparseInt(r, h.tos, 1);
    r := UnparseInt(r, h.len, 2);
    r := UnparseInt(r, h.id, 2);
    r := UnparseInt(r, Ip.FragmentWord(h), 2);
    r := UnparseInt(r, h.ttl, 1);
    r := UnparseInt(r, h.proto, 1);
  }

  method SerializeIPv4Header(h: IPv4Header) returns (r: Option<seq<Byte>>)
    ensures r == if h.ver != 4 || h.hlen < 5 then None else Some(Ip.HeaderBytes(h))
  {
    hide ToBytes, Tcp.Zeros, Ip.Front, Ip.Number;
    if h.ver != 4 || 4 * h.hlen < 20 {
      return None;
    }
    var bytes := SerializeIPv4Front(h);
    bytes := UnparseInt(bytes, h.cksum, 2);
    bytes := UnparseInt(bytes, Ip.Number(h.src), 4);
    bytes := UnparseInt(bytes, Ip.Number(h.dst), 4);
    bytes := Resize(bytes, 4 * h.hlen);
    return Some(bytes);
  }

  method ParseIPv4Fields(p: NetParser) returns (h: IPv4Header)
    modifies p
    ensures Ip.ParseFields(old(p.Value())) == (h, p.Value())
  {
    hide IntOf, Past, Ip.Address;
    var first := p.ParseInt(1);
    var tos := p.ParseInt(1);
    var len := p.ParseInt(2);
    var id := p.ParseInt(2);
    var fo := p.ParseInt(2);
    var ttl := p.ParseInt(1);
    var proto := p.ParseInt(1);
    var cksum := p.ParseInt(2);
    var src := p.ParseInt(4);
    var dst := p.ParseInt(4);
    h := IPv4Header(first / 16, first % 16, tos, len, id, fo / 0x4000 % 2 == 1, fo / 0x2000 % 2 == 1, fo % 0x2000,
                    ttl, proto, cksum, Ip.Address(src), Ip.Address(dst));
  }

  method ParseIPv4Header(p: NetParser) returns (h: IPv4Header, result: ParseResult)
    modifies p
    ensures Ip.ParseHeader(old(p.Value())) == Ip.ParsedHeader(h, p.Value(), result)
  {
    hide Ip.ParseFields, WordSum, Checksum, Past;
    var original := p.buffer;
    if |original| < 20 {
      return Ip.DefaultHeader(), PacketTooShort;
    }
    h := ParseIPv4Fields(p);
    if |original| < 4 * h.hlen {
      return h, PacketTooShort;
    }
    if h.ver != 4 {
      return h, WrongIPVersion;
    }
    if h.hlen < 5 {
      return h, HeaderTooShort;
    }
    if |original| != h.len {
      return h, TruncatedPacket;
    }
    p.RemovePrefix(h.hlen * 4 - 20);
    if p.error != NoError {
      return h, p.error;
    }
    var check := new InternetChecksum(0);
    check.Add(original[..4 * h.hlen]);
    var value := check.Value();
    return h, if value != 0 then BadChecksum else NoError;
  }

  method SerializeDatagram(d: Datagram) returns (r: Option<seq<Byte>>)
    ensures r == Ip.Serialize(d)
  {
    hide WordSum, Ip.HeaderBytes, Checksum;
    if |d.payload| != PayloadLength(d.header) {
      return None;
    }
    var zeroed := SerializeIPv4Header(d.header.(cksum := 0));
    if zeroed.None? {
      return None;
    }
    var check := new InternetChecksum(0);
    check.Add(zeroed.value);
    var cksum := check.Value();
    var header := SerializeIPv4Header(d.header.(cksum := cksum));
    return Some(header.value + d.payload);
  }

  method ParseDatagram(buffer: seq<Byte>) returns (d: Datagram, result: ParseResult)
    ensures Ip.ParsedDatagram(d, result) == Ip.Parse(buffer)
  {
    hide Ip.ParseHeader;
    var p := new NetParser(buffer);
    var h, ignored := ParseIPv4Header(p);
    d := Datagram(h, p.buffer);
    result := if |d.payload| != PayloadLength(h) then PacketTooShort else p.error;
  }
}
