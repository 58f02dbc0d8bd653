/** The IPv4 datagram on the wire (section 3.1 of RFC 791). */
module IPv4Wire {
  import opened Common
  import opened Datagrams
  import opened Parsers
  import opened Checksums
  import Tcp = TcpWire

  function Number(a: IP): U32 {
    a.bits as int
  }

  function Address(n: U32): IP {
    IP(n as bv32)
  }

  lemma AddressOfNumber(a: IP)
    ensures Address(Number(a)) == a
  {
  }

  // Flags and fragment offset share 16 bits.
  function FragmentWord(h: IPv4Header): U16 {
    Tcp.Bit(h.df, 0x4000) + Tcp.Bit(h.mf, 0x2000) + h.offset % 0x2000
  }

  // The fixed part of the header, up to the checksum.
  function Front(h: IPv4Header): (bs: seq<Byte>)
    ensures |bs| == 10
  {
    ToBytes((h.ver * 16) % 256 + h.hlen % 16, 1) + ToBytes(h.tos, 1) + ToBytes(h.len, 2) + ToBytes(h.id, 2)
    + ToBytes(FragmentWord(h), 2) + ToBytes(h.ttl, 1) + ToBytes(h.proto, 1)
  }

  function HeaderBytes(h: IPv4Header): (bs: seq<Byte>)
    requires 5 <= h.hlen
    ensures |bs| == 4 * h.hlen
  {
    Front(h) + ToBytes(h.cksum, 2) + ToBytes(Number(h.src), 4) + ToBytes(Number(h.dst), 4) + Tcp.Zeros(4 * h.hlen - 20)
  }

  function DefaultHeader(): IPv4Header {
    IPv4Header(4, 5, 0, 0, 0, true, false, 0, 128, 6, 0, IP(0), IP(0))
  }

  datatype ParsedHeader = ParsedHeader(header: IPv4Header, rest: Input, result: ParseResult)

  // The fields in order; the input must hold at least the fixed part.
  function ParseFields(p0: Input): (IPv4Header, Input) {
    var first := IntOf(p0, 1);
    var p1 := Past(p0, 1);
    var p2 := Past(p1, 1);
    var p3 := Past(p2, 2);
    var p4 := Past(p3, 2);
    var fo := IntOf(p4, 2);
    var p5 := Past(p4, 2);
    var p6 := Past(p5, 1);
    var p7 := Past(p6, 1);
    var p8 := Past(p7, 2);
    var p9 := Past(p8, 4);
    (IPv4Header(first / 16, first % 16, IntOf(p1, 1), IntOf(p2, 2), IntOf(p3, 2),
                fo / 0x4000 % 2 == 1, fo / 0x2000 % 2 == 1, fo % 0x2000,
                IntOf(p5, 1), IntOf(p6, 1), IntOf(p7, 2), Address(IntOf(p8, 4)), Address(IntOf(p9, 4))),
     Past(p9, 4))
  }

  function ParseHeader(p: Input): ParsedHeader {
    var size := |p.buffer|;
    if size < 20 then
      ParsedHeader(DefaultHeader(), p, PacketTooShort)
    else
      var (h, p1) := ParseFields(p);
      if size < 4 * h.hlen then ParsedHeader(h, p1, PacketTooShort)
      else if h.ver != 4 then ParsedHeader(h, p1, WrongIPVersion)
      else if h.hlen < 5 then ParsedHeader(h, p1, HeaderTooShort)
      else if size != h.len then ParsedHeader(h, p1, TruncatedPacket)
      else
        var p2 := Past(p1, h.hlen * 4 - 20);
        if p2.error != NoError then ParsedHeader(h, p2, p2.error)
        else if Checksum(WordSum(p.buffer[..4 * h.hlen], false) % TWO_32) != 0 then ParsedHeader(h, p2, BadChecksum)
        else ParsedHeader(h, p2, NoError)
  }

  // `None`: the source throws.
  function Serialize(d: Datagram): Option<seq<Byte>> {
    if |d.payload| != PayloadLength(d.header) || d.header.ver != 4 || d.header.hlen < 5 then
      None
    else
      var c := Checksum(WordSum(HeaderBytes(d.header.(cksum := 0)), false) % TWO_32);
      Some(HeaderBytes(d.header.(cksum := c)) + d.payload)
  }

  datatype ParsedDatagram = ParsedDatagram(datagram: Datagram, result: ParseResult)

  // The header parser's own verdict is not looked at, only the state it leaves the input in.
  function Parse(buffer: seq<Byte>): ParsedDatagram {
    var p := ParseHeader(Input(buffer, NoError));
    var d := Datagram(p.header, p.rest.buffer);
    ParsedDatagram(d, if |d.payload| != PayloadLength(d.header) then PacketTooShort else p.rest.error)
  }

  /** A header that fits its fields and announces the right length. */
  predicate WellFormed(d: Datagram) {
    && d.header.ver == 4 && 5 <= d.header.hlen <= 15 && d.header.offset < 0x2000
    && d.header.len == 4 * d.header.hlen + |d.payload|
  }

  lemma FrontThen(h: IPv4Header, t: seq<Byte>)
    ensures Front(h) + t ==
            ToBytes((h.ver * 16) % 256 + h.hlen % 16, 1) + (ToBytes(h.tos, 1) + (ToBytes(h.len, 2) + (ToBytes(h.id, 2)
            + (ToBytes(FragmentWord(h), 2) + (ToBytes(h.ttl, 1) + (ToBytes(h.proto, 1) + t))))))
  {
    hide ToBytes, FragmentWord;
    Tcp.Nest7(ToBytes((h.ver * 16) % 256 + h.hlen % 16, 1), ToBytes(h.tos, 1), ToBytes(h.len, 2), ToBytes(h.id, 2),
              ToBytes(FragmentWord(h), 2), ToBytes(h.ttl, 1), ToBytes(h.proto, 1), t);
  }

  lemma HeaderThen(h: IPv4Header, payload: seq<Byte>)
    requires 5 <= h.hlen
    ensures HeaderBytes(h) + payload ==
            Front(h) + (ToBytes(h.cksum, 2) + (ToBytes(Number(h.src), 4) + (ToBytes(Number(h.dst), 4)
            + (Tcp.Zeros(4 * h.hlen - 20) + payload))))
  {
    hide ToBytes, Front, Tcp.Zeros, Number;
    var a, b, c, d, z :=
      Front(h), ToBytes(h.cksum, 2), ToBytes(Number(h.src), 4), ToBytes(Number(h.dst), 4), Tcp.Zeros(4 * h.hlen - 20);
    Tcp.Assoc(a + b + c + d, z, payload);
    Tcp.Assoc(a + b + c, d, z + payload);
    Tcp.Assoc(a + b, c, d + (z + payload));
    Tcp.Assoc(a, b, c + (d + (z + payload)));
  }

  lemma FragmentReadsBack(h: IPv4Header)
    requires h.offset < 0x2000
    ensures var fo := FragmentWord(h);
            (fo / 0x4000 % 2 == 1) == h.df && (fo / 0x2000 % 2 == 1) == h.mf && fo % 0x2000 == h.offset
  {
  }

  lemma FrontFields(h: IPv4Header, t: seq<Byte>)
    ensures var w := Front(h) + t;
            && Tcp.Field(w, 0, 1) == (h.ver * 16) % 256 + h.hlen % 16 && Tcp.Field(w, 1, 1) == h.tos
            && Tcp.Field(w, 2, 2) == h.len && Tcp.Field(w, 4, 2) == h.id && Tcp.Field(w, 6, 2) == FragmentWord(h)
            && Tcp.Field(w, 8, 1) == h.ttl && Tcp.Field(w, 9, 1) == h.proto
  {
    hide ToBytes, Tcp.Field, FragmentWord, Front;
    FrontThen(h, t);
    var first := (h.ver * 16) % 256 + h.hlen % 16;
    var b3 := ToBytes(FragmentWord(h), 2) + (ToBytes(h.ttl, 1) + (ToBytes(h.proto, 1) + t));
    var b2 := ToBytes(h.id, 2) + b3;
    var a := ToBytes(first, 1) + ToBytes(h.tos, 1) + ToBytes(h.len, 2);
    Tcp.ThreeFields(first, 1, h.tos, 1, h.len, 2, b2);
    Tcp.Assoc(ToBytes(first, 1), ToBytes(h.tos, 1), ToBytes(h.len, 2) + b2);
    Tcp.Assoc(ToBytes(first, 1) + ToBytes(h.tos, 1), ToBytes(h.len, 2), b2);
    Tcp.FieldOf(a, h.id, 2, b3);
    Tcp.ThreeFields(FragmentWord(h), 2, h.ttl, 1, h.proto, 1, t);
    Tcp.Assoc(a, ToBytes(h.id, 2), b3);
    Tcp.FieldBehind(a + ToBytes(h.id, 2), b3, 0, 2);
    Tcp.FieldBehind(a + ToBytes(h.id, 2), b3, 2, 1);
    Tcp.FieldBehind(a + ToBytes(h.id, 2), b3, 3, 1);
  }

  lemma TailFields(front: seq<Byte>, h: IPv4Header, t: seq<Byte>)
    requires |front| == 10
    ensures var w := front + (ToBytes(h.cksum, 2) + (ToBytes(Number(h.src), 4) + (ToBytes(Number(h.dst), 4) + t)));
            && Tcp.Field(w, 10, 2) == h.cksum && Tcp.Field(w, 12, 4) == Number(h.src)
            && Tcp.Field(w, 16, 4) == Number(h.dst) && w[20..] == t
  {
    hide ToBytes, Tcp.Field, Number;
    var a, b, c := ToBytes(h.cksum, 2), ToBytes(Number(h.src), 4), ToBytes(Number(h.dst), 4);
    Tcp.FieldOf(front, h.cksum, 2, b + (c + t));
    Tcp.FieldOf(front + a, Number(h.src), 4, c + t);
    Tcp.Assoc(front, a, b + (c + t));
    Tcp.FieldOf(front + a + b, Number(h.dst), 4, t);
    Tcp.Assoc(front + a, b, c + t);
    assert (front + (a + (b + (c + t))))[20..] == t;
  }

  /** Each field lies where section 3.1 of RFC 791 puts it, followed by zeros up to the header length and the payload. */
  lemma FieldLayout(h: IPv4Header, payload: seq<Byte>)
    requires h.ver == 4 && 5 <= h.hlen <= 15 && h.offset < 0x2000
    ensures var w := HeaderBytes(h) + payload;
            && w[0] / 16 == 4 && w[0] % 16 == h.hlen && w[1] == h.tos
            && Tcp.Field(w, 2, 2) == h.len && Tcp.Field(w, 4, 2) == h.id
            && HoldsFlags(w[6], h) && Tcp.Field(w, 6, 2) % 0x2000 == h.offset
            && w[8] == h.ttl && w[9] == h.proto && Tcp.Field(w, 10, 2) == h.cksum
            && Tcp.Field(w, 12, 4) == Number(h.src) && Tcp.Field(w, 16, 4) == Number(h.dst)
            && w[20..] == Tcp.Zeros(4 * h.hlen - 20) + payload
  {
    hide ToBytes, Front, Tcp.Zeros, Tcp.Field, FragmentWord, HeaderBytes, Number, HoldsFlags;
    var w := HeaderBytes(h) + payload;
    var t := Tcp.Zeros(4 * h.hlen - 20) + payload;
    HeaderThen(h, payload);
    FrontFields(h, ToBytes(h.cksum, 2) + (ToBytes(Number(h.src), 4) + (ToBytes(Number(h.dst), 4) + t)));
    TailFields(Front(h), h, t);
    Tcp.OneByte(w, 0);
    Tcp.OneByte(w, 1);
    Tcp.OneByte(w, 8);
    Tcp.OneByte(w, 9);
    HighByte(w, 6);
    FragmentReadsBack(h);
    FragmentFlags(h, w[6], w[7]);
    FirstByte(h.hlen);
  }

  // Don't-fragment and more-fragments are bits 6 and 5.
  predicate HoldsFlags(high: Byte, h: IPv4Header) {
    (high / 64 % 2 == 1 <==> h.df) && (high / 32 % 2 == 1 <==> h.mf)
  }

  lemma FirstByte(hlen: nat)
    requires hlen <= 15
    ensures ((4 * 16) % 256 + hlen % 16) / 16 == 4 && ((4 * 16) % 256 + hlen % 16) % 16 == hlen
  {
  }

  lemma HighByte(w: seq<Byte>, at: nat)
    requires at + 1 < |w|
    ensures Tcp.Field(w, at, 2) == 256 * (w[at] as int) + (w[at + 1] as int)
  {
    var two := w[at..at + 2];
    assert two[..1] == w[at..at + 1];
    Tcp.OneByte(w, at);
  }

  lemma FragmentFlags(h: IPv4Header, high: Byte, low: Byte)
    requires h.offset < 0x2000 && FragmentWord(h) == 256 * (high as int) + (low as int)
    ensures HoldsFlags(high, h)
  {
    hide FragmentWord;
    FragmentReadsBack(h);
    var fo: int := FragmentWord(h);
    assert fo / 0x4000 == high / 64 && fo / 0x2000 == high / 32;
  }

  /** Every field of a header, whatever its checksum, and what follows it, is read back. */
  lemma FieldsReadBack(h: IPv4Header, payload: seq<Byte>)
    requires h.ver == 4 && 5 <= h.hlen <= 15 && h.offset < 0x2000
    ensures ParseFields(Input(HeaderBytes(h) + payload, NoError)) ==
            (h, Input(Tcp.Zeros(4 * h.hlen - 20) + payload, NoError))
  {
    hide ToBytes, Tcp.Zeros, Front, FragmentWord, HeaderBytes, IntOf, Past, Number, Address;
    var t10 := Tcp.Zeros(4 * h.hlen - 20) + payload;
    var t9 := ToBytes(Number(h.dst), 4) + t10;
    var t8 := ToBytes(Number(h.src), 4) + t9;
    var t7 := ToBytes(h.cksum, 2) + t8;
    var t6 := ToBytes(h.proto, 1) + t7;
    var t5 := ToBytes(h.ttl, 1) + t6;
    var t4 := ToBytes(FragmentWord(h), 2) + t5;
    var t3 := ToBytes(h.id, 2) + t4;
    var t2 := ToBytes(h.len, 2) + t3;
    var t1 := ToBytes(h.tos, 1) + t2;
    HeaderThen(h, payload);
    FrontThen(h, t7);
    ReadsBack((h.ver * 16) % 256 + h.hlen % 16, 1, t1);
    ReadsBack(h.tos, 1, t2);
    ReadsBack(h.len, 2, t3);
    ReadsBack(h.id, 2, t4);
    ReadsBack(FragmentWord(h), 2, t5);
    ReadsBack(h.ttl, 1, t6);
    ReadsBack(h.proto, 1, t7);
    ReadsBack(h.cksum, 2, t8);
    ReadsBack(Number(h.src), 4, t9);
    ReadsBack(Number(h.dst), 4, t10);
    FragmentReadsBack(h);
    AddressOfNumber(h.src);
    AddressOfNumber(h.dst);
  }

  /** The header parser accepts a well-formed datagram exactly if the checksum of its header verifies. */
  lemma HeaderReadsBack(d: Datagram)
    requires WellFormed(d)
    ensures var p := ParseHeader(Input(HeaderBytes(d.header) + d.payload, NoError));
            && p.header == d.header && p.rest == Input(d.payload, NoError)
            && p.result == if Checksum(WordSum(HeaderBytes(d.header), false) % TWO_32) == 0 then NoError else BadChecksum
  {
    hide ParseFields, HeaderBytes, WordSum, Checksum, Past;
    var h, wire := d.header, HeaderBytes(d.header) + d.payload;
    FieldsReadBack(h, d.payload);
    Tcp.SkipsPadding(Tcp.Zeros(4 * h.hlen - 20), d.payload);
    assert wire[..4 * h.hlen] == HeaderBytes(h);
  }

  /** A datagram is read back whatever its header checksum: the datagram parser does not enforce it. */
  lemma ParseIgnoresHeaderChecksum(d: Datagram)
    requires WellFormed(d)
    ensures Parse(HeaderBytes(d.header) + d.payload) == ParsedDatagram(d, NoError)
  {
    hide ParseHeader, HeaderBytes;
    HeaderReadsBack(d);
    assert PayloadLength(d.header) == |d.payload|;
  }

  // The version, the header length in words and the total length, as the bytes have them.
  function Version(b: seq<Byte>): nat
    requires |b| >= 20
  {
    b[0] / 16
  }

  function Words(b: seq<Byte>): nat
    requires |b| >= 20
  {
    b[0] % 16
  }

  function Total(b: seq<Byte>): nat
    requires |b| >= 20
  {
    Tcp.Field(b, 2, 2)
  }

  /** The header is of version 4, has at least five words, fits the buffer, and announces the buffer's length. */
  predicate Announced(b: seq<Byte>)
    requires |b| >= 20
  {
    Version(b) == 4 && Words(b) >= 5 && 4 * Words(b) <= |b| == Total(b)
  }

  // The numbers that the parser reads, each behind the one before.
  lemma NumbersOf(b: seq<Byte>)
    requires |b| >= 20
    ensures var (h, rest) := ParseFields(Input(b, NoError));
            && h.ver == Tcp.Field(b, 0, 1) / 16 && h.hlen == Tcp.Field(b, 0, 1) % 16 && h.tos == Tcp.Field(b, 1, 1)
            && h.len == Tcp.Field(b, 2, 2) && h.id == Tcp.Field(b, 4, 2)
            && h.df == (Tcp.Field(b, 6, 2) / 0x4000 % 2 == 1) && h.mf == (Tcp.Field(b, 6, 2) / 0x2000 % 2 == 1)
            && h.offset == Tcp.Field(b, 6, 2) % 0x2000
            && h.ttl == Tcp.Field(b, 8, 1) && h.proto == Tcp.Field(b, 9, 1) && h.cksum == Tcp.Field(b, 10, 2)
            && h.src == Address(Tcp.Field(b, 12, 4)) && h.dst == Address(Tcp.Field(b, 16, 4))
            && rest == Input(b[20..], NoError)
  {
    hide IntOf, Past, Address, Tcp.Field;
    assert b[0..] == b;
    Tcp.PastTwice(b, 0, 1);
    Tcp.PastTwice(b, 1, 1);
    Tcp.PastTwice(b, 2, 2);
    Tcp.PastTwice(b, 4, 2);
    Tcp.PastTwice(b, 6, 2);
    Tcp.PastTwice(b, 8, 1);
    Tcp.PastTwice(b, 9, 1);
    Tcp.PastTwice(b, 10, 2);
    Tcp.PastTwice(b, 12, 4);
    Tcp.PastTwice(b, 16, 4);
    Tcp.FieldAt(b, 0, 1);
    Tcp.FieldAt(b, 1, 1);
    Tcp.FieldAt(b, 2, 2);
    Tcp.FieldAt(b, 4, 2);
    Tcp.FieldAt(b, 6, 2);
    Tcp.FieldAt(b, 8, 1);
    Tcp.FieldAt(b, 9, 1);
    Tcp.FieldAt(b, 10, 2);
    Tcp.FieldAt(b, 12, 4);
    Tcp.FieldAt(b, 16, 4);
  }

  lemma FlagBits(fo: int, high: Byte, low: Byte)
    requires fo == 256 * (high as int) + (low as int)
    ensures fo / 0x4000 == high / 64 && fo / 0x2000 == high / 32
  {
  }

  /**
   Whatever the bytes: each field of the header read from them is the one where section 3.1 of RFC 791 puts it;
   the reserved flag is ignored.
   */
  lemma FieldsOf(b: seq<Byte>)
    requires |b| >= 20
    ensures var (h, rest) := ParseFields(Input(b, NoError));
            && h.ver == Version(b) && h.hlen == Words(b) && h.tos == b[1] && h.len == Total(b)
            && h.id == Tcp.Field(b, 4, 2)
            && HoldsFlags(b[6], h) && h.offset == Tcp.Field(b, 6, 2) % 0x2000
            && h.ttl == b[8] && h.proto == b[9] && h.cksum == Tcp.Field(b, 10, 2)
            && h.src == Address(Tcp.Field(b, 12, 4)) && h.dst == Address(Tcp.Field(b, 16, 4))
            && rest == Input(b[20..], NoError)
  {
    hide ParseFields, Tcp.Field, Address;
    NumbersOf(b);
    Tcp.OneByte(b, 0);
    Tcp.OneByte(b, 1);
    Tcp.OneByte(b, 8);
    Tcp.OneByte(b, 9);
    HighByte(b, 6);
    FlagBits(Tcp.Field(b, 6, 2), b[6], b[7]);
  }

  // What is wrong with a header that is refused: the first that applies.
  function Fault(b: seq<Byte>): ParseResult
    requires |b| >= 20
  {
    if |b| < 4 * Words(b) then PacketTooShort
    else if Version(b) != 4 then WrongIPVersion
    else if Words(b) < 5 then HeaderTooShort
    else if |b| != Total(b) then TruncatedPacket
    else BadChecksum
  }

  // What the header parser says of a buffer, and what it leaves of it.
  lemma HeaderOutcome(b: seq<Byte>)
    ensures var p := ParseHeader(Input(b, NoError));
            if |b| < 20 then
              p == ParsedHeader(DefaultHeader(), Input(b, NoError), PacketTooShort)
            else
              && p.header.hlen == Words(b) && p.header.len == Total(b) && p.header.ver == Version(b)
              && p.rest == Input(if Announced(b) then b[4 * Words(b)..] else b[20..], NoError)
              && (p.result == NoError <==> Announced(b) && Checksum(WordSum(b[..4 * Words(b)], false) % TWO_32) == 0)
              && (p.result != NoError ==> p.result == Fault(b))
  {
    hide ParseFields, Checksum, WordSum, Past, Tcp.Field;
    if |b| >= 20 {
      FieldsOf(b);
      if Announced(b) {
        Tcp.PastTwice(b, 20, 4 * Words(b) - 20);
      }
    }
  }

  /**
   A buffer is accepted exactly if it holds the fixed part of a header and is announced by it, or the payload
   length that the header gives, modulo 2^16, happens to be that of what follows the fixed part.
   */
  lemma AcceptedIff(b: seq<Byte>)
    ensures Parse(b).result == NoError <==>
            |b| >= 20 && (Announced(b) || |b| - 20 == (Total(b) - 4 * Words(b)) % TWO_16)
  {
    hide ParseHeader, Version, Words, Total;
    HeaderOutcome(b);
    if |b| < 20 {
      assert PayloadLength(DefaultHeader()) == 65516;
    } else if Announced(b) {
      assert (Total(b) - 4 * Words(b)) % TWO_16 == Total(b) - 4 * Words(b);
    }
  }

  /**
   The datagram read from an accepted buffer has the header read from it, and as payload what follows the words
   of an announced header, or the fixed part of another. A refused buffer is called too short.
   */
  lemma AcceptedDatagram(b: seq<Byte>)
    ensures var p := Parse(b);
            && (p.result == NoError ==>
                  && |b| >= 20 && p.datagram.header == ParseFields(Input(b, NoError)).0
                  && p.datagram.payload == if Announced(b) then b[4 * Words(b)..] else b[20..])
            && (p.result == NoError || p.result == PacketTooShort)
  {
    hide ParseHeader, ParseFields, Version, Words, Total;
    HeaderOutcome(b);
    if |b| < 20 {
      assert PayloadLength(DefaultHeader()) == 65516;
    } else {
      ParsedFields(b);
    }
  }

  /** Serializing throws exactly if version, header length or payload length are not as the header must have them. */
  lemma SerializesIff(d: Datagram)
    ensures Serialize(d).Some? <==>
            d.header.ver == 4 && d.header.hlen >= 5 && |d.payload| == (d.header.len - 4 * d.header.hlen) % 0x1_0000
  {
    hide WordSum, Checksum, HeaderBytes;
  }

  /**
   The header parser refuses a buffer that is accepted exactly if the header announces the buffer and its
   checksum fails, or does not announce it (by version, header length or total length) while the payload
   length happens to fit.
   */
  lemma RefusedHeaderAcceptedIff(b: seq<Byte>)
    ensures Parse(b).result == NoError && ParseHeader(Input(b, NoError)).result != NoError <==>
            |b| >= 20 &&
            if Announced(b) then Checksum(WordSum(b[..4 * Words(b)], false) % TWO_32) != 0
            else |b| - 20 == (Total(b) - 4 * Words(b)) % TWO_16
  {
    hide ParseHeader, Parse, Version, Words, Total, Checksum, WordSum;
    HeaderOutcome(b);
    AcceptedIff(b);
  }

  /** Concretely: twenty bytes of zeros are of version 0 and have no header words, and are accepted as a datagram. */
  lemma WrongVersionIsAccepted()
    ensures var b := Tcp.Zeros(20);
            && ParseHeader(Input(b, NoError)).result != NoError
            && Parse(b).result == NoError && Parse(b).datagram.header.ver == 0
  {
    hide ParseHeader, Tcp.Zeros;
    var b := Tcp.Zeros(20);
    Tcp.ZerosAreZero(20, 0);
    Tcp.ZerosAreZero(20, 2);
    Tcp.ZerosAreZero(20, 3);
    HighByte(b, 2);
    HeaderOutcome(b);
    AcceptedIff(b);
  }

  lemma AddEven(a: seq<Byte>, b: seq<Byte>, x: nat, y: nat)
    requires |a| % 2 == 0 && WordSum(a, false) == x && WordSum(b, false) == y
    ensures WordSum(a + b, false) == x + y && |a + b| == |a| + |b|
  {
    hide WordSum;
    WordSumConcat(a, b, false);
  }

  // The fixed part of the default header of an empty datagram.
  lemma DefaultFrontSum()
    ensures WordSum(Front(DefaultHeader().(len := 20)), false) == 66842
  {
    hide WordSum, ToBytes;
    var a, b, c := ToBytes(69, 1) + ToBytes(0, 1), ToBytes(20, 2), ToBytes(0, 2);
    var d, t, p := ToBytes(0x4000, 2), ToBytes(128, 1), ToBytes(6, 1);
    Tcp.TwoBytesSum(69, 0);
    Tcp.WordSumOfWord(20);
    AddEven(a, b, 17664, 20);
    Tcp.WordSumOfWord(0);
    AddEven(a + b, c, 17684, 0);
    Tcp.WordSumOfWord(0x4000);
    AddEven(a + b + c, d, 17684, 0x4000);
    Tcp.TwoBytesSum(128, 6);
    AddEven(a + b + c + d, t + p, 34068, 32774);
    Tcp.Assoc(a + b + c + d, t, p);
  }

  /** Concretely: an empty datagram with a checksum field of 0 is refused by the header parser and accepted all the same. */
  lemma WrongChecksumIsAccepted()
    ensures var d := Datagram(DefaultHeader().(len := 20), []);
            var wire := HeaderBytes(d.header) + d.payload;
            && WellFormed(d)
            && ParseHeader(Input(wire, NoError)).result == BadChecksum
            && Parse(wire) == ParsedDatagram(d, NoError)
  {
    hide WordSum, ToBytes, Front, Checksum, ParseHeader, Parse;
    var d := Datagram(DefaultHeader().(len := 20), []);
    var f := Front(d.header);
    DefaultFrontSum();
    Tcp.WordSumOfWord(0);
    Tcp.FourBytesSum(0);
    AddEven(f, ToBytes(0, 2), 66842, 0);
    AddEven(f + ToBytes(0, 2), ToBytes(0, 4), 66842, 0);
    AddEven(f + ToBytes(0, 2) + ToBytes(0, 4), ToBytes(0, 4), 66842, 0);
    assert Tcp.Zeros(0) == [];
    assert HeaderBytes(d.header) == f + ToBytes(0, 2) + ToBytes(0, 4) + ToBytes(0, 4);
    VerifiesIff(66842);
    HeaderReadsBack(d);
    ParseIgnoresHeaderChecksum(d);
  }

  lemma ChecksumFieldInSum(h: IPv4Header)
    requires 5 <= h.hlen
    ensures WordSum(HeaderBytes(h), false) == WordSum(HeaderBytes(h.(cksum := 0)), false) + h.cksum
  {
    hide ToBytes, WordSum, Front, Tcp.Zeros, HeaderBytes, Number;
    var h0 := h.(cksum := 0);
    SameFront(h);
    HeaderThen(h, []);
    HeaderThen(h0, []);
    assert HeaderBytes(h) + [] == HeaderBytes(h) && HeaderBytes(h0) + [] == HeaderBytes(h0);
    Tcp.FieldAddsToSum(Front(h), h.cksum,
                       ToBytes(Number(h.src), 4) + (ToBytes(Number(h.dst), 4) + (Tcp.Zeros(4 * h.hlen - 20) + [])));
  }

  lemma SameFront(h: IPv4Header)
    ensures Front(h.(cksum := 0)) == Front(h)
  {
    hide ToBytes;
  }

  lemma HeaderSumSmall(h: IPv4Header)
    requires 5 <= h.hlen
    ensures WordSum(HeaderBytes(h), false) + 0xffff < TWO_32
  {
    hide WordSum, HeaderBytes;
    WordSumBound(HeaderBytes(h), false);
  }

  lemma HeaderSumVerifies(h: IPv4Header)
    requires 5 <= h.hlen
    ensures var c := Checksum(WordSum(HeaderBytes(h.(cksum := 0)), false) % TWO_32);
            Checksum(WordSum(HeaderBytes(h.(cksum := c)), false) % TWO_32) == 0
  {
    hide WordSum, HeaderBytes, Checksum;
    var h0 := h.(cksum := 0);
    var s := WordSum(HeaderBytes(h0), false);
    HeaderSumSmall(h0);
    assert s % TWO_32 == s;
    var c := Checksum(s);
    assert h.(cksum := c).(cksum := 0) == h0;
    ChecksumFieldInSum(h.(cksum := c));
    InsertedVerifies(s);
    assert (s + c) % TWO_32 == s + c;
  }

  /** The fields fit their places, and the total length is that of the datagram, or there are no options to skip. */
  predicate FitsWire(d: Datagram) {
    && d.header.hlen <= 15 && d.header.offset < 0x2000
    && (d.header.len == 4 * d.header.hlen + |d.payload| || d.header.hlen == 5)
  }

  // The bytes that a serialized header begins with.
  lemma SerializedBytes(h: IPv4Header, payload: seq<Byte>)
    requires h.ver == 4 && 5 <= h.hlen
    ensures var w := HeaderBytes(h) + payload;
            |w| == 4 * h.hlen + |payload| && Version(w) == 4 && Words(w) == h.hlen % 16 && Total(w) == h.len
  {
    hide ToBytes, Front, Tcp.Zeros, Tcp.Field, FragmentWord, HeaderBytes, Number;
    HeaderThen(h, payload);
    FrontFields(h, ToBytes(h.cksum, 2) + (ToBytes(Number(h.src), 4) + (ToBytes(Number(h.dst), 4)
                   + (Tcp.Zeros(4 * h.hlen - 20) + payload))));
    Tcp.OneByte(HeaderBytes(h) + payload, 0);
  }

  lemma FittingReadsBack(d: Datagram)
    requires d.header.ver == 4 && 5 <= d.header.hlen && |d.payload| == PayloadLength(d.header) && FitsWire(d)
    ensures Parse(HeaderBytes(d.header) + d.payload) == ParsedDatagram(d, NoError)
  {
    hide ParseFields, HeaderBytes, WordSum, Checksum, Past, Version, Words, Total;
    var h, w := d.header, HeaderBytes(d.header) + d.payload;
    SerializedBytes(h, d.payload);
    FieldsReadBack(h, d.payload);
    FieldsOf(w);
    HeaderOutcome(w);
    Tcp.SkipsPadding(Tcp.Zeros(4 * h.hlen - 20), d.payload);
    assert w[4 * h.hlen..] == d.payload;
    assert h.hlen == 5 ==> Tcp.Zeros(0) + d.payload == d.payload;
    ParsedFields(w);
  }

  // The header is what the fields say, whatever the verdict.
  lemma ParsedFields(b: seq<Byte>)
    requires |b| >= 20
    ensures ParseHeader(Input(b, NoError)).header == ParseFields(Input(b, NoError)).0
    ensures Parse(b).datagram.header.hlen < 16 && Parse(b).datagram.header.offset < 0x2000
  {
    hide IntOf, Past, Address, Checksum, WordSum;
  }

  lemma MisfitIsNotReadBack(d: Datagram)
    requires d.header.ver == 4 && 5 <= d.header.hlen && |d.payload| == PayloadLength(d.header) && !FitsWire(d)
    ensures var p := Parse(HeaderBytes(d.header) + d.payload);
            p.result != NoError || p.datagram.header.(cksum := d.header.cksum) != d.header
  {
    hide ParseFields, ParseHeader, HeaderBytes, Version, Words, Total;
    var w := HeaderBytes(d.header) + d.payload;
    SerializedBytes(d.header, d.payload);
    ParsedFields(w);
    AcceptedIff(w);
  }

  /**
   Any datagram that serializes has a header checksum that verifies. Parsing its bytes returns it, with that
   checksum filled in, exactly if its fields fit their places, and its total length is right or its header
   has no options.
   */
  lemma SerializedReadsBackIff(d: Datagram)
    requires Serialize(d).Some?
    ensures var wire, c := Serialize(d).value, Checksum(WordSum(HeaderBytes(d.header.(cksum := 0)), false) % TWO_32);
            var d' := d.(header := d.header.(cksum := c));
            && wire == HeaderBytes(d'.header) + d.payload
            && Checksum(WordSum(HeaderBytes(d'.header), false) % TWO_32) == 0
            && (Parse(wire) == ParsedDatagram(d', NoError) <==> FitsWire(d))
  {
    hide WordSum, HeaderBytes, Checksum, Parse;
    var c := Checksum(WordSum(HeaderBytes(d.header.(cksum := 0)), false) % TWO_32);
    var d' := d.(header := d.header.(cksum := c));
    HeaderSumVerifies(d.header);
    if FitsWire(d) {
      FittingReadsBack(d');
    } else {
      MisfitIsNotReadBack(d');
    }
  }

  // Only 13 bits of the fragment offset reach the wire.
  lemma OffsetIsCut(h: IPv4Header)
    requires 5 <= h.hlen
    ensures HeaderBytes(h.(offset := h.offset % 0x2000)) == HeaderBytes(h)
  {
    hide ToBytes, Tcp.Zeros;
  }

  /** Concretely: an empty datagram with fragment offset 0x2000 serializes, and is read back with offset 0. */
  lemma LargeOffsetIsLost()
    ensures var d := Datagram(DefaultHeader().(len := 20, offset := 0x2000), []);
            Serialize(d).Some? && Parse(Serialize(d).value).result == NoError
            && Parse(Serialize(d).value).datagram.header.offset == 0
  {
    hide HeaderBytes, Checksum, WordSum, Parse;
    var d, d0 := Datagram(DefaultHeader().(len := 20, offset := 0x2000), []), Datagram(DefaultHeader().(len := 20), []);
    assert PayloadLength(d.header) == 0;
    var c := Checksum(WordSum(HeaderBytes(d.header.(cksum := 0)), false) % TWO_32);
    OffsetIsCut(d.header.(cksum := 0));
    OffsetIsCut(d.header.(cksum := c));
    SerializedReadsBackIff(d0);
  }

  /**
   A well-formed datagram serializes to bytes whose header checksum verifies, and parsing them returns the
   datagram with only that checksum filled in.
   */
  lemma DatagramRoundTrip(d: Datagram)
    requires WellFormed(d)
    ensures var wire := Serialize(d);
            wire.Some? &&
            exists c: U16 ::
              var d' := d.(header := d.header.(cksum := c));
              && wire.value == HeaderBytes(d'.header) + d.payload
              && ParseHeader(Input(wire.value, NoError)).result == NoError
              && Parse(wire.value) == ParsedDatagram(d', NoError)
  {
    hide WordSum, HeaderBytes, Checksum, ParseHeader, Parse;
    assert PayloadLength(d.header) == |d.payload|;
    SerializedReadsBackIff(d);
    var c := Checksum(WordSum(HeaderBytes(d.header.(cksum := 0)), false) % TWO_32);
    HeaderReadsBack(d.(header := d.header.(cksum := c)));
  }
}
