/** The TCP segment on the wire (section 3.1 of RFC 793). */
module TcpWire {
  import opened Common
  import opened Segments
  import opened Parsers
  import opened Checksums

  function Bit(b: bool, weight: nat): nat {
    if b then weight else 0
  }

  function FlagByte(h: Header): (r: Byte)
    ensures r < 64
  {
    Bit(h.urg, 32) + Bit(h.ack, 16) + Bit(h.psh, 8) + Bit(h.rst, 4) + Bit(h.syn, 2) + Bit(h.fin, 1)
  }

  // The fixed part of the header, up to the checksum.
  function Front(h: Header): (bs: seq<Byte>)
    ensures |bs| == 16
  {
    ToBytes(h.sport, 2) + ToBytes(h.dport, 2) + ToBytes(h.seqno, 4) + ToBytes(h.ackno, 4)
    + ToBytes((h.doff * 16) % 256, 1) + ToBytes(FlagByte(h), 1) + ToBytes(h.win, 2)
  }

  function Zeros(n: nat): (bs: seq<Byte>)
    ensures |bs| == n
  {
    if n == 0 then [] else [0] + Zeros(n - 1)
  }

  // The serialized header, padded with zeros to the advertised size.
  function HeaderBytes(h: Header): (bs: seq<Byte>)
    requires 5 <= h.doff
    ensures |bs| == 4 * h.doff
  {
    Front(h) + ToBytes(h.cksum, 2) + ToBytes(h.uptr, 2) + Zeros(4 * h.doff - 20)
  }

  datatype ParsedHeader = ParsedHeader(header: Header, rest: Input, result: ParseResult)

  function ParseHeader(p0: Input): ParsedHeader {
    var p1 := Past(p0, 2);
    var p2 := Past(p1, 2);
    var p3 := Past(p2, 4);
    var p4 := Past(p3, 4);
    var p5 := Past(p4, 1);
    var fl := IntOf(p5, 1);
    var p6 := Past(p5, 1);
    var p7 := Past(p6, 2);
    var p8 := Past(p7, 2);
    var p9 := Past(p8, 2);
    var h := Header(IntOf(p0, 2), IntOf(p1, 2), IntOf(p2, 4), IntOf(p3, 4), IntOf(p4, 1) / 16,
                    fl / 32 % 2 == 1, fl / 16 % 2 == 1, fl / 8 % 2 == 1,
                    fl / 4 % 2 == 1, fl / 2 % 2 == 1, fl % 2 == 1,
                    IntOf(p6, 2), IntOf(p7, 2), IntOf(p8, 2));
    if h.doff < 5 then
      ParsedHeader(h, p9, HeaderTooShort)
    else
      var p10 := Past(p9, h.doff * 4 - 20);
      ParsedHeader(h, p10, p10.error)
  }

  // `None`: the source throws.
  function SerializeSegment(seg: Segment, pseudo: U32): Option<seq<Byte>> {
    if seg.header.doff < 5 then
      None
    else
      var zeroed := HeaderBytes(seg.header.(cksum := 0));
      var sum := (pseudo + WordSum(zeroed, false)) % TWO_32;
      var sum' := (sum + WordSum(seg.payload, Odd(|zeroed|))) % TWO_32;
      Some(HeaderBytes(seg.header.(cksum := Checksum(sum'))) + seg.payload)
  }

  datatype ParsedSegment = ParsedSegment(segment: Segment, result: ParseResult)

  function ParseSegment(buffer: seq<Byte>, pseudo: U32): ParsedSegment {
    if Checksum((pseudo + WordSum(buffer, false)) % TWO_32) != 0 then
      ParsedSegment(Segment(DefaultHeader(0), []), BadChecksum)
    else
      var p := ParseHeader(Input(buffer, NoError));
      ParsedSegment(Segment(p.header, p.rest.buffer), p.rest.error)
  }

  lemma Assoc(a: seq<Byte>, b: seq<Byte>, c: seq<Byte>)
    ensures (a + b) + c == a + (b + c)
  {
  }

  lemma FrontThen(h: Header, t: seq<Byte>)
    ensures Front(h) + t ==
            ToBytes(h.sport, 2) + (ToBytes(h.dport, 2) + (ToBytes(h.seqno, 4) + (ToBytes(h.ackno, 4)
            + (ToBytes((h.doff * 16) % 256, 1) + (ToBytes(FlagByte(h), 1) + (ToBytes(h.win, 2) + t))))))
  {
    hide ToBytes, FlagByte;
    Nest7(ToBytes(h.sport, 2), ToBytes(h.dport, 2), ToBytes(h.seqno, 4), ToBytes(h.ackno, 4),
          ToBytes((h.doff * 16) % 256, 1), ToBytes(FlagByte(h), 1), ToBytes(h.win, 2), t);
  }

  lemma Nest7(a: seq<Byte>, b: seq<Byte>, c: seq<Byte>, d: seq<Byte>, e: seq<Byte>, f: seq<Byte>, g: seq<Byte>, t: seq<Byte>)
    ensures a + b + c + d + e + f + g + t == a + (b + (c + (d + (e + (f + (g + t))))))
  {
    Assoc(a + b + c + d + e + f, g, t);
    Assoc(a + b + c + d + e, f, g + t);
    Assoc(a + b + c + d, e, f + (g + t));
    Assoc(a + b + c, d, e + (f + (g + t)));
    Assoc(a + b, c, d + (e + (f + (g + t))));
    Assoc(a, b, c + (d + (e + (f + (g + t)))));
  }

  // The bytes of a header followed by `payload`, grouped for reading from the front.
  lemma HeaderThen(h: Header, payload: seq<Byte>)
    requires 5 <= h.doff
    ensures HeaderBytes(h) + payload ==
            Front(h) + (ToBytes(h.cksum, 2) + (ToBytes(h.uptr, 2) + (Zeros(4 * h.doff - 20) + payload)))
  {
    hide ToBytes, Front, Zeros;
    var a, b, c, z := Front(h), ToBytes(h.cksum, 2), ToBytes(h.uptr, 2), Zeros(4 * h.doff - 20);
    Assoc(a + b + c, z, payload);
    Assoc(a + b, c, z + payload);
    Assoc(a, b, c + (z + payload));
  }

  // URG, ACK, PSH, RST, SYN, FIN from bit 5 down to bit 0.
  predicate ReadsFlags(fl: int, h: Header) {
    && (fl / 32 % 2 == 1) == h.urg && (fl / 16 % 2 == 1) == h.ack && (fl / 8 % 2 == 1) == h.psh
    && (fl / 4 % 2 == 1) == h.rst && (fl / 2 % 2 == 1) == h.syn && (fl % 2 == 1) == h.fin
  }

  // The two bits above are reserved, and written as zero.
  predicate HoldsFlags(fl: Byte, h: Header) {
    fl < 64 && ReadsFlags(fl, h)
  }

  lemma FlagsReadBack(h: Header)
    ensures HoldsFlags(FlagByte(h), h)
  {
  }

  lemma OffsetByte(doff: nat)
    ensures (doff * 16) % 256 / 16 == doff % 16
  {
  }

  lemma SkipsPadding(z: seq<Byte>, payload: seq<Byte>)
    ensures Past(Input(z + payload, NoError), |z|) == Input(payload, NoError)
  {
    assert (z + payload)[|z|..] == payload;
  }

  // The big-endian integer of `n` bytes at an offset.
  function Field(w: seq<Byte>, at: nat, n: nat): nat
    requires at + n <= |w|
  {
    FromBytes(w[at..at + n])
  }

  lemma FieldOf(a: seq<Byte>, v: nat, n: nat, b: seq<Byte>)
    requires v < Pow256(n)
    ensures Field(a + (ToBytes(v, n) + b), |a|, n) == v
  {
    hide ToBytes, FromBytes;
    FromToBytes(v, n);
    assert (a + (ToBytes(v, n) + b))[|a|..|a| + n] == ToBytes(v, n);
  }

  lemma FieldBehind(a: seq<Byte>, b: seq<Byte>, at: nat, n: nat)
    requires at + n <= |b|
    ensures Field(a + b, |a| + at, n) == Field(b, at, n)
  {
    hide FromBytes;
    assert (a + b)[|a| + at..|a| + at + n] == b[at..at + n];
  }

  // Three integers in a row are found at the sums of the sizes before them.
  lemma ThreeFields(v1: nat, n1: nat, v2: nat, n2: nat, v3: nat, n3: nat, t: seq<Byte>)
    requires v1 < Pow256(n1) && v2 < Pow256(n2) && v3 < Pow256(n3)
    ensures var w := ToBytes(v1, n1) + (ToBytes(v2, n2) + (ToBytes(v3, n3) + t));
            Field(w, 0, n1) == v1 && Field(w, n1, n2) == v2 && Field(w, n1 + n2, n3) == v3
  {
    hide ToBytes, Field, Pow256;
    var a1, a2, a3 := ToBytes(v1, n1), ToBytes(v2, n2), ToBytes(v3, n3);
    FieldOf([], v1, n1, a2 + (a3 + t));
    assert [] + (a1 + (a2 + (a3 + t))) == a1 + (a2 + (a3 + t));
    FieldOf(a1, v2, n2, a3 + t);
    FieldOf(a1 + a2, v3, n3, t);
    Assoc(a1, a2, a3 + t);
  }

  lemma FrontFields(h: Header, t: seq<Byte>)
    ensures var w := Front(h) + t;
            && Field(w, 0, 2) == h.sport && Field(w, 2, 2) == h.dport
            && Field(w, 4, 4) == h.seqno && Field(w, 8, 4) == h.ackno
            && Field(w, 12, 1) == (h.doff * 16) % 256 && Field(w, 13, 1) == FlagByte(h) && Field(w, 14, 2) == h.win
  {
    hide ToBytes, Field, FlagByte, Front;
    FrontThen(h, t);
    var b3 := ToBytes((h.doff * 16) % 256, 1) + (ToBytes(FlagByte(h), 1) + (ToBytes(h.win, 2) + t));
    var b2 := ToBytes(h.ackno, 4) + b3;
    var a := ToBytes(h.sport, 2) + ToBytes(h.dport, 2) + ToBytes(h.seqno, 4);
    ThreeFields(h.sport, 2, h.dport, 2, h.seqno, 4, b2);
    Assoc(ToBytes(h.sport, 2), ToBytes(h.dport, 2), ToBytes(h.seqno, 4) + b2);
    Assoc(ToBytes(h.sport, 2) + ToBytes(h.dport, 2), ToBytes(h.seqno, 4), b2);
    FieldOf(a, h.ackno, 4, b3);
    ThreeFields((h.doff * 16) % 256, 1, FlagByte(h), 1, h.win, 2, t);
    Assoc(a, ToBytes(h.ackno, 4), b3);
    FieldBehind(a + ToBytes(h.ackno, 4), b3, 0, 1);
    FieldBehind(a + ToBytes(h.ackno, 4), b3, 1, 1);
    FieldBehind(a + ToBytes(h.ackno, 4), b3, 2, 2);
  }

  /** Each field lies where section 3.1 of RFC 793 puts it, followed by zeros up to the header length and the payload. */
  lemma FieldLayout(h: Header, payload: seq<Byte>)
    requires 5 <= h.doff
    ensures var w := HeaderBytes(h) + payload;
            && Field(w, 0, 2) == h.sport && Field(w, 2, 2) == h.dport
            && Field(w, 4, 4) == h.seqno && Field(w, 8, 4) == h.ackno
            && w[12] / 16 == h.doff % 16 && HoldsFlags(w[13], h)
            && Field(w, 14, 2) == h.win && Field(w, 16, 2) == h.cksum && Field(w, 18, 2) == h.uptr
            && w[20..] == Zeros(4 * h.doff - 20) + payload
  {
    hide ToBytes, Front, Zeros, Field, FlagByte, HeaderBytes, HoldsFlags;
    var w := HeaderBytes(h) + payload;
    var rest := Zeros(4 * h.doff - 20) + payload;
    HeaderThen(h, payload);
    FrontFields(h, ToBytes(h.cksum, 2) + (ToBytes(h.uptr, 2) + rest));
    FlagsReadBack(h);
    OffsetByte(h.doff);
    FieldOf(Front(h), h.cksum, 2, ToBytes(h.uptr, 2) + rest);
    FieldOf(Front(h) + ToBytes(h.cksum, 2), h.uptr, 2, rest);
    Assoc(Front(h), ToBytes(h.cksum, 2), ToBytes(h.uptr, 2) + rest);
    assert w[20..] == rest;
    OneByte(w, 12);
    OneByte(w, 13);
  }

  lemma OneByte(w: seq<Byte>, at: nat)
    requires at < |w|
    ensures Field(w, at, 1) == w[at]
  {
    var one := w[at..at + 1];
    assert one[..0] == [] && FromBytes(one[..0]) == 0;
  }

  /** Every field of a header, and what follows it, is read back. */
  lemma HeaderReadsBack(h: Header, payload: seq<Byte>)
    requires 5 <= h.doff <= 15
    ensures ParseHeader(Input(HeaderBytes(h) + payload, NoError)) == ParsedHeader(h, Input(payload, NoError), NoError)
  {
    hide ToBytes, Zeros, Front, FlagByte, HeaderBytes, IntOf, Past;
    var z := Zeros(4 * h.doff - 20);
    var t9 := z + payload;
    var t8 := ToBytes(h.uptr, 2) + t9;
    var t7 := ToBytes(h.cksum, 2) + t8;
    var t6 := ToBytes(h.win, 2) + t7;
    var t5 := ToBytes(FlagByte(h), 1) + t6;
    var t4 := ToBytes((h.doff * 16) % 256, 1) + t5;
    var t3 := ToBytes(h.ackno, 4) + t4;
    var t2 := ToBytes(h.seqno, 4) + t3;
    var t1 := ToBytes(h.dport, 2) + t2;
    HeaderThen(h, payload);
    FrontThen(h, t7);
    ReadsBack(h.sport, 2, t1);
    ReadsBack(h.dport, 2, t2);
    ReadsBack(h.seqno, 4, t3);
    ReadsBack(h.ackno, 4, t4);
    ReadsBack((h.doff * 16) % 256, 1, t5);
    ReadsBack(FlagByte(h), 1, t6);
    ReadsBack(h.win, 2, t7);
    ReadsBack(h.cksum, 2, t8);
    ReadsBack(h.uptr, 2, t9);
    FlagsReadBack(h);
    SkipsPadding(z, payload);
  }

  /** The header length is read back exactly if it fits the four bits it has on the wire. */
  lemma OffsetReadsBackIff(h: Header, payload: seq<Byte>)
    requires 5 <= h.doff
    ensures ParseHeader(Input(HeaderBytes(h) + payload, NoError)).header.doff == h.doff <==> h.doff <= 15
  {
    hide ToBytes, Zeros, Front, FlagByte, HeaderBytes, IntOf, Past;
    var t7 := ToBytes(h.cksum, 2) + (ToBytes(h.uptr, 2) + (Zeros(4 * h.doff - 20) + payload));
    var t5 := ToBytes(FlagByte(h), 1) + (ToBytes(h.win, 2) + t7);
    var t4 := ToBytes((h.doff * 16) % 256, 1) + t5;
    var t3 := ToBytes(h.ackno, 4) + t4;
    var t2 := ToBytes(h.seqno, 4) + t3;
    var t1 := ToBytes(h.dport, 2) + t2;
    HeaderThen(h, payload);
    FrontThen(h, t7);
    ReadsBack(h.sport, 2, t1);
    ReadsBack(h.dport, 2, t2);
    ReadsBack(h.seqno, 4, t3);
    ReadsBack(h.ackno, 4, t4);
    ReadsBack((h.doff * 16) % 256, 1, t5);
    FourBits(h.doff);
  }

  lemma FourBits(n: Byte)
    ensures (n * 16) % 256 / 16 == n <==> n <= 15
  {
  }

  /** Writing a value into a zeroed 16-bit field at an even offset adds the value to the sum. */
  lemma FieldAddsToSum(a: seq<Byte>, v: U16, b: seq<Byte>)
    requires !Odd(|a|)
    ensures WordSum(a + (ToBytes(v, 2) + b), false) == WordSum(a + (ToBytes(0, 2) + b), false) + v
  {
    hide ToBytes, WordSum;
    WordSumConcat(a, ToBytes(v, 2) + b, false);
    WordSumConcat(a, ToBytes(0, 2) + b, false);
    WordSumConcat(ToBytes(v, 2), b, false);
    WordSumConcat(ToBytes(0, 2), b, false);
    WordSumOfWord(v);
    WordSumOfWord(0);
  }

  lemma WordSumOfWord(v: U16)
    ensures WordSum(ToBytes(v, 2), false) == v
  {
    var hi: Byte, lo: Byte := v / 256, v % 256;
    assert ToBytes(hi, 1) == ToBytes(hi / 256, 0) + [hi % 256] == [hi];
    assert ToBytes(v, 2) == [hi] + [lo] == [hi, lo];
    assert [hi, lo][..1] == [hi] && [hi][..0] == [];
    assert WordSum([hi], false) == Term(hi, false);
  }

  lemma FourBytesSum(v: U32)
    ensures WordSum(ToBytes(v, 4), false) == v / 0x1_0000 + v % 0x1_0000
  {
    hide WordSum;
    assert ToBytes(v, 4) == ToBytes(v / 0x1_0000, 2) + ToBytes(v % 0x1_0000, 2);
    WordSumOfWord(v / 0x1_0000);
    WordSumOfWord(v % 0x1_0000);
    WordSumConcat(ToBytes(v / 0x1_0000, 2), ToBytes(v % 0x1_0000, 2), false);
  }

  lemma TwoBytesSum(hi: Byte, lo: Byte)
    ensures WordSum(ToBytes(hi, 1) + ToBytes(lo, 1), false) == 256 * (hi as int) + (lo as int)
  {
    assert ToBytes(hi, 1) == [hi] && ToBytes(lo, 1) == [lo];
    assert [hi] + [lo] == [hi, lo] && [hi, lo][..1] == [hi] && [hi][..0] == [];
    assert WordSum([hi], false) == Term(hi, false);
  }

  // The sum over a whole segment grows by its checksum field.
  lemma ChecksumFieldInSum(h: Header, payload: seq<Byte>)
    requires 5 <= h.doff
    ensures WordSum(HeaderBytes(h) + payload, false) ==
            WordSum(HeaderBytes(h.(cksum := 0)) + payload, false) + h.cksum
  {
    hide ToBytes, WordSum, Front, Zeros, HeaderBytes;
    var h0 := h.(cksum := 0);
    SameFront(h);
    HeaderThen(h, payload);
    HeaderThen(h0, payload);
    FieldAddsToSum(Front(h), h.cksum, ToBytes(h.uptr, 2) + (Zeros(4 * h.doff - 20) + payload));
  }

  lemma SameFront(h: Header)
    ensures Front(h.(cksum := 0)) == Front(h)
  {
    hide ToBytes;
  }

  // A segment short enough for its sum to stay below 2^32.
  predicate SumFits(seg: Segment, pseudo: U32) {
    pseudo + 65280 * (4 * seg.header.doff + |seg.payload|) + 0xffff < TWO_32
  }

  lemma SerializedSum(seg: Segment, pseudo: U32)
    requires 5 <= seg.header.doff && SumFits(seg, pseudo)
    ensures var s := pseudo + WordSum(HeaderBytes(seg.header.(cksum := 0)) + seg.payload, false);
            && s + 0xffff < TWO_32
            && SerializeSegment(seg, pseudo) == Some(HeaderBytes(seg.header.(cksum := Checksum(s))) + seg.payload)
  {
    hide WordSum, HeaderBytes, Checksum;
    var zeroed := HeaderBytes(seg.header.(cksum := 0));
    WordSumConcat(zeroed, seg.payload, false);
    WordSumBound(zeroed, false);
    WordSumBound(seg.payload, Odd(|zeroed|));
  }

  /**
   Serializing fills in a checksum that makes the segment verify, and parsing returns every field and the
   payload unchanged, apart from that checksum.
   */
  lemma SegmentRoundTrip(seg: Segment, pseudo: U32)
    requires 5 <= seg.header.doff <= 15 && SumFits(seg, pseudo)
    ensures var wire := SerializeSegment(seg, pseudo);
            wire.Some? &&
            exists c: U16 ::
              && wire.value == HeaderBytes(seg.header.(cksum := c)) + seg.payload
              && Checksum((pseudo + WordSum(wire.value, false)) % TWO_32) == 0
              && ParseSegment(wire.value, pseudo) == ParsedSegment(seg.(header := seg.header.(cksum := c)), NoError)
  {
    hide WordSum, HeaderBytes, Checksum, ParseHeader, SerializeSegment;
    var s := pseudo + WordSum(HeaderBytes(seg.header.(cksum := 0)) + seg.payload, false);
    SerializedSum(seg, pseudo);
    var c := Checksum(s);
    var h := seg.header.(cksum := c);
    ChecksumFieldInSum(h, seg.payload);
    assert h.(cksum := 0) == seg.header.(cksum := 0);
    InsertedVerifies(s);
    HeaderReadsBack(h, seg.payload);
  }

  /** A buffer is rejected for its checksum exactly if its sum is not a positive multiple of 65535. */
  lemma RejectedIffSumWrong(buffer: seq<Byte>, pseudo: U32)
    ensures ParseSegment(buffer, pseudo).result == BadChecksum <==>
            var s := (pseudo + WordSum(buffer, false)) % TWO_32; !(s > 0 && s % 65535 == 0)
  {
    hide WordSum, Checksum, ParseHeader;
    VerifiesIff((pseudo + WordSum(buffer, false)) % TWO_32);
    HeaderErrors(Input(buffer, NoError));
  }

  // The parser itself reports only that it ran out of bytes.
  lemma HeaderErrors(p: Input)
    requires p.error == NoError || p.error == PacketTooShort
    ensures ParseHeader(p).rest.error == NoError || ParseHeader(p).rest.error == PacketTooShort
  {
    hide IntOf;
  }

  // Two readings in a row.
  lemma PastTwice(b: seq<Byte>, m: nat, n: nat)
    requires m + n <= |b|
    ensures Past(Input(b[m..], NoError), n) == Input(b[m + n..], NoError)
  {
  }

  // The input after the fixed part of the header.
  function PastFixed(p: Input): Input {
    Past(Past(Past(Past(Past(Past(Past(Past(Past(p, 2), 2), 4), 4), 1), 1), 2), 2), 2)
  }

  lemma LongEnough(b: seq<Byte>)
    requires |b| >= 20
    ensures PastFixed(Input(b, NoError)) == Input(b[20..], NoError)
    ensures Past(Past(Past(Past(Input(b, NoError), 2), 2), 4), 4) == Input(b[12..], NoError)
    ensures IntOf(Input(b[12..], NoError), 1) == b[12]
  {
    hide Past, FromBytes;
    assert b[0..] == b;
    PastTwice(b, 0, 2);
    PastTwice(b, 2, 2);
    PastTwice(b, 4, 4);
    PastTwice(b, 8, 4);
    PastTwice(b, 12, 1);
    PastTwice(b, 13, 1);
    PastTwice(b, 14, 2);
    PastTwice(b, 16, 2);
    PastTwice(b, 18, 2);
    OneByte(b, 12);
    assert b[12..][..1] == b[12..13];
  }

  lemma TooShort(b: seq<Byte>)
    requires |b| < 20
    ensures PastFixed(Input(b, NoError)).error == PacketTooShort
  {
  }

  // The next integer in the input is the field at that offset.
  lemma FieldAt(b: seq<Byte>, at: nat, n: nat)
    requires at + n <= |b|
    ensures IntOf(Input(b[at..], NoError), n) == Field(b, at, n)
  {
    hide FromBytes;
    assert b[at..][..n] == b[at..at + n];
  }

  // The numbers that the header parser reads, each behind the one before.
  lemma NumbersOf(b: seq<Byte>)
    requires |b| >= 20
    ensures var h := ParseHeader(Input(b, NoError)).header;
            && h.sport == Field(b, 0, 2) && h.dport == Field(b, 2, 2)
            && h.seqno == Field(b, 4, 4) && h.ackno == Field(b, 8, 4)
            && h.doff == Field(b, 12, 1) / 16
            && h.win == Field(b, 14, 2) && h.cksum == Field(b, 16, 2) && h.uptr == Field(b, 18, 2)
            && ReadsFlags(Field(b, 13, 1), h)
  {
    hide Past, Field, IntOf;
    assert b[0..] == b;
    PastTwice(b, 0, 2);
    PastTwice(b, 2, 2);
    PastTwice(b, 4, 4);
    PastTwice(b, 8, 4);
    PastTwice(b, 12, 1);
    PastTwice(b, 13, 1);
    PastTwice(b, 14, 2);
    PastTwice(b, 16, 2);
    FieldAt(b, 0, 2);
    FieldAt(b, 2, 2);
    FieldAt(b, 4, 4);
    FieldAt(b, 8, 4);
    FieldAt(b, 12, 1);
    FieldAt(b, 13, 1);
    FieldAt(b, 14, 2);
    FieldAt(b, 16, 2);
    FieldAt(b, 18, 2);
  }

  /**
   Whatever the bytes: each field of the header read from them is the one where section 3.1 of RFC 793 puts it,
   and each flag is its own bit, the reserved bits being ignored.
   */
  lemma FieldsOf(b: seq<Byte>)
    requires |b| >= 20
    ensures var h := ParseHeader(Input(b, NoError)).header;
            && h.sport == Field(b, 0, 2) && h.dport == Field(b, 2, 2)
            && h.seqno == Field(b, 4, 4) && h.ackno == Field(b, 8, 4)
            && h.doff == b[12] / 16
            && h.urg == (b[13] / 32 % 2 == 1) && h.ack == (b[13] / 16 % 2 == 1) && h.psh == (b[13] / 8 % 2 == 1)
            && h.rst == (b[13] / 4 % 2 == 1) && h.syn == (b[13] / 2 % 2 == 1) && h.fin == (b[13] % 2 == 1)
            && h.win == Field(b, 14, 2) && h.cksum == Field(b, 16, 2) && h.uptr == Field(b, 18, 2)
  {
    hide ParseHeader, Field;
    NumbersOf(b);
    OneByte(b, 12);
    OneByte(b, 13);
  }

  // What the header parser says of a buffer, and what it leaves in the input.
  lemma HeaderOutcome(b: seq<Byte>)
    ensures var p := ParseHeader(Input(b, NoError));
            && (|b| < 20 ==>
                  && p.rest.error == PacketTooShort
                  && p.result == if |b| >= 13 && b[12] / 16 >= 5 then PacketTooShort else HeaderTooShort)
            && (|b| >= 20 ==>
                  var words := b[12] / 16;
                  && (p.result == NoError <==> words >= 5 && 4 * words <= |b|)
                  && (p.result == HeaderTooShort <==> words < 5)
                  && (p.result == PacketTooShort <==> words >= 5 && 4 * words > |b|)
                  && (p.rest.error == NoError <==> words < 5 || 4 * words <= |b|)
                  && (p.rest.error == NoError ==> p.rest.buffer == if words < 5 then b[20..] else b[4 * words..]))
  {
    hide IntOf, Past;
    var p := ParseHeader(Input(b, NoError));
    ParsedFrom(b);
    if |b| < 20 {
      TooShort(b);
      ShortOffset(b);
      var n: int := p.header.doff;
      StaysShort(PastFixed(Input(b, NoError)), n * 4 - 20);
    } else {
      LongEnough(b);
      LastPast(b[20..], p.header.doff * 4 - 20);
      if p.header.doff >= 5 && 4 * p.header.doff <= |b| {
        PastTwice(b, 20, 4 * p.header.doff - 20);
      }
    }
  }

  // The words claimed, and the input behind the fixed part.
  lemma ParsedFrom(b: seq<Byte>)
    ensures var p, p9 := ParseHeader(Input(b, NoError)), PastFixed(Input(b, NoError));
            && p.header.doff == IntOf(Past(Past(Past(Past(Input(b, NoError), 2), 2), 4), 4), 1) / 16
            && p.rest == (if p.header.doff < 5 then p9 else Past(p9, p.header.doff * 4 - 20))
            && p.result == if p.header.doff < 5 then HeaderTooShort else p.rest.error
  {
    hide IntOf, Past;
  }

  // A buffer that ends before the byte with the header length counts as claiming no words.
  lemma ShortOffset(b: seq<Byte>)
    requires |b| < 20
    ensures IntOf(Past(Past(Past(Past(Input(b, NoError), 2), 2), 4), 4), 1) == if |b| >= 13 then b[12] else 0
  {
    hide FromBytes;
    if |b| >= 13 {
      FieldAt(b, 12, 1);
      OneByte(b, 12);
    }
  }

  lemma StaysShort(p: Input, n: int)
    requires p.error == PacketTooShort
    ensures n >= 0 ==> Past(p, n).error == PacketTooShort
  {
  }

  lemma LastPast(b: seq<Byte>, n: int)
    ensures n >= 0 ==> Past(Input(b, NoError), n).error == if n <= |b| then NoError else PacketTooShort
  {
  }

  /**
   A buffer is accepted exactly if its sum verifies, it holds the fixed part of a header, and it holds the
   words that the header claims, or the header claims too few to be one.
   */
  lemma AcceptedIff(b: seq<Byte>, pseudo: U32)
    ensures ParseSegment(b, pseudo).result == NoError <==>
            && Checksum((pseudo + WordSum(b, false)) % TWO_32) == 0
            && |b| >= 20 && (b[12] / 16 < 5 || 4 * (b[12] / 16) <= |b|)
  {
    hide ParseHeader, WordSum, Checksum;
    HeaderOutcome(b);
  }

  /**
   The segment read from an accepted buffer has the header read from it, and as payload what follows the words
   that the header claims, or the fixed part if it claims too few. A refused one has a wrong sum or is too short.
   */
  lemma AcceptedSegment(b: seq<Byte>, pseudo: U32)
    ensures var p := ParseSegment(b, pseudo);
            && (p.result == NoError ==>
                  && |b| >= 20 && (b[12] / 16 < 5 || 4 * (b[12] / 16) <= |b|)
                  && p.segment.header == ParseHeader(Input(b, NoError)).header
                  && p.segment.payload == if b[12] / 16 < 5 then b[20..] else b[4 * (b[12] / 16)..])
            && (p.result != NoError ==>
                  p.result == if Checksum((pseudo + WordSum(b, false)) % TWO_32) != 0 then BadChecksum else PacketTooShort)
  {
    hide ParseHeader, WordSum, Checksum;
    HeaderOutcome(b);
    HeaderErrors(Input(b, NoError));
  }

  /** Serializing throws exactly for a header of fewer than five words. */
  lemma SegmentSerializesIff(seg: Segment, pseudo: U32)
    ensures SerializeSegment(seg, pseudo).Some? <==> seg.header.doff >= 5
  {
    hide WordSum, Checksum, HeaderBytes;
  }

  /** The header parser refuses an accepted buffer exactly if the sum verifies and fewer than five words are claimed. */
  lemma RefusedHeaderAcceptedIff(b: seq<Byte>, pseudo: U32)
    ensures ParseSegment(b, pseudo).result == NoError && ParseHeader(Input(b, NoError)).result != NoError <==>
            Checksum((pseudo + WordSum(b, false)) % TWO_32) == 0 && |b| >= 20 && b[12] / 16 < 5
  {
    hide ParseHeader, WordSum, Checksum;
    HeaderOutcome(b);
  }

  lemma {:induction false} ZerosAreZero(n: nat, i: nat)
    requires i < n
    ensures Zeros(n)[i] == 0
  {
    if i > 0 {
      ZerosAreZero(n - 1, i - 1);
    }
  }

  lemma {:induction false} ZerosSum(n: nat, low: bool)
    ensures WordSum(Zeros(n), low) == 0
  {
    if n > 0 {
      WordSumConcat([0], Zeros(n - 1), low);
      ZerosSum(n - 1, low != Odd(1));
      assert [0 as Byte][..0] == [];
      assert WordSum([0], low) == Term(0, low);
    }
  }

  /** Concretely: twenty bytes of zeros are refused by the header parser and accepted as a segment all the same. */
  lemma ShortHeaderIsAccepted()
    ensures ParseHeader(Input(Zeros(20), NoError)).result == HeaderTooShort
    ensures ParseSegment(Zeros(20), 65535).result == NoError
  {
    hide ParseHeader, Zeros, Checksum;
    ZerosAreZero(20, 12);
    ZerosSum(20, false);
    VerifiesIff(65535);
    HeaderOutcome(Zeros(20));
    AcceptedIff(Zeros(20), 65535);
  }
}
