/** IPv4 datagrams as values (section 3.1 of RFC 791). */
module Datagrams {
  import opened Common

  datatype IPv4Header = IPv4Header(
    ver: Byte, hlen: Byte, tos: Byte, len: U16, id: U16, df: bool, mf: bool, offset: U16,
    ttl: Byte, proto: Byte, cksum: U16, src: IP, dst: IP)

  datatype Datagram = Datagram(header: IPv4Header, payload: seq<Byte>)

  // The uint16_t length of the payload that a header announces.
  function PayloadLength(h: IPv4Header): U16 {
    (h.len - 4 * h.hlen) % TWO_16
  }
}
