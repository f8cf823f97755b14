/** The parts of a raw IPv4 datagram that the transcoding engine touches:
    fixed byte offsets into the 20-byte header, the protocol numbers it
    knows, and the redirect address it may be configured with. */
module Ipv4 {

  /** One raw IPv4 datagram, header first. */
  type Packet = seq<bv8>

  /** Length of the option-less IPv4 header the checksum covers. */
  const HEADER_LEN: nat := 20
  /** High byte of the flags/fragment-offset word; its top bit is the hidden tag. */
  const FLAGS_BYTE: nat := 6
  /** Protocol number. */
  const PROTO_BYTE: nat := 9
  /** First byte of the big-endian header checksum. */
  const CHECKSUM_OFFSET: nat := 10
  /** First byte of the destination address. */
  const DST_OFFSET: nat := 16
  /** Last octet of the destination address. */
  const DST_LAST: nat := 19

  const PROTO_ICMP: bv8 := 0x01
  const PROTO_TCP: bv8 := 0x06
  const PROTO_UDP: bv8 := 0x11

  /** Bit of FLAGS_BYTE that records "this wrapped packet was UDP". */
  const TAG_BIT: bv8 := 0x80

  datatype Option<T> = None | Some(value: T)

  /** A configured IPv4 address, as its four octets in network order. */
  datatype Ipv4Addr = Ipv4Addr(a: bv8, b: bv8, c: bv8, d: bv8) {
    function Octets(): (r: seq<bv8>)
      ensures |r| == 4
    {
      [a, b, c, d]
    }
  }

  /** `q` is `p` with at most the checksum field rewritten. */
  predicate SameOutsideChecksum(p: Packet, q: Packet) {
    && |p| == |q|
    && forall i :: 0 <= i < |p| && i != CHECKSUM_OFFSET && i != CHECKSUM_OFFSET + 1 ==> q[i] == p[i]
  }

  /** `q` is `p` with at most the tag byte, the protocol byte and the
      checksum field rewritten. */
  predicate SameOutsideRewrite(p: Packet, q: Packet) {
    && |p| == |q|
    && forall i :: (0 <= i < |p| && i != FLAGS_BYTE && i != PROTO_BYTE
                    && i != CHECKSUM_OFFSET && i != CHECKSUM_OFFSET + 1) ==> q[i] == p[i]
  }
}
