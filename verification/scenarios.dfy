/** Concrete instances of the general contracts: the worked example of
    RFC 1071 section 3 and concrete end-to-end cases. */
module Scenarios {
  import opened Ipv4
  import opened InternetChecksum
  import opened Classifier
  import opened Transcoder
  import opened Engine

  /** Section 3 of RFC 1071: the words 0001 f203 f4f5 f6f7 sum to ddf2 in
      one's complement, so the checksum is 220d. */
  lemma Rfc1071Example()
    ensures Fold(WordSum([0x00, 0x01, 0xf2, 0x03, 0xf4, 0xf5, 0xf6, 0xf7])) == 0xddf2
    ensures Checksum([0x00, 0x01, 0xf2, 0x03, 0xf4, 0xf5, 0xf6, 0xf7]) == 0x220d
  {
    var b: seq<bv8> := [0x00, 0x01, 0xf2, 0x03, 0xf4, 0xf5, 0xf6, 0xf7];
    assert WordSum(b[6..]) == 0xf6f7;
    assert WordSum(b[4..]) == 0xf4f5 + 0xf6f7;
    assert WordSum(b[2..]) == 0xf203 + 0xf4f5 + 0xf6f7;
    assert WordSum(b) == 0x2ddf0;
  }

  /** A TCP packet with clear flags byte: wrapping relabels it ICMP,
      leaves the flags byte alone and leaves a valid checksum. */
  lemma TcpWrapScenario(p: Packet)
    requires HEADER_LEN <= |p| && p[PROTO_BYTE] == PROTO_TCP && p[FLAGS_BYTE] == 0x00
    ensures AddWrapper(p)[PROTO_BYTE] == PROTO_ICMP
    ensures AddWrapper(p)[FLAGS_BYTE] == 0x00
    ensures HeaderChecksumOk(AddWrapper(p))
  {}

  /** A UDP packet with clear flags byte: wrapping gives protocol 1 and
      flags 0x80; unwrapping gives protocol 17 and flags 0x00 back. */
  lemma UdpRoundTripScenario(p: Packet)
    requires HEADER_LEN <= |p| && p[PROTO_BYTE] == PROTO_UDP && p[FLAGS_BYTE] == 0x00
    ensures AddWrapper(p)[PROTO_BYTE] == PROTO_ICMP && AddWrapper(p)[FLAGS_BYTE] == 0x80
    ensures RmWrapper(AddWrapper(p))[PROTO_BYTE] == PROTO_UDP
    ensures RmWrapper(AddWrapper(p))[FLAGS_BYTE] == 0x00
    ensures HeaderChecksumOk(RmWrapper(AddWrapper(p)))
  {}

  /** A TCP packet to 255.255.255.255 with redirect 10.0.0.5 leaves the
      engine as ICMP to 10.0.0.5 with a checksum valid for that header. */
  lemma BroadcastRedirectScenario(p: Packet)
    requires HEADER_LEN <= |p| && p[PROTO_BYTE] == PROTO_TCP
    requires p[DST_OFFSET..DST_OFFSET + 4] == [255, 255, 255, 255]
    ensures Handle(p, Some(Ipv4Addr(10, 0, 0, 5)))[DST_OFFSET..DST_OFFSET + 4] == [10, 0, 0, 5]
    ensures Handle(p, Some(Ipv4Addr(10, 0, 0, 5)))[PROTO_BYTE] == PROTO_ICMP
    ensures HeaderChecksumOk(Handle(p, Some(Ipv4Addr(10, 0, 0, 5))))
  {}

  /** Protocol 0x2F (GRE) is neither wrapped nor wrappable: the buffer
      passes through unchanged. */
  lemma PassThroughScenario(p: Packet, redirect: Option<Ipv4Addr>)
    requires HEADER_LEN <= |p| && p[PROTO_BYTE] == 0x2F
    ensures Handle(p, redirect) == p
  {}

  /** The last-octet test is a heuristic: 10.0.0.255 is a host of the /23
      network 10.0.0.0 yet is flagged, and 192.168.1.127, the broadcast
      address of the /25 network 192.168.1.0, is not. */
  lemma BroadcastHeuristicScenario(p: Packet, q: Packet)
    requires HEADER_LEN <= |p| && p[DST_OFFSET..DST_OFFSET + 4] == [10, 0, 0, 255]
    requires HEADER_LEN <= |q| && q[DST_OFFSET..DST_OFFSET + 4] == [192, 168, 1, 127]
    ensures IsBroadcast(p) && !DirectedBroadcast(p, 23)
    ensures !IsBroadcast(q) && DirectedBroadcast(q, 25)
  {
    assert Pow2(9) == 512 && Pow2(7) == 128;
    assert p[DST_OFFSET + 2] == 0 && p[DST_LAST] == 255;
    assert q[DST_OFFSET + 2] == 1 && q[DST_LAST] == 127;
  }
}
