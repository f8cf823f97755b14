/** The reversible rewrite between a native TCP/UDP packet and its ICMP
    disguise. The original transport is remembered in the top bit of byte 6
    (set for UDP, clear for TCP), and the header checksum over bytes [0,20)
    is repaired after every rewrite. */
module Transcoder {
  import opened Ipv4
  import opened InternetChecksum

  /** The hidden tag: "this wrapped packet was UDP". */
  predicate TaggedUdp(p: Packet)
    requires FLAGS_BYTE < |p|
  {
    p[FLAGS_BYTE] & TAG_BIT != 0
  }

  /** The header checksum field holds a value the RFC 1071 check accepts. */
  predicate HeaderChecksumOk(p: Packet)
    requires HEADER_LEN <= |p|
  {
    Checksum(p[..HEADER_LEN]) == 0
  }

  /** `put_checksum(&mut packet[..20], 10)`: recompute the header checksum
      in place; the bytes after the header are not covered. */
  function RepairHeaderChecksum(p: Packet): (r: Packet)
    requires HEADER_LEN <= |p|
    ensures SameOutsideChecksum(p, r)
    ensures HeaderChecksumOk(r)
  {
    var header := PutChecksum(p[..HEADER_LEN], CHECKSUM_OFFSET);
    var r := header + p[HEADER_LEN..];
    assert r[..HEADER_LEN] == header;
    r
  }

  /** Repairing depends only on the bytes outside the checksum field. */
  lemma RepairIgnoresField(p: Packet, q: Packet)
    requires HEADER_LEN <= |p|
    requires SameOutsideChecksum(p, q)
    ensures RepairHeaderChecksum(p) == RepairHeaderChecksum(q)
  {
    PutChecksumIgnoresField(p[..HEADER_LEN], q[..HEADER_LEN], CHECKSUM_OFFSET);
    assert p[HEADER_LEN..] == q[HEADER_LEN..];
  }

  /** A packet whose checksum field already holds what a repair would write
      is left as it is by the repair. */
  lemma RepairIdempotent(p: Packet)
    requires HEADER_LEN <= |p|
    ensures RepairHeaderChecksum(RepairHeaderChecksum(p)) == RepairHeaderChecksum(p)
  {
    RepairIgnoresField(RepairHeaderChecksum(p), p);
  }

  /** The source's `add_wrapper`: tag UDP, relabel as ICMP, repair the
      checksum. Any protocol other than TCP or UDP is a contract violation
      (`unreachable!`). */
  function AddWrapper(p: Packet): (r: Packet)
    requires HEADER_LEN <= |p|
    requires p[PROTO_BYTE] == PROTO_TCP || p[PROTO_BYTE] == PROTO_UDP
    ensures SameOutsideRewrite(p, r)
    ensures r[PROTO_BYTE] == PROTO_ICMP
    ensures p[PROTO_BYTE] == PROTO_TCP ==> r[FLAGS_BYTE] == p[FLAGS_BYTE]
    ensures p[PROTO_BYTE] == PROTO_UDP ==> r[FLAGS_BYTE] == p[FLAGS_BYTE] | TAG_BIT
    ensures p[PROTO_BYTE] == PROTO_UDP ==>
      TaggedUdp(r) && r[FLAGS_BYTE] & 0x7f == p[FLAGS_BYTE] & 0x7f
    ensures HeaderChecksumOk(r)
  {
    var tagged := if p[PROTO_BYTE] == PROTO_UDP
      then p[FLAGS_BYTE := p[FLAGS_BYTE] | TAG_BIT]
      else p;
    RepairHeaderChecksum(tagged[PROTO_BYTE := PROTO_ICMP])
  }

  /** The source's `rm_wrapper`: restore UDP if tagged and TCP otherwise,
      clear the tag, repair the checksum. It accepts any protocol byte. */
  function RmWrapper(p: Packet): (r: Packet)
    requires HEADER_LEN <= |p|
    ensures SameOutsideRewrite(p, r)
    ensures r[PROTO_BYTE] == (if TaggedUdp(p) then PROTO_UDP else PROTO_TCP)
    ensures r[FLAGS_BYTE] == p[FLAGS_BYTE] & 0x7f && !TaggedUdp(r)
    ensures HeaderChecksumOk(r)
  {
    var proto := if p[FLAGS_BYTE] & TAG_BIT == 0 then PROTO_TCP else PROTO_UDP;
    RepairHeaderChecksum(p[PROTO_BYTE := proto][FLAGS_BYTE := p[FLAGS_BYTE] & 0x7f])
  }

  /** Both rewrites leave exactly the checksum a repair would write. */
  lemma WrappersLeaveCanonicalChecksum(p: Packet)
    requires HEADER_LEN <= |p|
    ensures RepairHeaderChecksum(RmWrapper(p)) == RmWrapper(p)
    ensures p[PROTO_BYTE] == PROTO_TCP || p[PROTO_BYTE] == PROTO_UDP ==>
      RepairHeaderChecksum(AddWrapper(p)) == AddWrapper(p)
  {
    var proto := if p[FLAGS_BYTE] & TAG_BIT == 0 then PROTO_TCP else PROTO_UDP;
    RepairIdempotent(p[PROTO_BYTE := proto][FLAGS_BYTE := p[FLAGS_BYTE] & 0x7f]);
    if p[PROTO_BYTE] == PROTO_TCP || p[PROTO_BYTE] == PROTO_UDP {
      var tagged := if p[PROTO_BYTE] == PROTO_UDP
        then p[FLAGS_BYTE := p[FLAGS_BYTE] | TAG_BIT]
        else p;
      RepairIdempotent(tagged[PROTO_BYTE := PROTO_ICMP]);
    }
  }

  lemma ClearTag(b: bv8)
    ensures (b & 0x7f) & TAG_BIT == 0
    ensures (b & 0x7f) | TAG_BIT == b | TAG_BIT
  {}

  /** A byte is determined by its tag bit together with either view of
      its other seven bits. */
  lemma TagAndRestDetermineByte(x: bv8, y: bv8)
    requires x & TAG_BIT == y & TAG_BIT
    requires x | TAG_BIT == y | TAG_BIT || x & 0x7f == y & 0x7f
    ensures x == y
  {}

  /** Clearing the tag of a tagged byte and setting it again restores it. */
  lemma RetagRestores(p6: bv8, u6: bv8, w6: bv8)
    requires p6 & TAG_BIT != 0 && u6 | TAG_BIT == p6 | TAG_BIT
    requires w6 & TAG_BIT != 0 && w6 & 0x7f == u6 & 0x7f
    ensures w6 == p6
  {}

  /** Two rewrites of bytes 6, 9, 10 and 11 in a row that end with bytes 6
      and 9 as they started differ from the start in the checksum only. */
  lemma RewriteUndone(p: Packet, u: Packet, w: Packet)
    requires SameOutsideRewrite(p, u)
    requires SameOutsideRewrite(u, w)
    requires HEADER_LEN <= |p| && w[FLAGS_BYTE] == p[FLAGS_BYTE] && w[PROTO_BYTE] == p[PROTO_BYTE]
    ensures SameOutsideChecksum(p, w)
  {}

  /** Wrapping then unwrapping a TCP or UDP packet whose tag bit is clear
      gives the packet back with only its header checksum recomputed, and
      exactly the packet when that checksum was already the computed one. */
  lemma WrapThenUnwrap(p: Packet)
    requires HEADER_LEN <= |p|
    requires p[PROTO_BYTE] == PROTO_TCP || p[PROTO_BYTE] == PROTO_UDP
    requires !TaggedUdp(p)
    ensures RmWrapper(AddWrapper(p)) == RepairHeaderChecksum(p)
    ensures p == RepairHeaderChecksum(p) ==> RmWrapper(AddWrapper(p)) == p
  {
    var w := AddWrapper(p);
    var u := RmWrapper(w);
    assert u[PROTO_BYTE] == p[PROTO_BYTE];
    if p[PROTO_BYTE] == PROTO_UDP {
      ClearTag(w[FLAGS_BYTE]);
      TagAndRestDetermineByte(w[FLAGS_BYTE] & 0x7f, p[FLAGS_BYTE]);
    }
    TagAndRestDetermineByte(u[FLAGS_BYTE], p[FLAGS_BYTE]);
    RewriteUndone(p, w, u);
    WrappersLeaveCanonicalChecksum(w);
    RepairIgnoresField(p, u);
  }

  /** Why `WrapThenUnwrap` needs the tag bit clear: bit 0x80 of byte 6 is
      the reserved flag of the IPv4 header, and a TCP packet that arrives
      with it set is tagged as if it were UDP, so the far end restores
      protocol 17 and clears the bit. */
  lemma ReservedBitTcpReturnsAsUdp(p: Packet)
    requires HEADER_LEN <= |p|
    requires p[PROTO_BYTE] == PROTO_TCP && TaggedUdp(p)
    ensures RmWrapper(AddWrapper(p))[PROTO_BYTE] == PROTO_UDP
    ensures !TaggedUdp(RmWrapper(AddWrapper(p)))
  {}

  /** Unwrapping then wrapping an ICMP packet gives it back with only its
      header checksum recomputed, whatever its tag bit held. */
  lemma UnwrapThenWrap(p: Packet)
    requires HEADER_LEN <= |p|
    requires p[PROTO_BYTE] == PROTO_ICMP
    ensures AddWrapper(RmWrapper(p)) == RepairHeaderChecksum(p)
    ensures p == RepairHeaderChecksum(p) ==> AddWrapper(RmWrapper(p)) == p
  {
    UnwrapThenWrapFrame(p);
    WrappersLeaveCanonicalChecksum(RmWrapper(p));
    RepairIgnoresField(p, AddWrapper(RmWrapper(p)));
  }

  lemma UnwrapThenWrapFrame(p: Packet)
    requires HEADER_LEN <= |p|
    requires p[PROTO_BYTE] == PROTO_ICMP
    ensures SameOutsideChecksum(p, AddWrapper(RmWrapper(p)))
  {
    var u := RmWrapper(p);
    var w := AddWrapper(u);
    var p6, u6, w6 := p[FLAGS_BYTE], u[FLAGS_BYTE], w[FLAGS_BYTE];
    if TaggedUdp(p) {
      assert u[PROTO_BYTE] == PROTO_UDP;
      RetagRestores(p6, u6, w6);
    } else {
      assert u[PROTO_BYTE] == PROTO_TCP;
      TagAndRestDetermineByte(u6, p6);
    }
    assert w6 == p6 && w[PROTO_BYTE] == p[PROTO_BYTE];
    RewriteUndone(p, u, w);
  }
}
