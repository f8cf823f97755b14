/** Predicates that decide what the engine does with a packet: unwrap it,
    wrap it, or leave it alone; and whether its destination looks like a
    broadcast address. */
module Classifier {
  import opened Ipv4

  /** The packet is in disguise: its protocol byte says ICMP. */
  predicate IsWrapped(p: Packet)
    requires PROTO_BYTE < |p|
  {
    p[PROTO_BYTE] == PROTO_ICMP
  }

  /** The packet is TCP or UDP, so it can be disguised (the source calls
      this `should_warp`). */
  predicate ShouldWarp(p: Packet)
    requires PROTO_BYTE < |p|
  {
    p[PROTO_BYTE] == PROTO_UDP || p[PROTO_BYTE] == PROTO_TCP
  }

  /** The destination's last octet is 255. Only the octet is inspected; no
      netmask is consulted. */
  predicate IsBroadcast(p: Packet)
    requires HEADER_LEN <= |p|
  {
    p[DST_OFFSET + 3] == 255
  }

  /** At most one of the two protocol classifiers holds; exactly one holds
      for ICMP, TCP and UDP, and neither for any other protocol number. */
  lemma ClassifiersPartition(p: Packet)
    requires PROTO_BYTE < |p|
    ensures !(IsWrapped(p) && ShouldWarp(p))
    ensures var proto := p[PROTO_BYTE];
      proto == PROTO_ICMP || proto == PROTO_TCP || proto == PROTO_UDP
      <==> IsWrapped(p) || ShouldWarp(p)
  {}

  function Pow2(k: nat): (r: nat)
    ensures r >= 1
  {
    if k == 0 then 1 else 2 * Pow2(k - 1)
  }

  /** The destination address as a 32-bit number, network byte order. */
  function DstValue(p: Packet): (r: nat)
    requires HEADER_LEN <= |p|
    ensures r % 256 == p[DST_LAST] as int
  {
    var network := (p[DST_OFFSET] as int * 256 + p[DST_OFFSET + 1] as int) * 256
      + p[DST_OFFSET + 2] as int;
    LowByte(network, p[DST_LAST] as int);
    256 * network + p[DST_LAST] as int
  }

  lemma LowByte(x: nat, y: nat)
    requires y < 256
    ensures (256 * x + y) % 256 == y
  {}

  /** The destination is the directed broadcast address of a network with
      `prefix` network bits: every host bit is one. */
  predicate DirectedBroadcast(p: Packet, prefix: nat)
    requires HEADER_LEN <= |p| && prefix <= 32
  {
    DstValue(p) % Pow2(32 - prefix) == Pow2(32 - prefix) - 1
  }

  /** The last-octet test is exactly "broadcast address of its /24", so
      it also flags hosts of longer-prefix networks that happen to end in
      255. */
  lemma BroadcastIsSlash24(p: Packet)
    requires HEADER_LEN <= |p|
    ensures IsBroadcast(p) <==> DirectedBroadcast(p, 24)
  {
    assert Pow2(8) == 256;
  }

  /** The last-octet test catches the broadcast address of every network
      of prefix 24 or shorter (255.255.255.255 included, as prefix 0). */
  lemma {:induction false} BroadcastHeuristic(p: Packet, prefix: nat)
    requires HEADER_LEN <= |p| && prefix <= 24
    ensures DirectedBroadcast(p, prefix) ==> IsBroadcast(p)
  {
    var m := Pow2(24 - prefix);
    Pow2Split(24 - prefix);
    if DirectedBroadcast(p, prefix) {
      AllOnesLowByte(DstValue(p), m);
    }
  }

  lemma {:induction false} Pow2Split(k: nat)
    ensures Pow2(k + 8) == 256 * Pow2(k)
    decreases k
  {
    if k == 0 {
      assert Pow2(8) == 256;
    } else {
      Pow2Split(k - 1);
    }
  }

  /** A value whose residue modulo 256*m is all ones ends in the byte 255. */
  lemma AllOnesLowByte(v: nat, m: nat)
    requires m >= 1 && v % (256 * m) == 256 * m - 1
    ensures v % 256 == 255
  {
    var q := v / (256 * m);
    assert v == (256 * m) * q + (256 * m - 1);
    assert v == 256 * (m * q + m - 1) + 255;
  }
}
