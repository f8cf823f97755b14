/** The per-packet policy of the source's `handle`: unwrap disguised
    packets, disguise TCP/UDP packets (after optionally redirecting a
    broadcast destination), and pass everything else through untouched.
    The diagnostic `display` calls do not change the buffer and are left
    out. */
module Engine {
  import opened Ipv4
  import opened InternetChecksum
  import opened Classifier
  import opened Transcoder

  /** The destination a native packet is sent on to: the configured
      redirect address when the packet looks like a broadcast, its own
      destination otherwise. */
  function Destination(p: Packet, redirect: Option<Ipv4Addr>): seq<bv8>
    requires HEADER_LEN <= |p|
  {
    if IsBroadcast(p) && redirect.Some? then redirect.value.Octets()
    else p[DST_OFFSET..DST_OFFSET + 4]
  }

  /** Overwrite bytes 16-19 with the redirect octets when the destination
      looks like a broadcast and a redirect address is configured. The
      checksum is not repaired here; wrapping does that afterwards. */
  function RedirectBroadcast(p: Packet, redirect: Option<Ipv4Addr>): (r: Packet)
    requires HEADER_LEN <= |p|
    ensures |r| == |p|
    ensures forall i :: 0 <= i < |p| && !(DST_OFFSET <= i < DST_OFFSET + 4) ==> r[i] == p[i]
    ensures r[DST_OFFSET..DST_OFFSET + 4] == Destination(p, redirect)
    ensures redirect.None? ==> r == p
  {
    if IsBroadcast(p) && redirect.Some? then
      var o := redirect.value.Octets();
      p[DST_OFFSET := o[0]][DST_OFFSET + 1 := o[1]][DST_OFFSET + 2 := o[2]][DST_OFFSET + 3 := o[3]]
    else
      p
  }

  /** The source's `handle`. Unwrapped output equals `rm_wrapper` of the
      input; wrapped output is ICMP, has the tag bit set when it was UDP
      (the other bits of byte 6 kept), carries the (possibly redirected)
      destination and a valid header checksum, and differs from the input
      only in the rewritten bytes; any other protocol is left
      byte-for-byte as it came. */
  function Handle(p: Packet, redirect: Option<Ipv4Addr>): (r: Packet)
    requires HEADER_LEN <= |p|
    ensures |r| == |p|
    ensures IsWrapped(p) ==> r == RmWrapper(p)
    ensures ShouldWarp(p) ==>
      && r[PROTO_BYTE] == PROTO_ICMP
      && r[DST_OFFSET..DST_OFFSET + 4] == Destination(p, redirect)
      && HeaderChecksumOk(r)
      && (p[PROTO_BYTE] == PROTO_UDP ==> r[FLAGS_BYTE] == p[FLAGS_BYTE] | TAG_BIT)
      && (p[PROTO_BYTE] == PROTO_TCP ==> r[FLAGS_BYTE] == p[FLAGS_BYTE])
      && forall i :: (0 <= i < |p| && !(DST_OFFSET <= i < DST_OFFSET + 4) && i != FLAGS_BYTE
                      && i != PROTO_BYTE && i != CHECKSUM_OFFSET && i != CHECKSUM_OFFSET + 1)
                     ==> r[i] == p[i]
    ensures !IsWrapped(p) && !ShouldWarp(p) ==> r == p
  {
    if IsWrapped(p) then
      RmWrapper(p)
    else if ShouldWarp(p) then
      var redirected := RedirectBroadcast(p, redirect);
      var r := AddWrapper(redirected);
      assert redirected[FLAGS_BYTE] == p[FLAGS_BYTE];
      assert r[DST_OFFSET..DST_OFFSET + 4] == redirected[DST_OFFSET..DST_OFFSET + 4];
      r
    else
      p
  }

  /** The protocol byte after `handle`: TCP and UDP become ICMP, ICMP
      becomes TCP or UDP, every other value is kept. */
  lemma HandleProtocolMap(p: Packet, redirect: Option<Ipv4Addr>)
    requires HEADER_LEN <= |p|
    ensures var before, after := p[PROTO_BYTE], Handle(p, redirect)[PROTO_BYTE];
      && (before == PROTO_TCP || before == PROTO_UDP ==> after == PROTO_ICMP)
      && (before == PROTO_ICMP ==> after == PROTO_TCP || after == PROTO_UDP)
      && (before != PROTO_TCP && before != PROTO_UDP && before != PROTO_ICMP ==> after == before)
  {}

  /** A native packet sent through the engine at one end of the tunnel
      and through the engine at the other end arrives as it left, except
      for a redirected broadcast destination and a recomputed header
      checksum; without a redirect and with an already canonical checksum
      it arrives exactly as it left. */
  lemma {:induction false} TunnelDeliversNative(p: Packet, redirect: Option<Ipv4Addr>, other: Option<Ipv4Addr>)
    requires HEADER_LEN <= |p|
    requires ShouldWarp(p) && !TaggedUdp(p)
    ensures Handle(Handle(p, redirect), other) == RepairHeaderChecksum(RedirectBroadcast(p, redirect))
    ensures redirect.None? && p == RepairHeaderChecksum(p) ==> Handle(Handle(p, redirect), other) == p
  {
    var redirected := RedirectBroadcast(p, redirect);
    assert redirected[FLAGS_BYTE] == p[FLAGS_BYTE] && redirected[PROTO_BYTE] == p[PROTO_BYTE];
    var wrapped := Handle(p, redirect);
    assert wrapped == AddWrapper(redirected);
    assert IsWrapped(wrapped);
    WrapThenUnwrap(redirected);
  }

  /** A disguised packet unwrapped at one end and re-wrapped at the other
      (with no redirect configured there) comes back as it was, up to the
      recomputed header checksum. */
  lemma {:induction false} TunnelReturnsWrapped(p: Packet, redirect: Option<Ipv4Addr>)
    requires HEADER_LEN <= |p|
    requires IsWrapped(p)
    ensures Handle(Handle(p, redirect), None) == RepairHeaderChecksum(p)
  {
    var unwrapped := Handle(p, redirect);
    assert unwrapped == RmWrapper(p);
    assert ShouldWarp(unwrapped);
    assert Handle(unwrapped, None) == AddWrapper(unwrapped);
    UnwrapThenWrap(p);
  }
}
