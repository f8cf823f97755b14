# all-in-icmp transcoding engine, in Dafny

The program sits on a netfilter queue and disguises TCP and UDP traffic as
ICMP, so that paths that only let ICMP through still carry the flows. The
other end of the tunnel takes the disguise off again. Its core works in
place on the raw IPv4 header. This project models that core as pure
functions over `seq<bv8>` and proves the properties it depends on.

- `InternetChecksum` (checksum.dfy) is the header checksum of RFC 1071.
  `Checksum` is a reference definition: the complement of the
  one's-complement sum of big-endian 16-bit words. `CalculateChecksum`
  follows the source's loops, including the wrapping `u32` accumulator.
  It is proved to compute `AccumulatedChecksum` for every non-empty buffer, and
  to equal the reference up to 65535 bytes. `PutChecksum` is the
  source's `put_checksum` and stores the accumulator's value. It changes
  only the two field bytes. Up to 65535 bytes with a word-aligned field,
  the buffer afterwards checksums to zero (the RFC's verification rule).
- `Classifier` (classifier.dfy) holds `is_wrapped`, `should_warp` and
  `is_broadcast`. The last one only tests whether the final octet is 255,
  and it is related to directed-broadcast addresses of real prefix
  lengths.
- `Transcoder` (transcoder.dfy) holds `add_wrapper` and `rm_wrapper`. The
  original transport is remembered in bit 0x80 of byte 6, and the
  checksum over bytes [0,20) is repaired after each rewrite. It also holds
  the round trips in both directions.
- `Engine` (engine.dfy) is `handle`: unwrap ICMP; for TCP/UDP, redirect
  a broadcast destination if configured, then wrap; pass anything else
  through unchanged. It also proves the end-to-end tunnel properties.
- `Scenarios` (scenarios.dfy) holds the worked example of RFC 1071
  section 3 and the concrete end-to-end cases.
- `Ipv4` (ipv4.dfy) holds the header offsets, the protocol constants
  (1, 6, 17), the redirect address type and the frame predicates.

Facts about the code that shape the contracts:
- The code indexes fixed offsets and panics on short input, so every
  entry point requires at least 20 bytes.
- Wrapping and unwrapping recompute the checksum. So the packet comes
  back identical only when its checksum was canonical (`WrapThenUnwrap`,
  second clause).
- The verification law is proved for buffers up to 65535 bytes. It holds
  at any even offset, whatever the buffer's length parity (`PutChecksum`).
- The tag that marks a wrapped UDP packet is bit 0x80 of byte 6. That bit
  is the IPv4 reserved flag. A TCP packet that arrives with it set comes
  back from the round trip as UDP with the bit cleared
  (`ReservedBitTcpReturnsAsUdp`). So `WrapThenUnwrap` requires the bit
  to be clear.

## Model

| member | source | states |
|---|---|---|
| InternetChecksum.Word | src/main.rs:20 | a big-endian byte pair read as a word is below 2^16 |
| InternetChecksum.BeBytes | src/main.rs:39-41 | writing a 16-bit value big-endian and reading the pair back gives the value |
| InternetChecksum.BeBytesOfWord | src/main.rs:39-41 | the other round trip: reading a byte pair and writing it back gives the same two bytes |
| InternetChecksum.WordSum | src/main.rs:19-27 | the unbounded sum that the loops accumulate: big-endian pairs, an odd last byte as the high byte of a word; `SumWords` is proved to compute it modulo 2^32 |
| InternetChecksum.WordSumBound | src/main.rs:16-27 | the word sum of an n-byte buffer is at most 0xFFFF per word; up to the largest IPv4 datagram it stays below 2^32, so the `u32` accumulator cannot wrap |
| InternetChecksum.WordSumFrom | src/main.rs:19-27 | a suffix sum starts with a full pair, with a lone trailing byte as the high byte of a zero-padded word, or with nothing |
| InternetChecksum.WrappingAdd | src/main.rs:21 | `wrapping_add` stays below 2^32 and is exact addition when there is no overflow |
| InternetChecksum.WrapAccumulates | src/main.rs:21 | adding to a wrapped value and wrapping again equals wrapping the plain sum once, so a chain of `wrapping_add` is the sum modulo 2^32 |
| InternetChecksum.SumPairs | src/main.rs:16-24 | the pair loop stops with at most one byte left, holding the wrapped sum of the words read so far |
| InternetChecksum.SumWords | src/main.rs:16-27 | the summing code, odd byte included, yields the word sum modulo 2^32; for buffers up to 65535 bytes that is the plain word sum |
| InternetChecksum.NoWrapInDatagram | src/main.rs:16-27 | up to 65535 bytes the word sum is below 2^32, so wrapping never happens |
| InternetChecksum.FoldStep | src/main.rs:29-31 | one carry-fold step strictly shrinks a value of 2^16 or more, keeps it positive and keeps its residue mod 0xFFFF |
| InternetChecksum.Fold | src/main.rs:29-31 | folding ends below 2^16, is congruent to its input mod 0xFFFF, and is zero exactly when the input is |
| InternetChecksum.FoldUnfold | src/main.rs:29-31 | a value without carries is already folded; otherwise folding continues from the one-step result, which is smaller |
| InternetChecksum.FoldCarries | src/main.rs:29-31 | the folding loop terminates and computes Fold of its input |
| InternetChecksum.Checksum | src/main.rs:33 | the reference RFC 1071 checksum (complement of the folded word sum) is a 16-bit value; `CalculateChecksum` is proved equal to it for buffers up to 65535 bytes |
| InternetChecksum.AccumulatedChecksum | src/main.rs:15-34 | the value the source's wrapping `u32` accumulator yields: a 16-bit value, equal to the RFC 1071 checksum for buffers up to 65535 bytes |
| InternetChecksum.CalculateChecksum | src/main.rs:15-34 | on any non-empty buffer it returns exactly `AccumulatedChecksum`, wrapping included; for buffers up to 65535 bytes it equals the RFC 1071 checksum |
| InternetChecksum.ComplementCancels | src/main.rs:29-33 | adding the complement of a folded sum to that sum folds to 0xFFFF |
| InternetChecksum.WordSumPatch | src/main.rs:36-42 | writing a word at an even offset adds exactly that word to the sum of the zero-fielded buffer |
| InternetChecksum.StoredChecksumVerifies | src/main.rs:36-42 | storing the checksum of the zero-fielded buffer at an even offset makes the buffer checksum to 0 |
| InternetChecksum.PutChecksum | src/main.rs:36-42 | only the two field bytes change; they hold, big-endian, the accumulator's checksum of the buffer with the field zeroed, which is the RFC 1071 checksum up to 65535 bytes; then, at an even offset, the result checksums to 0 |
| InternetChecksum.PutChecksumIgnoresField | src/main.rs:36-39 | what is written does not depend on the field's previous contents |
| Classifier.IsWrapped | src/main.rs:76-79 | the packet counts as disguised when its protocol byte is 1 |
| Classifier.ShouldWarp | src/main.rs:71-74 | the packet can be disguised when its protocol byte is 6 or 17 |
| Classifier.IsBroadcast | src/main.rs:81-85 | the destination counts as broadcast when its last octet is 255; `BroadcastIsSlash24` and `BroadcastHeuristic` relate this to real broadcast addresses |
| Classifier.ClassifiersPartition | src/main.rs:72-79 | `is_wrapped` and `should_warp` never both hold; one of them holds exactly when the protocol is 1, 6 or 17 |
| Classifier.BroadcastIsSlash24 | src/main.rs:82-85 | `is_broadcast` holds exactly when the destination is the broadcast address of its /24 |
| Classifier.BroadcastHeuristic | src/main.rs:82-85 | `is_broadcast` holds for the broadcast address of every network with prefix 24 or shorter |
| Transcoder.TaggedUdp | src/main.rs:59 | the tag test on bit 0x80 of byte 6 that tells `rm_wrapper` to restore UDP |
| Transcoder.RepairHeaderChecksum | src/main.rs:54 | recomputing the checksum of bytes [0,20) changes only bytes 10 and 11 and leaves a valid header checksum |
| Transcoder.RepairIgnoresField | src/main.rs:54 | packets that differ only in bytes 10 and 11 are repaired to the same packet |
| Transcoder.RepairIdempotent | src/main.rs:54 | repairing a repaired packet changes nothing |
| Transcoder.AddWrapper | src/main.rs:44-55 | needs protocol 6 or 17; afterwards the protocol is 1; for UDP byte 6 becomes itself with bit 0x80 set, so the tag is set and the other seven bits are kept; for TCP byte 6 is unchanged; only bytes 6, 9, 10, 11 change; the header checksum is valid |
| Transcoder.RmWrapper | src/main.rs:58-69 | restores 17 if the tag bit was set and 6 otherwise, for any protocol byte; clears the tag bit of byte 6; only bytes 6, 9, 10, 11 change; the header checksum is valid |
| Transcoder.ClearTag | src/main.rs:67 | masking with 0x7f clears the tag bit and keeps every other bit of the byte |
| Transcoder.WrappersLeaveCanonicalChecksum | src/main.rs:44-69 | after either rewrite the checksum field holds exactly what a repair would write |
| Transcoder.WrapThenUnwrap | src/main.rs:44-69 | for TCP/UDP with the tag bit clear, `rm_wrapper(add_wrapper(p))` is p with its checksum recomputed, and is p itself when p's checksum was canonical |
| Transcoder.ReservedBitTcpReturnsAsUdp | src/main.rs:44-69 | a TCP packet with bit 0x80 of byte 6 already set comes back from wrap then unwrap as UDP, with the bit cleared |
| Transcoder.UnwrapThenWrap | src/main.rs:44-69 | for ICMP, `add_wrapper(rm_wrapper(p))` is p with its checksum recomputed, whatever the tag bit held, and is p itself when p's checksum was canonical |
| Engine.RedirectBroadcast | src/main.rs:132-139 | bytes 16-19 become the redirect octets exactly when byte 19 is 255 and a redirect is configured; no other byte changes; without a redirect the packet is untouched |
| Engine.Handle | src/main.rs:126-144 | ICMP gives `rm_wrapper` of the input; TCP/UDP gives protocol 1, the (possibly redirected) destination, a checksum valid for the new header, for UDP byte 6 with bit 0x80 set and its other bits kept, for TCP byte 6 unchanged, and no change outside bytes 6, 9-11, 16-19; any other protocol gives the input byte-for-byte |
| Engine.HandleProtocolMap | src/main.rs:126-144 | after `handle` TCP/UDP has become ICMP, ICMP has become TCP or UDP, and every other protocol number is unchanged |
| Engine.TunnelDeliversNative | src/main.rs:126-144 | a TCP/UDP packet with the tag bit clear, handled at both tunnel ends, is the redirected packet with its checksum recomputed; with no redirect and a canonical checksum it is the original packet |
| Engine.TunnelReturnsWrapped | src/main.rs:126-144 | an ICMP packet unwrapped at one end and re-wrapped at an end with no redirect is the original with its checksum recomputed |
| Scenarios.Rfc1071Example | src/main.rs:15-34 | the words 0001 f203 f4f5 f6f7 fold to ddf2 and give checksum 220d, as RFC 1071 section 3 works out |
| Scenarios.TcpWrapScenario | src/main.rs:44-55 | TCP with flags byte 0x00 wraps to protocol 1, keeps flags byte 0x00 and gets a valid checksum |
| Scenarios.UdpRoundTripScenario | src/main.rs:44-69 | UDP with flags byte 0x00 wraps to protocol 1 with flags byte 0x80, then unwraps to protocol 17 with flags byte 0x00 and a valid checksum |
| Scenarios.BroadcastRedirectScenario | src/main.rs:130-140 | TCP to 255.255.255.255 with redirect 10.0.0.5 leaves as ICMP to 10.0.0.5 with a valid checksum |
| Scenarios.BroadcastHeuristicScenario | src/main.rs:82-85 | 10.0.0.255, a host of the /23 network 10.0.0.0, is flagged; 192.168.1.127, the broadcast address of 192.168.1.0/25, is not |
| Scenarios.PassThroughScenario | src/main.rs:141-143 | protocol 0x2F passes through unchanged |

## Left out

- `main` is not modelled: opening and binding the netfilter queue, the receive and verdict loop, and parsing the redirect address from the command line. These are I/O and foreign library calls. The redirect address is a parameter of `Handle` instead.
- The dispatch on the IP version nibble in `main` (4 goes to `handle`; 6 and anything else are only printed) is not modelled. It is plumbing, and IPv6 is not implemented.
- `display` only prints, so `Handle` treats its calls as no-ops. Inside `handle` it never sees protocol 1: an ICMP packet is unwrapped before it is displayed, so its ICMP branch cannot be reached from `handle`. For TCP, UDP and unwrapped ICMP it reads bytes 20-23, so the source panics on those packets below 24 bytes. For other protocols it reads only bytes 9 and 12-19, so they need only 20 bytes. The model requires only the 20 bytes that the rewrite itself needs.
- Short packets: the source indexes fixed offsets and panics below 20 bytes. The model states this as a `requires`, not as an error result.
