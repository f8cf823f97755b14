/** The Internet checksum of RFC 1071 (section 1 and the reference code of
    section 4.1): the one's-complement of the one's-complement sum of the
    buffer read as big-endian 16-bit words, an odd last byte being the high
    byte of a zero-padded word. */
module InternetChecksum {

  /** 2^16: one more than the largest 16-bit word. */
  const WORD_RANGE: nat := 0x1_0000
  /** 2^16 - 1: the one's-complement modulus, and the all-ones word. */
  const ONES: nat := 0xFFFF
  /** 2^32: the range of the source's `u32` accumulator. */
  const ACC_RANGE: nat := 0x1_0000_0000
  /** Longest IPv4 datagram (the total-length field is 16 bits). */
  const MAX_DATAGRAM: nat := 0xFFFF

  /** The 16-bit value of the big-endian byte pair (hi, lo). */
  function Word(hi: bv8, lo: bv8): (r: nat)
    ensures r < WORD_RANGE
  {
    hi as int * 256 + lo as int
  }

  /** The byte whose value is `n`. Written as a recursion rather than the
      cast `n as bv8`, whose bit-vector conversion is costly for the solver. */
  function ToByte(n: int): (b: bv8)
    requires 0 <= n < 256
    ensures b as int == n
    decreases n
  {
    if n == 0 then 0 else ToByte(n - 1) + 1
  }

  lemma ByteInjective(a: bv8, b: bv8)
    requires a as int == b as int
    ensures a == b
  {}

  /** Big-endian split of a 16-bit value (the source's `to_be_bytes`). */
  function BeBytes(c: nat): (r: (bv8, bv8))
    requires c < WORD_RANGE
    ensures Word(r.0, r.1) == c
  {
    (ToByte(c / 256), ToByte(c % 256))
  }

  /** Splitting a word read from two bytes gives the two bytes back. */
  lemma BeBytesOfWord(hi: bv8, lo: bv8)
    ensures BeBytes(Word(hi, lo)) == (hi, lo)
  {
    var w := Word(hi, lo);
    assert w / 256 == hi as int && w % 256 == lo as int;
    ByteInjective(ToByte(w / 256), hi);
    ByteInjective(ToByte(w % 256), lo);
  }

  /** Plain (unfolded, unbounded) sum of the big-endian words of `b`. */
  function WordSum(b: seq<bv8>): nat
    decreases |b|
  {
    if |b| == 0 then 0
    else if |b| == 1 then Word(b[0], 0)
    else Word(b[0], b[1]) + WordSum(b[2..])
  }

  /** Each word is at most ONES, so a buffer no longer than an IPv4
      datagram sums to less than 2^32: the source's `u32` never wraps. */
  lemma {:induction false} WordSumBound(b: seq<bv8>)
    ensures WordSum(b) <= ONES * ((|b| + 1) / 2)
    ensures |b| <= MAX_DATAGRAM ==> WordSum(b) < ACC_RANGE
    decreases |b|
  {
    if |b| >= 2 {
      WordSumBound(b[2..]);
      assert (|b[2..]| + 1) / 2 + 1 == (|b| + 1) / 2;
    }
  }

  /** Rewriting the word at an even offset changes the sum by exactly the
      difference of the two words. */
  lemma {:induction false} WordSumPatch(data: seq<bv8>, offset: nat, hi: bv8, lo: bv8)
    requires offset % 2 == 0 && offset + 1 < |data|
    ensures WordSum(data[offset := hi][offset + 1 := lo])
         == WordSum(data[offset := 0][offset + 1 := 0]) + Word(hi, lo)
    decreases offset
  {
    var patched := data[offset := hi][offset + 1 := lo];
    var zeroed := data[offset := 0][offset + 1 := 0];
    if offset == 0 {
      assert patched[2..] == zeroed[2..];
    } else {
      var tail := data[2..];
      WordSumPatch(tail, offset - 2, hi, lo);
      assert patched[2..] == tail[offset - 2 := hi][offset - 1 := lo];
      assert zeroed[2..] == tail[offset - 2 := 0][offset - 1 := 0];
    }
  }

  /** One carry-folding step: add the bits above 16 back into the low 16. */
  lemma FoldStep(x: nat)
    requires x >= WORD_RANGE
    ensures 0 < x % WORD_RANGE + x / WORD_RANGE < x
    ensures (x % WORD_RANGE + x / WORD_RANGE) % ONES == x % ONES
  {}

  /** Fold carries back in until the value fits in 16 bits. The result is
      congruent to `x` modulo 2^16 - 1, and zero only when `x` is. */
  function Fold(x: nat): (r: nat)
    ensures r < WORD_RANGE
    ensures r % ONES == x % ONES
    ensures r == 0 <==> x == 0
    decreases x
  {
    if x < WORD_RANGE then x
    else
      FoldStep(x);
      Fold(x % WORD_RANGE + x / WORD_RANGE)
  }

  /** One turn of the source's folding loop, stated on Fold. */
  lemma FoldUnfold(x: nat)
    ensures x / WORD_RANGE == 0 ==> Fold(x) == x
    ensures x / WORD_RANGE != 0 ==>
      x % WORD_RANGE + x / WORD_RANGE < x && Fold(x) == Fold(x % WORD_RANGE + x / WORD_RANGE)
  {
    if x >= WORD_RANGE {
      FoldStep(x);
    }
  }

  /** The Internet checksum of `b`, as a 16-bit value. */
  function Checksum(b: seq<bv8>): (r: nat)
    ensures r < WORD_RANGE
  {
    ONES - Fold(WordSum(b))
  }

  /** The checksum the source's `u32` accumulator yields: every addition
      wraps modulo 2^32, so the folded value is that of the word sum
      reduced modulo 2^32. Up to the longest IPv4 datagram nothing wraps
      and this is the Internet checksum. */
  function AccumulatedChecksum(b: seq<bv8>): (r: nat)
    ensures r < WORD_RANGE
    ensures |b| <= MAX_DATAGRAM ==> r == Checksum(b)
  {
    NoWrapInDatagram(b);
    ONES - Fold(WordSum(b) % ACC_RANGE)
  }

  /** `u32::wrapping_add` on values already below 2^32. */
  function WrappingAdd(a: nat, b: nat): (r: nat)
    requires a < ACC_RANGE
    ensures r < ACC_RANGE
    ensures a + b < ACC_RANGE ==> r == a + b
  {
    (a + b) % ACC_RANGE
  }

  /** Adding to a value already reduced modulo 2^32 and reducing again is
      reducing the plain sum once. */
  lemma WrapAccumulates(exact: nat, w: nat)
    ensures WrappingAdd(exact % ACC_RANGE, w) == (exact + w) % ACC_RANGE
  {}

  /** The checksum as the source computes it: sum the words into a
      wrapping `u32`, fold the carries, complement the low 16 bits. */
  method CalculateChecksum(buffer: seq<bv8>) returns (c: nat)
    requires |buffer| > 0
    ensures c == AccumulatedChecksum(buffer)
    ensures |buffer| <= MAX_DATAGRAM ==> c == Checksum(buffer)
  {
    var sum := SumWords(buffer);
    var folded := FoldCarries(sum);
    c := ONES - folded;
  }

  /** The summing loop of the source's checksum: big-endian pairs added
      with `wrapping_add`, then an odd trailing byte shifted left by 8.
      The result is the word sum modulo 2^32; for any buffer no longer
      than an IPv4 datagram nothing wraps. */
  method SumWords(buffer: seq<bv8>) returns (sum: nat)
    requires |buffer| > 0
    ensures sum < ACC_RANGE
    ensures sum == WordSum(buffer) % ACC_RANGE
    ensures |buffer| <= MAX_DATAGRAM ==> sum == WordSum(buffer)
  {
    var i;
    ghost var exact;
    sum, i, exact := SumPairs(buffer);
    if |buffer| % 2 == 1 {
      var last := buffer[|buffer| - 1] as int * 256;
      assert WrappingAdd(sum, last) == WordSum(buffer) % ACC_RANGE by {
        WordSumFrom(buffer, i);
        WrapAccumulates(exact, last);
      }
      sum := WrappingAdd(sum, last);
    } else {
      assert sum == WordSum(buffer) % ACC_RANGE by {
        WordSumFrom(buffer, i);
      }
    }
    NoWrapInDatagram(buffer);
  }

  /** The pair loop of the source's checksum: it stops with at most one
      byte left, holding the wrapped sum of the words read so far. */
  method SumPairs(buffer: seq<bv8>) returns (sum: nat, i: nat, ghost exact: nat)
    requires |buffer| > 0
    ensures i % 2 == 0 && |buffer| - 1 <= i <= |buffer|
    ensures exact + WordSum(buffer[i..]) == WordSum(buffer)
    ensures sum == exact % ACC_RANGE
  {
    sum := 0;
    exact := 0;
    i := 0;
    while i < |buffer| - 1
      invariant i % 2 == 0 && i <= |buffer|
      invariant exact + WordSum(buffer[i..]) == WordSum(buffer)
      invariant sum == exact % ACC_RANGE
      decreases |buffer| - i
    {
      var word := Word(buffer[i], buffer[i + 1]);
      assert exact + word + WordSum(buffer[i + 2..]) == WordSum(buffer)
          && WrappingAdd(sum, word) == (exact + word) % ACC_RANGE by {
        WordSumFrom(buffer, i);
        WrapAccumulates(exact, word);
      }
      sum := WrappingAdd(sum, word);
      exact := exact + word;
      i := i + 2;
    }
  }

  /** Up to the longest IPv4 datagram, reducing the word sum modulo 2^32
      changes nothing. */
  lemma NoWrapInDatagram(b: seq<bv8>)
    ensures |b| <= MAX_DATAGRAM ==> WordSum(b) % ACC_RANGE == WordSum(b)
  {
    WordSumBound(b);
  }

  /** The carry-folding loop of the source's checksum. */
  method FoldCarries(x: nat) returns (sum: nat)
    ensures sum == Fold(x)
  {
    sum := x;
    while sum / WORD_RANGE != 0
      invariant Fold(sum) == Fold(x)
      decreases sum
    {
      FoldUnfold(sum);
      sum := sum % WORD_RANGE + sum / WORD_RANGE;
    }
    FoldUnfold(sum);
  }

  /** How the sum of a suffix starts: a full word, a lone high byte, or
      nothing at all. */
  lemma WordSumFrom(b: seq<bv8>, i: nat)
    requires i <= |b|
    ensures i + 2 <= |b| ==> WordSum(b[i..]) == Word(b[i], b[i + 1]) + WordSum(b[i + 2..])
    ensures i + 1 == |b| ==> WordSum(b[i..]) == b[i] as int * 256
    ensures i == |b| ==> WordSum(b[i..]) == 0
  {}

  /** The one's-complement sum of a buffer that already carries its own
      checksum folds to all ones. */
  lemma ComplementCancels(s: nat)
    ensures Fold(s + (ONES - Fold(s))) == ONES
  {
    var f := Fold(s);
    var t := s + (ONES - f);
    assert t % ONES == 0 by {
      var c := s % ONES;
      assert s == ONES * (s / ONES) + c;
      assert f == ONES * (f / ONES) + c;
      MultipleMod(s / ONES - f / ONES + 1, t);
    }
    OnlyMultipleInWord(Fold(t));
  }

  lemma MultipleMod(k: int, x: int)
    requires x == ONES * k
    ensures x % ONES == 0
  {}

  /** The only non-zero 16-bit multiple of 2^16 - 1 is 2^16 - 1 itself. */
  lemma OnlyMultipleInWord(y: nat)
    requires 0 < y < WORD_RANGE && y % ONES == 0
    ensures y == ONES
  {}

  /** The source's `put_checksum`: zero the two checksum bytes at `offset`,
      checksum the whole buffer with the source's accumulator, store the
      result big-endian at `offset`. Up to the longest IPv4 datagram the
      stored value is the Internet checksum, and when the field sits on a
      word boundary the buffer then checksums to zero, the verification
      rule of RFC 1071. */
  function PutChecksum(data: seq<bv8>, offset: nat): (r: seq<bv8>)
    requires offset + 1 < |data|
    ensures |r| == |data|
    ensures forall i :: 0 <= i < |data| && i != offset && i != offset + 1 ==> r[i] == data[i]
    ensures Word(r[offset], r[offset + 1]) == AccumulatedChecksum(data[offset := 0][offset + 1 := 0])
    ensures |data| <= MAX_DATAGRAM ==>
      Word(r[offset], r[offset + 1]) == Checksum(data[offset := 0][offset + 1 := 0])
    ensures offset % 2 == 0 && |data| <= MAX_DATAGRAM ==> Checksum(r) == 0
  {
    var zeroed := data[offset := 0][offset + 1 := 0];
    var (hi, lo) := BeBytes(AccumulatedChecksum(zeroed));
    if offset % 2 == 0 && |data| <= MAX_DATAGRAM then
      StoredChecksumVerifies(data, offset);
      zeroed[offset := hi][offset + 1 := lo]
    else
      zeroed[offset := hi][offset + 1 := lo]
  }

  /** Storing the checksum of the zero-fielded buffer in a word-aligned
      field makes the whole buffer checksum to zero. */
  lemma StoredChecksumVerifies(data: seq<bv8>, offset: nat)
    requires offset % 2 == 0 && offset + 1 < |data|
    ensures var zeroed := data[offset := 0][offset + 1 := 0];
      var (hi, lo) := BeBytes(Checksum(zeroed));
      Checksum(zeroed[offset := hi][offset + 1 := lo]) == 0
  {
    var zeroed := data[offset := 0][offset + 1 := 0];
    var (hi, lo) := BeBytes(Checksum(zeroed));
    assert zeroed[offset := 0][offset + 1 := 0] == zeroed;
    WordSumPatch(zeroed, offset, hi, lo);
    ComplementCancels(WordSum(zeroed));
  }

  /** What `put_checksum` writes does not depend on what the field held. */
  lemma PutChecksumIgnoresField(a: seq<bv8>, b: seq<bv8>, offset: nat)
    requires offset + 1 < |a| && |a| == |b|
    requires forall i :: 0 <= i < |a| && i != offset && i != offset + 1 ==> a[i] == b[i]
    ensures PutChecksum(a, offset) == PutChecksum(b, offset)
  {
    assert a[offset := 0][offset + 1 := 0] == b[offset := 0][offset + 1 := 0];
  }
}
