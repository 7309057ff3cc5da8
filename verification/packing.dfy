/** Packing of bit strings into 8-bit codewords and back: the encoder's
    bitsToCodewords and codewordsToBits. Bits are MSB-first. */
module Packing {
  import opened Powers

  function Bit(b: bool): int
  {
    if b then 1 else 0
  }

  /** The number whose binary digits, most significant first, are bits. */
  function BitsValue(bits: seq<bool>): (r: nat)
    ensures r < Pow2(|bits|)
  {
    if bits == [] then 0 else 2 * BitsValue(bits[..|bits| - 1]) + Bit(bits[|bits| - 1])
  }

  function Zeros(n: nat): (z: seq<bool>)
    ensures |z| == n && forall i :: 0 <= i < n ==> !z[i]
  {
    seq(n, _ => false)
  }

  /** bits followed by zeros up to the next multiple of 8. */
  function PadToByte(bits: seq<bool>): (p: seq<bool>)
    ensures |p| % 8 == 0 && |bits| <= |p| < |bits| + 8
    ensures p[..|bits|] == bits && forall i :: |bits| <= i < |p| ==> !p[i]
  {
    bits + Zeros((8 - |bits| % 8) % 8)
  }

  /** `codeword & (1 << i) != 0` on a two's complement Int: bit i of c. Dafny's
      division by a positive number rounds down, as the arithmetic shift does. */
  function BitSet(c: int, i: nat): (bit: bool)
    ensures 0 <= c < Pow2(i) ==> !bit
  {
    SmallQuotient(c, Pow2(i));
    (c / Pow2(i)) % 2 == 1
  }

  /** A value below the divisor has quotient 0. */
  lemma SmallQuotient(c: int, p: int)
    requires p > 0
    ensures 0 <= c < p ==> c / p == 0
  {
    if 0 <= c < p {
      DivUnique(c, p, 0, c);
    }
  }

  /** The n low bits of c, most significant first. */
  function BitsOf(c: int, n: nat): (bits: seq<bool>)
    ensures |bits| == n
  {
    seq(n, k requires 0 <= k < n => BitSet(c, n - 1 - k))
  }

  /** The eight bits one codeword contributes to codewordsToBits. */
  function ByteBits(c: int): (bits: seq<bool>)
    ensures |bits| == 8
  {
    BitsOf(c, 8)
  }

  /** The q full bytes at the head of bits. */
  function FullBytes(bits: seq<bool>, q: nat): (r: seq<int>)
    requires 8 * q <= |bits|
    ensures |r| == q && forall k :: 0 <= k < q ==> 0 <= r[k] < 256
  {
    seq(q, k requires 0 <= k < q => BitsValue(bits[8 * k..8 * k + 8]))
  }

  // ---------------------------------------------------------------------------
  // bitsToCodewords, as written
  // ---------------------------------------------------------------------------

  /** What bitsToCodewords returns. The byte in progress is flushed only when
      the next bit arrives at a multiple of 8, and afterwards only if the count
      is not a multiple of 8; so a final full byte is dropped. */
  function Codewords(bits: seq<bool>): (r: seq<int>)
    ensures |bits| % 8 != 0 ==> |r| == |bits| / 8 + 1
    ensures |bits| % 8 == 0 && |bits| > 0 ==> |r| == |bits| / 8 - 1
    ensures |bits| == 0 ==> r == []
    ensures forall k :: 0 <= k < |r| ==> 0 <= r[k] < 256
  {
    var n := |bits|;
    if n % 8 == 0 then
      FullBytes(bits, if n == 0 then 0 else n / 8 - 1)
    else
      var tail := bits[8 * (n / 8)..];
      ValueOfZeroPadded(tail, 8 - n % 8);
      FullBytes(bits, n / 8) + [BitsValue(tail) * Pow2(8 - n % 8)]
  }

  method BitsToCodewords(bits: seq<bool>) returns (codewords: seq<int>)
    ensures codewords == Codewords(bits)
  {
    codewords := [];
    var currentByte := 0;
    ghost var done := 0;
    for index := 0 to |bits|
      invariant if index == 0 then done == 0 else 8 * done < index <= 8 * done + 8
      invariant codewords == FullBytes(bits, done)
      invariant currentByte == BitsValue(bits[8 * done..index])
    {
      if index > 0 {
        ByteBoundary(index, done);
      }
      if index > 0 && index % 8 == 0 {
        FlushStep(bits, index, done);
        codewords := codewords + [currentByte];
        currentByte := 0;
        done := done + 1;
      } else {
        ValueSnoc(bits, 8 * done, index);
      }
      currentByte := currentByte * 2 + Bit(bits[index]);
    }
    if |bits| % 8 != 0 {
      FlushPartial(bits, done, codewords, currentByte);
      codewords := codewords + [currentByte * Pow2(8 - |bits| % 8)];
    } else {
      FlushNone(bits, done, codewords);
    }
  }

  /** When bit index starts a new byte, the byte in progress is complete. */
  lemma FlushStep(bits: seq<bool>, index: nat, done: nat)
    requires 0 < index < |bits| && index % 8 == 0 && 8 * done < index <= 8 * done + 8
    ensures index == 8 * (done + 1)
    ensures FullBytes(bits, done + 1) == FullBytes(bits, done) + [BitsValue(bits[8 * done..index])]
    ensures BitsValue(bits[index..index + 1]) == Bit(bits[index])
  {
    FullBytesSnoc(bits, done);
    ValueSnoc(bits, index, index);
  }

  /** After the last bit of a count that is not a multiple of 8, the byte in
      progress is flushed, shifted into the high bits ... */
  lemma FlushPartial(bits: seq<bool>, done: nat, codewords: seq<int>, currentByte: int)
    requires |bits| % 8 != 0 && 8 * done < |bits| <= 8 * done + 8
    requires codewords == FullBytes(bits, done) && currentByte == BitsValue(bits[8 * done..|bits|])
    ensures Codewords(bits) == codewords + [currentByte * Pow2(8 - |bits| % 8)]
  {
    var n := |bits|;
    if n == 8 * done + 8 {
      Div8(n, done + 1, 0);
    } else {
      Div8(n, done, n - 8 * done);
      assert bits[8 * done..n] == bits[8 * (n / 8)..];
    }
  }

  /** ... and otherwise it is not. */
  lemma FlushNone(bits: seq<bool>, done: nat, codewords: seq<int>)
    requires |bits| % 8 == 0 && (if |bits| == 0 then done == 0 else 8 * done < |bits| <= 8 * done + 8)
    requires codewords == FullBytes(bits, done)
    ensures Codewords(bits) == codewords
  {
    var n := |bits|;
    if n > 0 {
      if n != 8 * done + 8 {
        Div8(n, done, n - 8 * done);
      }
      Div8(n, done + 1, 0);
    }
  }

  lemma SliceOfAppend(a: seq<bool>, b: seq<bool>, i: nat, j: nat)
    requires i <= |a| && j == |a| + |b|
    ensures (a + b)[i..j] == a[i..] + b
  {
  }

  /** Within the byte in progress, a multiple of 8 is only reached at its end. */
  lemma ByteBoundary(index: int, done: int)
    requires 8 * done < index <= 8 * done + 8
    ensures index % 8 == 0 <==> index == 8 * done + 8
  {
    if index == 8 * done + 8 {
      Div8(index, done + 1, 0);
    } else {
      Div8(index, done, index - 8 * done);
    }
  }

  lemma Div8(n: int, q: int, r: int)
    requires 0 <= r < 8 && n == 8 * q + r
    ensures n / 8 == q && n % 8 == r
  {
  }

  lemma FullBytesSnoc(bits: seq<bool>, q: nat)
    requires 8 * q + 8 <= |bits|
    ensures FullBytes(bits, q + 1) == FullBytes(bits, q) + [BitsValue(bits[8 * q..8 * q + 8])]
  {
  }

  /** The byte in progress after one more bit: `(currentByte << 1) | bit`. */
  lemma ValueSnoc(bits: seq<bool>, start: nat, end: nat)
    requires start <= end < |bits|
    ensures BitsValue(bits[start..end + 1]) == 2 * BitsValue(bits[start..end]) + Bit(bits[end])
  {
    assert bits[start..end + 1][..end - start] == bits[start..end];
  }

  // ---------------------------------------------------------------------------
  // codewordsToBits
  // ---------------------------------------------------------------------------

  /** What codewordsToBits returns: eight bits per codeword, bit 7 first. */
  function UnpackBits(codewords: seq<int>): (bits: seq<bool>)
    ensures |bits| == 8 * |codewords|
  {
    if codewords == [] then []
    else UnpackBits(codewords[..|codewords| - 1]) + ByteBits(codewords[|codewords| - 1])
  }

  method CodewordsToBits(codewords: seq<int>) returns (bits: seq<bool>)
    ensures bits == UnpackBits(codewords)
    ensures forall k :: 0 <= k < |codewords| ==> bits[8 * k..8 * k + 8] == ByteBits(codewords[k])
  {
    bits := [];
    for k := 0 to |codewords|
      invariant bits == UnpackBits(codewords[..k])
    {
      var codeword := codewords[k];
      for i := 8 downto 0
        invariant bits == UnpackBits(codewords[..k]) + ByteBits(codeword)[..8 - i]
      {
        bits := bits + [BitSet(codeword, i)];
      }
      assert codewords[..k + 1][..k] == codewords[..k];
      assert ByteBits(codeword)[..8] == ByteBits(codeword);
    }
    assert codewords[..|codewords|] == codewords;
    forall k | 0 <= k < |codewords|
      ensures bits[8 * k..8 * k + 8] == ByteBits(codewords[k])
    {
      UnpackBitsChunk(codewords, k);
    }
  }

  lemma {:induction false} UnpackBitsAt(codewords: seq<int>, k: nat, i: nat)
    requires k < |codewords| && i < 8
    ensures UnpackBits(codewords)[8 * k + i] == ByteBits(codewords[k])[i]
  {
    if k < |codewords| - 1 {
      UnpackBitsAt(codewords[..|codewords| - 1], k, i);
    }
  }

  /** codewordsToBits yields each codeword's byte in turn. */
  lemma UnpackBitsChunk(codewords: seq<int>, k: nat)
    requires k < |codewords|
    ensures UnpackBits(codewords)[8 * k..8 * k + 8] == ByteBits(codewords[k])
  {
    forall i | 0 <= i < 8
      ensures UnpackBits(codewords)[8 * k..8 * k + 8][i] == ByteBits(codewords[k])[i]
    {
      UnpackBitsAt(codewords, k, i);
    }
  }

  // ---------------------------------------------------------------------------
  // Bits and numbers
  // ---------------------------------------------------------------------------

  lemma MulAtLeast(k: int, d: int)
    requires k >= 1 && d > 0
    ensures k * d >= d
  {
  }

  lemma DivUnique(a: int, d: int, q: int, r: int)
    requires d > 0 && a == q * d + r && 0 <= r < d
    ensures a / d == q
  {
    var q2, r2 := a / d, a % d;
    assert (q - q2) * d == r2 - r;
    if q > q2 {
      MulAtLeast(q - q2, d);
    } else if q < q2 {
      MulAtLeast(q2 - q, d);
    }
  }

  lemma HalveQuotient(v: int, b: int, p: int)
    requires p > 0 && 0 <= b < 2
    ensures (2 * v + b) / (2 * p) == v / p
  {
    var q, r := v / p, v % p;
    assert 2 * v + b == q * (2 * p) + (2 * r + b);
    DivUnique(2 * v + b, 2 * p, q, 2 * r + b);
  }

  /** Bit j + 1 of c is bit j of c halved. */
  lemma BitSetOfHalf(c: int, j: nat)
    ensures BitSet(c, j + 1) == BitSet(c / 2, j)
  {
    HalveQuotient(c / 2, c % 2, Pow2(j));
    assert 2 * (c / 2) + c % 2 == c;
  }

  /** Bit j of the value of bits is the j-th bit from the end. */
  lemma {:induction false} BitOfValue(bits: seq<bool>, j: nat)
    requires j < |bits|
    ensures BitSet(BitsValue(bits), j) == bits[|bits| - 1 - j]
  {
    var front := bits[..|bits| - 1];
    var last := Bit(bits[|bits| - 1]);
    if j > 0 {
      BitSetStep(BitsValue(front), last, j);
      BitOfValue(front, j - 1);
      assert front[|front| - 1 - (j - 1)] == bits[|bits| - 1 - j];
    } else {
      BitSetZero(BitsValue(front), last);
    }
  }

  /** Bit j of 2 v + b, for j > 0, is bit j - 1 of v ... */
  lemma BitSetStep(v: int, b: int, j: nat)
    requires 0 <= b < 2 && j > 0
    ensures BitSet(2 * v + b, j) == BitSet(v, j - 1)
  {
    HalveQuotient(v, b, Pow2(j - 1));
  }

  /** ... and bit 0 is b. */
  lemma BitSetZero(v: int, b: int)
    requires 0 <= b < 2
    ensures BitSet(2 * v + b, 0) == (b == 1)
  {
  }

  /** Unpacking the value of an 8-bit string gives the string back. */
  lemma ByteBitsOfValue(bits: seq<bool>)
    requires |bits| == 8
    ensures ByteBits(BitsValue(bits)) == bits
  {
    forall k | 0 <= k < 8
      ensures ByteBits(BitsValue(bits))[k] == bits[k]
    {
      BitOfValue(bits, 7 - k);
    }
  }

  /** The same for a 4-bit string. */
  lemma NibbleBitsOfValue(bits: seq<bool>)
    requires |bits| == 4
    ensures BitsOf(BitsValue(bits), 4) == bits
  {
    forall k | 0 <= k < 4
      ensures BitsOf(BitsValue(bits), 4)[k] == bits[k]
    {
      BitOfValue(bits, 3 - k);
    }
  }

  lemma {:induction false} BitsOfValue(c: int, n: nat)
    requires 0 <= c < Pow2(n)
    ensures BitsValue(BitsOf(c, n)) == c
  {
    if n > 0 {
      var bits := BitsOf(c, n);
      forall j | 0 <= j < n - 1
        ensures BitSet(c, j + 1) == BitSet(c / 2, j)
      {
        BitSetOfHalf(c, j);
      }
      assert bits[..n - 1] == BitsOf(c / 2, n - 1);
      BitsOfValue(c / 2, n - 1);
      assert bits[n - 1] == BitSet(c, 0) == (c % 2 == 1);
    }
  }

  /** Packing the bits of a byte gives the byte back. */
  lemma ValueOfByteBits(c: int)
    requires 0 <= c < 256
    ensures BitsValue(ByteBits(c)) == c
  {
    BitsOfValue(c, 8);
  }

  /** Zeros appended to bits multiply the value by a power of two: the
      `currentByte << (8 - count % 8)` of the last partial byte. */
  lemma ValueOfSnoc(bits: seq<bool>, b: bool)
    ensures BitsValue(bits + [b]) == 2 * BitsValue(bits) + Bit(b)
  {
    assert (bits + [b])[..|bits|] == bits;
  }

  lemma DoubleProduct(v: int, p: int)
    ensures 2 * (v * p) == v * (2 * p)
  {
  }

  lemma {:induction false} ValueOfZeroPadded(bits: seq<bool>, m: nat)
    ensures BitsValue(bits + Zeros(m)) == BitsValue(bits) * Pow2(m)
  {
    if m > 0 {
      var shorter := bits + Zeros(m - 1);
      assert bits + Zeros(m) == shorter + [false];
      ValueOfSnoc(shorter, false);
      ValueOfZeroPadded(bits, m - 1);
      DoubleProduct(BitsValue(bits), Pow2(m - 1));
    } else {
      assert bits + Zeros(0) == bits;
    }
  }

  // ---------------------------------------------------------------------------
  // The corrected packing and its round trip
  // ---------------------------------------------------------------------------

  /** bitsToCodewords as evidently intended: every byte, the last one padded
      with zeros. */
  function PackBytes(bits: seq<bool>): (r: seq<int>)
    ensures |r| == (|bits| + 7) / 8
    ensures forall k :: 0 <= k < |r| ==> 0 <= r[k] < 256
  {
    var padded := PadToByte(bits);
    FullBytes(padded, |padded| / 8)
  }

  lemma {:induction false} UnpackFullBytes(s: seq<bool>, q: nat)
    requires |s| == 8 * q
    ensures UnpackBits(FullBytes(s, q)) == s
  {
    if q > 0 {
      var front, last := s[..8 * (q - 1)], s[8 * (q - 1)..8 * q];
      calc {
        UnpackBits(FullBytes(s, q));
      == { FullBytesSplit(s, q); }
        UnpackBits(FullBytes(front, q - 1) + [BitsValue(last)]);
      == { UnpackSnoc(FullBytes(front, q - 1), BitsValue(last)); }
        UnpackBits(FullBytes(front, q - 1)) + ByteBits(BitsValue(last));
      == { UnpackFullBytes(front, q - 1); ByteBitsOfValue(last); }
        front + last;
      == { assert last == s[8 * (q - 1)..]; }
        s;
      }
    }
  }

  /** The first q bytes are the first q - 1 bytes and one more. */
  lemma FullBytesSplit(s: seq<bool>, q: nat)
    requires 0 < q && 8 * q <= |s|
    ensures FullBytes(s, q) == FullBytes(s[..8 * (q - 1)], q - 1) + [BitsValue(s[8 * (q - 1)..8 * q])]
  {
    var front := s[..8 * (q - 1)];
    forall k | 0 <= k < q - 1
      ensures s[8 * k..8 * k + 8] == front[8 * k..8 * k + 8]
    {
    }
  }

  lemma UnpackSnoc(codewords: seq<int>, c: int)
    ensures UnpackBits(codewords + [c]) == UnpackBits(codewords) + ByteBits(c)
  {
    assert (codewords + [c])[..|codewords|] == codewords;
  }

  /** Unpacking the packed bits gives the input followed by zeros up to the
      next multiple of 8. */
  lemma PackBytesRoundTrip(bits: seq<bool>)
    ensures UnpackBits(PackBytes(bits)) == PadToByte(bits)
  {
    var padded := PadToByte(bits);
    UnpackFullBytes(padded, |padded| / 8);
  }

  lemma PackBytesOfFullBytes(bits: seq<bool>)
    requires |bits| % 8 == 0
    ensures PackBytes(bits) == FullBytes(bits, |bits| / 8)
  {
    assert PadToByte(bits) == bits + Zeros(0) == bits;
  }

  lemma RepackedByte(codewords: seq<int>, k: nat)
    requires k < |codewords| && 0 <= codewords[k] < 256
    ensures FullBytes(UnpackBits(codewords), |codewords|)[k] == codewords[k]
  {
    UnpackBitsChunk(codewords, k);
    ValueOfByteBits(codewords[k]);
  }

  /** Conversely, packing unpacked bytes gives them back. */
  lemma {:induction false} PackUnpackedBytes(codewords: seq<int>)
    requires forall k :: 0 <= k < |codewords| ==> 0 <= codewords[k] < 256
    ensures PackBytes(UnpackBits(codewords)) == codewords
  {
    var bits := UnpackBits(codewords);
    PackBytesOfFullBytes(bits);
    forall k | 0 <= k < |codewords|
      ensures FullBytes(bits, |codewords|)[k] == codewords[k]
    {
      RepackedByte(codewords, k);
    }
  }

  /** The codewords as written agree with PackBytes except that a final full
      byte is missing. */
  lemma CodewordsAgainstPackBytes(bits: seq<bool>)
    ensures |bits| % 8 != 0 ==> Codewords(bits) == PackBytes(bits)
    ensures |bits| % 8 == 0 && |bits| > 0 ==> Codewords(bits) == PackBytes(bits)[..|bits| / 8 - 1]
  {
    if |bits| % 8 != 0 {
      PartialByteKept(bits);
    } else if |bits| > 0 {
      FullByteDropped(bits);
    }
  }

  lemma PartialByteKept(bits: seq<bool>)
    requires |bits| % 8 != 0
    ensures Codewords(bits) == PackBytes(bits)
  {
    var q, r := |bits| / 8, |bits| % 8;
    CodewordsOfPartial(bits, q, r);
    PaddedTail(bits, q, r);
    PackedLastByte(bits, q);
  }

  /** Helper for `PartialByteKept`: the branch of `Codewords` for a count that
      is not a multiple of 8, unfolded once in a context of its own. */
  lemma CodewordsOfPartial(bits: seq<bool>, q: nat, r: nat)
    requires q == |bits| / 8 && r == |bits| % 8 && r != 0
    ensures Codewords(bits) == FullBytes(bits, q) + [BitsValue(bits[8 * q..]) * Pow2(8 - r)]
  {
  }

  /** The corrected packing of bits that fill q bytes and part of one more:
      the q complete bytes, then the last padded byte. */
  lemma PackedLastByte(bits: seq<bool>, q: nat)
    requires 8 * q <= |bits| && |PadToByte(bits)| == 8 * (q + 1) && |PadToByte(bits)| / 8 == q + 1
    ensures PackBytes(bits) == FullBytes(bits, q) + [BitsValue(PadToByte(bits)[8 * q..8 * q + 8])]
  {
    var padded := PadToByte(bits);
    assert PackBytes(bits) == FullBytes(padded, q + 1);
    FullBytesSplit(padded, q + 1);
    assert padded[..8 * q] == bits[..8 * q];
    FullBytesOfPrefix(bits, q, 8 * q);
  }

  /** Padding a count that is not a multiple of 8 adds one byte, whose value
      is the tail shifted into the high bits. */
  lemma PaddedTail(bits: seq<bool>, q: nat, r: nat)
    requires q == |bits| / 8 && r == |bits| % 8 && r != 0
    ensures |PadToByte(bits)| == 8 * (q + 1) && |PadToByte(bits)| / 8 == q + 1
    ensures BitsValue(PadToByte(bits)[8 * q..8 * q + 8]) == BitsValue(bits[8 * q..]) * Pow2(8 - r)
  {
    var tail := bits[8 * q..];
    Div8(8 - r, 0, 8 - r);
    var padded := bits + Zeros(8 - r);
    assert PadToByte(bits) == padded;
    Div8(|padded|, q + 1, 0);
    SliceOfAppend(bits, Zeros(8 - r), 8 * q, 8 * q + 8);
    ValueOfZeroPadded(tail, 8 - r);
  }

  /** codewordsToBits after bitsToCodewords, as written: when the count is
      not a multiple of 8 it gives back the bits followed by zeros up to the
      next multiple of 8. */
  lemma AsWrittenRoundTrip(bits: seq<bool>)
    requires |bits| % 8 != 0
    ensures UnpackBits(Codewords(bits)) == PadToByte(bits)
  {
    PartialByteKept(bits);
    PackBytesRoundTrip(bits);
  }

  lemma FullByteDropped(bits: seq<bool>)
    requires |bits| % 8 == 0 && |bits| > 0
    ensures Codewords(bits) == PackBytes(bits)[..|bits| / 8 - 1]
  {
    PackBytesOfFullBytes(bits);
  }

  /** The first q bytes only depend on the first 8 q bits. */
  lemma FullBytesOfPrefix(s: seq<bool>, q: nat, m: nat)
    requires 8 * q <= m <= |s|
    ensures FullBytes(s[..m], q) == FullBytes(s, q)
  {
    forall k | 0 <= k < q
      ensures s[..m][8 * k..8 * k + 8] == s[8 * k..8 * k + 8]
    {
    }
  }

  /** The dropped byte, on the smallest input that shows it: eight bits
      10000000 give no codeword at all instead of [128]. */
  lemma DroppedByte()
    ensures Codewords([true, false, false, false, false, false, false, false]) == []
    ensures PackBytes([true, false, false, false, false, false, false, false]) == [128]
  {
    var bits := [true, false, false, false, false, false, false, false];
    assert PadToByte(bits) == bits;
    assert bits[0..8] == bits == [true] + Zeros(7);
    ValueOfZeroPadded([true], 7);
  }
}
