/** The data bits of an M1 symbol: a 3-bit character count, the value as a
    binary string padded on the left to 4 digits, a 3-bit terminator, and
    zero bits up to 20. The input is a decimal string read as an Int and
    rendered in radix 2. */
module DataEncoding {
  import opened Powers
  import opened Packing

  // ---------------------------------------------------------------------------
  // Decimal input
  // ---------------------------------------------------------------------------

  predicate IsDigit(ch: char)
  {
    '0' <= ch <= '9'
  }

  predicate AllDigits(s: string)
  {
    forall i :: 0 <= i < |s| ==> IsDigit(s[i])
  }

  /** A string that `Int(_)` reads as a nonnegative number. */
  predicate IsDecimal(s: string)
  {
    |s| > 0 && AllDigits(s)
  }

  /** The number a string of decimal digits denotes (leading zeros allowed). */
  function DecimalValue(s: string): (v: nat)
    requires AllDigits(s)
    ensures v == 0 <==> forall i :: 0 <= i < |s| ==> s[i] == '0'
  {
    if s == [] then 0 else 10 * DecimalValue(s[..|s| - 1]) + (s[|s| - 1] - '0') as nat
  }

  function DecimalDigit(d: nat): (ch: char)
    requires d < 10
    ensures IsDigit(ch) && (ch - '0') as nat == d
  {
    ('0' as int + d) as char
  }

  /** The decimal rendering of v, without leading zeros. */
  function Decimal(v: nat): (s: string)
    ensures IsDecimal(s)
  {
    if v < 10 then [DecimalDigit(v)] else Decimal(v / 10) + [DecimalDigit(v % 10)]
  }

  /** Every nonnegative number is read back from its decimal rendering. */
  lemma {:induction false} DecimalRoundTrip(v: nat)
    ensures DecimalValue(Decimal(v)) == v
  {
    var s := Decimal(v);
    if v >= 10 {
      DecimalRoundTrip(v / 10);
      assert s[..|s| - 1] == Decimal(v / 10);
    }
  }

  // ---------------------------------------------------------------------------
  // Radix-2 rendering, left padding and the map to bits
  // ---------------------------------------------------------------------------

  predicate IsBinary(s: string)
  {
    forall i :: 0 <= i < |s| ==> s[i] == '0' || s[i] == '1'
  }

  /** `String(v, radix: 2)` for a nonnegative v: no leading zeros, "0" for 0. */
  function Binary(v: nat): (s: string)
    ensures |s| >= 1 && IsBinary(s)
    ensures v > 0 ==> s[0] == '1'
  {
    if v < 2 then [if v == 0 then '0' else '1']
    else Binary(v / 2) + [if v % 2 == 0 then '0' else '1']
  }

  /** `padLeft(toLength:withPad:)`: pad characters in front up to toLength;
      a string already that long is returned as it is. */
  function PadLeft(s: string, toLength: int, pad: char): (r: string)
    ensures |r| == if |s| < toLength then toLength else |s|
    ensures r[|r| - |s|..] == s
    ensures forall i :: 0 <= i < |r| - |s| ==> r[i] == pad
  {
    if |s| < toLength then seq(toLength - |s|, _ => pad) + s else s
  }

  /** `map { $0 == "1" }`. */
  function ToBits(s: string): (bits: seq<bool>)
    ensures |bits| == |s| && forall i :: 0 <= i < |s| ==> (bits[i] <==> s[i] == '1')
  {
    seq(|s|, i requires 0 <= i < |s| => s[i] == '1')
  }

  lemma ToBitsAppend(a: string, b: string)
    ensures ToBits(a + b) == ToBits(a) + ToBits(b)
  {
  }

  /** The radix-2 rendering of v, read MSB-first, is v. */
  lemma {:induction false} BinaryValue(v: nat)
    ensures BitsValue(ToBits(Binary(v))) == v
  {
    if v >= 2 {
      var last := if v % 2 == 0 then '0' else '1';
      BinaryValue(v / 2);
      ToBitsAppend(Binary(v / 2), [last]);
      ValueOfSnoc(ToBits(Binary(v / 2)), last == '1');
    }
  }

  /** Without leading zeros, the rendering is as short as it can be: v needs
      all of its digits. */
  lemma {:induction false} BinaryLength(v: nat)
    ensures v < Pow2(|Binary(v)|)
    ensures v >= Pow2(|Binary(v)| - 1) || v == 0
  {
    BinaryValue(v);
    if v >= 2 {
      BinaryLength(v / 2);
    }
  }

  /** Leading zero bits do not change a value. */
  lemma {:induction false} ValueOfLeadingZeros(k: nat, bits: seq<bool>)
    ensures BitsValue(Zeros(k) + bits) == BitsValue(bits)
  {
    if bits == [] {
      assert Zeros(k) + bits == Zeros(k);
      assert [] + Zeros(k) == Zeros(k);
      ValueOfZeroPadded([], k);
    } else {
      var front := bits[..|bits| - 1];
      var last := bits[|bits| - 1];
      assert Zeros(k) + bits == (Zeros(k) + front) + [last];
      assert bits == front + [last];
      ValueOfSnoc(Zeros(k) + front, last);
      ValueOfSnoc(front, last);
      ValueOfLeadingZeros(k, front);
    }
  }

  /** The value field: v in radix 2, padded on the left to 4 digits. */
  function ValueBits(v: nat): (bits: seq<bool>)
    ensures |bits| == if |Binary(v)| < 4 then 4 else |Binary(v)|
  {
    ToBits(PadLeft(Binary(v), 4, '0'))
  }

  /** The value field reads back as v, whatever its width. */
  lemma ValueBitsValue(v: nat)
    ensures BitsValue(ValueBits(v)) == v
  {
    var b := Binary(v);
    var padded := PadLeft(b, 4, '0');
    var k := |padded| - |b|;
    assert padded == padded[..k] + padded[k..];
    ToBitsAppend(padded[..k], b);
    assert ToBits(padded[..k]) == Zeros(k);
    ValueOfLeadingZeros(k, ToBits(b));
    BinaryValue(v);
  }

  /** A value below 16 fills the field exactly: its 4 bits, MSB-first. */
  lemma SmallValueBits(v: nat)
    requires v < 16
    ensures ValueBits(v) == BitsOf(v, 4)
  {
    BinaryLength(v);
    if |Binary(v)| > 4 {
      Pow2Monotone(4, |Binary(v)| - 1);
    }
    ValueBitsValue(v);
    NibbleBitsOfValue(ValueBits(v));
  }

  // ---------------------------------------------------------------------------
  // The data bit string
  // ---------------------------------------------------------------------------

  /** Count field, value field and terminator. */
  function Framed(v: nat): (framed: seq<bool>)
    ensures |framed| == |ValueBits(v)| + 6
  {
    [false, false, true] + ValueBits(v) + [false, false, false]
  }

  /** The data bits: the framed value, padded with zeros to at least 20 bits. */
  function DataBits(v: nat): (bits: seq<bool>)
    ensures |bits| >= 20
  {
    var framed := Framed(v);
    if |framed| < 20 then framed + Zeros(20 - |framed|) else framed
  }

  /** The bit-building part of generateM1WithData: appends, then the two
      padding loops. */
  method EncodeData(value: nat) returns (dataBits: seq<bool>)
    ensures dataBits == DataBits(value)
  {
    dataBits := [];
    dataBits := dataBits + [false, false, true];
    var binaryString := PadLeft(Binary(value), 4, '0');
    dataBits := dataBits + ToBits(binaryString);
    dataBits := dataBits + [false, false, false];
    ghost var framed := dataBits;
    assert framed == Framed(value);
    while |dataBits| < 16
      invariant |framed| <= |dataBits| && (|dataBits| <= 16 || dataBits == framed)
      invariant dataBits == framed + Zeros(|dataBits| - |framed|)
    {
      dataBits := dataBits + [false];
    }
    while |dataBits| < 20
      invariant |framed| <= |dataBits| && (|dataBits| <= 20 || dataBits == framed)
      invariant dataBits == framed + Zeros(|dataBits| - |framed|)
    {
      dataBits := dataBits + [false];
    }
    if |framed| >= 20 {
      assert dataBits == framed;
    }
  }

  /** The data bits begin with the framed value. */
  lemma FramedPrefix(v: nat)
    ensures DataBits(v)[..|Framed(v)|] == Framed(v)
  {
  }

  /** The count field is 001 for every input. */
  lemma CountField(v: nat)
    ensures DataBits(v)[..3] == [false, false, true]
  {
    var framed := Framed(v);
    FramedPrefix(v);
    assert DataBits(v)[..3] == framed[..3];
  }

  /** The value field reads back as v. */
  lemma ValueField(v: nat)
    ensures BitsValue(DataBits(v)[3..3 + |ValueBits(v)|]) == v
  {
    var value, bits := ValueBits(v), DataBits(v);
    var framed, w := Framed(v), |value|;
    FramedPrefix(v);
    SubSlice(bits, 6 + w, 3, 3 + w);
    assert framed[3..3 + w] == value by {
      assert framed == [false, false, true] + value + [false, false, false];
    }
    ValueBitsValue(v);
  }

  lemma SubSlice(s: seq<bool>, m: nat, i: nat, j: nat)
    requires i <= j <= m <= |s|
    ensures s[..m][i..j] == s[i..j]
  {
  }

  /** After the value field, only zero bits: the terminator and the padding. */
  lemma TrailingZeros(v: nat)
    ensures forall i :: 3 + |ValueBits(v)| <= i < |DataBits(v)| ==> !DataBits(v)[i]
  {
    var bits, framed, w := DataBits(v), Framed(v), |ValueBits(v)|;
    forall i | 3 + w <= i < |bits|
      ensures !bits[i]
    {
      if i < |framed| {
        FramedPrefix(v);
        assert bits[i] == framed[i];
        assert framed[i] == [false, false, false][i - (3 + w)];
      }
    }
  }

  /** The fields of the data bits: the count field is 001 for every input,
      the value field reads back as v, then come the terminator and zeros. */
  lemma DataBitsFields(v: nat)
    ensures var bits, w := DataBits(v), |ValueBits(v)|;
      && |bits| == (if 6 + w < 20 then 20 else 6 + w)
      && bits[..3] == [false, false, true]
      && BitsValue(bits[3..3 + w]) == v
      && forall i :: 3 + w <= i < |bits| ==> !bits[i]
  {
    CountField(v);
    ValueField(v);
    TrailingZeros(v);
  }

  /** A single decimal digit, or any value below 16: 001, the value in 4 bits
      MSB-first, 000, then ten zeros: exactly 20 bits. */
  lemma SmallValueLayout(v: nat)
    requires v < 16
    ensures DataBits(v) == [false, false, true] + BitsOf(v, 4) + [false, false, false] + Zeros(10)
  {
    SmallValueBits(v);
  }

  /** v has at most m binary digits exactly when it is below 2^m. */
  lemma BinaryLengthBound(v: nat, m: nat)
    requires m >= 1
    ensures |Binary(v)| <= m <==> v < Pow2(m)
  {
    var n := |Binary(v)|;
    BinaryLength(v);
    if n <= m {
      Pow2Monotone(n, m);
    } else {
      Pow2Monotone(m, n - 1);
    }
  }

  lemma DataBitsSize(v: nat)
    ensures |DataBits(v)| == if |Binary(v)| <= 14 then 20 else 6 + |Binary(v)|
  {
  }

  /** The data bits fit the 36 data modules of the symbol exactly when the
      value is below 2^30 ... */
  lemma DataBitsFit(v: nat)
    ensures |DataBits(v)| <= 36 <==> v < Pow2(30)
  {
    DataBitsSize(v);
    BinaryLengthBound(v, 30);
  }

  /** ... and they are exactly 20 bits when it is below 2^14. */
  lemma DataBitsMinimal(v: nat)
    ensures |DataBits(v)| == 20 <==> v < Pow2(14)
  {
    DataBitsSize(v);
    BinaryLengthBound(v, 14);
  }
}
