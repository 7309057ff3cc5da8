/** The error-detection codewords: systematic long division of the message,
    followed by two zero codewords, by a degree-2 generator over GF(256); the
    two codewords left at the end of the buffer are returned. The division is
    stated for any monic degree-2 generator g and applied to the encoder's. */
module ErrorDetection {
  import opened GF256

  /** Coefficients of a monic degree-2 polynomial, highest degree first. */
  predicate IsGenerator(g: seq<Byte>)
  {
    |g| == 3 && g[0] == 1
  }

  /** The generator as the encoder writes it: 1, alpha^25, alpha^5. */
  function Generator(): (g: seq<Byte>)
    ensures IsGenerator(g)
  {
    [1, ExpTable()[25], ExpTable()[5]]
  }

  /** The generator is x^2 + 3x + 32. The two-codeword generator of ISO/IEC
      18004 is x^2 + alpha^25 x + alpha^1, i.e. x^2 + 3x + 2: the constant
      term differs. */
  lemma GeneratorValues()
    ensures Generator() == [1, 3, 32]
  {
    AlphaPowers();
    assert ExpTable()[25] == Register(25) as int;
    assert ExpTable()[5] == Register(5) as int;
  }

  /** g scaled by a nonzero leading coefficient; the first entry is the
      coefficient itself. */
  function Scaled(g: seq<Byte>, lead: Byte): (t: seq<Byte>)
    requires IsGenerator(g) && lead != 0
    ensures |t| == 3 && t[0] == lead
  {
    MultiplyByOne(lead);
    seq(3, j requires 0 <= j < 3 => Multiply(g[j], lead))
  }

  /** Turn i of the division: when the leading coefficient r[i] is nonzero,
      g scaled by it is XORed into r[i .. i+2], which clears r[i]. */
  function DivisionStep(r: seq<Byte>, i: nat, g: seq<Byte>): (s: seq<Byte>)
    requires i + 3 <= |r| && IsGenerator(g)
    ensures |s| == |r| && s[i] == 0
    ensures forall k :: 0 <= k < |r| && (k < i || k > i + 2) ==> s[k] == r[k]
  {
    var lead := r[i];
    if lead == 0 then r
    else
      var t := Scaled(g, lead);
      var x0: Byte, x1: Byte, x2: Byte := Xor(r[i], t[0]), Xor(r[i + 1], t[1]), Xor(r[i + 2], t[2]);
      r[i := x0][i + 1 := x1][i + 2 := x2]
  }

  /** Entry k after turn i, one position at a time. */
  lemma DivisionStepAt(r: seq<Byte>, i: nat, g: seq<Byte>, k: nat)
    requires i + 3 <= |r| && IsGenerator(g) && k < |r|
    ensures DivisionStep(r, i, g)[k] ==
              if r[i] != 0 && i <= k < i + 3 then Xor(r[k], Multiply(g[k - i], r[i])) else r[k]
  {
  }

  /** The buffer after turns 0 .. n-1. */
  function Divide(r: seq<Byte>, n: nat, g: seq<Byte>): (s: seq<Byte>)
    requires n + 2 <= |r| && IsGenerator(g)
    ensures |s| == |r|
  {
    if n == 0 then r else DivisionStep(Divide(r, n - 1, g), n - 1, g)
  }

  /** The first n entries are cleared, and the entries from n + 2 on have not
      been touched yet. */
  lemma {:induction false} DivideClears(r: seq<Byte>, n: nat, g: seq<Byte>)
    requires n + 2 <= |r| && IsGenerator(g)
    ensures forall k :: 0 <= k < n ==> Divide(r, n, g)[k] == 0
    ensures forall k :: n + 2 <= k < |r| ==> Divide(r, n, g)[k] == r[k]
  {
    if n > 0 {
      DivideClears(r, n - 1, g);
    }
  }

  /** The last two entries of the buffer once every message position has
      been divided out. */
  function Remainder(message: seq<Byte>, g: seq<Byte>): (ecc: seq<Byte>)
    requires IsGenerator(g)
    ensures |ecc| == 2
  {
    var divided := Divide(message + [0, 0], |message|, g);
    divided[|message|..]
  }

  /** What generateErrorDetection returns. */
  function ErrorCodewords(message: seq<Byte>): (ecc: seq<Byte>)
    ensures |ecc| == 2
  {
    Remainder(message, Generator())
  }

  /** The division runs on a local copy of the message (a Swift array is a
      value), updated one entry at a time. */
  method GenerateErrorDetection(message: seq<Byte>) returns (ecc: seq<int>)
    ensures ecc == ErrorCodewords(message)
    ensures |ecc| == 2 && forall k :: 0 <= k < 2 ==> 0 <= ecc[k] < 256
  {
    var generatorDegree := 2;
    var generator := [1, ExpTable()[25], ExpTable()[5]];
    var remainder: seq<Byte> := message + [0, 0];
    ghost var padded := remainder;
    for i := 0 to |message|
      invariant remainder == Divide(padded, i, generator)
    {
      var lead := remainder[i];
      if lead != 0 {
        remainder := SubtractScaled(remainder, i, generator, lead);
      }
    }
    ecc := remainder[|remainder| - generatorDegree..];
  }

  /** The inner loop of the division: term j of g scaled by the leading
      coefficient is XORed into entry i + j. */
  method SubtractScaled(remainder: seq<Byte>, i: nat, generator: seq<Byte>, lead: Byte)
    returns (result: seq<Byte>)
    requires i + 3 <= |remainder| && IsGenerator(generator)
    requires lead == remainder[i] && lead != 0
    ensures result == DivisionStep(remainder, i, generator)
  {
    ghost var after := DivisionStep(remainder, i, generator);
    result := remainder;
    for j := 0 to |generator|
      invariant |result| == |remainder|
      invariant forall k :: 0 <= k < |remainder| && !(i <= k < i + j) ==> result[k] == remainder[k]
      invariant forall k :: i <= k < i + j ==> result[k] == after[k]
    {
      var term := Multiply(generator[j], lead);
      DivisionStepAt(remainder, i, generator, i + j);
      result := result[i + j := Xor(result[i + j], term)];
    }
  }

  // ---------------------------------------------------------------------------
  // Properties of the division
  // ---------------------------------------------------------------------------

  lemma {:induction false} DivideZeros(r: seq<Byte>, n: nat, g: seq<Byte>)
    requires n + 2 <= |r| && IsGenerator(g) && forall k :: 0 <= k < |r| ==> r[k] == 0
    ensures Divide(r, n, g) == r
  {
    if n > 0 {
      DivideZeros(r, n - 1, g);
    }
  }

  /** An empty or all-zero message has the check codewords [0, 0]. */
  lemma ZeroMessage(message: seq<Byte>)
    requires forall k :: 0 <= k < |message| ==> message[k] == 0
    ensures ErrorCodewords(message) == [0, 0]
  {
    DivideZeros(message + [0, 0], |message|, Generator());
  }

  /** A one-codeword message c leaves c * g1 and c * g2. */
  lemma SingleCodewordRemainder(c: Byte, g: seq<Byte>)
    requires IsGenerator(g)
    ensures Remainder([c], g) == [Multiply(g[1], c), Multiply(g[2], c)]
  {
    if c != 0 {
      assert [c] + [0, 0] == [c, 0, 0];
      var s := DivisionStep([c, 0, 0], 0, g);
      assert Divide([c, 0, 0], 1, g) == s;
      DivisionStepAt([c, 0, 0], 0, g, 1);
      DivisionStepAt([c, 0, 0], 0, g, 2);
      XorZero(Multiply(g[1], c));
      XorZero(Multiply(g[2], c));
      assert s[1..] == [s[1], s[2]];
    } else {
      assert [c] + [0, 0] == [0, 0, 0];
      DivideZeros([0, 0, 0], 1, g);
      assert [0, 0, 0][1..] == [0, 0];
    }
  }

  /** With the encoder's generator: c * alpha^25 and c * alpha^5. */
  lemma SingleCodeword(c: Byte)
    ensures ErrorCodewords([c]) == [Multiply(ExpTable()[25], c), Multiply(ExpTable()[5], c)]
  {
    SingleCodewordRemainder(c, Generator());
  }

  /** A leading zero coefficient changes nothing: turn i + 1 on the shifted
      buffer is turn i on the original. */
  lemma StepShift(r: seq<Byte>, i: nat, g: seq<Byte>)
    requires i + 3 <= |r| && IsGenerator(g)
    ensures DivisionStep([0] + r, i + 1, g) == [0] + DivisionStep(r, i, g)
  {
    var s := [0] + r;
    assert s[i + 1] == r[i] && s[i + 2] == r[i + 1] && s[i + 3] == r[i + 2];
    if r[i] != 0 {
      var shifted, plain := DivisionStep(s, i + 1, g), DivisionStep(r, i, g);
      forall k | 0 <= k < |s|
        ensures shifted[k] == ([0] + plain)[k]
      {
      }
    }
  }

  lemma {:induction false} DivideShift(r: seq<Byte>, n: nat, g: seq<Byte>)
    requires n + 2 <= |r| && IsGenerator(g)
    ensures Divide([0] + r, n + 1, g) == [0] + Divide(r, n, g)
  {
    if n > 0 {
      DivideShift(r, n - 1, g);
      StepShift(Divide(r, n - 1, g), n - 1, g);
    }
  }

  /** Leading zero codewords do not change the check codewords: the
      remainder belongs to the polynomial, and 0 * x^k adds nothing to it. */
  lemma LeadingZero(message: seq<Byte>)
    ensures ErrorCodewords([0] + message) == ErrorCodewords(message)
  {
    assert [0] + message + [0, 0] == [0] + (message + [0, 0]);
    DivideShift(message + [0, 0], |message|, Generator());
  }
}
