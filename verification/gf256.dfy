/** GF(256) arithmetic of the encoder: the antilog table built by repeated
    doubling modulo the primitive polynomial x^8 + x^4 + x^3 + x^2 + 1 (0x11D),
    the log table derived from it, and multiplication by table lookup.
    ISO/IEC 18004 computes QR and Micro QR error correction in this field. */
module GF256 {
  import opened Powers

  /** An Int holding a byte: an element of GF(256). */
  type Byte = x: int | 0 <= x < 256

  /** Exclusive or of two naturals, bit by bit from the bottom. */
  function XorBits(a: nat, b: nat): (r: nat)
    ensures r % 2 == (a + b) % 2
    ensures r <= a + b
    decreases a + b
  {
    if a == 0 then b
    else if b == 0 then a
    else 2 * XorBits(a / 2, b / 2) + (if a % 2 == b % 2 then 0 else 1)
  }

  /** XOR of two n-bit values is an n-bit value. */
  lemma {:induction false} XorBitsBound(a: nat, b: nat, n: nat)
    requires a < Pow2(n) && b < Pow2(n)
    ensures XorBits(a, b) < Pow2(n)
    decreases a + b
  {
    if a != 0 && b != 0 {
      XorBitsBound(a / 2, b / 2, n - 1);
    }
  }

  lemma {:induction false} XorSelf(a: nat)
    ensures XorBits(a, a) == 0
    decreases a
  {
    if a != 0 {
      XorSelf(a / 2);
    }
  }

  /** Swift's `^` on two Ints that both hold bytes: addition in GF(256). */
  function Xor(a: int, b: int): (r: int)
    requires 0 <= a < 256 && 0 <= b < 256
    ensures 0 <= r < 256
    ensures a == b ==> r == 0
  {
    XorBitsBound(a, b, 8);
    XorSelf(a);
    XorBits(a, b)
  }

  /** 0 is the neutral element. */
  lemma XorZero(a: int)
    requires 0 <= a < 256
    ensures Xor(0, a) == a
  {
  }

  // ---------------------------------------------------------------------------
  // The antilog (exponential) table
  // ---------------------------------------------------------------------------

  /** One turn of the table builder's loop: the register is shifted left and,
      when it no longer fits a byte, XORed with the primitive polynomial.
      The Swift variable is an Int; its values stay below 512, so a 9-bit
      register holds every one of them exactly. A nonzero byte stays a
      nonzero byte: the shifted value is even and 0x11D is odd, so the
      reduction never gives 0. */
  function Step(x: bv9): (r: bv9)
    ensures 1 <= x < 256 ==> 1 <= r < 256
  {
    if x << 1 > 255 then (x << 1) ^ 0x11D else x << 1
  }

  /** The register at the start of turn i, i.e. alpha^i. */
  function Register(i: nat): (r: bv9)
    ensures 1 <= r < 256
  {
    if i == 0 then 1 else Step(Register(i - 1))
  }

  /** The exponential table: entry i is alpha^i, as an Int; every entry is a
      nonzero byte, so it can index the 256-entry log table. */
  function ExpTable(): (t: seq<int>)
    ensures |t| == 256
    ensures forall i :: 0 <= i < 256 ==> 1 <= t[i] <= 255
  {
    AllRegistersAreNonzeroBytes();
    seq(256, i requires 0 <= i < 256 => Register(i) as int)
  }

  lemma AllRegistersAreNonzeroBytes()
    ensures forall i: nat :: 1 <= Register(i) as int <= 255
  {
    forall i: nat
      ensures 1 <= Register(i) as int <= 255
    {
      var r := Register(i);
      assert 1 <= r < 256;
    }
  }

  /** The table starts at 1, every entry is a nonzero byte, and each entry is
      the previous one doubled and reduced. */
  lemma ExpTableShape()
    ensures ExpTable()[0] == 1
    ensures forall i :: 0 <= i < 255 ==> ExpTable()[i + 1] == Step(ExpTable()[i] as bv9) as int
  {
    forall i | 0 <= i < 255
      ensures ExpTable()[i + 1] == Step(ExpTable()[i] as bv9) as int
    {
      BackToRegister(Register(i));
    }
  }

  /** The table builder, a loop over a 256-entry buffer. */
  method BuildExpTable() returns (expTable: seq<int>)
    ensures expTable == ExpTable()
  {
    var exp := seq(256, _ => 0);
    var x: bv9 := 1;
    for i := 0 to 256
      invariant |exp| == 256 && x == Register(i)
      invariant forall k :: 0 <= k < i ==> exp[k] == Register(k) as int
    {
      exp := exp[i := x as int];
      ghost var previous := x;
      x := x << 1;
      if x > 255 {
        x := x ^ 0x11D;
      }
      assert x == Step(previous);
    }
    expTable := exp;
    assert forall k :: 0 <= k < 256 ==> expTable[k] == ExpTable()[k];
  }

  // ---------------------------------------------------------------------------
  // 0x11D is primitive: alpha^0 .. alpha^254 are pairwise distinct
  // ---------------------------------------------------------------------------

  /** The powers of alpha the rest of the model relies on, obtained by running
      the register forward one turn at a time. */
  lemma AlphaPowers0To63()
    ensures Register(5) == 32 && Register(15) == 38 && Register(25) == 3 && Register(51) == 10
    ensures Register(63) == 161
  {
    assert Register(1) == 2 && Register(2) == 4 && Register(3) == 8 && Register(4) == 16;
    assert Register(5) == 32 && Register(6) == 64 && Register(7) == 128 && Register(8) == 29;
    assert Register(9) == 58 && Register(10) == 116 && Register(11) == 232 && Register(12) == 205;
    assert Register(13) == 135 && Register(14) == 19 && Register(15) == 38 && Register(16) == 76;
    assert Register(17) == 152 && Register(18) == 45 && Register(19) == 90 && Register(20) == 180;
    assert Register(21) == 117 && Register(22) == 234 && Register(23) == 201 && Register(24) == 143;
    assert Register(25) == 3 && Register(26) == 6 && Register(27) == 12 && Register(28) == 24;
    assert Register(29) == 48 && Register(30) == 96 && Register(31) == 192 && Register(32) == 157;
    assert Register(33) == 39 && Register(34) == 78 && Register(35) == 156 && Register(36) == 37;
    assert Register(37) == 74 && Register(38) == 148 && Register(39) == 53 && Register(40) == 106;
    assert Register(41) == 212 && Register(42) == 181 && Register(43) == 119 && Register(44) == 238;
    assert Register(45) == 193 && Register(46) == 159 && Register(47) == 35 && Register(48) == 70;
    assert Register(49) == 140 && Register(50) == 5 && Register(51) == 10 && Register(52) == 20;
    assert Register(53) == 40 && Register(54) == 80 && Register(55) == 160 && Register(56) == 93;
    assert Register(57) == 186 && Register(58) == 105 && Register(59) == 210 && Register(60) == 185;
    assert Register(61) == 111 && Register(62) == 222 && Register(63) == 161;
  }

  lemma AlphaPowers64To127()
    ensures Register(85) == 214 && Register(127) == 204
  {
    AlphaPowers0To63();
    assert Register(64) == 95 && Register(65) == 190 && Register(66) == 97 && Register(67) == 194;
    assert Register(68) == 153 && Register(69) == 47 && Register(70) == 94 && Register(71) == 188;
    assert Register(72) == 101 && Register(73) == 202 && Register(74) == 137 && Register(75) == 15;
    assert Register(76) == 30 && Register(77) == 60 && Register(78) == 120 && Register(79) == 240;
    assert Register(80) == 253 && Register(81) == 231 && Register(82) == 211 && Register(83) == 187;
    assert Register(84) == 107 && Register(85) == 214 && Register(86) == 177 && Register(87) == 127;
    assert Register(88) == 254 && Register(89) == 225 && Register(90) == 223 && Register(91) == 163;
    assert Register(92) == 91 && Register(93) == 182 && Register(94) == 113 && Register(95) == 226;
    assert Register(96) == 217 && Register(97) == 175 && Register(98) == 67 && Register(99) == 134;
    assert Register(100) == 17 && Register(101) == 34 && Register(102) == 68 && Register(103) == 136;
    assert Register(104) == 13 && Register(105) == 26 && Register(106) == 52 && Register(107) == 104;
    assert Register(108) == 208 && Register(109) == 189 && Register(110) == 103 && Register(111) == 206;
    assert Register(112) == 129 && Register(113) == 31 && Register(114) == 62 && Register(115) == 124;
    assert Register(116) == 248 && Register(117) == 237 && Register(118) == 199 && Register(119) == 147;
    assert Register(120) == 59 && Register(121) == 118 && Register(122) == 236 && Register(123) == 197;
    assert Register(124) == 151 && Register(125) == 51 && Register(126) == 102 && Register(127) == 204;
  }

  lemma AlphaPowers128To191()
    ensures Register(191) == 65
  {
    AlphaPowers64To127();
    assert Register(128) == 133 && Register(129) == 23 && Register(130) == 46 && Register(131) == 92;
    assert Register(132) == 184 && Register(133) == 109 && Register(134) == 218 && Register(135) == 169;
    assert Register(136) == 79 && Register(137) == 158 && Register(138) == 33 && Register(139) == 66;
    assert Register(140) == 132 && Register(141) == 21 && Register(142) == 42 && Register(143) == 84;
    assert Register(144) == 168 && Register(145) == 77 && Register(146) == 154 && Register(147) == 41;
    assert Register(148) == 82 && Register(149) == 164 && Register(150) == 85 && Register(151) == 170;
    assert Register(152) == 73 && Register(153) == 146 && Register(154) == 57 && Register(155) == 114;
    assert Register(156) == 228 && Register(157) == 213 && Register(158) == 183 && Register(159) == 115;
    assert Register(160) == 230 && Register(161) == 209 && Register(162) == 191 && Register(163) == 99;
    assert Register(164) == 198 && Register(165) == 145 && Register(166) == 63 && Register(167) == 126;
    assert Register(168) == 252 && Register(169) == 229 && Register(170) == 215 && Register(171) == 179;
    assert Register(172) == 123 && Register(173) == 246 && Register(174) == 241 && Register(175) == 255;
    assert Register(176) == 227 && Register(177) == 219 && Register(178) == 171 && Register(179) == 75;
    assert Register(180) == 150 && Register(181) == 49 && Register(182) == 98 && Register(183) == 196;
    assert Register(184) == 149 && Register(185) == 55 && Register(186) == 110 && Register(187) == 220;
    assert Register(188) == 165 && Register(189) == 87 && Register(190) == 174 && Register(191) == 65;
  }

  lemma AlphaPowers()
    ensures Register(5) == 32 && Register(25) == 3
    ensures Register(15) != 1 && Register(51) != 1 && Register(85) != 1
    ensures Register(255) == 1
  {
    AlphaPowers0To63();
    AlphaPowers64To127();
    AlphaPowers128To191();
    assert Register(192) == 130 && Register(193) == 25 && Register(194) == 50 && Register(195) == 100;
    assert Register(196) == 200 && Register(197) == 141 && Register(198) == 7 && Register(199) == 14;
    assert Register(200) == 28 && Register(201) == 56 && Register(202) == 112 && Register(203) == 224;
    assert Register(204) == 221 && Register(205) == 167 && Register(206) == 83 && Register(207) == 166;
    assert Register(208) == 81 && Register(209) == 162 && Register(210) == 89 && Register(211) == 178;
    assert Register(212) == 121 && Register(213) == 242 && Register(214) == 249 && Register(215) == 239;
    assert Register(216) == 195 && Register(217) == 155 && Register(218) == 43 && Register(219) == 86;
    assert Register(220) == 172 && Register(221) == 69 && Register(222) == 138 && Register(223) == 9;
    assert Register(224) == 18 && Register(225) == 36 && Register(226) == 72 && Register(227) == 144;
    assert Register(228) == 61 && Register(229) == 122 && Register(230) == 244 && Register(231) == 245;
    assert Register(232) == 247 && Register(233) == 243 && Register(234) == 251 && Register(235) == 235;
    assert Register(236) == 203 && Register(237) == 139 && Register(238) == 11 && Register(239) == 22;
    assert Register(240) == 44 && Register(241) == 88 && Register(242) == 176 && Register(243) == 125;
    assert Register(244) == 250 && Register(245) == 233 && Register(246) == 207 && Register(247) == 131;
    assert Register(248) == 27 && Register(249) == 54 && Register(250) == 108 && Register(251) == 216;
    assert Register(252) == 173 && Register(253) == 71 && Register(254) == 142 && Register(255) == 1;
  }

  lemma StepIsInjective(x: bv9, y: bv9)
    requires x < 256 && y < 256 && Step(x) == Step(y)
    ensures x == y
  {
  }

  /** Two equal powers alpha^i == alpha^j (i < j) give alpha^(j-i) == 1:
      run the register backwards, which the injectivity of Step allows. */
  lemma {:induction false} EqualPowersGiveCycle(i: nat, j: nat)
    requires i <= j && Register(i) == Register(j)
    ensures Register(j - i) == 1
  {
    if i > 0 {
      StepIsInjective(Register(i - 1), Register(j - 1));
      EqualPowersGiveCycle(i - 1, j - 1);
    }
  }

  /** A cycle of length d repeats: alpha^(n + m*d) == alpha^n. */
  lemma {:induction false} CycleRepeats(d: nat, n: nat, m: nat)
    requires Register(d) == 1
    ensures Register(n + m * d) == Register(n)
    decreases n, m
  {
    if m > 0 {
      if n == 0 {
        CycleRepeats(d, 0, m - 1);
        assert Register(0 + (m - 1) * d) == 1;
        ShiftBy(d, (m - 1) * d);
        assert m * d == d + (m - 1) * d;
      } else {
        CycleRepeats(d, n - 1, m);
        assert n + m * d == (n - 1 + m * d) + 1;
      }
    }
  }

  /** alpha^(k + a) == alpha^a whenever alpha^k == 1 */
  lemma {:induction false} ShiftBy(a: nat, k: nat)
    requires Register(k) == 1
    ensures Register(k + a) == Register(a)
  {
    if a > 0 {
      ShiftBy(a - 1, k);
    }
  }

  /** Every divisor of 255 below 255 divides 15, 51 or 85 (255 = 3 * 5 * 17). */
  lemma ProperDivisorOf255(d: nat)
    requires 1 <= d < 255 && 255 % d == 0
    ensures 15 % d == 0 || 51 % d == 0 || 85 % d == 0
  {
    var q := 255 / d;
    assert d * q == 255;
    if d <= 16 {
      assert d == 1 || d == 2 || d == 3 || d == 4 || d == 5 || d == 6 || d == 7 || d == 8
          || d == 9 || d == 10 || d == 11 || d == 12 || d == 13 || d == 14 || d == 15 || d == 16;
    } else {
      assert q <= 15;
      assert q == 1 || q == 2 || q == 3 || q == 4 || q == 5 || q == 6 || q == 7 || q == 8
          || q == 9 || q == 10 || q == 11 || q == 12 || q == 13 || q == 14 || q == 15;
    }
  }

  /** If the register returns to 1 after d turns and after n turns, it does
      so after n % d turns too. */
  lemma CycleOfRemainder(d: nat, n: nat)
    requires d > 0 && Register(d) == 1 && Register(n) == 1
    ensures Register(n % d) == 1
  {
    CycleRepeats(d, n % d, n / d);
    assert n % d + (n / d) * d == n;
  }

  /** A cycle of length d < 255 would have to divide 255 ... */
  lemma CycleDivides255(d: nat)
    requires 1 <= d < 255 && Register(d) == 1
    ensures Register(255 % d) == 1
  {
    AlphaPowers();
    CycleOfRemainder(d, 255);
  }

  /** A cycle of length d returns the register to 1 after every multiple of d. */
  lemma CycleMultiple(d: nat, n: nat)
    requires d > 0 && n % d == 0 && Register(d) == 1
    ensures Register(n) == 1
  {
    CycleRepeats(d, 0, n / d);
    assert 0 + (n / d) * d == n;
  }

  /** ... and no proper divisor of 255 is a cycle length. */
  lemma NoCycleDividing255(d: nat)
    requires 1 <= d < 255 && 255 % d == 0
    ensures Register(d) != 1
  {
    ProperDivisorOf255(d);
    if Register(d) == 1 {
      AlphaPowers();
      if 15 % d == 0 {
        CycleMultiple(d, 15);
      } else if 51 % d == 0 {
        CycleMultiple(d, 51);
      } else {
        CycleMultiple(d, 85);
      }
    }
  }

  /** alpha has order 255: no shorter cycle returns the register to 1. */
  lemma {:induction false} NoShortCycle(d: nat)
    requires 1 <= d < 255
    ensures Register(d) != 1
    decreases d
  {
    if 255 % d == 0 {
      NoCycleDividing255(d);
    } else if Register(d) == 1 {
      CycleDivides255(d);
      NoShortCycle(255 % d);
    }
  }

  /** alpha^0, ..., alpha^254 are pairwise distinct. */
  lemma PowersAreDistinct(i: nat, j: nat)
    requires i < j < 255
    ensures ExpTable()[i] != ExpTable()[j]
  {
    if ExpTable()[i] == ExpTable()[j] {
      BackToRegister(Register(i));
      BackToRegister(Register(j));
      EqualPowersGiveCycle(i, j);
      NoShortCycle(j - i);
    }
  }

  lemma BackToRegister(x: bv9)
    ensures (x as int) as bv9 == x
  {
  }

  /** The set of the first n powers of alpha. */
  function PowersBelow(n: nat): (s: set<int>)
    requires n <= 256
    ensures forall v :: v in s ==> 1 <= v <= 255
    ensures forall i :: 0 <= i < n ==> ExpTable()[i] in s
  {
    if n == 0 then {} else PowersBelow(n - 1) + {ExpTable()[n - 1]}
  }

  /** A later power is none of the first n. */
  lemma {:induction false} LaterPowerIsNew(n: nat, m: nat)
    requires n <= m < 255
    ensures ExpTable()[m] !in PowersBelow(n)
  {
    if n > 0 {
      LaterPowerIsNew(n - 1, m);
      PowersAreDistinct(n - 1, m);
    }
  }

  /** The first n powers of alpha are n different values. */
  lemma {:induction false} PowersCount(n: nat)
    requires n <= 255
    ensures |PowersBelow(n)| == n
  {
    if n > 0 {
      PowersCount(n - 1);
      LaterPowerIsNew(n - 1, n - 1);
      assert PowersBelow(n) == PowersBelow(n - 1) + {ExpTable()[n - 1]};
    }
  }

  /** The set {1, ..., n}. */
  function NonzeroUpTo(n: nat): (s: set<int>)
    ensures |s| == n
    ensures forall v :: v in s <==> 1 <= v <= n
  {
    if n == 0 then {} else NonzeroUpTo(n - 1) + {n}
  }

  /** Every nonzero byte is a power of alpha below 255 (255 distinct nonzero
      bytes among 255 candidates). */
  lemma EveryNonzeroByteIsAPower(v: int)
    requires 1 <= v <= 255
    ensures exists i :: 0 <= i < 255 && ExpTable()[i] == v
  {
    var powers := PowersBelow(255);
    var bytes := NonzeroUpTo(255);
    PowersCount(255);
    assert powers <= bytes;
    assert |bytes - powers| == |bytes| - |powers| == 0;
    assert v in powers by {
      assert v in bytes;
    }
    var i := MemberIsPower(255, v);
  }

  /** Every member of PowersBelow(n) is one of the first n powers. */
  lemma {:induction false} MemberIsPower(n: nat, v: int) returns (i: nat)
    requires n <= 256 && v in PowersBelow(n)
    ensures i < n && ExpTable()[i] == v
  {
    if v == ExpTable()[n - 1] {
      i := n - 1;
    } else {
      i := MemberIsPower(n - 1, v);
    }
  }

  // ---------------------------------------------------------------------------
  // The log table
  // ---------------------------------------------------------------------------

  /** Entry v of the log table once the builder has run turns 0 .. n-1, each
      turn i writing i at position expTable[i]: the last such turn that wrote
      at v, or the initial 0 when none did. */
  function LogEntry(expTable: seq<int>, v: int, n: nat): (r: int)
    requires n <= |expTable|
    ensures 0 <= r && (n > 0 ==> r < n)
  {
    if n == 0 then 0
    else if expTable[n - 1] == v then n - 1
    else LogEntry(expTable, v, n - 1)
  }

  /** The entry is the last turn that wrote at v, or 0 when no turn did. */
  lemma {:induction false} LogEntryIsLastWrite(expTable: seq<int>, v: int, n: nat)
    requires n <= |expTable|
    ensures (forall i :: 0 <= i < n ==> expTable[i] != v) ==> LogEntry(expTable, v, n) == 0
    ensures (exists i :: 0 <= i < n && expTable[i] == v) ==>
              var r := LogEntry(expTable, v, n);
              expTable[r] == v && forall j :: r < j < n ==> expTable[j] != v
  {
    if n > 0 && expTable[n - 1] != v {
      LogEntryIsLastWrite(expTable, v, n - 1);
      if exists i :: 0 <= i < n && expTable[i] == v {
        var i :| 0 <= i < n && expTable[i] == v;
        assert i < n - 1;
      }
    }
  }

  /** The log table: entry v is the exponent i < 255 with alpha^i == v; entry 0 stays 0. */
  function LogTable(): (t: seq<int>)
    ensures |t| == 256 && forall v :: 0 <= v < 256 ==> 0 <= t[v] < 255
  {
    seq(256, v requires 0 <= v < 256 => LogEntry(ExpTable(), v, 255))
  }

  /** The log-table builder: one write per exponent 0 .. 254 into a zeroed buffer. */
  method BuildLogTable(expTable: seq<int>) returns (logTable: seq<int>)
    requires |expTable| == 256 && forall i :: 0 <= i < 256 ==> 0 <= expTable[i] < 256
    ensures |logTable| == 256
    ensures forall v :: 0 <= v < 256 ==> logTable[v] == LogEntry(expTable, v, 255)
  {
    var log := new int[256](_ => 0);
    for i := 0 to 255
      invariant forall v :: 0 <= v < 256 ==> log[v] == LogEntry(expTable, v, i)
    {
      log[expTable[i]] := i;
    }
    logTable := log[..];
  }

  /** Built from the real exponential table, the builder yields LogTable(). */
  lemma BuiltLogTableIsLogTable(logTable: seq<int>)
    requires |logTable| == 256
    requires forall v :: 0 <= v < 256 ==> logTable[v] == LogEntry(ExpTable(), v, 255)
    ensures logTable == LogTable()
  {
  }

  /** log(alpha^i) == i for every exponent below 255; in particular log(1) == 0. */
  lemma LogOfPower(i: nat)
    requires i < 255
    ensures LogTable()[ExpTable()[i]] == i
  {
    var v := ExpTable()[i];
    var r := LogTable()[v];
    assert r == LogEntry(ExpTable(), v, 255);
    LogEntryIsLastWrite(ExpTable(), v, 255);
    if r > i {
      PowersAreDistinct(i, r);
    }
  }

  lemma LogOfOne()
    ensures LogTable()[1] == 0
  {
    LogOfPower(0);
  }

  /** alpha^(log v) == v for every nonzero byte v. */
  lemma PowerOfLog(v: int)
    requires 1 <= v <= 255
    ensures ExpTable()[LogTable()[v]] == v
  {
    EveryNonzeroByteIsAPower(v);
    assert LogTable()[v] == LogEntry(ExpTable(), v, 255);
    LogEntryIsLastWrite(ExpTable(), v, 255);
  }

  // ---------------------------------------------------------------------------
  // Multiplication
  // ---------------------------------------------------------------------------

  /** Product in GF(256) through the log and antilog tables. The tables are
      indexed only when both operands are nonzero, so only those must be bytes. */
  function Multiply(a: int, b: int): (r: int)
    requires a == 0 || b == 0 || (0 < a < 256 && 0 < b < 256)
    ensures 0 <= r <= 255
    ensures r == 0 <==> a == 0 || b == 0
  {
    if a == 0 || b == 0 then 0
    else
      ExpTable()[(LogTable()[a] + LogTable()[b]) % 255]
  }

  lemma MultiplyCommutes(a: int, b: int)
    requires 0 <= a < 256 && 0 <= b < 256
    ensures Multiply(a, b) == Multiply(b, a)
  {
  }

  /** 1 is the identity of the multiplication. */
  lemma MultiplyByOne(b: int)
    requires 0 <= b < 256
    ensures Multiply(1, b) == b
  {
    if b != 0 {
      LogOfOne();
      PowerOfLog(b);
    }
  }

  /** The log/antilog law the tables implement: alpha^i * alpha^j == alpha^((i + j) mod 255). */
  lemma MultiplyPowers(i: nat, j: nat)
    requires i < 255 && j < 255
    ensures Multiply(ExpTable()[i], ExpTable()[j]) == ExpTable()[(i + j) % 255]
  {
    LogOfPower(i);
    LogOfPower(j);
  }
}
