/** generateM1WithData: the 11 x 11 M1 symbol for a decimal input, built in
    six phases on a matrix of modules (true = dark): finder pattern, timing
    patterns, format information, data bits, placement and mask. */
module MicroQR {
  import opened Powers
  import opened Packing
  import opened ErrorDetection
  import opened DataEncoding
  import opened DataRegion

  /** The format information written for M1 with mask pattern 0, MSB first. */
  const FormatBits: seq<bool> :=
    [true, false, false, false, true, false, false, false, true, false, false, false, true, false, true]

  /** Read MSB-first, the format bits are 0x4445: the Micro QR format mask
      100010001000101 of ISO/IEC 18004 (section 7.9.2) applied to the all-zero
      information of symbol number 0 (M1) with mask 00. */
  lemma FormatBitsValue()
    ensures BitsValue(FormatBits) == 0x4445
  {
    FormatMiddle();
    FormatPrefix(10); FormatPrefix(11); FormatPrefix(12); FormatPrefix(13); FormatPrefix(14);
    assert FormatBits[..15] == FormatBits;
  }

  /** The first five format bits read 10001. */
  lemma FormatFirst()
    ensures BitsValue(FormatBits[..5]) == 17
  {
    assert FormatBits[..0] == [];
    FormatPrefix(0); FormatPrefix(1); FormatPrefix(2); FormatPrefix(3); FormatPrefix(4);
  }

  /** The first ten format bits read 1000100010. */
  lemma FormatMiddle()
    ensures BitsValue(FormatBits[..10]) == 546
  {
    FormatFirst();
    FormatPrefix(5); FormatPrefix(6); FormatPrefix(7); FormatPrefix(8); FormatPrefix(9);
  }

  lemma FormatPrefix(k: nat)
    requires k < 15
    ensures BitsValue(FormatBits[..k + 1]) == 2 * BitsValue(FormatBits[..k]) + Bit(FormatBits[k])
  {
    assert FormatBits[..k + 1] == FormatBits[..k] + [FormatBits[k]];
    ValueOfSnoc(FormatBits[..k], FormatBits[k]);
  }

  /** Dark modules of the 7 x 7 finder pattern: its border and the 3 x 3
      square at rows and columns 2..4. */
  predicate FinderModule(row: int, col: int)
  {
    row == 0 || row == 6 || col == 0 || col == 6 || (2 <= row <= 4 && 2 <= col <= 4)
  }

  predicate FinderDark(row: int, col: int)
  {
    row <= 6 && col <= 6 && FinderModule(row, col)
  }

  /** Mask pattern (i + j) mod 2 == 0. */
  predicate MaskBit(row: int, col: int)
    ensures MaskBit(row, col) <==> row % 2 == col % 2
  {
    (row + col) % 2 == 0
  }

  /** The bit placed in a data module: bit ScanIndex of the data bits, or
      nothing (light) when the data bits run out first. */
  function PlacedBit(bits: seq<bool>, row: int, col: int): bool
    requires InGrid(row, col) && IsDataRegion(row, col)
  {
    ScanIndex(row, col) < |bits| && bits[ScanIndex(row, col)]
  }

  /** The modules that do not depend on the input: finder pattern, timing
      patterns and format information; the separator and the data region
      are light before placement. */
  function FixedModule(row: int, col: int): (dark: bool)
    requires InGrid(row, col)
    ensures IsDataRegion(row, col) ==> !dark
  {
    if row <= 6 && col <= 6 then FinderModule(row, col)
    else if row == 0 then col % 2 == 0
    else if col == 0 then row % 2 == 0
    else if col == 8 && row <= 8 then FormatBits[row - 1]
    else if row == 8 && col <= 7 then FormatBits[15 - col]
    else false
  }

  /** The module at (row, col) of the symbol carrying the data bits `bits`:
      a data module holds its placed bit, inverted where the mask is set. */
  function Module(bits: seq<bool>, row: int, col: int): (dark: bool)
    requires InGrid(row, col)
    ensures IsDataRegion(row, col) && ScanIndex(row, col) < |bits| ==>
              (dark != MaskBit(row, col)) == bits[ScanIndex(row, col)]
  {
    if IsDataRegion(row, col) then PlacedBit(bits, row, col) != MaskBit(row, col)
    else FixedModule(row, col)
  }

  function Min(a: int, b: int): int
  {
    if a < b then a else b
  }

  // ---------------------------------------------------------------------------
  // The phases
  // ---------------------------------------------------------------------------

  /** Phase 1: the finder pattern is drawn on the top-left 7 x 7 modules;
      only dark modules are written. */
  method AddFinder(matrix: array2<bool>)
    requires matrix.Length0 == 11 && matrix.Length1 == 11
    modifies matrix
    ensures forall r, c :: 0 <= r < 11 && 0 <= c < 11 ==>
              matrix[r, c] == (FinderDark(r, c) || old(matrix[r, c]))
  {
    for i := 0 to 7
      invariant forall r, c :: 0 <= r < 11 && 0 <= c < 11 ==>
                  matrix[r, c] == ((r < i && FinderDark(r, c)) || old(matrix[r, c]))
    {
      for j := 0 to 7
        invariant forall r, c :: 0 <= r < 11 && 0 <= c < 11 ==>
                    matrix[r, c] == (((r < i || (r == i && c < j)) && FinderDark(r, c)) || old(matrix[r, c]))
      {
        if i == 0 || i == 6 || j == 0 || j == 6 {
          matrix[i, j] := true;
        } else if i >= 2 && i <= 4 && j >= 2 && j <= 4 {
          matrix[i, j] := true;
        }
      }
    }
  }

  /** Phase 2: timing patterns on row 0 and column 0, modules 7..10, dark on
      even indices. */
  method AddTiming(matrix: array2<bool>)
    requires matrix.Length0 == 11 && matrix.Length1 == 11
    modifies matrix
    ensures forall r, c :: 0 <= r < 11 && 0 <= c < 11 ==>
              matrix[r, c] == if r == 0 && c >= 7 then c % 2 == 0
                              else if c == 0 && r >= 7 then r % 2 == 0
                              else old(matrix[r, c])
  {
    for j := 7 to 11
      invariant forall r, c :: 0 <= r < 11 && 0 <= c < 11 ==>
                  matrix[r, c] == if r == 0 && 7 <= c < j then c % 2 == 0 else old(matrix[r, c])
    {
      matrix[0, j] := j % 2 == 0;
    }
    for i := 7 to 11
      invariant forall r, c :: 0 <= r < 11 && 0 <= c < 11 ==>
                  matrix[r, c] == if r == 0 && c >= 7 then c % 2 == 0
                                  else if c == 0 && 7 <= r < i then r % 2 == 0
                                  else old(matrix[r, c])
    {
      matrix[i, 0] := i % 2 == 0;
    }
  }

  /** Phase 3: format bits 0..7 down column 8 (rows 1..8), bits 8..14 along
      row 8 from column 7 back to column 1. */
  method AddFormat(matrix: array2<bool>)
    requires matrix.Length0 == 11 && matrix.Length1 == 11
    modifies matrix
    ensures forall r, c :: 0 <= r < 11 && 0 <= c < 11 ==>
              matrix[r, c] == if c == 8 && 1 <= r <= 8 then FormatBits[r - 1]
                              else if r == 8 && 1 <= c <= 7 then FormatBits[15 - c]
                              else old(matrix[r, c])
  {
    var formatBits := FormatBits;
    for i := 1 to 9
      invariant forall r, c :: 0 <= r < 11 && 0 <= c < 11 ==>
                  matrix[r, c] == if c == 8 && 1 <= r < i then FormatBits[r - 1] else old(matrix[r, c])
    {
      matrix[i, 8] := formatBits[i - 1];
    }
    for j := 8 downto 1
      invariant forall r, c :: 0 <= r < 11 && 0 <= c < 11 ==>
                  matrix[r, c] == if c == 8 && 1 <= r <= 8 then FormatBits[r - 1]
                                  else if r == 8 && j <= c <= 7 then FormatBits[15 - c]
                                  else old(matrix[r, c])
    {
      matrix[8, j] := formatBits[15 - j];
    }
  }

  /** The matrix as a grid of values. */
  ghost function Contents(matrix: array2<bool>): (grid: seq<seq<bool>>)
    requires matrix.Length0 == 11 && matrix.Length1 == 11
    reads matrix
    ensures |grid| == 11 && forall r :: 0 <= r < 11 ==> |grid[r]| == 11
    ensures forall r, c :: 0 <= r < 11 && 0 <= c < 11 ==> grid[r][c] == matrix[r, c]
  {
    seq(11, r requires 0 <= r < 11 reads matrix => seq(11, c requires 0 <= c < 11 reads matrix => matrix[r, c]))
  }

  /** The first n data bits are placed: a data module holds its bit once its
      place in the order is below n and is light before; the other modules
      still hold what they held in `initial`. */
  ghost predicate Placed(matrix: array2<bool>, bits: seq<bool>, n: nat, initial: seq<seq<bool>>)
    requires matrix.Length0 == 11 && matrix.Length1 == 11 && n <= |bits|
    requires |initial| == 11 && forall r :: 0 <= r < 11 ==> |initial[r]| == 11
    reads matrix
  {
    forall r, c :: 0 <= r < 11 && 0 <= c < 11 ==>
      matrix[r, c] == if IsDataRegion(r, c) then ScanIndex(r, c) < n && bits[ScanIndex(r, c)]
                      else initial[r][c]
  }

  /** One `if isDataRegion(...) && bitIndex < dataBits.count` of the
      placement loop, for the module (row, col). `rank` is the number of data
      modules the scan has passed; column -1 is only reached past all 36. */
  method PlaceModule(matrix: array2<bool>, dataBits: seq<bool>, row: int, col: int, bitIndex: nat,
                     ghost rank: nat, ghost initial: seq<seq<bool>>)
    returns (next: nat)
    requires matrix.Length0 == 11 && matrix.Length1 == 11 && |dataBits| <= 36
    requires |initial| == 11 && forall r :: 0 <= r < 11 ==> |initial[r]| == 11
    requires 0 <= row <= 10 && -1 <= col <= 10
    requires bitIndex == Min(|dataBits|, rank)
    requires IsDataRegion(row, col) && col >= 0 ==> ScanIndex(row, col) == rank
    requires IsDataRegion(row, col) && col < 0 ==> rank >= 36
    requires Placed(matrix, dataBits, bitIndex, initial)
    modifies matrix
    ensures next == Min(|dataBits|, rank + Count(IsDataRegion(row, col)))
    ensures Placed(matrix, dataBits, next, initial)
  {
    next := bitIndex;
    if IsDataRegion(row, col) && next < |dataBits| {
      OnlyModuleAt(row, col);
      matrix[row, col] := dataBits[next];
      next := next + 1;
    }
  }

  /** One pass of the inner placement loop: the module of column col, then
      the one to its left, in row `row`. */
  method PlacePair(matrix: array2<bool>, dataBits: seq<bool>, row: int, col: int, bitIndex: nat,
                   ghost initial: seq<seq<bool>>)
    returns (next: nat)
    requires matrix.Length0 == 11 && matrix.Length1 == 11 && |dataBits| <= 36
    requires |initial| == 11 && forall r :: 0 <= r < 11 ==> |initial[r]| == 11
    requires 0 <= row <= 10 && 0 <= col <= 10 && col % 2 == 0
    requires bitIndex == Min(|dataBits|, Rank(col, row))
    requires Placed(matrix, dataBits, bitIndex, initial)
    modifies matrix
    ensures next == Min(|dataBits|, Rank(col, row - 1))
    ensures Placed(matrix, dataBits, next, initial)
  {
    RankStep(col, row);
    var rank := Rank(col, row);
    next := PlaceModule(matrix, dataBits, row, col, bitIndex, rank, initial);
    next := PlaceModule(matrix, dataBits, row, col - 1, next, rank + Count(IsDataRegion(row, col)), initial);
  }

  /** Phase 5: the data bits go into the data modules in placement order, as
      long as bits remain. Column -1, which the loop asks about when it
      reaches column 0, is never written: by then every bit is placed. */
  method PlaceData(matrix: array2<bool>, dataBits: seq<bool>)
    requires matrix.Length0 == 11 && matrix.Length1 == 11 && |dataBits| <= 36
    requires forall r, c :: 0 <= r < 11 && 0 <= c < 11 && IsDataRegion(r, c) ==> !matrix[r, c]
    modifies matrix
    ensures forall r, c :: 0 <= r < 11 && 0 <= c < 11 ==>
              matrix[r, c] == if IsDataRegion(r, c) then PlacedBit(dataBits, r, c) else old(matrix[r, c])
  {
    ghost var initial := Contents(matrix);
    var bitIndex := 0;
    assert Placed(matrix, dataBits, 0, initial);
    var col := 10;
    while col >= 0
      invariant -2 <= col <= 10 && col % 2 == 0
      invariant bitIndex == Min(|dataBits|, Rank(col, 10))
      invariant Placed(matrix, dataBits, bitIndex, initial)
    {
      var row := 10;
      while row >= 0
        invariant -1 <= row <= 10
        invariant bitIndex == Min(|dataBits|, Rank(col, row))
        invariant Placed(matrix, dataBits, bitIndex, initial)
      {
        bitIndex := PlacePair(matrix, dataBits, row, col, bitIndex, initial);
        row := row - 1;
      }
      RankNextPair(col);
      col := col - 2;
    }
  }

  /** No other data module shares a module's place in the order. */
  lemma OnlyModuleAt(row: int, col: int)
    requires InGrid(row, col) && IsDataRegion(row, col)
    ensures forall r, c :: InGrid(r, c) && IsDataRegion(r, c) && ScanIndex(r, c) == ScanIndex(row, col) ==>
              r == row && c == col
  {
    forall r, c | InGrid(r, c) && IsDataRegion(r, c) && ScanIndex(r, c) == ScanIndex(row, col)
      ensures r == row && c == col
    {
      CellAtScanIndex(r, c);
      CellAtScanIndex(row, col);
    }
  }

  /** Phase 6: every data module where (i + j) is even is inverted. */
  method ApplyMask(matrix: array2<bool>)
    requires matrix.Length0 == 11 && matrix.Length1 == 11
    modifies matrix
    ensures forall r, c :: 0 <= r < 11 && 0 <= c < 11 ==>
              matrix[r, c] == (old(matrix[r, c]) != (IsDataRegion(r, c) && MaskBit(r, c)))
  {
    for i := 0 to 11
      invariant forall r, c :: 0 <= r < 11 && 0 <= c < 11 ==>
                  matrix[r, c] == (old(matrix[r, c]) != (r < i && IsDataRegion(r, c) && MaskBit(r, c)))
    {
      for j := 0 to 11
        invariant forall r, c :: 0 <= r < 11 && 0 <= c < 11 ==>
                    matrix[r, c] == (old(matrix[r, c]) !=
                                     ((r < i || (r == i && c < j)) && IsDataRegion(r, c) && MaskBit(r, c)))
      {
        if IsDataRegion(i, j) {
          if (i + j) % 2 == 0 {
            matrix[i, j] := !matrix[i, j];
          }
        }
      }
    }
  }

  // ---------------------------------------------------------------------------
  // The whole symbol
  // ---------------------------------------------------------------------------

  /** Phases 1 to 3 on a light matrix: afterwards every module holds its
      fixed value. */
  method AddFunctionPatterns(matrix: array2<bool>)
    requires matrix.Length0 == 11 && matrix.Length1 == 11
    requires forall r, c :: 0 <= r < 11 && 0 <= c < 11 ==> !matrix[r, c]
    modifies matrix
    ensures forall r, c :: 0 <= r < 11 && 0 <= c < 11 ==> matrix[r, c] == FixedModule(r, c)
  {
    AddFinder(matrix);
    AddTiming(matrix);
    AddFormat(matrix);
  }

  /** Phase 4: the data bits of the input, then its codewords, their error
      detection codewords, and all the bits together (which the symbol never
      uses). */
  method EncodeWithErrorDetection(data: string) returns (dataBits: seq<bool>, allBits: seq<bool>)
    requires IsDecimal(data)
    ensures dataBits == DataBits(DecimalValue(data))
    ensures |dataBits| <= 36 <==> DecimalValue(data) < Pow2(30)
    ensures allBits == dataBits + UnpackBits(ErrorCodewords(Codewords(dataBits)))
  {
    var value := DecimalValue(data);
    dataBits := EncodeData(value);
    DataBitsFit(value);
    var messagePolynomial := BitsToCodewords(dataBits);
    var errorCodewords := GenerateErrorDetection(messagePolynomial);
    allBits := dataBits;
    var errorBits := CodewordsToBits(errorCodewords);
    allBits := allBits + errorBits;
  }

  /** Phases 5 and 6 on a matrix holding the fixed modules: afterwards it is
      the symbol carrying `dataBits`. */
  method PlaceAndMask(matrix: array2<bool>, dataBits: seq<bool>)
    requires matrix.Length0 == 11 && matrix.Length1 == 11 && |dataBits| <= 36
    requires forall r, c :: 0 <= r < 11 && 0 <= c < 11 ==> matrix[r, c] == FixedModule(r, c)
    modifies matrix
    ensures forall r, c :: 0 <= r < 11 && 0 <= c < 11 ==> matrix[r, c] == Module(dataBits, r, c)
  {
    PlaceData(matrix, dataBits);
    ApplyMask(matrix);
  }

  /** generateM1WithData. `Int(data)!` traps on anything but a number, and a
      value of 2^30 or more makes more than 36 data bits, so that the loop
      would write column -1 and trap; the caller must avoid both. */
  method GenerateM1WithData(data: string) returns (matrix: array2<bool>)
    requires IsDecimal(data) && DecimalValue(data) < Pow2(30)
    ensures fresh(matrix) && matrix.Length0 == 11 && matrix.Length1 == 11
    ensures forall r, c :: 0 <= r < 11 && 0 <= c < 11 ==>
              matrix[r, c] == Module(DataBits(DecimalValue(data)), r, c)
  {
    matrix := new bool[11, 11]((_, _) => false);
    AddFunctionPatterns(matrix);
    var dataBits, allBits := EncodeWithErrorDetection(data);
    PlaceAndMask(matrix, dataBits);
  }

  // ---------------------------------------------------------------------------
  // What the symbol holds
  // ---------------------------------------------------------------------------

  /** The modules outside the data region are the same for every input: the
      finder pattern with its light ring, the timing patterns on row 0 and
      column 0, and the format bits on column 8 and row 8. */
  lemma FunctionPatterns(bits: seq<bool>)
    ensures forall r, c :: 0 <= r <= 6 && 0 <= c <= 6 ==>
              (Module(bits, r, c) <==> r == 0 || r == 6 || c == 0 || c == 6 || (2 <= r <= 4 && 2 <= c <= 4))
    ensures forall k :: 0 <= k <= 7 ==> !Module(bits, 7, k) && !Module(bits, k, 7)
    ensures forall j :: 7 <= j <= 10 ==> Module(bits, 0, j) == (j % 2 == 0) && Module(bits, j, 0) == (j % 2 == 0)
    ensures forall i :: 1 <= i <= 8 ==> Module(bits, i, 8) == FormatBits[i - 1]
    ensures forall j :: 1 <= j <= 7 ==> Module(bits, 8, j) == FormatBits[15 - j]
  {
  }

  /** Two symbols differ only in data modules. */
  lemma OnlyDataModulesDiffer(a: seq<bool>, b: seq<bool>, row: int, col: int)
    requires InGrid(row, col) && Module(a, row, col) != Module(b, row, col)
    ensures IsDataRegion(row, col)
  {
  }

  /** A data module whose place in the order is past the last data bit is
      light before the mask, so it ends dark exactly where the mask is set. */
  lemma UnplacedModule(bits: seq<bool>, row: int, col: int)
    requires InGrid(row, col) && IsDataRegion(row, col) && ScanIndex(row, col) >= |bits|
    ensures Module(bits, row, col) == MaskBit(row, col)
  {
  }

  /** The first 20 data bits fill the column pair 10 and 9 upwards from row
      10 to row 1, right module first. */
  lemma RightColumns(bits: seq<bool>, row: int, col: int)
    requires |bits| >= 20 && 1 <= row <= 10 && 9 <= col <= 10
    ensures Module(bits, row, col) == (bits[2 * (10 - row) + (10 - col)] != MaskBit(row, col))
  {
  }

  /** For an input below 2^14 there are exactly 20 data bits: the modules of
      rows 9 and 10, columns 1 to 8 carry no data and show the mask alone. */
  lemma BottomRowsCarryNoData(v: nat, row: int, col: int)
    requires v < Pow2(14) && 9 <= row <= 10 && 1 <= col <= 8
    ensures Module(DataBits(v), row, col) == MaskBit(row, col)
  {
    DataBitsMinimal(v);
    UnplacedModule(DataBits(v), row, col);
  }

  /** Reading a symbol: the first n data modules in placement order, with
      the mask removed. */
  function ReadData(bits: seq<bool>, n: nat): (read: seq<bool>)
    requires n <= 36
    ensures |read| == n
  {
    seq(n, k requires 0 <= k < n => Module(bits, CellAt(k).0, CellAt(k).1) != MaskBit(CellAt(k).0, CellAt(k).1))
  }

  /** Every data bit placed can be read back from its module. */
  lemma ReadDataRoundTrip(bits: seq<bool>)
    requires |bits| <= 36
    ensures ReadData(bits, |bits|) == bits
  {
    forall k | 0 <= k < |bits|
      ensures ReadData(bits, |bits|)[k] == bits[k]
    {
      ScanIndexOfCellAt(k);
    }
  }

  /** The symbol for a value below 2^30 reads back as the count field 001
      followed by the value's binary digits. */
  lemma SymbolReadsBack(v: nat)
    requires v < Pow2(30)
    ensures |DataBits(v)| <= 36
    ensures ReadData(DataBits(v), |DataBits(v)|)[..3] == [false, false, true]
    ensures BitsValue(ReadData(DataBits(v), |DataBits(v)|)[3..3 + |ValueBits(v)|]) == v
  {
    DataBitsFit(v);
    ReadDataRoundTrip(DataBits(v));
    DataBitsFields(v);
  }

  /** For a single digit the value sits, MSB first, in the data modules at
      places 3 to 6: (9, 9), (8, 10), (8, 9) and (7, 10). */
  lemma DigitModules(v: nat)
    requires v < 16
    ensures ReadData(DataBits(v), 20)[3..7] == BitsOf(v, 4)
    ensures BitsValue(ReadData(DataBits(v), 20)[3..7]) == v
  {
    SmallValueLayout(v);
    SmallValueBits(v);
    ValueBitsValue(v);
    ReadDataRoundTrip(DataBits(v));
  }
}
