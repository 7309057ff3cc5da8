/** The data region of the 11 x 11 M1 symbol and the order in which the
    encoder visits it. The predicate is total: the encoder also asks about
    column -1. */
module DataRegion {

  /** isDataRegion: everything outside the finder and its separator, the
      timing row and column, and the format modules. */
  predicate IsDataRegion(row: int, col: int)
    ensures IsDataRegion(row, col) && 0 <= row && 0 <= col ==> row != 0 && col != 0 && (row >= 9 || col >= 9)
    ensures 9 <= row && 1 <= col ==> IsDataRegion(row, col)
    ensures 1 <= row && 9 <= col ==> IsDataRegion(row, col)
  {
    if (row <= 6 && col <= 6) || (row == 7 && col <= 7) || (col == 7 && row <= 7) then false
    else if row == 0 || col == 0 then false
    else if (row == 8 && 1 <= col <= 8) || (col == 8 && 1 <= row <= 7) then false
    else true
  }

  predicate InGrid(row: int, col: int)
  {
    0 <= row <= 10 && 0 <= col <= 10
  }

  /** Inside the grid the data region is rows 1..8 of columns 9 and 10 and
      rows 9 and 10 of columns 1..10. */
  lemma DataRegionInGrid(row: int, col: int)
    requires InGrid(row, col)
    ensures IsDataRegion(row, col) <==>
              (1 <= row <= 8 && 9 <= col <= 10) || (9 <= row <= 10 && 1 <= col <= 10)
  {
  }

  /** Column -1, which the placement loop asks about next to column 0, counts
      as data region from row 8 down. */
  lemma ColumnMinusOne(row: int)
    ensures IsDataRegion(row, -1) <==> row >= 8
  {
  }

  // ---------------------------------------------------------------------------
  // Placement order
  // ---------------------------------------------------------------------------

  /** Position of a data module in the placement order: column pairs
      (10, 9), (8, 7), ..., (2, 1), each scanned from row 10 up to row 0, the
      right module of a row before the left one. */
  function ScanIndex(row: int, col: int): (k: nat)
    requires InGrid(row, col) && IsDataRegion(row, col)
    ensures k < 36
  {
    if col >= 9 then 2 * (10 - row) + (10 - col)
    else
      var high := col + col % 2;
      20 + 2 * (8 - high) + 2 * (10 - row) + (high - col)
  }

  /** The k-th data module of the placement order. */
  function CellAt(k: nat): (cell: (int, int))
    requires k < 36
    ensures InGrid(cell.0, cell.1) && IsDataRegion(cell.0, cell.1)
  {
    if k < 20 then (10 - k / 2, 10 - k % 2)
    else
      var pair, within := (k - 20) / 4, (k - 20) % 4;
      (10 - within / 2, 8 - 2 * pair - within % 2)
  }

  lemma Div2(k: int, q: int, r: int)
    requires 0 <= r < 2 && k == 2 * q + r
    ensures k / 2 == q && k % 2 == r
  {
  }

  lemma Div4(k: int, q: int, r: int)
    requires 0 <= r < 4 && k == 4 * q + r
    ensures k / 4 == q && k % 4 == r
  {
  }

  /** Counting through the placement order visits module k at step k ... */
  lemma ScanIndexOfCellAt(k: nat)
    requires k < 36
    ensures ScanIndex(CellAt(k).0, CellAt(k).1) == k
  {
    if k >= 20 {
      var pair, within := (k - 20) / 4, (k - 20) % 4;
      var right := within % 2;
      Div2(within, within / 2, right);
      Div2(8 - 2 * pair - right, 4 - pair - right, right);
    }
  }

  /** ... and every data module at some step: the placement order is a
      bijection between the data modules and 0 .. 35. */
  lemma CellAtScanIndex(row: int, col: int)
    requires InGrid(row, col) && IsDataRegion(row, col)
    ensures CellAt(ScanIndex(row, col)) == (row, col)
  {
    if col >= 9 {
      Div2(ScanIndex(row, col), 10 - row, 10 - col);
    } else {
      LeftColumnsIndex(row, col);
    }
  }

  lemma LeftColumnsIndex(row: int, col: int)
    requires InGrid(row, col) && IsDataRegion(row, col) && col < 9
    ensures CellAt(ScanIndex(row, col)) == (row, col)
  {
    var pair, right := (8 - col) / 2, (8 - col) % 2;
    Div2(8 - col, pair, right);
    LeftPairIndex(row, col, pair, right);
  }

  /** Column col = 8 - 2 pair - right is the left (right == 1) or right
      module of column pair number `pair` to the left of column 9. */
  lemma LeftPairIndex(row: int, col: int, pair: int, right: int)
    requires 9 <= row <= 10 && 0 <= pair < 4 && 0 <= right < 2 && col == 8 - 2 * pair - right
    ensures IsDataRegion(row, col) && CellAt(ScanIndex(row, col)) == (row, col)
  {
    Div2(col, 4 - pair - right, right);
    var k, within := ScanIndex(row, col), 2 * (10 - row) + right;
    Div4(k - 20, pair, within);
    Div2(within, 10 - row, right);
  }

  /** The data modules of the grid. */
  function DataCells(): set<(int, int)>
  {
    set row: int, col: int | 0 <= row <= 10 && 0 <= col <= 10 && IsDataRegion(row, col) :: (row, col)
  }

  /** The first n modules of the placement order. */
  function CellsBelow(n: nat): (s: set<(int, int)>)
    requires n <= 36
    ensures forall cell :: cell in s ==> InGrid(cell.0, cell.1) && IsDataRegion(cell.0, cell.1)
    ensures forall k :: 0 <= k < n ==> CellAt(k) in s
  {
    if n == 0 then {} else CellsBelow(n - 1) + {CellAt(n - 1)}
  }

  lemma {:induction false} CellsBelowIndices(n: nat, cell: (int, int))
    requires n <= 36 && cell in CellsBelow(n)
    ensures ScanIndex(cell.0, cell.1) < n
  {
    if cell != CellAt(n - 1) {
      CellsBelowIndices(n - 1, cell);
    } else {
      ScanIndexOfCellAt(n - 1);
    }
  }

  lemma {:induction false} CellsBelowCount(n: nat)
    requires n <= 36
    ensures |CellsBelow(n)| == n
  {
    if n > 0 {
      CellsBelowCount(n - 1);
      if CellAt(n - 1) in CellsBelow(n - 1) {
        CellsBelowIndices(n - 1, CellAt(n - 1));
        ScanIndexOfCellAt(n - 1);
      }
    }
  }

  /** The grid has exactly 36 data modules. */
  lemma DataCellCount()
    ensures |DataCells()| == 36
  {
    forall cell | cell in DataCells()
      ensures cell in CellsBelow(36)
    {
      CellAtScanIndex(cell.0, cell.1);
    }
    forall cell | cell in CellsBelow(36)
      ensures cell in DataCells()
    {
      var (row, col) := cell;
      assert cell == (row, col);
    }
    assert DataCells() == CellsBelow(36);
    CellsBelowCount(36);
  }

  /** Data modules visited before the scan reaches row `row` of the column
      pair whose right column is `col` (col = -2: after the last pair). The
      pair (0, -1) holds no module of the grid, but its column -1 answers
      true three times. */
  function Rank(col: int, row: int): nat
    requires -2 <= col <= 10 && col % 2 == 0 && -1 <= row <= 10
  {
    var done := 10 - row;
    if col == 10 then 2 * (if done < 10 then done else 10)
    else if col >= 2 then 20 + 2 * (8 - col) + 2 * (if done < 2 then done else 2)
    else if col == 0 then 36 + (if done < 3 then done else 3)
    else 39
  }

  function Count(b: bool): nat
  {
    if b then 1 else 0
  }

  /** One row of a column pair: the right module, if it is data, is the next
      one in the order, then the left one. */
  lemma RankStep(col: int, row: int)
    requires 0 <= col <= 10 && col % 2 == 0 && 0 <= row <= 10
    ensures Rank(col, row - 1) == Rank(col, row) + Count(IsDataRegion(row, col)) + Count(IsDataRegion(row, col - 1))
    ensures IsDataRegion(row, col) ==> ScanIndex(row, col) == Rank(col, row)
    ensures col >= 1 && IsDataRegion(row, col - 1) ==>
              ScanIndex(row, col - 1) == Rank(col, row) + Count(IsDataRegion(row, col))
    ensures col == 0 && IsDataRegion(row, col - 1) ==> Rank(col, row) >= 36
  {
  }

  /** The end of one column pair is the start of the next. */
  lemma RankNextPair(col: int)
    requires 0 <= col <= 10 && col % 2 == 0
    ensures Rank(col, -1) == Rank(col - 2, 10)
  {
  }
}
