/** The geometry of the matrix: which cells are reserved, what the position
    markers, timing lines and mask write, and the order in which the placement
    pass visits cells. Everything here is a pure function of the side length n. */
module QrLayout {

  datatype Cell = Cell(row: int, col: int)

  predicate InGrid(n: nat, x: Cell)
  {
    0 <= x.row < n && 0 <= x.col < n
  }

  /** is_reserved: the three 7x7 corner blocks (top-left, top-right, bottom-left)
      and the whole of row 6 and column 6. */
  predicate IsReserved(n: nat, row: int, col: int)
  {
    (row < 7 && col < 7) || (row < 7 && col >= n - 7) || (row >= n - 7 && col < 7)
    || row == 6 || col == 6
  }

  // ---------------------------------------------------------------------------
  // Structural patterns

  /** The finder pattern in local coordinates of its 7x7 block: the outer ring
      and the 3x3 core are dark, the ring between them light. */
  predicate FinderBit(i: int, j: int)
  {
    i == 0 || i == 6 || j == 0 || j == 6 || (2 <= i <= 4 && 2 <= j <= 4)
  }

  /** Cell (r, c) is a dark cell of the marker whose block starts at (top, left). */
  predicate FinderAt(top: int, left: int, r: int, c: int)
  {
    top <= r < top + 7 && left <= c < left + 7 && FinderBit(r - top, c - left)
  }

  /** The cells add_position_markers sets to 1. */
  predicate MarkerCell(n: nat, r: int, c: int)
  {
    FinderAt(0, 0, r, c) || FinderAt(0, n - 7, r, c) || FinderAt(n - 7, 0, r, c)
  }

  /** The cells add_timing_patterns writes: row 6 at columns 8 .. n-9 and
      column 6 at rows 8 .. n-9. */
  predicate TimingCell(n: nat, r: int, c: int)
  {
    (r == 6 && 8 <= c < n - 8) || (c == 6 && 8 <= r < n - 8)
  }

  /** The value a timing cell receives: 1 at an even index along the line, 0 at an odd one. */
  function TimingValue(r: int, c: int): int
  {
    var along := if r == 6 then c else r;
    if along % 2 == 0 then 1 else 0
  }

  /** Both structural passes write only reserved cells, so the placement and
      masking passes, which skip reserved cells, never overwrite them. */
  lemma StructuralCellsAreReserved(n: nat, r: int, c: int)
    requires MarkerCell(n, r, c) || TimingCell(n, r, c)
    ensures IsReserved(n, r, c)
  {
  }

  /** A cell of a zero matrix after add_position_markers and then
      add_timing_patterns: a timing cell holds its timing value, a dark marker
      cell 1, every other cell 0. */
  function StructureCell(n: nat, r: int, c: int): int
  {
    if TimingCell(n, r, c) then TimingValue(r, c) else if MarkerCell(n, r, c) then 1 else 0
  }

  /** Timing lines and markers never share a cell, so the order of the two
      structural passes does not matter. */
  lemma TimingAvoidsMarkers(n: nat, r: int, c: int)
    requires n >= 7
    requires TimingCell(n, r, c)
    ensures !MarkerCell(n, r, c)
  {
  }

  /** On a grid of side at least 7 the structural passes leave every marker
      cell at 1, every timing cell at its timing value and all other cells,
      free cells included, at 0. */
  lemma StructureCellValues(n: nat, r: int, c: int)
    requires n >= 7
    ensures MarkerCell(n, r, c) ==> StructureCell(n, r, c) == 1
    ensures TimingCell(n, r, c) ==> StructureCell(n, r, c) == TimingValue(r, c)
    ensures !MarkerCell(n, r, c) && !TimingCell(n, r, c) ==> StructureCell(n, r, c) == 0
    ensures !IsReserved(n, r, c) ==> StructureCell(n, r, c) == 0
    ensures StructureCell(n, r, c) == 0 || StructureCell(n, r, c) == 1
  {
    if TimingCell(n, r, c) {
      TimingAvoidsMarkers(n, r, c);
    }
    if !IsReserved(n, r, c) {
      if MarkerCell(n, r, c) || TimingCell(n, r, c) {
        StructuralCellsAreReserved(n, r, c);
      }
    }
  }

  // ---------------------------------------------------------------------------
  // Masking

  /** apply_mask on one cell: a free cell with even row + col is inverted (1 - v),
      every other cell keeps its value. */
  function MaskCell(n: nat, r: int, c: int, v: int): (w: int)
    ensures IsReserved(n, r, c) || (r + c) % 2 != 0 ==> w == v
    ensures !IsReserved(n, r, c) && (r + c) % 2 == 0 ==> w == 1 - v
    ensures (v == 0 || v == 1) ==> (w == 0 || w == 1)
  {
    if !IsReserved(n, r, c) && (r + c) % 2 == 0 then 1 - v else v
  }

  /** The mask undoes itself. */
  lemma MaskCellTwice(n: nat, r: int, c: int, v: int)
    ensures MaskCell(n, r, c, MaskCell(n, r, c, v)) == v
  {
  }

  // ---------------------------------------------------------------------------
  // The scan order of add_data_to_qr

  /** The number of columns the scan visits: the length of range(n - 1, 0, -2). */
  function ScanSteps(n: nat): nat
  {
    if n <= 1 then 0 else n / 2
  }

  /** ScanSteps(n) counts range(n - 1, 0, -2): every step below it starts at a
      column above 0, and the step at it would not. */
  lemma ScanStepsIsRangeLength(n: nat)
    ensures forall k :: 0 <= k < ScanSteps(n) ==> n - 1 - 2 * k > 0
    ensures n - 1 - 2 * ScanSteps(n) <= 0
  {
  }

  /** The column visited at step k: n - 1 - 2k, except that 6 becomes 5. */
  function ScanColumn(n: nat, k: int): int
  {
    var c := n - 1 - 2 * k;
    if c == 6 then 5 else c
  }

  /** Rows are visited bottom-up exactly in the columns with col % 4 == 1. */
  predicate Upward(col: int)
  {
    col % 4 == 1
  }

  /** The row visited at position i of a column. */
  function ScanRow(n: nat, col: int, i: int): int
  {
    if Upward(col) then n - 1 - i else i
  }

  /** Row r is among the first i rows the scan visits in column col. */
  predicate RowVisited(n: nat, col: int, i: int, r: int)
  {
    if Upward(col) then r > n - 1 - i else r < i
  }

  /** The free cells among the first i visited cells of column col, in visiting
      order: the cells the inner placement loop writes while bits remain. */
  function ColumnFree(n: nat, col: int, i: nat): seq<Cell>
  {
    if i == 0 then []
    else
      var row := ScanRow(n, col, i - 1);
      ColumnFree(n, col, i - 1) + (if IsReserved(n, row, col) then [] else [Cell(row, col)])
  }

  /** They lie in column col, inside the grid, on rows already visited, and
      are not reserved. */
  lemma {:induction false} ColumnFreeVisited(n: nat, col: int, i: nat)
    requires i <= n
    ensures forall j :: 0 <= j < |ColumnFree(n, col, i)| ==>
      ColumnFree(n, col, i)[j].col == col &&
      0 <= ColumnFree(n, col, i)[j].row < n &&
      RowVisited(n, col, i, ColumnFree(n, col, i)[j].row) &&
      !IsReserved(n, ColumnFree(n, col, i)[j].row, col)
  {
    if i > 0 {
      ColumnFreeVisited(n, col, i - 1);
    }
  }

  /** Conversely, every free visited row of the column is among them. */
  lemma {:induction false} ColumnFreeMembership(n: nat, col: int, i: nat, x: Cell)
    requires i <= n
    ensures x in ColumnFree(n, col, i) <==>
      x.col == col && 0 <= x.row < n && RowVisited(n, col, i, x.row) && !IsReserved(n, x.row, x.col)
  {
    ColumnFreeVisited(n, col, i);
    if i > 0 {
      ColumnFreeMembership(n, col, i - 1, x);
      var row := ScanRow(n, col, i - 1);
      if x.col == col && 0 <= x.row < n && RowVisited(n, col, i, x.row) && !IsReserved(n, x.row, x.col) {
        if x.row == row {
          assert ColumnFree(n, col, i)[|ColumnFree(n, col, i)| - 1] == x;
        } else {
          assert x in ColumnFree(n, col, i - 1);
        }
      }
    }
  }

  /** A fully scanned column holds exactly its free rows. */
  lemma FullColumnMembership(n: nat, col: int, x: Cell)
    ensures x in ColumnFree(n, col, n) <==> x.col == col && 0 <= x.row < n && !IsReserved(n, x.row, x.col)
  {
    ColumnFreeMembership(n, col, n, x);
  }

  // ---------------------------------------------------------------------------
  // The stream order: column after column

  /** The free cells of the first k scanned columns, column after column. */
  function ScanFree(n: nat, k: nat): seq<Cell>
    requires k <= ScanSteps(n)
  {
    if k == 0 then [] else ScanFree(n, k - 1) + ColumnFree(n, ScanColumn(n, k - 1), n)
  }

  /** The free cells of the first k columns lie inside the grid, to the right of
      the next column to scan, and none of them is reserved. */
  lemma {:induction false} ScanFreeBounds(n: nat, k: nat)
    requires k <= ScanSteps(n)
    ensures forall j :: 0 <= j < |ScanFree(n, k)| ==>
      0 <= ScanFree(n, k)[j].row < n && ScanColumn(n, k) < ScanFree(n, k)[j].col < n &&
      !IsReserved(n, ScanFree(n, k)[j].row, ScanFree(n, k)[j].col)
  {
    if k > 0 {
      ScanFreeBounds(n, k - 1);
      var col := ScanColumn(n, k - 1);
      ColumnFreeVisited(n, col, n);
      var p: seq<Cell>, c: seq<Cell> := ScanFree(n, k - 1), ColumnFree(n, col, n);
      forall j | 0 <= j < |p + c|
        ensures 0 <= (p + c)[j].row < n && ScanColumn(n, k) < (p + c)[j].col < n &&
          !IsReserved(n, (p + c)[j].row, (p + c)[j].col)
      {
        if j >= |p| {
          assert (p + c)[j] == c[j - |p|];
        }
      }
    }
  }

  /** The cells add_data_to_qr writes to, in the order it writes them: each lies
      inside the grid and is not reserved. */
  function FreeCells(n: nat): (r: seq<Cell>)
    ensures forall k :: 0 <= k < |r| ==> InGrid(n, r[k]) && !IsReserved(n, r[k].row, r[k].col)
  {
    ScanFreeBounds(n, ScanSteps(n));
    ScanFree(n, ScanSteps(n))
  }

  /** The number of stream bits that land in the matrix. */
  function Written(n: nat, bitCount: nat): (w: nat)
    ensures w <= bitCount && w <= |FreeCells(n)|
    ensures w == bitCount || w == |FreeCells(n)|
  {
    if bitCount < |FreeCells(n)| then bitCount else |FreeCells(n)|
  }

  // ---------------------------------------------------------------------------
  // Every free cell is visited once: the scan order is strictly ordered

  /** Cell a is visited before cell b: a lies in a column further right, or in
      the same column earlier in that column's direction. */
  predicate Before(a: Cell, b: Cell)
  {
    a.col > b.col || (a.col == b.col && (if Upward(a.col) then a.row > b.row else a.row < b.row))
  }

  predicate StrictlyOrdered(s: seq<Cell>)
  {
    forall i, j :: 0 <= i < j < |s| ==> Before(s[i], s[j])
  }

  lemma {:induction false} ColumnFreeOrdered(n: nat, col: int, i: nat)
    requires i <= n
    ensures StrictlyOrdered(ColumnFree(n, col, i))
  {
    if i > 0 {
      ColumnFreeOrdered(n, col, i - 1);
      ColumnFreeVisited(n, col, i - 1);
    }
  }

  lemma {:induction false} ScanFreeOrdered(n: nat, k: nat)
    requires k <= ScanSteps(n)
    ensures StrictlyOrdered(ScanFree(n, k))
  {
    if k > 0 {
      ScanFreeOrdered(n, k - 1);
      ScanFreeBounds(n, k - 1);
      var col := ScanColumn(n, k - 1);
      ColumnFreeOrdered(n, col, n);
      ColumnFreeVisited(n, col, n);
      var p: seq<Cell>, c: seq<Cell> := ScanFree(n, k - 1), ColumnFree(n, col, n);
      forall i, j | 0 <= i < j < |p + c| ensures Before((p + c)[i], (p + c)[j]) {
        if j < |p| {
          assert (p + c)[i] == p[i] && (p + c)[j] == p[j];
        } else if i < |p| {
          assert (p + c)[i] == p[i] && (p + c)[j] == c[j - |p|];
        } else {
          assert (p + c)[i] == c[i - |p|] && (p + c)[j] == c[j - |p|];
        }
      }
    }
  }

  /** No cell is written twice: the free cells of the scan are pairwise distinct. */
  lemma FreeCellsDistinct(n: nat)
    ensures forall i, j :: 0 <= i < j < |FreeCells(n)| ==> FreeCells(n)[i] != FreeCells(n)[j]
  {
    ScanFreeOrdered(n, ScanSteps(n));
  }

  // ---------------------------------------------------------------------------
  // Which cells are written: the scanned columns

  /** Column c is one of the columns the scan visits. */
  predicate IsScanColumn(n: nat, c: int)
  {
    exists j :: 0 <= j < ScanSteps(n) && ScanColumn(n, j) == c
  }

  /** Column c is among the first k columns the scan visits. */
  predicate ScannedWithin(n: nat, k: nat, c: int)
  {
    k > 0 && (ScanColumn(n, k - 1) == c || ScannedWithin(n, k - 1, c))
  }

  lemma {:induction false} ScannedWithinSome(n: nat, k: nat, c: int)
    ensures ScannedWithin(n, k, c) <==> exists j :: 0 <= j < k && ScanColumn(n, j) == c
  {
    if k > 0 {
      ScannedWithinSome(n, k - 1, c);
      if ScannedWithin(n, k, c) && ScanColumn(n, k - 1) == c {
        assert 0 <= k - 1 < k && ScanColumn(n, k - 1) == c;
      }
      if exists j :: 0 <= j < k && ScanColumn(n, j) == c {
        var j :| 0 <= j < k && ScanColumn(n, j) == c;
        if j < k - 1 {
          assert exists j' :: 0 <= j' < k - 1 && ScanColumn(n, j') == c;
        }
      }
    }
  }

  /** Every cell the scan collects in its first k columns is a free cell of one
      of those columns ... */
  lemma {:induction false} ScanFreeSound(n: nat, k: nat, x: Cell)
    requires k <= ScanSteps(n)
    requires x in ScanFree(n, k)
    ensures 0 <= x.row < n && !IsReserved(n, x.row, x.col) && ScannedWithin(n, k, x.col)
  {
    var col := ScanColumn(n, k - 1);
    var p: seq<Cell>, c: seq<Cell> := ScanFree(n, k - 1), ColumnFree(n, col, n);
    assert x in p + c;
    if x in c {
      FullColumnMembership(n, col, x);
    } else {
      ScanFreeSound(n, k - 1, x);
    }
  }

  /** ... and every free cell of such a column is among them. */
  lemma {:induction false} ScanFreeComplete(n: nat, k: nat, x: Cell)
    requires k <= ScanSteps(n)
    requires 0 <= x.row < n && !IsReserved(n, x.row, x.col) && ScannedWithin(n, k, x.col)
    ensures x in ScanFree(n, k)
  {
    var col := ScanColumn(n, k - 1);
    var p: seq<Cell>, c: seq<Cell> := ScanFree(n, k - 1), ColumnFree(n, col, n);
    if x.col == col {
      FullColumnMembership(n, col, x);
      assert x in c;
    } else {
      ScanFreeComplete(n, k - 1, x);
      assert x in p;
    }
    assert ScanFree(n, k) == p + c;
  }

  lemma ScanFreeMembership(n: nat, k: nat, x: Cell)
    requires k <= ScanSteps(n)
    ensures x in ScanFree(n, k) <==>
      0 <= x.row < n && !IsReserved(n, x.row, x.col) && ScannedWithin(n, k, x.col)
  {
    if x in ScanFree(n, k) {
      ScanFreeSound(n, k, x);
    }
    if 0 <= x.row < n && !IsReserved(n, x.row, x.col) && ScannedWithin(n, k, x.col) {
      ScanFreeComplete(n, k, x);
    }
  }

  /** A cell is written by the placement pass exactly when it is a free cell of
      the grid in one of the scanned columns. */
  lemma FreeCellsMembership(n: nat, x: Cell)
    ensures x in FreeCells(n) <==> InGrid(n, x) && !IsReserved(n, x.row, x.col) && IsScanColumn(n, x.col)
  {
    ScanFreeMembership(n, ScanSteps(n), x);
    ScannedWithinSome(n, ScanSteps(n), x.col);
    if IsScanColumn(n, x.col) {
      var k :| 0 <= k < ScanSteps(n) && ScanColumn(n, k) == x.col;
      assert 0 <= x.col < n;
    }
  }

  /** For the 21x21 matrix the scan visits columns 20, 18, ..., 8, then 5, 4, 2:
      column 6 becomes 5, and the odd columns other than 5 are never written. */
  lemma ScanColumns21(c: int)
    ensures IsScanColumn(21, c) <==> c == 5 || (c % 2 == 0 && 2 <= c <= 20 && c != 6)
  {
    if c == 5 || (c % 2 == 0 && 2 <= c <= 20 && c != 6) {
      var k := if c == 5 then 7 else (20 - c) / 2;
      assert ScanColumn(21, k) == c;
    }
  }

  // ---------------------------------------------------------------------------
  // How many cells are written

  function Clamp(i: int, lo: int, hi: int): int
  {
    if i < lo then lo else if i > hi then hi else i
  }

  /** The number of free rows r < i in column c (for n >= 14, 0 <= c < n). Column 6
      is reserved throughout; a column under a left corner block has free rows
      7 .. n-8 only; a column under the top-right block has free rows 7 .. n-1;
      any other column loses only row 6. */
  function FreeRowsBelow(n: nat, c: int, i: int): int
  {
    if c == 6 then 0
    else if c < 7 then Clamp(i, 7, n - 7) - 7
    else if c >= n - 7 then Clamp(i, 7, n) - 7
    else if i <= 6 then i
    else i - 1
  }

  lemma FreeRowsBelowStep(n: nat, c: int, r: int)
    requires n >= 14 && 0 <= c < n && 0 <= r < n
    ensures FreeRowsBelow(n, c, r + 1) == FreeRowsBelow(n, c, r) + (if IsReserved(n, r, c) then 0 else 1)
  {
  }

  /** The number of free cells among the first i cells of a scanned column. */
  lemma {:induction false} ColumnFreeCount(n: nat, c: int, i: nat)
    requires n >= 14 && 0 <= c < n && i <= n
    ensures |ColumnFree(n, c, i)| ==
      if Upward(c) then FreeRowsBelow(n, c, n) - FreeRowsBelow(n, c, n - i) else FreeRowsBelow(n, c, i)
  {
    if i > 0 {
      ColumnFreeCount(n, c, i - 1);
      FreeRowsBelowStep(n, c, ScanRow(n, c, i - 1));
    }
  }

  /** The sum of the free-row counts of the first k scanned columns. */
  function ColumnsFree(n: nat, k: nat): int
  {
    if k == 0 then 0 else ColumnsFree(n, k - 1) + FreeRowsBelow(n, ScanColumn(n, k - 1), n)
  }

  /** The free cells of the first k scanned columns number ColumnsFree(n, k). */
  lemma {:induction false} ScanFreeCount(n: nat, k: nat)
    requires n >= 14 && k <= ScanSteps(n)
    ensures |ScanFree(n, k)| == ColumnsFree(n, k)
  {
    if k > 0 {
      ScanFreeCount(n, k - 1);
      var c := ScanColumn(n, k - 1);
      assert 0 <= c < n;
      ColumnFreeCount(n, c, n);
      assert FreeRowsBelow(n, c, 0) == 0;
    }
  }

  /** The 21x21 matrix has 137 cells the placement pass can write:
      4 columns x 14 under the top-right marker, 3 x 20 in the middle,
      3 x 7 between the two left markers. */
  lemma FreeCellCount21()
    ensures |FreeCells(21)| == 137
  {
    assert ColumnsFree(21, 1) == 14;
    assert ColumnsFree(21, 2) == 28;
    assert ColumnsFree(21, 3) == 42;
    assert ColumnsFree(21, 4) == 56;
    assert ColumnsFree(21, 5) == 76;
    assert ColumnsFree(21, 6) == 96;
    assert ColumnsFree(21, 7) == 116;
    assert ColumnsFree(21, 8) == 123;
    assert ColumnsFree(21, 9) == 130;
    assert ColumnsFree(21, 10) == 137;
    ScanFreeCount(21, 10);
  }
}
