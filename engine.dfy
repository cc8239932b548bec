/** The matrix construction engine: a square grid of cells, changed in place
    by a fixed sequence of passes (position markers, timing lines, data
    placement, mask). Each pass is specified cell by cell against the pure
    layout functions of QrLayout. */
module QrEngine {
  import opened BitStream
  import opened QrLayout

  /** The side length the program uses. */
  const QrSize: nat := 21
  /** The number of correction bytes the program asks the Reed-Solomon encoder for. */
  const EccLength: nat := 10

  predicate IsSquare(m: array2<int>)
  {
    m.Length0 == m.Length1
  }

  /** Every cell holds 0 or 1. */
  predicate IsBinary(m: array2<int>)
    reads m
  {
    forall r, c :: 0 <= r < m.Length0 && 0 <= c < m.Length1 ==> m[r, c] == 0 || m[r, c] == 1
  }

  /** create_qr_matrix: a new size x size matrix of zeros. */
  method CreateQrMatrix(size: nat) returns (m: array2<int>)
    ensures fresh(m) && m.Length0 == size && m.Length1 == size
    ensures forall r, c :: 0 <= r < size && 0 <= c < size ==> m[r, c] == 0
  {
    m := new int[size, size]((_, _) => 0);
  }

  /** One 7x7 position marker with its top-left corner at (top, left): the dark
      cells of the pattern are set to 1, every other cell keeps its value. */
  method PaintFinder(m: array2<int>, top: nat, left: nat)
    requires top + 7 <= m.Length0 && left + 7 <= m.Length1
    modifies m
    ensures forall r, c :: 0 <= r < m.Length0 && 0 <= c < m.Length1 ==>
      m[r, c] == if FinderAt(top, left, r, c) then 1 else old(m[r, c])
  {
    for i := top to top + 7
      invariant forall r, c :: 0 <= r < m.Length0 && 0 <= c < m.Length1 ==>
        m[r, c] == if r < i && FinderAt(top, left, r, c) then 1 else old(m[r, c])
    {
      for j := left to left + 7
        invariant forall r, c :: 0 <= r < m.Length0 && 0 <= c < m.Length1 ==>
          m[r, c] == if (r < i || (r == i && c < j)) && FinderAt(top, left, r, c) then 1 else old(m[r, c])
      {
        if FinderBit(i - top, j - left) {
          m[i, j] := 1;
        }
      }
    }
  }

  /** add_position_markers: the markers in the top-left, top-right and
      bottom-left corners. Cells outside their dark parts keep their values. */
  method AddPositionMarkers(m: array2<int>)
    requires IsSquare(m) && m.Length0 >= 7
    modifies m
    ensures forall r, c :: 0 <= r < m.Length0 && 0 <= c < m.Length1 ==>
      m[r, c] == if MarkerCell(m.Length0, r, c) then 1 else old(m[r, c])
  {
    var size := m.Length0;
    PaintFinder(m, 0, 0);
    PaintFinder(m, 0, size - 7);
    PaintFinder(m, size - 7, 0);
  }

  /** add_timing_patterns: row 6 at columns 8 .. size-9, then column 6 at rows
      8 .. size-9, alternating 1 and 0 by the parity of the index along the line.
      No other cell changes. */
  method AddTimingPatterns(m: array2<int>)
    requires IsSquare(m)
    modifies m
    ensures forall r, c :: 0 <= r < m.Length0 && 0 <= c < m.Length1 ==>
      m[r, c] == if TimingCell(m.Length0, r, c) then TimingValue(r, c) else old(m[r, c])
  {
    var size := m.Length0;
    var col := 8;
    while col < size - 8
      invariant 8 <= col && (col == 8 || col <= size - 8)
      invariant forall r, c :: 0 <= r < size && 0 <= c < size ==>
        m[r, c] == if r == 6 && 8 <= c < col then TimingValue(r, c) else old(m[r, c])
    {
      m[6, col] := if col % 2 == 0 then 1 else 0;
      col := col + 1;
    }
    var row := 8;
    while row < size - 8
      invariant 8 <= row && (row == 8 || row <= size - 8)
      invariant forall r, c :: 0 <= r < size && 0 <= c < size ==>
        m[r, c] == if (r == 6 && 8 <= c < size - 8) || (c == 6 && 8 <= r < row)
                   then TimingValue(r, c) else old(m[r, c])
    {
      m[row, 6] := if row % 2 == 0 then 1 else 0;
      row := row + 1;
    }
  }

  /** The inner loop of add_data_to_qr for one column: the rows of col are
      visited in scan order and each free row receives the next stream bit while
      bits remain. On entry the cursor index0 has consumed the stream or reached
      the count freeBefore of free cells visited so far. `colFree` is the free
      cells of the column, of which the first index - index0 get bits
      index0, index0 + 1, ...; no other cell changes. */
  method FillColumn(m: array2<int>, bits: seq<Bit>, col: int, index0: nat, ghost freeBefore: nat)
      returns (index: nat, ghost colFree: seq<Cell>)
    requires IsSquare(m) && 0 <= col < m.Length0
    requires index0 <= |bits| && index0 <= freeBefore && (index0 == |bits| || index0 == freeBefore)
    modifies m
    ensures colFree == ColumnFree(m.Length0, col, m.Length0)
    ensures forall j :: 0 <= j < |colFree| ==> colFree[j].col == col && 0 <= colFree[j].row < m.Length0
    ensures index0 <= index <= |bits| && index - index0 <= |colFree|
    ensures index == |bits| || index - index0 == |colFree|
    ensures index == index0 || index0 == freeBefore
    ensures forall j :: 0 <= j < index - index0 ==>
      0 <= colFree[j].row < m.Length0 && m[colFree[j].row, col] == bits[index0 + j]
    ensures forall r, c {:trigger m[r, c]} ::
      (0 <= r < m.Length0 && 0 <= c < m.Length1 && Cell(r, c) !in colFree[..index - index0]) ==>
      m[r, c] == old(m[r, c])
  {
    var size := m.Length0;
    index := index0;
    colFree := [];
    var i := 0;
    while i < size
      invariant 0 <= i <= size
      invariant colFree == ColumnFree(size, col, i)
      invariant index0 <= index <= |bits| && index - index0 <= |colFree|
      invariant index == |bits| || index - index0 == |colFree|
      invariant index == index0 || index0 == freeBefore
      invariant forall j :: 0 <= j < index - index0 ==>
        0 <= colFree[j].row < size && m[colFree[j].row, col] == bits[index0 + j]
      invariant forall r, c {:trigger m[r, c]} ::
        (0 <= r < size && 0 <= c < size && Cell(r, c) !in colFree[..index - index0]) ==>
        m[r, c] == old(m[r, c])
    {
      var row := ScanRow(size, col, i);
      ghost var x := Cell(row, col);
      if !IsReserved(size, row, col) {
        if index < |bits| {
          ColumnFreeVisited(size, col, i);
          m[row, col] := bits[index];
          assert (colFree + [x])[..index + 1 - index0] == colFree[..index - index0] + [x];
          index := index + 1;
        } else {
          assert (colFree + [x])[..index - index0] == colFree[..index - index0];
        }
        colFree := colFree + [x];
      }
      i := i + 1;
    }
    ColumnFreeVisited(size, col, size);
  }

  /** The stream bits 0 .. index - 1 sit in the first index cells of `free`,
      the free cells scanned so far, and the cursor has either consumed the
      stream or reached the end of `free`. */
  predicate Placed(m: array2<int>, bits: seq<Bit>, free: seq<Cell>, index: nat)
    reads m
  {
    index <= |bits| && index <= |free| && (index == |bits| || index == |free|) &&
    forall j :: 0 <= j < index ==>
      0 <= free[j].row < m.Length0 && 0 <= free[j].col < m.Length1 &&
      m[free[j].row, free[j].col] == bits[j]
  }

  /** One iteration of the column loop of add_data_to_qr: column col0 (5 in
      place of 6) is filled, extending the placement from the first step
      columns of the scan to the first step + 1; only cells newly written
      change. */
  method PlaceColumn(m: array2<int>, bits: seq<Bit>, col0: int, ghost step: nat, index0: nat, ghost free0: seq<Cell>)
      returns (index: nat, ghost free: seq<Cell>)
    requires IsSquare(m)
    requires step < ScanSteps(m.Length0) && col0 == m.Length0 - 1 - 2 * step
    requires free0 == ScanFree(m.Length0, step)
    requires Placed(m, bits, free0, index0)
    modifies m
    ensures free == ScanFree(m.Length0, step + 1)
    ensures Placed(m, bits, free, index)
    ensures forall r, c {:trigger m[r, c]} ::
      (0 <= r < m.Length0 && 0 <= c < m.Length1 && Cell(r, c) !in free[..index]) ==>
      Cell(r, c) !in free0[..index0] && m[r, c] == old(m[r, c])
  {
    var size := m.Length0;
    var col := if col0 == 6 then 5 else col0;
    ScanFreeBounds(size, step);
    ghost var colFree;
    index, colFree := FillColumn(m, bits, col, index0, |free0|);
    free := free0 + colFree;
    WrittenPrefix(free0, colFree, index0, index);
    forall j | 0 <= j < index
      ensures 0 <= free[j].row < size && 0 <= free[j].col < size && m[free[j].row, free[j].col] == bits[j]
    {
      if j < index0 {
        assert free[j] == free0[j];
        assert free0[j] !in colFree[..index - index0];
      } else {
        assert free[j] == colFree[j - index0];
      }
    }
  }

  /** The cells written after a column are those written before it followed
      by those written in it: the cursor entered the column either at the end
      of the earlier free cells or without writing anything in it. */
  lemma WrittenPrefix(free0: seq<Cell>, colFree: seq<Cell>, index0: nat, index: nat)
    requires index0 <= |free0| && index0 <= index && index - index0 <= |colFree|
    requires index == index0 || index0 == |free0|
    ensures (free0 + colFree)[..index] == free0[..index0] + colFree[..index - index0]
  {
  }

  /** add_data_to_qr: stream bit k goes into the k-th free cell of the scan, for
      every k below min(|stream|, number of free cells); remaining bits are
      dropped, and every other cell, reserved ones included, keeps its value. */
  method AddDataToQr(m: array2<int>, data: string, ecc: seq<Byte>)
    requires IsSquare(m)
    modifies m
    ensures forall k :: 0 <= k < Written(m.Length0, |FullStream(data, ecc)|) ==>
      m[FreeCells(m.Length0)[k].row, FreeCells(m.Length0)[k].col] == FullStream(data, ecc)[k]
    ensures forall r, c {:trigger m[r, c]} ::
      (0 <= r < m.Length0 && 0 <= c < m.Length1 &&
       Cell(r, c) !in FreeCells(m.Length0)[..Written(m.Length0, |FullStream(data, ecc)|)]) ==>
      m[r, c] == old(m[r, c])
    ensures forall r, c :: 0 <= r < m.Length0 && 0 <= c < m.Length1 && IsReserved(m.Length0, r, c) ==>
      m[r, c] == old(m[r, c])
  {
    var bits := FullStream(data, ecc);
    var size := m.Length0;
    var index: nat := 0;
    ghost var step := 0;
    ghost var free: seq<Cell> := [];
    var col0 := size - 1;
    while col0 > 0
      invariant step <= ScanSteps(size) && col0 == size - 1 - 2 * step
      invariant free == ScanFree(size, step)
      invariant Placed(m, bits, free, index)
      invariant forall r, c {:trigger m[r, c]} ::
        (0 <= r < size && 0 <= c < size && Cell(r, c) !in free[..index]) ==>
        m[r, c] == old(m[r, c])
    {
      index, free := PlaceColumn(m, bits, col0, step, index, free);
      col0 := col0 - 2;
      step := step + 1;
    }
    assert step == ScanSteps(size);
    assert free == FreeCells(size);
    forall r, c | 0 <= r < size && 0 <= c < size && IsReserved(size, r, c)
      ensures Cell(r, c) !in free[..index]
    {
      forall j | 0 <= j < index ensures free[j] != Cell(r, c) {
        assert !IsReserved(size, free[j].row, free[j].col);
      }
    }
  }

  /** apply_mask: every free cell with even row + col is inverted, every other
      cell keeps its value; a matrix of 0s and 1s stays one. */
  method ApplyMask(m: array2<int>)
    requires IsSquare(m)
    modifies m
    ensures forall r, c :: 0 <= r < m.Length0 && 0 <= c < m.Length1 ==>
      m[r, c] == MaskCell(m.Length0, r, c, old(m[r, c]))
    ensures old(IsBinary(m)) ==> IsBinary(m)
  {
    var size := m.Length0;
    for row := 0 to size
      invariant forall r, c :: 0 <= r < size && 0 <= c < size ==>
        m[r, c] == if r < row then MaskCell(size, r, c, old(m[r, c])) else old(m[r, c])
    {
      for col := 0 to size
        invariant forall r, c :: 0 <= r < size && 0 <= c < size ==>
          m[r, c] == if r < row || (r == row && c < col) then MaskCell(size, r, c, old(m[r, c])) else old(m[r, c])
      {
        if !IsReserved(size, row, col) {
          if (row + col) % 2 == 0 {
            m[row, col] := 1 - m[row, col];
          }
        }
      }
    }
  }

  /** On the matrix, the mask undoes itself: applying it twice restores every
      cell, by MaskCellTwice cell by cell. */
  method ApplyMaskTwice(m: array2<int>)
    requires IsSquare(m)
    modifies m
    ensures forall r, c :: 0 <= r < m.Length0 && 0 <= c < m.Length1 ==> m[r, c] == old(m[r, c])
  {
    ApplyMask(m);
    ApplyMask(m);
    forall r, c | 0 <= r < m.Length0 && 0 <= c < m.Length1
      ensures m[r, c] == old(m[r, c])
    {
      MaskCellTwice(m.Length0, r, c, old(m[r, c]));
    }
  }

  /** create_qr_matrix followed by add_position_markers and
      add_timing_patterns: every cell holds its structural value. */
  method StructuredMatrix(size: nat) returns (m: array2<int>)
    requires size >= 7
    ensures fresh(m) && m.Length0 == size && m.Length1 == size
    ensures forall r, c :: 0 <= r < size && 0 <= c < size ==> m[r, c] == StructureCell(size, r, c)
  {
    m := CreateQrMatrix(size);
    AddPositionMarkers(m);
    AddTimingPatterns(m);
  }

  /** What the finished matrix holds, for the stream of text and ecc: reserved
      cells keep their structural values through placement and masking, the
      k-th free cell of the scan holds stream bit k under the mask while bits
      last, the remaining free cells hold the mask applied to 0, and every cell
      is 0 or 1. */
  predicate Encodes(m: array2<int>, text: string, ecc: seq<Byte>)
    reads m
  {
    var n, stream := m.Length0, FullStream(text, ecc);
    IsSquare(m) &&
    (forall r, c :: 0 <= r < n && 0 <= c < n && IsReserved(n, r, c) ==>
      m[r, c] == StructureCell(n, r, c)) &&
    (forall k :: 0 <= k < Written(n, |stream|) ==>
      m[FreeCells(n)[k].row, FreeCells(n)[k].col] ==
      MaskCell(n, FreeCells(n)[k].row, FreeCells(n)[k].col, stream[k])) &&
    (forall r, c ::
      (0 <= r < n && 0 <= c < n && !IsReserved(n, r, c) &&
       Cell(r, c) !in FreeCells(n)[..Written(n, |stream|)]) ==>
      m[r, c] == MaskCell(n, r, c, 0)) &&
    IsBinary(m)
  }

  /** create_qr_matrix, add_position_markers, add_timing_patterns,
      add_data_to_qr and apply_mask in turn, for any side of at least 7. */
  method BuildMatrix(size: nat, text: string, ecc: seq<Byte>) returns (m: array2<int>)
    requires size >= 7
    ensures fresh(m) && m.Length0 == size && m.Length1 == size
    ensures Encodes(m, text, ecc)
  {
    m := StructuredMatrix(size);
    forall r, c | 0 <= r < size && 0 <= c < size
      ensures m[r, c] == 0 || m[r, c] == 1
      ensures !IsReserved(size, r, c) ==> m[r, c] == 0
    {
      StructureCellValues(size, r, c);
    }
    AddDataToQr(m, text, ecc);
    ghost var written := FreeCells(size)[..Written(size, |FullStream(text, ecc)|)];
    forall r, c | 0 <= r < size && 0 <= c < size
      ensures m[r, c] == 0 || m[r, c] == 1
    {
      if Cell(r, c) in written {
        var k :| 0 <= k < |written| && written[k] == Cell(r, c);
      }
    }
    ApplyMask(m);
  }

  /** main without its input and output: the 21x21 matrix for the text, given
      the correction bytes the Reed-Solomon encoder returns for it: ten for a
      non-empty text, none for the empty text, which has no message chunk to
      encode. */
  method BuildQrMatrix(text: string, ecc: seq<Byte>) returns (m: array2<int>)
    requires |ecc| == EccLength || (text == "" && ecc == [])
    ensures fresh(m) && m.Length0 == QrSize && m.Length1 == QrSize
    ensures Encodes(m, text, ecc)
  {
    m := BuildMatrix(QrSize, text, ecc);
  }

  /** With ten correction bytes the whole stream fits in the 137 free cells of
      the 21x21 matrix exactly when it is at most 137 bits long, and for a byte
      text exactly when the text has at most 7 characters; a longer stream loses
      the bits past the 137th. */
  lemma StreamCapacity(text: string, ecc: seq<Byte>)
    requires |ecc| == EccLength
    ensures Written(QrSize, |FullStream(text, ecc)|) == if |FullStream(text, ecc)| <= 137 then |FullStream(text, ecc)| else 137
    ensures |text| > 7 ==> Written(QrSize, |FullStream(text, ecc)|) == 137
    ensures IsByteText(text) ==> |FullStream(text, ecc)| == 8 * (|text| + EccLength)
    ensures IsByteText(text) ==> (Written(QrSize, |FullStream(text, ecc)|) == |FullStream(text, ecc)| <==> |text| <= 7)
  {
    TextToBinaryLength(text);
    FreeCellCount21();
  }

  /** For the empty text the encoder returns no correction bytes, so the stream
      is empty and the placement pass writes no cell. */
  lemma EmptyTextStream()
    ensures FullStream("", []) == []
    ensures Written(QrSize, |FullStream("", [])|) == 0
  {
  }
}
