# A verified model of the QR-style matrix builder

The program builds a 21x21 grid of 0/1 cells that looks like a QR code, from a
text and its Reed-Solomon correction bytes: ten for a non-empty text, none for
the empty text. It makes a fixed sequence of
in-place passes over the grid:

1. `create_qr_matrix` makes a blank grid.
2. `add_position_markers` paints the three 7x7 corner markers.
3. `add_timing_patterns` paints the alternating timing lines on row 6 and column 6.
4. `add_data_to_qr` writes the bit stream into the cells that `is_reserved`
   says are free. The stream is the text bits followed by the correction
   bits. The cells are visited in a fixed column-by-column scan.
5. `apply_mask` inverts the free cells whose row + column is even.

The model has three modules:

- `BitStream` (`bit_stream.dfy`) covers the stream `add_data_to_qr` assembles.
  This is `text_to_binary`, Python's `format(v, '08b')` and the 8-bit expansion
  of the correction bytes, with round trips back to bytes.
- `QrLayout` (`layout.dfy`) holds pure functions of the side length n. They
  give the reserved cells, what the marker, timing and mask passes write, and
  the scan order of the placement loop. `FreeCells(n)` is the cells the loop
  can write, in the order it writes them. Lemmas prove the following:
  - that sequence is strictly ordered, so no cell is written twice;
  - it holds exactly the free cells of the scanned columns;
  - for n = 21 it has 137 cells.
- `QrEngine` (`engine.dfy`) holds the passes, as methods on an `array2<int>`.
  Each method is specified cell by cell against the layout functions.
  `BuildQrMatrix` runs them in the order `main` does and characterises the
  finished matrix: the `Encodes` predicate.

The correction bytes are a parameter. In the program they come from the
`reedsolo` library.

Where the code and its own comments disagree, the model follows the code:

- **Character codes of 256 or more.** The comment on line 6 of `proyectofinal.py`
  promises an 8-bit representation per character, but nothing rejects larger
  codes. `format(ord(ch), '08b')` simply emits more than eight digits for them.
  `Format08b` therefore models the Python formatting exactly, and
  `TextToBinaryLength` proves that the stream has exactly 8 bits per character
  just when every code is below 256.
- **Grid size.** The comment on line 19 speaks of a 21x21 matrix, but the size
  is never checked. The passes are stated for any side length. The marker pass
  needs a side of at least 7, below which the source raises `IndexError`.
  Below 17 the timing lines are empty, and below 14 the markers overlap;
  `MarkerCell` takes the union, as the source paints it. The whole pipeline,
  `BuildMatrix`, is therefore stated for any side of at least 7. Only the
  closed-form cell count (`ColumnFreeCount`, `ScanFreeCount`) assumes a side
  of at least 14, where the corner blocks are disjoint. That count is used
  only for size 21.

## Model

| member | source | states |
|---|---|---|
| BitStream.ToBits | EntregaProyectoFinalMarianaValderrama_AlexandraHurtado/proyectofinal.py:7 | The numeral in a given width has exactly that many digits. |
| BitStream.Value | EntregaProyectoFinalMarianaValderrama_AlexandraHurtado/proyectofinal.py:7 | Reading w bits most significant first gives a number below 2^w. |
| BitStream.ValueOfToBits | EntregaProyectoFinalMarianaValderrama_AlexandraHurtado/proyectofinal.py:7 | The w-digit MSB-first numeral of v reads back as v whenever v < 2^w. |
| BitStream.ToBitsOfValue | EntregaProyectoFinalMarianaValderrama_AlexandraHurtado/proyectofinal.py:7 | Every bit string is the numeral of its own value: the other half of the round trip. |
| BitStream.BitLengthBounds | EntregaProyectoFinalMarianaValderrama_AlexandraHurtado/proyectofinal.py:7 | The number of binary digits of v is the least width in which v fits. |
| BitStream.Format08b | EntregaProyectoFinalMarianaValderrama_AlexandraHurtado/proyectofinal.py:7 | Defines format(v, '08b'): the binary numeral of v, zero-padded on the left to eight digits, or longer and unpadded when v needs more. Its properties are in Format08bSpec. |
| BitStream.TextToBinary | EntregaProyectoFinalMarianaValderrama_AlexandraHurtado/proyectofinal.py:5-8 | Defines text_to_binary: format(ord(ch), '08b') of each character, concatenated in order. Its properties are in TextToBinaryLength, TextToBinaryOfBytes and TextToBinaryLayout. |
| BitStream.FullStream | EntregaProyectoFinalMarianaValderrama_AlexandraHurtado/proyectofinal.py:74-76 | Defines full_binary: the text bits followed by the 8-bit expansion of each correction byte. Its properties are in FullStreamLayout and FullStreamDecodes. |
| BitStream.Format08bSpec | EntregaProyectoFinalMarianaValderrama_AlexandraHurtado/proyectofinal.py:7 | format(v, '08b') spells v in at least 8 digits. It has exactly 8 iff v < 256, and then it is the 8-bit MSB-first numeral. From 256 on it has exactly BitLength(v) digits, with no padding. |
| BitStream.TextToBinaryLength | EntregaProyectoFinalMarianaValderrama_AlexandraHurtado/proyectofinal.py:5-8 | text_to_binary yields at least 8 bits per character. It yields exactly 8 per character iff every code is below 256. |
| BitStream.TextToBinaryOfBytes | EntregaProyectoFinalMarianaValderrama_AlexandraHurtado/proyectofinal.py:5-8 | On a text whose codes are all below 256, text_to_binary is the 8-bit expansion of the codes. |
| BitStream.TextToBinaryLayout | EntregaProyectoFinalMarianaValderrama_AlexandraHurtado/proyectofinal.py:5-8 | On such a text the length is 8 per character, and bits 8k .. 8k+7 are the MSB-first code of character k. |
| BitStream.BytesToBits | EntregaProyectoFinalMarianaValderrama_AlexandraHurtado/proyectofinal.py:74 | Expanding bytes yields 8 bits per byte. |
| BitStream.BitsToBytes | EntregaProyectoFinalMarianaValderrama_AlexandraHurtado/proyectofinal.py:74 | Regrouping a multiple of 8 bits yields one byte per 8 bits. |
| BitStream.BytesToBitsChunk | EntregaProyectoFinalMarianaValderrama_AlexandraHurtado/proyectofinal.py:74 | Chunk k of the expansion is the 8-bit MSB-first numeral of byte k, so byte order is kept. |
| BitStream.BytesToBitsAppend | EntregaProyectoFinalMarianaValderrama_AlexandraHurtado/proyectofinal.py:74-76 | Expanding a concatenation of bytes gives the concatenation of the expansions. |
| BitStream.BitsToBytesOfBytesToBits | EntregaProyectoFinalMarianaValderrama_AlexandraHurtado/proyectofinal.py:74 | Reading the expansion back 8 bits at a time recovers the bytes. |
| BitStream.BytesToBitsOfBitsToBytes | EntregaProyectoFinalMarianaValderrama_AlexandraHurtado/proyectofinal.py:74 | Regrouping bits into bytes and expanding them again recovers the bits. |
| BitStream.FullStreamLayout | EntregaProyectoFinalMarianaValderrama_AlexandraHurtado/proyectofinal.py:70-76 | For a text with codes below 256, the stream is the expansion of the codes followed by the correction bytes. It has 8 x (len(text) + len(ecc)) bits. The text bits come first, and chunk len(text) + j is correction byte j. |
| BitStream.FullStreamDecodes | EntregaProyectoFinalMarianaValderrama_AlexandraHurtado/proyectofinal.py:70-76 | For such a text the stream length is a multiple of 8, and reading it back byte by byte gives the codes followed by the correction bytes. |
| QrLayout.IsReserved | EntregaProyectoFinalMarianaValderrama_AlexandraHurtado/proyectofinal.py:60-67 | Defines is_reserved: the three 7x7 corner blocks (top-left, top-right, bottom-left) and all of row 6 and column 6. Its partners are StructuralCellsAreReserved and FreeRowsBelowStep. |
| QrLayout.FinderAt | EntregaProyectoFinalMarianaValderrama_AlexandraHurtado/proyectofinal.py:29-45 | Defines a dark cell of the 7x7 marker whose block starts at a given corner: local row or column 0 or 6, or both local coordinates in 2..4. |
| QrLayout.MarkerCell | EntregaProyectoFinalMarianaValderrama_AlexandraHurtado/proyectofinal.py:26-46 | Defines the cells add_position_markers sets to 1: the union of the dark cells of the top-left, top-right and bottom-left markers. |
| QrLayout.TimingCell | EntregaProyectoFinalMarianaValderrama_AlexandraHurtado/proyectofinal.py:52-56 | Defines the cells add_timing_patterns writes: row 6 at columns 8..n-9 and column 6 at rows 8..n-9. |
| QrLayout.TimingValue | EntregaProyectoFinalMarianaValderrama_AlexandraHurtado/proyectofinal.py:53-56 | Defines the value a timing cell receives: 1 at an even absolute index along its line, 0 at an odd one. |
| QrLayout.StructuralCellsAreReserved | EntregaProyectoFinalMarianaValderrama_AlexandraHurtado/proyectofinal.py:26-67 | Every cell painted by add_position_markers or add_timing_patterns satisfies is_reserved. |
| QrLayout.TimingAvoidsMarkers | EntregaProyectoFinalMarianaValderrama_AlexandraHurtado/proyectofinal.py:26-57 | On any side for which the markers can be painted (at least 7), no timing cell is a dark marker cell, so the order of the two passes does not matter. |
| QrLayout.StructureCellValues | EntregaProyectoFinalMarianaValderrama_AlexandraHurtado/proyectofinal.py:26-57 | After the two structural passes on a zero grid, marker cells hold 1 and timing cells their parity value. All other cells hold 0, so every free cell is 0, and every value is 0 or 1. |
| QrLayout.MaskCell | EntregaProyectoFinalMarianaValderrama_AlexandraHurtado/proyectofinal.py:96-99 | The mask inverts a value exactly at free cells with even row + col, keeps it elsewhere, and maps 0/1 to 0/1. |
| QrLayout.MaskCellTwice | EntregaProyectoFinalMarianaValderrama_AlexandraHurtado/proyectofinal.py:98-99 | The mask undoes itself: masking a value twice returns it, for every cell and every value. |
| QrLayout.FreeRowsBelowStep | EntregaProyectoFinalMarianaValderrama_AlexandraHurtado/proyectofinal.py:60-67 | A closed-form count of the non-reserved rows of a column advances by one exactly at the rows is_reserved does not reserve. This is an independent description of is_reserved column by column. |
| QrLayout.ScanSteps | EntregaProyectoFinalMarianaValderrama_AlexandraHurtado/proyectofinal.py:80 | Defines the number of columns of range(size - 1, 0, -2). ScanStepsIsRangeLength states that it is that length. |
| QrLayout.ScanStepsIsRangeLength | EntregaProyectoFinalMarianaValderrama_AlexandraHurtado/proyectofinal.py:80 | Every step below ScanSteps(n) starts at a column n-1-2k above 0, and the next step would not, so ScanSteps(n) is the length of range(n - 1, 0, -2). |
| QrLayout.ScanColumn | EntregaProyectoFinalMarianaValderrama_AlexandraHurtado/proyectofinal.py:80-82 | Defines the column visited at step k: n-1-2k, with 6 replaced by 5. |
| QrLayout.ScanRow | EntregaProyectoFinalMarianaValderrama_AlexandraHurtado/proyectofinal.py:83 | Defines the row visited at position i of a column: bottom-up (n-1-i) when column % 4 == 1, top-down (i) otherwise. |
| QrLayout.ColumnFree | EntregaProyectoFinalMarianaValderrama_AlexandraHurtado/proyectofinal.py:83-86 | Defines the free cells among the first i visited rows of a column, in visiting order: the cells its inner loop writes while bits remain. Its properties are in ColumnFreeVisited, ColumnFreeMembership, ColumnFreeOrdered and ColumnFreeCount. |
| QrLayout.ScanFree | EntregaProyectoFinalMarianaValderrama_AlexandraHurtado/proyectofinal.py:80-86 | Defines the free cells of the first k scanned columns, column after column. Its properties are in ScanFreeBounds, ScanFreeOrdered, ScanFreeMembership and ScanFreeCount. |
| QrLayout.ColumnFreeVisited | EntregaProyectoFinalMarianaValderrama_AlexandraHurtado/proyectofinal.py:83-86 | The cells the inner loop writes in a column lie in that column and in the grid, were already visited and are not reserved. |
| QrLayout.ColumnFreeMembership | EntregaProyectoFinalMarianaValderrama_AlexandraHurtado/proyectofinal.py:83-86 | A cell is among them iff it is a free cell of that column on a row already visited in the column's direction. |
| QrLayout.FullColumnMembership | EntregaProyectoFinalMarianaValderrama_AlexandraHurtado/proyectofinal.py:83-84 | After the whole column is scanned, the collected cells are exactly the column's free cells. |
| QrLayout.ColumnFreeOrdered | EntregaProyectoFinalMarianaValderrama_AlexandraHurtado/proyectofinal.py:83 | Within a column the cells are collected strictly bottom-up when col % 4 == 1 and strictly top-down otherwise. |
| QrLayout.ScanFreeBounds | EntregaProyectoFinalMarianaValderrama_AlexandraHurtado/proyectofinal.py:80-86 | The cells of the first k scanned columns are free cells of the grid, right of the next column to scan. |
| QrLayout.ScanFreeOrdered | EntregaProyectoFinalMarianaValderrama_AlexandraHurtado/proyectofinal.py:80-86 | The scan order is strict: columns right to left, and rows in each column's direction. |
| QrLayout.ScanFreeSound | EntregaProyectoFinalMarianaValderrama_AlexandraHurtado/proyectofinal.py:80-86 | Every cell collected in the first k columns is a free cell of one of them. |
| QrLayout.ScanFreeComplete | EntregaProyectoFinalMarianaValderrama_AlexandraHurtado/proyectofinal.py:80-86 | Every free cell of the first k scanned columns is collected. |
| QrLayout.ScanFreeMembership | EntregaProyectoFinalMarianaValderrama_AlexandraHurtado/proyectofinal.py:80-86 | Both directions together: a cell is collected iff it is free and its column is among the first k scanned. |
| QrLayout.FreeCells | EntregaProyectoFinalMarianaValderrama_AlexandraHurtado/proyectofinal.py:80-86 | The cells the placement loop writes to lie in the grid and are not reserved. |
| QrLayout.Written | EntregaProyectoFinalMarianaValderrama_AlexandraHurtado/proyectofinal.py:85 | The number of stream bits placed is min(len(stream), number of cells visited). |
| QrLayout.FreeCellsDistinct | EntregaProyectoFinalMarianaValderrama_AlexandraHurtado/proyectofinal.py:80-87 | No cell is visited twice, so each written cell receives one stream bit. |
| QrLayout.FreeCellsMembership | EntregaProyectoFinalMarianaValderrama_AlexandraHurtado/proyectofinal.py:80-86 | A cell is visited by the placement loop iff it is in the grid, not reserved, and in a scanned column (the range with 6 turned into 5). |
| QrLayout.ScanColumns21 | EntregaProyectoFinalMarianaValderrama_AlexandraHurtado/proyectofinal.py:80-82 | For size 21 the scanned columns are exactly 20, 18, ..., 8, then 5, 4 and 2. The odd columns other than 5 are never written. |
| QrLayout.ColumnFreeCount | EntregaProyectoFinalMarianaValderrama_AlexandraHurtado/proyectofinal.py:83-84 | The number of cells collected in the first i visited rows of a column equals the closed-form count of free rows, in either direction. |
| QrLayout.ScanFreeCount | EntregaProyectoFinalMarianaValderrama_AlexandraHurtado/proyectofinal.py:80-84 | The first k scanned columns contribute the sum of their closed-form free-row counts. |
| QrLayout.FreeCellCount21 | EntregaProyectoFinalMarianaValderrama_AlexandraHurtado/proyectofinal.py:80-86 | The 21x21 grid has exactly 137 cells the placement loop can write. |
| QrEngine.CreateQrMatrix | EntregaProyectoFinalMarianaValderrama_AlexandraHurtado/proyectofinal.py:20-22 | A new size x size matrix, every cell 0. |
| QrEngine.PaintFinder | EntregaProyectoFinalMarianaValderrama_AlexandraHurtado/proyectofinal.py:29-33 | In a 7x7 block, exactly the cells on the outer ring or the 3x3 core are set to 1. No other cell changes. |
| QrEngine.AddPositionMarkers | EntregaProyectoFinalMarianaValderrama_AlexandraHurtado/proyectofinal.py:26-46 | Exactly the dark cells of the three corner markers are set to 1. Every other cell keeps its value. |
| QrEngine.AddTimingPatterns | EntregaProyectoFinalMarianaValderrama_AlexandraHurtado/proyectofinal.py:49-57 | Row 6 at columns 8..size-9 and column 6 at rows 8..size-9 get 1 at even and 0 at odd indices. No other cell changes. |
| QrEngine.FillColumn | EntregaProyectoFinalMarianaValderrama_AlexandraHurtado/proyectofinal.py:83-87 | The inner loop writes the next bits into the column's free cells in scan order while bits remain. The cursor advances by the number written, and no other cell changes. |
| QrEngine.PlaceColumn | EntregaProyectoFinalMarianaValderrama_AlexandraHurtado/proyectofinal.py:80-87 | One column step extends the placement from the first k scanned columns to the first k+1. Earlier bits stay in place. |
| QrEngine.WrittenPrefix | EntregaProyectoFinalMarianaValderrama_AlexandraHurtado/proyectofinal.py:85-87 | The cells written after a column are those written before it followed by those written in it. |
| QrEngine.AddDataToQr | EntregaProyectoFinalMarianaValderrama_AlexandraHurtado/proyectofinal.py:70-88 | Stream bit k lands in the k-th visited free cell for every k < min(len(stream), cells visited); excess bits are dropped. Every other cell keeps its value, reserved cells included. |
| QrEngine.ApplyMask | EntregaProyectoFinalMarianaValderrama_AlexandraHurtado/proyectofinal.py:91-100 | Every cell becomes the mask of its old value. A 0/1 matrix stays 0/1. |
| QrEngine.ApplyMaskTwice | EntregaProyectoFinalMarianaValderrama_AlexandraHurtado/proyectofinal.py:98-99 | Masking twice restores every cell. |
| QrEngine.StructuredMatrix | EntregaProyectoFinalMarianaValderrama_AlexandraHurtado/proyectofinal.py:126-130 | After creation, markers and timing lines, every cell holds its structural value. |
| QrEngine.Encodes | EntregaProyectoFinalMarianaValderrama_AlexandraHurtado/proyectofinal.py:126-134 | Defines what the finished matrix of main holds for a text and its correction bytes. Reserved cells keep their structural values. The k-th visited free cell holds the masked stream bit k while bits last, and the other free cells hold the mask of 0. Every cell is 0 or 1. BuildMatrix and BuildQrMatrix establish it. |
| QrEngine.BuildMatrix | EntregaProyectoFinalMarianaValderrama_AlexandraHurtado/proyectofinal.py:126-134 | The whole pipeline on any side of at least 7. Reserved cells hold the structural pattern, and the k-th scanned free cell holds the masked stream bit k. The other free cells hold the mask of 0, and the matrix is 0/1. |
| QrEngine.BuildQrMatrix | EntregaProyectoFinalMarianaValderrama_AlexandraHurtado/proyectofinal.py:123-134 | The same for the 21x21 matrix main builds, given the correction bytes: ten for a non-empty text, or none for the empty text. |
| QrEngine.EmptyTextStream | EntregaProyectoFinalMarianaValderrama_AlexandraHurtado/proyectofinal.py:70-88 | For the empty text, with no correction bytes, the stream is empty and no cell is written. |
| QrEngine.StreamCapacity | EntregaProyectoFinalMarianaValderrama_AlexandraHurtado/proyectofinal.py:70-88 | With ten correction bytes, min(len(stream), 137) bits are written, and a text of more than 7 characters is always truncated. For codes below 256 the stream has 8 x (len(text) + 10) bits and fits exactly when the text has at most 7 characters. |

## Left out

- `reed_solomon_correction` (lines 11-17) is not modelled. It UTF-8-encodes the text and calls the `reedsolo` library. Its result is a parameter `ecc` of the data and build methods. `BuildQrMatrix` requires it to hold what line 17 returns. That is ten bytes (the default `ecc_length`) for a non-empty text. For the empty text it is no bytes, since the encoder has no message chunk to encode; that run is `BuildMatrix(21, "", [])`. The byte values themselves are not modelled.
- `matrix_to_image` and `save_qr_image` (lines 103-120) only rasterise and write a file.
- The `input` and `print` calls of `main` (lines 124, 136-137) are also I/O. `BuildQrMatrix` takes the text as a parameter and returns the matrix.
- `create_qr_matrix` is a method, not a function. It allocates the `array2` that the later passes change in place. The nested Python lists become one two-dimensional array, so list aliasing is not modelled.
- `AddPositionMarkers` requires a side of at least 7. On a smaller grid the Python loops index past the end of the list and raise `IndexError`; that error is not modelled.
- The stream is `seq<Bit>`. The text of '0'/'1' characters that the program builds, and the `int(...)` of each of its characters, are not modelled separately.
- Text is a Dafny `string`, whose characters are Unicode scalar values. Python strings can also hold lone surrogates, whose codes are not modelled.
- A stream longer than the free cells is truncated silently, as in the program. No capacity error is modelled, because the program has none.
