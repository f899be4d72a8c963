/**
 * Charset mode of the sprite converter (a character offset `-chXX` was
 * given): the image is cut into 8x8 cells row by row, every cell is packed
 * into 8 bytes, identical cells share one character of a 256-character set,
 * and the character map lists, per cell, the character's index plus the
 * offset. An all-zero character found after the first one is swapped to the
 * front so that the empty character gets the offset itself.
 */
module CharsetBuilder {
  import opened Wrappers
  import opened Bytes
  import opened BlockDictionary
  import opened SpriteSettings
  import opened PixelEncoding
  import opened ByteRows

  /** The character set holds 2048 bytes: 256 characters of 8 bytes. */
  const CharsetChars: nat := 256

  /** The character map holds one full 40x25 screen. */
  const CharmapCells: nat := 1000

  /** The empty character: 8 zero bytes. */
  const Blank: seq<byte> := [0, 0, 0, 0, 0, 0, 0, 0]

  // ----- Cells of the image -----

  /** The 8 bytes of the character cell whose top-left pixel is (cx, cy). */
  function Cell(s: Settings, r: Raster, cx: nat, cy: nat): (cell: seq<byte>)
    requires s.Valid() && r.Valid() && cx + 8 <= r.width && cy + 8 <= r.height
    ensures |cell| == 8
  {
    PackedObjectLength(s, r, cx, cy, 8, 8);
    CellBytes(s.pixelWidth);
    PackCodes(ObjectCodes(s, r, cx, cy, 8, 8), s.pixelWidth)
  }

  /** The first `n` cells of the cell row at `cy`, left to right. */
  function RowCells(s: Settings, r: Raster, cy: nat, n: nat): (cells: seq<seq<byte>>)
    requires s.Valid() && r.Valid() && 8 * n <= r.width && cy + 8 <= r.height
    ensures |cells| == n
  {
    if n == 0 then [] else RowCells(s, r, cy, n - 1) + [Cell(s, r, 8 * (n - 1), cy)]
  }

  /** The cells of the first `m` rows of cells, row by row; a partial cell at the right or bottom edge is not a cell. */
  function Cells(s: Settings, r: Raster, m: nat): (cells: seq<seq<byte>>)
    requires s.Valid() && r.Valid() && 8 * m <= r.height
  {
    if m == 0 then [] else Cells(s, r, m - 1) + RowCells(s, r, 8 * (m - 1), r.width / 8)
  }

  /** All cells of the image. */
  function ImageCells(s: Settings, r: Raster): seq<seq<byte>>
    requires s.Valid() && r.Valid()
  {
    Cells(s, r, r.height / 8)
  }

  /** The image has `width / 8` columns and `height / 8` rows of cells. */
  lemma {:induction false} CellsCount(s: Settings, r: Raster, m: nat)
    requires s.Valid() && r.Valid() && 8 * m <= r.height
    ensures |Cells(s, r, m)| == m * (r.width / 8)
  {
    if m > 0 {
      CellsCount(s, r, m - 1);
      assert (m - 1) * (r.width / 8) + r.width / 8 == m * (r.width / 8);
    }
  }

  /** The first cells of a row come first in the whole row. */
  lemma {:induction false} RowCellsPrefix(s: Settings, r: Raster, cy: nat, n: nat, m: nat)
    requires s.Valid() && r.Valid() && n <= m && 8 * m <= r.width && cy + 8 <= r.height
    ensures RowCells(s, r, cy, n) <= RowCells(s, r, cy, m)
    decreases m
  {
    if n < m {
      RowCellsPrefix(s, r, cy, n, m - 1);
    }
  }

  /** The first rows of cells come first in the image. */
  lemma {:induction false} CellsPrefix(s: Settings, r: Raster, m: nat, h: nat)
    requires s.Valid() && r.Valid() && m <= h && 8 * h <= r.height
    ensures Cells(s, r, m) <= Cells(s, r, h)
    decreases h
  {
    if m < h {
      CellsPrefix(s, r, m, h - 1);
    }
  }

  /**
   * The cells scanned up to and including the one at column `col` of row
   * `row` are those of the earlier rows followed by the first `col + 1` cells
   * of this row, and they come first in the image.
   */
  lemma ScanPrefix(s: Settings, r: Raster, row: nat, col: nat)
    requires s.Valid() && r.Valid() && 8 * row + 8 <= r.height && 8 * col + 8 <= r.width
    ensures Cells(s, r, row) + RowCells(s, r, 8 * row, col) + [Cell(s, r, 8 * col, 8 * row)]
         == Cells(s, r, row) + RowCells(s, r, 8 * row, col + 1)
    ensures Cells(s, r, row) + RowCells(s, r, 8 * row, col + 1) <= ImageCells(s, r)
  {
    var done, front := Cells(s, r, row), RowCells(s, r, 8 * row, col);
    assert RowCells(s, r, 8 * row, col + 1) == front + [Cell(s, r, 8 * col, 8 * row)];
    ScanWithin(s, r, row, col + 1);
  }

  /** The first `col` cells of row `row`, after the earlier rows, come first in the image. */
  lemma ScanWithin(s: Settings, r: Raster, row: nat, col: nat)
    requires s.Valid() && r.Valid() && 8 * row + 8 <= r.height && 8 * col <= r.width
    ensures Cells(s, r, row) + RowCells(s, r, 8 * row, col) <= ImageCells(s, r)
  {
    var w, h := r.width / 8, r.height / 8;
    RowCellsPrefix(s, r, 8 * row, col, w);
    RowsBefore(s, r, row);
    CellsUnfold(s, r, row, 8 * row);
    PrefixChain(Cells(s, r, row), RowCells(s, r, 8 * row, col), RowCells(s, r, 8 * row, w), Cells(s, r, row + 1), Cells(s, r, h));
  }

  /** The rows of cells up to and including row `row` come first in the image. */
  lemma RowsBefore(s: Settings, r: Raster, row: nat)
    requires s.Valid() && r.Valid() && 8 * row + 8 <= r.height
    ensures Cells(s, r, row + 1) <= ImageCells(s, r)
  {
    CellsPrefix(s, r, row + 1, r.height / 8);
  }

  /** The cells of `row + 1` rows are those of `row` rows followed by row `row`'s cells. */
  lemma CellsUnfold(s: Settings, r: Raster, row: nat, cy: nat)
    requires s.Valid() && r.Valid() && cy == 8 * row && cy + 8 <= r.height
    ensures Cells(s, r, row + 1) == Cells(s, r, row) + RowCells(s, r, cy, r.width / 8)
  {
  }

  // ----- Character map labels -----

  /** The map entry of dictionary index `idx`: Java's `(byte)(idx + chOffset)`. */
  function Label(idx: int, chOffset: int): (mapByte: byte)
    ensures (idx + chOffset - mapByte) % 256 == 0
  {
    ToByte(idx + chOffset)
  }

  /** The map entries of every dictionary index recorded. */
  function Labels(indices: seq<nat>, chOffset: int): (labels: seq<byte>)
    ensures |labels| == |indices|
  {
    seq(|indices|, k requires 0 <= k < |indices| => Label(indices[k], chOffset))
  }

  /** Index of the empty character in `dict`, or -1 when there is none. */
  function EmptyIndex(dict: seq<seq<byte>>): (e: int)
    ensures -1 <= e < |dict|
    ensures e >= 0 ==> dict[e] == Blank && forall j :: 0 <= j < e ==> dict[j] != Blank
    ensures e == -1 ==> forall j :: 0 <= j < |dict| ==> dict[j] != Blank
  {
    var i := Find(Blank, dict);
    if i < |dict| then i else -1
  }

  /** An 8-byte block is the empty character exactly when all its bytes are zero. */
  lemma BlankIffZero(block: seq<byte>)
    requires |block| == 8
    ensures block == Blank <==> AllZero(block)
  {
    if AllZero(block) {
      assert forall k :: 0 <= k < 8 ==> block[k] == Blank[k];
    }
  }

  // ----- Promotion of the empty character -----

  /** `dict` with entries 0 and `e` exchanged. */
  function SwapFirst(dict: seq<seq<byte>>, e: nat): (d: seq<seq<byte>>)
    requires e < |dict|
    ensures |d| == |dict| && multiset(d) == multiset(dict)
    ensures d[0] == dict[e] && d[e] == dict[0]
    ensures forall j :: 0 < j < |dict| && j != e ==> d[j] == dict[j]
  {
    if e == 0 then dict else dict[0 := dict[e]][e := dict[0]]
  }

  /** Where dictionary index `idx` ends up once entries 0 and `e` are exchanged. */
  function SwapIndex(idx: nat, e: nat): nat
  {
    if idx == 0 then e else if idx == e then 0 else idx
  }

  /**
   * The relabelling the map loop intends: the label of character 0 and the
   * label of character `e` are exchanged, every other label is kept.
   */
  function Relabel(b: byte, e: nat, chOffset: int): (r: byte)
    ensures r == ToByte(chOffset) <==> b == ToByte(e + chOffset)
    ensures r == ToByte(e + chOffset) <==> b == ToByte(chOffset)
    ensures b != ToByte(chOffset) && b != ToByte(e + chOffset) ==> r == b
  {
    if b == ToByte(chOffset) then ToByte(e + chOffset)
    else if b == ToByte(e + chOffset) then ToByte(chOffset)
    else b
  }

  /**
   * The map loop as written: Java compares the map's signed byte with the
   * int offset, so the first test never holds once the offset is 128 or more.
   */
  function RelabelAsWritten(b: byte, e: nat, chOffset: int): (r: byte)
    ensures 0 <= chOffset < 128 ==> r == Relabel(b, e, chOffset)
    ensures chOffset >= 128 && b != ToByte(e + chOffset) ==> r == b
  {
    if Signed(b) == chOffset then ToByte(e + chOffset)
    else if b == ToByte(e + chOffset) then ToByte(chOffset)
    else b
  }

  /** Two indices below 256 get the same label only when they are equal. */
  lemma LabelInjective(a: nat, b: nat, chOffset: int)
    requires a < 256 && b < 256
    ensures ToByte(a + chOffset) == ToByte(b + chOffset) <==> a == b
  {
    LabelValue(a, chOffset);
    LabelValue(b, chOffset);
  }

  /** The label of an index below 256: the index plus the offset's low byte, less 256 when that passes 255. */
  lemma LabelValue(a: nat, chOffset: int)
    requires a < 256
    ensures var m := chOffset % 256;
      ToByte(a + chOffset) == if a + m < 256 then a + m else a + m - 256
  {
    var q, m := chOffset / 256, chOffset % 256;
    assert chOffset == q * 256 + m;
    if a + m < 256 {
      DivModUnique(a + chOffset, 256, q, a + m);
    } else {
      assert a + chOffset == (q + 1) * 256 + (a + m - 256);
      DivModUnique(a + chOffset, 256, q + 1, a + m - 256);
    }
  }

  /** The intended relabelling maps the label of index `idx` to the label of its swapped index. */
  lemma RelabelSwaps(idx: nat, e: nat, chOffset: int)
    requires idx < 256 && 0 < e < 256
    ensures Relabel(ToByte(idx + chOffset), e, chOffset) == ToByte(SwapIndex(idx, e) + chOffset)
  {
    LabelInjective(idx, 0, chOffset);
    LabelInjective(idx, e, chOffset);
    assert ToByte(0 + chOffset) == ToByte(chOffset);
  }

  /** The map as relabelled after promoting character `e`. */
  function RelabelAll(labels: seq<byte>, e: nat, chOffset: int): (r: seq<byte>)
    ensures |r| == |labels|
  {
    seq(|labels|, k requires 0 <= k < |labels| => Relabel(labels[k], e, chOffset))
  }

  /** For offsets below 128 the code as written relabels exactly as intended. */
  lemma RelabelAgree(b: byte, e: nat, chOffset: int)
    requires 0 <= chOffset < 128
    ensures RelabelAsWritten(b, e, chOffset) == Relabel(b, e, chOffset)
  {
    assert ToByte(chOffset) == chOffset;
    assert Signed(b) == chOffset <==> b == chOffset;
  }

  /**
   * With offset $80 and the empty character found second, the code as written
   * gives both cells label $80: the label of character 0 is never moved, so
   * the map no longer tells the two characters apart.
   */
  lemma RelabelCounterexample()
    ensures Labels([0, 1], 128) == [128, 129]
    ensures [RelabelAsWritten(128, 1, 128), RelabelAsWritten(129, 1, 128)] == [128, 128]
    ensures [Relabel(128, 1, 128), Relabel(129, 1, 128)] == [129, 128]
  {
  }

  /**
   * For every offset from 128 on and every position of the empty character,
   * the code as written leaves the label of character 0 in place, where the
   * intended relabelling gives it the label of character `e`.
   */
  lemma RelabelAsWrittenMisses(e: nat, chOffset: int)
    requires 128 <= chOffset < 256 && 0 < e < 256
    ensures RelabelAsWritten(Label(0, chOffset), e, chOffset) == Label(0, chOffset)
    ensures Relabel(Label(0, chOffset), e, chOffset) == Label(e, chOffset) != Label(0, chOffset)
  {
    LabelInjective(0, e, chOffset);
    assert Label(0, chOffset) == chOffset;
  }

  // ----- Overflow warning -----

  /**
   * The warning printed when labels run past 255: how many characters
   * overflow, and the largest offset that would have avoided it.
   */
  function OverflowWarning(uniques: nat, chOffset: int): (w: Option<(int, int)>)
    ensures w.Some? <==> uniques + chOffset > 256
    ensures w.Some? ==> w.value.0 > 0 && uniques + w.value.1 == 256 && w.value.0 + w.value.1 == chOffset
  {
    if uniques + chOffset > 256 then Some((uniques + chOffset - 256, 256 - uniques)) else None
  }

  /**
   * No warning exactly when no label wraps around; with a warning, the
   * labels of the last `overflow` characters wrap, the others do not, and the
   * suggested offset keeps every label below 256 and is the largest that does.
   */
  lemma WarningExact(uniques: nat, chOffset: int)
    requires uniques <= CharsetChars && 0 <= chOffset < 256
    ensures var w := OverflowWarning(uniques, chOffset);
      && (w.None? <==> forall idx :: 0 <= idx < uniques ==> Label(idx, chOffset) == idx + chOffset)
      && (w.Some? ==>
            && 0 < w.value.0 <= uniques
            && (forall idx :: 0 <= idx < uniques ==> (Label(idx, chOffset) == idx + chOffset <==> idx < uniques - w.value.0))
            && 0 <= w.value.1 < chOffset
            && (forall idx :: 0 <= idx < uniques ==> Label(idx, w.value.1) == idx + w.value.1)
            && uniques - 1 + w.value.1 == 255)
  {
    if uniques + chOffset > 256 {
      assert Label(uniques - 1, chOffset) != uniques - 1 + chOffset;
    }
  }

  // ----- Conversion -----

  /** Why a charset conversion produces no output (Java raises an exception). */
  datatype CharsetFailure =
    | ScreenOverflow   // more than 1000 cells recorded: the map array overflows
    | NarrowImage      // narrower than one cell: rows of zero map entries divide by zero

  /**
   * The charset conversion's output: the two `!byte` listings, the numbers
   * in their header comments, whether every cell fitted into the set, and
   * the overflow warning.
   */
  datatype Charmap = Charmap(
    charsetText: string,
    charmapText: string,
    uniques: nat,
    cells: nat,
    complete: bool,
    warning: Option<(int, int)>)

  /** The character set after promotion: the empty character, when found after index 0, swapped to the front. */
  function PromotedDict(dict: seq<seq<byte>>): (d: seq<seq<byte>>)
    ensures |d| == |dict|
  {
    var e := EmptyIndex(dict);
    if e > 0 then SwapFirst(dict, e) else dict
  }

  /** The character map after promotion. */
  function PromotedLabels(dict: seq<seq<byte>>, indices: seq<nat>, chOffset: int): (labels: seq<byte>)
    ensures |labels| == |indices|
  {
    var e := EmptyIndex(dict);
    if e > 0 then RelabelAll(Labels(indices, chOffset), e, chOffset) else Labels(indices, chOffset)
  }

  /** Where dictionary index `idx` ends up after promotion. */
  function PromotedIndex(dict: seq<seq<byte>>, idx: nat): nat
  {
    var e := EmptyIndex(dict);
    if e > 0 then SwapIndex(idx, e) else idx
  }

  /**
   * Promotion only reorders the set: its characters stay distinct, each
   * character is found at its promoted index, and the empty character, when
   * present, is character 0.
   */
  lemma PromotedDictSound(dict: seq<seq<byte>>)
    requires Distinct(dict)
    ensures var d := PromotedDict(dict);
      && Distinct(d) && multiset(d) == multiset(dict)
      && (forall idx :: 0 <= idx < |dict| ==> PromotedIndex(dict, idx) < |d| && d[PromotedIndex(dict, idx)] == dict[idx])
      && (Blank in dict ==> d[0] == Blank)
  {
    var e := EmptyIndex(dict);
    var d := PromotedDict(dict);
    if e > 0 {
      forall i, j | 0 <= i < j < |d|
        ensures d[i] != d[j]
      {
        assert d[i] == dict[SwapIndex(i, e)] && d[j] == dict[SwapIndex(j, e)];
      }
    }
    if Blank in dict {
      var k :| 0 <= k < |dict| && dict[k] == Blank;
      assert e >= 0;
    }
  }

  /** After promotion, the label of every recorded cell is the label of its character's promoted index. */
  lemma PromotedLabelsSound(dict: seq<seq<byte>>, indices: seq<nat>, chOffset: int)
    requires |dict| <= CharsetChars
    requires forall k :: 0 <= k < |indices| ==> indices[k] < |dict|
    ensures var l := PromotedLabels(dict, indices, chOffset);
      forall k :: 0 <= k < |indices| ==> l[k] == Label(PromotedIndex(dict, indices[k]), chOffset)
  {
    var e := EmptyIndex(dict);
    if e > 0 {
      forall k | 0 <= k < |indices|
        ensures PromotedLabels(dict, indices, chOffset)[k] == Label(PromotedIndex(dict, indices[k]), chOffset)
      {
        RelabelSwaps(indices[k], e, chOffset);
      }
    }
  }

  /**
   * The promoted set and map describe the cells: the map entry of each
   * recorded cell is the label of a set character equal to that cell, the
   * set's characters are distinct, and every empty cell is labelled with the
   * offset itself, the label of character 0.
   */
  lemma PromotedShowsCells(cells: seq<seq<byte>>, chOffset: int)
    ensures var b := Build(cells, CharsetChars);
      var d, l := PromotedDict(b.dict), PromotedLabels(b.dict, b.indices, chOffset);
      && |b.indices| <= |cells| && Distinct(d) && multiset(d) == multiset(b.dict)
      && (forall k :: 0 <= k < |b.indices| ==>
            var j := PromotedIndex(b.dict, b.indices[k]);
            j < |d| && d[j] == cells[k] && l[k] == Label(j, chOffset))
      && (forall k :: 0 <= k < |b.indices| && cells[k] == Blank ==> l[k] == Label(0, chOffset))
  {
    var b := Build(cells, CharsetChars);
    BuildSound(cells, CharsetChars);
    PromotedDictSound(b.dict);
    PromotedLabelsSound(b.dict, b.indices, chOffset);
    var d := PromotedDict(b.dict);
    forall k | 0 <= k < |b.indices| && cells[k] == Blank
      ensures PromotedIndex(b.dict, b.indices[k]) == 0
    {
      var j := PromotedIndex(b.dict, b.indices[k]);
      assert b.dict[b.indices[k]] == Blank;
      assert d[0] == Blank && d[j] == Blank;
    }
  }

  /** What the charset conversion of an image yields. */
  function CharsetConversion(s: Settings, r: Raster): (c: Result<Charmap, CharsetFailure>)
    requires s.Valid() && s.CharMode() && r.Valid()
    ensures c.Ok? ==> c.value.uniques <= CharsetChars && c.value.uniques <= c.value.cells <= CharmapCells
    ensures c.Ok? ==> (c.value.warning.Some? <==> c.value.uniques + s.chOffset > 256)
  {
    var b := Build(ImageCells(s, r), CharsetChars);
    BuildSize(ImageCells(s, r), CharsetChars);
    if |b.indices| > CharmapCells then Err(ScreenOverflow)
    else if r.width / 8 == 0 then Err(NarrowImage)
    else
      Ok(Charmap(
        Rows(Concat(PromotedDict(b.dict)), 8),
        Rows(PromotedLabels(b.dict, b.indices, s.chOffset), r.width / 8),
        |b.dict|, |b.indices|, b.complete,
        OverflowWarning(|b.dict|, s.chOffset)))
  }

  // ----- Methods -----

  /** The index of the first of `count` characters of `charset` equal to `curChar`, or `count` when none is. */
  method FindInCharset(curChar: array<byte>, charset: array<byte>, count: nat) returns (i: nat)
    requires curChar.Length == 8 && count * 8 <= charset.Length
    ensures i == Find(curChar[..], Chunks(charset[..], 8, count))
  {
    ghost var dict := Chunks(charset[..], 8, count);
    i := 0;
    while i < count
      invariant i <= count
      invariant forall m :: 0 <= m < i ==> dict[m] != curChar[..]
    {
      var same := BlockMatches(curChar, charset, i * 8);
      ChunkMatch(charset[..], 8, count, i, i * 8, curChar[..]);
      if same {
        return i;
      }
      i := i + 1;
    }
  }
  // ----- The cell scan -----

  /**
   * What the scan's variables hold once the build state is `st`: the
   * dictionary in the first `size` characters of the set, the label of every
   * recorded cell in the first `mapSize` map entries, and the index of the
   * empty character (-1 for none).
   */
  ghost predicate Scanned(charset: seq<byte>, size: nat, charmap: seq<byte>, mapSize: nat, emptyChar: int,
                          chOffset: int, st: Built<byte>)
  {
    && size == |st.dict| && size * 8 <= |charset|
    && mapSize == |st.indices| && mapSize <= |charmap|
    && Chunks(charset, 8, size) == st.dict
    && (forall k :: 0 <= k < mapSize ==> charmap[k] == Label(st.indices[k], chOffset))
    && emptyChar == EmptyIndex(st.dict)
  }

  /** How looking up one cell ends. */
  datatype Step =
    | Recorded   // the cell got its map entry
    | SetFull    // the cell is new and the set already holds 256 characters: the scan stops
    | MapFull    // the map already holds 1000 entries: Java raises an exception

  /** Storing a block in the free slot after `size` characters adds it as character `size`. */
  lemma ChunksAppend(before: seq<byte>, after: seq<byte>, size: nat, cell: seq<byte>)
    requires |cell| == 8 && size * 8 + 8 <= |before| == |after|
    requires after[..size * 8] == before[..size * 8] && after[size * 8..size * 8 + 8] == cell
    ensures Chunks(after, 8, size + 1) == Chunks(before, 8, size) + [cell]
  {
    ChunksPrefix(before, after, 8, size);
  }

  /** The empty character of a dictionary grown by a new block. */
  lemma EmptyAppend(dict: seq<seq<byte>>, cell: seq<byte>)
    requires |cell| == 8
    ensures EmptyIndex(dict + [cell]) ==
      if EmptyIndex(dict) >= 0 then EmptyIndex(dict) else if AllZero(cell) then |dict| else -1
  {
    BlankIffZero(cell);
    var d := dict + [cell];
    assert forall j :: 0 <= j < |dict| ==> d[j] == dict[j];
    assert d[|dict|] == cell;
  }

  /** Writing the label of a cell found at `ch` records it. */
  lemma ScanLabel(charset: seq<byte>, size: nat, charmap: seq<byte>, charmap': seq<byte>, mapSize: nat,
                  emptyChar: int, chOffset: int, dict: seq<seq<byte>>, indices: seq<nat>, ch: nat)
    requires Scanned(charset, size, charmap, mapSize, emptyChar, chOffset, Built(dict, indices, true))
    requires mapSize < |charmap| && charmap' == charmap[mapSize := Label(ch, chOffset)]
    ensures Scanned(charset, size, charmap', mapSize + 1, emptyChar, chOffset, Built(dict, indices + [ch], true))
  {
  }

  /** Storing a new cell in the set and updating the empty character keeps the scan state. */
  lemma ScanStore(charset: seq<byte>, charset': seq<byte>, size: nat, charmap: seq<byte>, mapSize: nat,
                  emptyChar: int, emptyChar': int, chOffset: int, dict: seq<seq<byte>>, indices: seq<nat>, cell: seq<byte>)
    requires Scanned(charset, size, charmap, mapSize, emptyChar, chOffset, Built(dict, indices, true))
    requires |cell| == 8 && size * 8 + 8 <= |charset| == |charset'|
    requires charset'[..size * 8] == charset[..size * 8] && charset'[size * 8..size * 8 + 8] == cell
    requires emptyChar' == if emptyChar < 0 && AllZero(cell) then size else emptyChar
    ensures Scanned(charset', size + 1, charmap, mapSize, emptyChar', chOffset, Built(dict + [cell], indices, true))
  {
    ChunksAppend(charset, charset', size, cell);
    EmptyAppend(dict, cell);
  }

  /** Copies the 8 bytes of `curChar` into character slot `slot` of the set (Java's `System.arraycopy`). */
  method StoreChar(curChar: array<byte>, charset: array<byte>, slot: nat)
    requires curChar.Length == 8 && slot * 8 + 8 <= charset.Length && curChar != charset
    modifies charset
    ensures charset[..slot * 8] == old(charset[..slot * 8])
    ensures charset[slot * 8..slot * 8 + 8] == curChar[..]
    ensures charset[slot * 8 + 8..] == old(charset[slot * 8 + 8..])
  {
    forall k | 0 <= k < 8 {
      charset[slot * 8 + k] := curChar[k];
    }
  }

  /** Stores a new cell as character `size`, noting it as the empty character when it is the first empty one. */
  method AddChar(curChar: array<byte>, charset: array<byte>, charmap: array<byte>, size: nat, mapSize: nat,
                 emptyChar0: int, chOffset: int, ghost dict: seq<seq<byte>>, ghost indices: seq<nat>)
    returns (emptyChar: int)
    requires curChar.Length == 8 && size * 8 + 8 <= charset.Length
    requires curChar != charset && charset != charmap
    requires Scanned(charset[..], size, charmap[..], mapSize, emptyChar0, chOffset, Built(dict, indices, true))
    modifies charset
    ensures Scanned(charset[..], size + 1, charmap[..], mapSize, emptyChar, chOffset,
                    Built(dict + [curChar[..]], indices, true))
  {
    ghost var before := charset[..];
    StoreChar(curChar, charset, size);
    emptyChar := emptyChar0;
    if emptyChar < 0 {
      var any := ContainsAnyBits(curChar);
      if !any {
        emptyChar := size;
      }
    }
    ScanStore(before, charset[..], size, charmap[..], mapSize, emptyChar0, emptyChar, chOffset, dict, indices, curChar[..]);
  }

  /**
   * Looks the cell in `curChar` up, stores it as a new character while the
   * set has room, and writes its label to the map: the inner loop body of
   * the scan.
   */
  method RecordCell(curChar: array<byte>, charset: array<byte>, charmap: array<byte>,
                    size0: nat, mapSize0: nat, emptyChar0: int, chOffset: int, ghost done: seq<seq<byte>>)
    returns (size: nat, mapSize: nat, emptyChar: int, step: Step)
    requires curChar.Length == 8 && charset.Length == 8 * CharsetChars && charmap.Length == CharmapCells
    requires curChar != charset && curChar != charmap && charset != charmap
    requires Build(done, CharsetChars).complete
    requires Scanned(charset[..], size0, charmap[..], mapSize0, emptyChar0, chOffset, Build(done, CharsetChars))
    modifies charset, charmap
    ensures var st := Build(done + [curChar[..]], CharsetChars);
      && (step == SetFull <==> !st.complete)
      && (step == MapFull ==> st.complete && |st.indices| > CharmapCells)
      && (step != MapFull ==> Scanned(charset[..], size, charmap[..], mapSize, emptyChar, chOffset, st))
  {
    ghost var cell := curChar[..];
    ghost var prev := Build(done, CharsetChars);
    assert prev == Built(prev.dict, prev.indices, true);
    BuildStep(done, cell, CharsetChars);
    size, mapSize, emptyChar := size0, mapSize0, emptyChar0;
    var ch := FindInCharset(curChar, charset, size);
    ghost var dict := prev.dict;
    if ch == size {
      if size * 8 < charset.Length {
        emptyChar := AddChar(curChar, charset, charmap, size, mapSize, emptyChar, chOffset, prev.dict, prev.indices);
        dict := prev.dict + [cell];
        size := size + 1;
      } else {
        return size, mapSize, emptyChar, SetFull;
      }
    }
    if mapSize == charmap.Length {
      return size, mapSize, emptyChar, MapFull;
    }
    ghost var map0 := charmap[..];
    charmap[mapSize] := ToByte(ch + chOffset);
    assert charmap[..] == map0[mapSize := Label(ch, chOffset)];
    ScanLabel(charset[..], size, map0, charmap[..], mapSize, emptyChar, chOffset, dict, prev.indices, ch);
    mapSize := mapSize + 1;
    step := Recorded;
  }

  /**
   * Scans the cells row by row, left to right, recording each; a new cell
   * that finds the set full ends the scan (Java reports it and leaves both
   * loops), and a cell that finds the map full is Java's exception.
   */
  method ScanCells(s: Settings, r: Raster, charset: array<byte>, charmap: array<byte>)
    returns (size: nat, mapSize: nat, emptyChar: int, overflow: bool, stopped: bool)
    requires s.Valid() && r.Valid()
    requires charset.Length == 8 * CharsetChars && charmap.Length == CharmapCells && charset != charmap
    modifies charset, charmap
    ensures var st := Build(ImageCells(s, r), CharsetChars);
      && (overflow <==> |st.indices| > CharmapCells)
      && (!overflow ==> Scanned(charset[..], size, charmap[..], mapSize, emptyChar, s.chOffset, st))
      && (!overflow ==> (stopped <==> !st.complete))
  {
    var curChar := new byte[8](_ => 0);
    ghost var done: seq<seq<byte>> := [];
    size, mapSize, emptyChar, overflow := 0, 0, -1, false;
    var cy := 0;
    ghost var row := 0;
    var step := Recorded;
    while cy + 8 <= r.height && step == Recorded
      invariant cy == 8 * row && cy <= r.height
      invariant step == Recorded ==> done == Cells(s, r, row) && Build(done, CharsetChars).complete
      invariant step != Recorded ==> done <= ImageCells(s, r)
      invariant step == SetFull <==> !Build(done, CharsetChars).complete
      invariant step == MapFull ==> |Build(done, CharsetChars).indices| > CharmapCells
      invariant step != MapFull ==> Scanned(charset[..], size, charmap[..], mapSize, emptyChar, s.chOffset, Build(done, CharsetChars))
    {
      size, mapSize, emptyChar, step, done := ScanRow(s, r, cy, charset, charmap, curChar, size, mapSize, emptyChar, row, done);
      cy, row := cy + 8, row + 1;
    }
    overflow, stopped := step == MapFull, step == SetFull;
    ScanEnd(s, r, charset[..], size, charmap[..], mapSize, emptyChar, step, row, done);
  }

  /**
   * Scans the row of cells at `cy`, left to right: `Recorded` when the whole
   * row was recorded, otherwise the step that ended the scan, with the cells
   * looked at so far.
   */
  method ScanRow(s: Settings, r: Raster, cy: nat, charset: array<byte>, charmap: array<byte>, curChar: array<byte>,
                 size0: nat, mapSize0: nat, emptyChar0: int, ghost row: nat, ghost done0: seq<seq<byte>>)
    returns (size: nat, mapSize: nat, emptyChar: int, step: Step, ghost done: seq<seq<byte>>)
    requires s.Valid() && r.Valid() && cy == 8 * row && cy + 8 <= r.height
    requires charset.Length == 8 * CharsetChars && charmap.Length == CharmapCells && curChar.Length == 8
    requires curChar != charset && curChar != charmap && charset != charmap
    requires done0 == Cells(s, r, row) && Build(done0, CharsetChars).complete
    requires Scanned(charset[..], size0, charmap[..], mapSize0, emptyChar0, s.chOffset, Build(done0, CharsetChars))
    modifies charset, charmap, curChar
    ensures step == Recorded ==> done == Cells(s, r, row + 1) && Build(done, CharsetChars).complete
    ensures step != Recorded ==> done <= ImageCells(s, r)
    ensures step == SetFull <==> !Build(done, CharsetChars).complete
    ensures step == MapFull ==> |Build(done, CharsetChars).indices| > CharmapCells
    ensures step != MapFull ==> Scanned(charset[..], size, charmap[..], mapSize, emptyChar, s.chOffset, Build(done, CharsetChars))
  {
    CellBytes(s.pixelWidth);
    size, mapSize, emptyChar, step, done := size0, mapSize0, emptyChar0, Recorded, done0;
    var cx := 0;
    ghost var col := 0;
    while cx + 8 <= r.width && step == Recorded
      invariant cx == 8 * col && cx <= r.width
      invariant step == Recorded ==> done == Cells(s, r, row) + RowCells(s, r, cy, col)
      invariant step != Recorded ==> done <= ImageCells(s, r)
      invariant step == SetFull <==> !Build(done, CharsetChars).complete
      invariant step == MapFull ==> |Build(done, CharsetChars).indices| > CharmapCells
      invariant step != MapFull ==> Scanned(charset[..], size, charmap[..], mapSize, emptyChar, s.chOffset, Build(done, CharsetChars))
    {
      size, mapSize, emptyChar, step, done := ScanCell(s, r, cx, cy, row, col, charset, charmap, curChar,
                                                       size, mapSize, emptyChar, done);
      cx, col := cx + 8, col + 1;
    }
    if step == Recorded {
      assert col == r.width / 8;
      CellsUnfold(s, r, row, cy);
    }
  }

  /** Reads the cell at column `col` of row `row` into `curChar` and records it. */
  method ScanCell(s: Settings, r: Raster, cx: nat, cy: nat, ghost row: nat, ghost col: nat,
                  charset: array<byte>, charmap: array<byte>, curChar: array<byte>,
                  size0: nat, mapSize0: nat, emptyChar0: int, ghost done0: seq<seq<byte>>)
    returns (size: nat, mapSize: nat, emptyChar: int, step: Step, ghost done: seq<seq<byte>>)
    requires s.Valid() && r.Valid() && cx == 8 * col && cy == 8 * row && cy + 8 <= r.height && cx + 8 <= r.width
    requires charset.Length == 8 * CharsetChars && charmap.Length == CharmapCells && curChar.Length == 8
    requires curChar != charset && curChar != charmap && charset != charmap
    requires done0 == Cells(s, r, row) + RowCells(s, r, 8 * row, col) && Build(done0, CharsetChars).complete
    requires Scanned(charset[..], size0, charmap[..], mapSize0, emptyChar0, s.chOffset, Build(done0, CharsetChars))
    modifies charset, charmap, curChar
    ensures done == Cells(s, r, row) + RowCells(s, r, 8 * row, col + 1) && done <= ImageCells(s, r)
    ensures step == SetFull <==> !Build(done, CharsetChars).complete
    ensures step == MapFull ==> |Build(done, CharsetChars).indices| > CharmapCells
    ensures step != MapFull ==> Scanned(charset[..], size, charmap[..], mapSize, emptyChar, s.chOffset, Build(done, CharsetChars))
  {
    ExtractObject(s, r, cx, cy, 8, 8, curChar);
    assert curChar[..] == Cell(s, r, cx, cy);
    size, mapSize, emptyChar, step := RecordCell(curChar, charset, charmap, size0, mapSize0, emptyChar0, s.chOffset, done0);
    ScanPrefix(s, r, row, col);
    done := done0 + [curChar[..]];
  }

  /** The scan's outcome once the rows are done or a step ended it. */
  lemma ScanEnd(s: Settings, r: Raster, charset: seq<byte>, size: nat, charmap: seq<byte>, mapSize: nat, emptyChar: int,
                step: Step, row: nat, done: seq<seq<byte>>)
    requires s.Valid() && r.Valid() && |charmap| == CharmapCells
    requires step == Recorded ==> 8 * row <= r.height < 8 * row + 8 && done == Cells(s, r, row)
    requires step != Recorded ==> done <= ImageCells(s, r)
    requires step == SetFull <==> !Build(done, CharsetChars).complete
    requires step == MapFull ==> |Build(done, CharsetChars).indices| > CharmapCells
    requires step != MapFull ==> Scanned(charset, size, charmap, mapSize, emptyChar, s.chOffset, Build(done, CharsetChars))
    ensures var st := Build(ImageCells(s, r), CharsetChars);
      && (step == MapFull <==> |st.indices| > CharmapCells)
      && (step != MapFull ==> Scanned(charset, size, charmap, mapSize, emptyChar, s.chOffset, st))
      && (step != MapFull ==> (step == SetFull <==> !st.complete))
  {
    if step == MapFull {
      ScanOverflow(done, ImageCells(s, r));
    } else {
      if step == SetFull {
        ScanStopped(done, ImageCells(s, r));
      } else {
        assert row == r.height / 8;
      }
      ScanFinish(charset, size, charmap, mapSize, emptyChar, s.chOffset, done, ImageCells(s, r));
    }
  }

  /** A scan that overflowed the map on a prefix of the cells overflows it on all of them. */
  lemma ScanOverflow(done: seq<seq<byte>>, all: seq<seq<byte>>)
    requires done <= all && |Build(done, CharsetChars).indices| > CharmapCells
    ensures |Build(all, CharsetChars).indices| > CharmapCells
  {
    BuildMonotone(done, all[|done|..], CharsetChars);
    assert done + all[|done|..] == all;
  }

  /** A scan that stopped on a prefix of the cells ends as a build over all of them. */
  lemma ScanStopped(done: seq<seq<byte>>, all: seq<seq<byte>>)
    requires done <= all && !Build(done, CharsetChars).complete
    ensures Build(done, CharsetChars) == Build(all, CharsetChars)
  {
    BuildStopped(done, all[|done|..], CharsetChars);
    assert done + all[|done|..] == all;
  }

  /** The scan's final state, restated for the build over all cells. */
  lemma ScanFinish(charset: seq<byte>, size: nat, charmap: seq<byte>, mapSize: nat, emptyChar: int, chOffset: int,
                   done: seq<seq<byte>>, all: seq<seq<byte>>)
    requires |charmap| == CharmapCells
    requires Scanned(charset, size, charmap, mapSize, emptyChar, chOffset, Build(done, CharsetChars))
    requires Build(done, CharsetChars) == Build(all, CharsetChars)
    ensures |Build(all, CharsetChars).indices| <= CharmapCells
    ensures Scanned(charset, size, charmap, mapSize, emptyChar, chOffset, Build(all, CharsetChars))
  {
  }
  // ----- Promotion and output -----

  /**
   * Character set contents after the promotion writes: slot 0 cleared, slot
   * `e` holding what slot 0 held, every other byte as before.
   */
  ghost predicate PromotedBytes(before: seq<byte>, after: seq<byte>, e: nat)
  {
    && |after| == |before| && e * 8 + 8 <= |before|
    && (forall k :: 0 <= k < 8 ==> after[k] == 0 && after[e * 8 + k] == before[k])
    && (forall k :: 8 <= k < |before| && !(e * 8 <= k < e * 8 + 8) ==> after[k] == before[k])
  }

  /** Byte `j` of character `i` after the promotion writes is that byte of the exchanged characters. */
  lemma PromotedAt(before: seq<byte>, after: seq<byte>, size: nat, e: nat, i: nat, j: nat)
    requires 0 < e < size && size * 8 <= |before| && PromotedBytes(before, after, e)
    requires Chunks(before, 8, size)[e] == Blank
    requires i < size && j < 8
    ensures Chunks(after, 8, size)[i][j] == SwapFirst(Chunks(before, 8, size), e)[i][j]
  {
    ChunksAt(after, 8, size, i, j);
    if i == 0 {
      ChunksAt(before, 8, size, e, j);
    } else if i == e {
      ChunksAt(before, 8, size, 0, j);
    } else {
      ChunksAt(before, 8, size, i, j);
    }
  }

  /** When slot `e` held the empty character, the promotion writes exchange characters 0 and `e`. */
  lemma PromotedChunks(before: seq<byte>, after: seq<byte>, size: nat, e: nat)
    requires 0 < e < size && size * 8 <= |before| && PromotedBytes(before, after, e)
    requires Chunks(before, 8, size)[e] == Blank
    ensures Chunks(after, 8, size) == SwapFirst(Chunks(before, 8, size), e)
  {
    var d', w := Chunks(after, 8, size), SwapFirst(Chunks(before, 8, size), e);
    forall i | 0 <= i < size
      ensures d'[i] == w[i]
    {
      forall j | 0 <= j < 8
        ensures d'[i][j] == w[i][j]
      {
        PromotedAt(before, after, size, e, i, j);
      }
    }
  }

  /**
   * Moves the empty character `e` to the front of the set: character 0 is
   * copied into slot `e`, which held the empty character, and slot 0 is
   * cleared.
   */
  method MoveEmptyChar(charset: array<byte>, size: nat, e: nat)
    requires 0 < e < size && size * 8 <= charset.Length
    requires Chunks(charset[..], 8, size)[e] == Blank
    modifies charset
    ensures Chunks(charset[..], 8, size) == SwapFirst(old(Chunks(charset[..], 8, size)), e)
  {
    ghost var before := charset[..];
    forall k | 0 <= k < 8 {
      charset[e * 8 + k] := charset[k];
    }
    forall k | 0 <= k < 8 {
      charset[k] := 0;
    }
    assert PromotedBytes(before, charset[..], e);
    PromotedChunks(before, charset[..], size, e);
  }

  /** Exchanges the map labels of characters 0 and `e` in the first `mapSize` map entries. */
  method RelabelMap(charmap: array<byte>, mapSize: nat, e: nat, chOffset: int)
    requires mapSize <= charmap.Length
    modifies charmap
    ensures charmap[..mapSize] == RelabelAll(old(charmap[..mapSize]), e, chOffset)
    ensures charmap[mapSize..] == old(charmap[mapSize..])
  {
    var i := 0;
    while i < mapSize
      invariant i <= mapSize
      invariant forall k :: 0 <= k < i ==> charmap[k] == Relabel(old(charmap[k]), e, chOffset)
      invariant forall k :: i <= k < charmap.Length ==> charmap[k] == old(charmap[k])
    {
      if charmap[i] == ToByte(chOffset) {
        charmap[i] := ToByte(e + chOffset);
      } else if charmap[i] == ToByte(e + chOffset) {
        charmap[i] := ToByte(chOffset);
      }
      i := i + 1;
    }
    assert forall k :: 0 <= k < mapSize ==> charmap[..mapSize][k] == RelabelAll(old(charmap[..mapSize]), e, chOffset)[k];
  }

  /** The scan's state gives the map's labels, and, without promotion, the conversion's set and map. */
  lemma ScannedLabels(charset: seq<byte>, size: nat, charmap: seq<byte>, mapSize: nat, emptyChar: int, chOffset: int,
                      st: Built<byte>)
    requires Scanned(charset, size, charmap, mapSize, emptyChar, chOffset, st)
    ensures charmap[..mapSize] == Labels(st.indices, chOffset)
    ensures emptyChar > 0 ==> emptyChar < size && Chunks(charset, 8, size)[emptyChar] == Blank
    ensures emptyChar <= 0 ==> Chunks(charset, 8, size) == PromotedDict(st.dict)
    ensures emptyChar <= 0 ==> charmap[..mapSize] == PromotedLabels(st.dict, st.indices, chOffset)
  {
    assert forall k :: 0 <= k < mapSize ==> charmap[..mapSize][k] == Labels(st.indices, chOffset)[k];
  }

  /** After the promotion, the set and the map are those the conversion describes. */
  lemma PromotionMatches(dict: seq<seq<byte>>, indices: seq<nat>, chOffset: int, e: int,
                         chunks: seq<seq<byte>>, labels: seq<byte>)
    requires e == EmptyIndex(dict) && e > 0
    requires chunks == SwapFirst(dict, e) && labels == RelabelAll(Labels(indices, chOffset), e, chOffset)
    ensures chunks == PromotedDict(dict) && labels == PromotedLabels(dict, indices, chOffset)
  {
  }

  /**
   * Promotes the empty character found by the scan, when there is one and it
   * is not already character 0, in both the set and the map.
   */
  method PromoteEmptyChar(charset: array<byte>, size: nat, charmap: array<byte>, mapSize: nat, emptyChar: int,
                          chOffset: int, ghost st: Built<byte>)
    requires charset != charmap
    requires Scanned(charset[..], size, charmap[..], mapSize, emptyChar, chOffset, st)
    modifies charset, charmap
    ensures Chunks(charset[..], 8, size) == PromotedDict(st.dict)
    ensures charmap[..mapSize] == PromotedLabels(st.dict, st.indices, chOffset)
  {
    ScannedLabels(charset[..], size, charmap[..], mapSize, emptyChar, chOffset, st);
    if emptyChar > 0 {
      MoveEmptyChar(charset, size, emptyChar);
      RelabelMap(charmap, mapSize, emptyChar, chOffset);
      PromotionMatches(st.dict, st.indices, chOffset, emptyChar, Chunks(charset[..], 8, size), charmap[..mapSize]);
    }
  }

  /** Lists the first `size` characters of the set in rows of 8 bytes and the map in rows of `wrap` entries. */
  method ListCharmap(charset: array<byte>, size: nat, charmap: array<byte>, mapSize: nat, wrap: nat)
    returns (charsetText: string, charmapText: string)
    requires size * 8 <= charset.Length && mapSize <= charmap.Length && wrap > 0
    ensures charsetText == Rows(Concat(Chunks(charset[..], 8, size)), 8)
    ensures charmapText == Rows(charmap[..mapSize], wrap)
  {
    ChunksConcat(charset[..], 8, size);
    assert charset[..][..size * 8] == charset[..size * 8];
    charsetText := AppendByteRows("", charset, size * 8, 8);
    assert "" + Rows(charset[..size * 8], 8) == Rows(charset[..size * 8], 8);
    charmapText := AppendByteRows("", charmap, mapSize, wrap);
    assert "" + Rows(charmap[..mapSize], wrap) == Rows(charmap[..mapSize], wrap);
  }

  /**
   * Charset mode of one image: scans the cells, promotes the empty
   * character, and lists the character set and the map (the map in rows of
   * `width / 8` entries).
   */
  method ConvertCharset(s: Settings, r: Raster) returns (res: Result<Charmap, CharsetFailure>)
    requires s.Valid() && s.CharMode() && r.Valid()
    ensures res == CharsetConversion(s, r)
  {
    var charset := new byte[8 * CharsetChars](_ => 0);
    var charmap := new byte[CharmapCells](_ => 0);
    var size, mapSize, emptyChar, overflow, stopped := ScanCells(s, r, charset, charmap);
    if overflow {
      return Err(ScreenOverflow);
    }
    ghost var st := Build(ImageCells(s, r), CharsetChars);
    PromoteEmptyChar(charset, size, charmap, mapSize, emptyChar, s.chOffset, st);
    var wrap := r.width / 8;
    if wrap == 0 {
      return Err(NarrowImage);
    }
    var charsetText, charmapText := ListCharmap(charset, size, charmap, mapSize, wrap);
    res := Ok(Charmap(charsetText, charmapText, size, mapSize, !stopped, OverflowWarning(size, s.chOffset)));
  }

  // ----- Proof helpers: sequence identities the proofs above cite step by step -----

  /** A prefix of the part after `a` gives a prefix of the whole. */
  lemma PrefixChain<T>(a: seq<T>, b: seq<T>, c: seq<T>, e: seq<T>, d: seq<T>)
    requires b <= c && e == a + c && e <= d
    ensures a + b <= d
  {
    assert (a + b) == (a + c)[..|a + b|];
  }
}
