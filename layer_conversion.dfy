/**
 * The conversion of one LDtk tile layer: the tile loop, the character
 * compaction, and the three listings (tile map, tile planes, optimized
 * character set) with the note on where the characters go.
 */
module LayerConversion {
  import opened Wrappers
  import opened Bytes
  import opened BlockDictionary
  import opened ByteRows
  import opened TileSettings
  import opened TileLayer
  import opened CharCompaction

  /** The note printed above the character set, by the `-chXX[YY]` settings. */
  datatype CharNote =
    | NoNote
    | CharsStartAt(start: int)                  // characters start at index XX
    | CharsStartAtEmptyAt(start: int, empty: int) // characters start at XX, character 0 goes to YY

  /** With YY the characters start at `chOffset + 1` and character 0 goes to YY; otherwise a nonzero offset is noted. */
  function CharsetNote(chOffset: int, chEmpty: int): CharNote
  {
    if chEmpty != -1 then CharsStartAtEmptyAt(chOffset + 1, chEmpty)
    else if chOffset != 0 then CharsStartAt(chOffset)
    else NoNote
  }

  /**
   * The note tells where the plane entries land: with YY, compacted character
   * 1 is written at the noted start and character 0 at the noted slot;
   * without YY, character 0 is written at the noted start (0 when there is no
   * note), and no slot is noted.
   */
  lemma NoteMatchesPlanes(chOffset: int, chEmpty: int)
    requires -1 <= chOffset < 256 && -1 <= chEmpty < 256
    ensures var note := CharsetNote(chOffset, chEmpty);
      && (chEmpty != -1 ==>
            && note.CharsStartAtEmptyAt?
            && PlaneEntry(0, chOffset, chEmpty) == note.empty
            && PlaneEntry(1, chOffset, chEmpty) == ToByte(note.start)
            && (chOffset < 255 ==> PlaneEntry(1, chOffset, chEmpty) == note.start))
      && (chEmpty == -1 ==> !note.CharsStartAtEmptyAt?)
      && (chEmpty == -1 && 0 <= chOffset ==>
            PlaneEntry(0, chOffset, -1) == if note.NoNote? then 0 else note.start)
  {
  }

  /** With `-chXXYY` the note says the characters start at XX and character 0 goes to YY. */
  lemma NoteOfPair(xx: nat, yy: nat)
    requires xx < 256 && yy < 256
    ensures CharsetNote(xx - 1, yy) == CharsStartAtEmptyAt(xx, yy)
  {
  }

  /** What a converted tile layer lists. */
  datatype TileOutput = TileOutput(
    tileMap: string,       // one byte per cell, `width` per row
    tiles: nat,            // distinct tiles
    tileWidth: nat,        // tile side in characters
    planes: seq<string>,   // per tile position, one entry per tile
    charset: string,       // the optimized character set, 8 bytes per row
    chars: nat,            // characters in it
    note: CharNote)

  /** Every tile the loop keeps is some cell's tile, so it has `TileSize()` characters. */
  lemma TileStageShape(layer: Layer, extract: (int, int) -> seq<int>)
    requires forall cx: int, cy: int :: |extract(cx, cy)| == layer.TileSize()
    requires TileStage(layer, extract).Ok?
    ensures var b := TileStage(layer, extract).value;
      |b.dict| <= TileCapacity && forall j :: 0 <= j < |b.dict| ==> |b.dict[j]| == layer.TileSize()
  {
    var tiles := LayerTiles(layer, extract, Scanned(layer));
    BuildSize(tiles, TileCapacity);
    BuildUniform(tiles, TileCapacity, layer.TileSize());
  }

  /** A character of a tile occurs in the tiles laid back to back. */
  lemma {:induction false} ConcatHas(dict: seq<seq<int>>, i: nat, c: nat)
    requires i < |dict| && c < |dict[i]|
    ensures dict[i][c] in Concat(dict)
  {
    var front := dict[..|dict| - 1];
    assert Concat(dict) == Concat(front) + dict[|dict| - 1];
    if i < |dict| - 1 {
      assert front[i] == dict[i];
      ConcatHas(front, i, c);
    }
  }

  /**
   * When compaction succeeds, every used character lies inside the
   * character set and every character of every tile has a number.
   */
  lemma CompactionShape(dict: seq<seq<int>>, tileSize: nat, charset: seq<byte>)
    requires |dict| <= TileCapacity && forall j :: 0 <= j < |dict| ==> |dict[j]| == tileSize
    requires CompactFailure(FlatTiles(dict, tileSize), |charset|).None?
    ensures var list := UsedChars(FlatTiles(dict, tileSize));
      && (forall d :: d in list ==> CharValid(d, |charset|))
      && (forall c :: 0 <= c < tileSize ==> Covered(dict, c, UsedMap(list)))
  {
    var flat := FlatTiles(dict, tileSize);
    var list := UsedChars(flat);
    UsedCharsSound(flat);
    forall d | d in list
      ensures CharValid(d, |charset|)
    {
      if d != 0 {
        var k :| 0 <= k < |flat| && flat[k] == d;
      }
    }
    forall c, i | 0 <= c < tileSize && 0 <= i < |dict|
      ensures dict[i][c] in UsedMap(list)
    {
      ConcatHas(dict, i, c);
      assert dict[i][c] in flat;
      assert dict[i][c] in list;
    }
  }

  /** What a tile set and its compaction must satisfy for the listings to exist. */
  ghost predicate Listable(layer: Layer, b: Built<int>, charset: seq<byte>)
  {
    && |b.dict| <= TileCapacity
    && (forall j :: 0 <= j < |b.dict| ==> |b.dict[j]| == layer.TileSize())
    && CompactFailure(FlatTiles(b.dict, layer.TileSize()), |charset|).None?
    && layer.width > 0
    && (|b.dict| > 0 || layer.TileSize() == 0)
  }

  /**
   * The listings of a converted layer: the tile map, one plane per tile
   * position, and the optimized character set of the used characters.
   */
  function Listings(layer: Layer, b: Built<int>, charset: seq<byte>, chOffset: int, chEmpty: int): (out: TileOutput)
    requires Listable(layer, b, charset)
    ensures |out.planes| == layer.TileSize() && out.tiles <= TileCapacity && out.chars >= 1
  {
    var tileSize := layer.TileSize();
    var list := UsedChars(FlatTiles(b.dict, tileSize));
    CompactionShape(b.dict, tileSize, charset);
    TileOutput(
      Rows(TileBytes(b.indices), layer.width),
      |b.dict|,
      layer.TileWidth(),
      seq(tileSize, c requires 0 <= c < tileSize => Rows(PlaneRow(b.dict, c, UsedMap(list), chOffset, chEmpty), |b.dict|)),
      Rows(Gathered(charset, list), 8),
      |list|,
      CharsetNote(chOffset, chEmpty))
  }

  /**
   * The conversion of one tile layer: the tile loop, the compaction of the
   * characters its tiles use, and the listings; or the exception that ends
   * it, in the order Java meets them.
   */
  function TileConversion(layer: Layer, extract: (int, int) -> seq<int>, charset: seq<byte>, chOffset: int, chEmpty: int)
    : (conversion: Result<TileOutput, TileFailure>)
    requires forall cx: int, cy: int :: |extract(cx, cy)| == layer.TileSize()
    ensures |layer.src| < layer.Cells() ==> conversion.Err?
    ensures conversion.Ok? ==> |conversion.value.planes| == layer.TileSize() && conversion.value.tiles <= TileCapacity
  {
    var stage := TileStage(layer, extract);
    if stage.Err? then Err(stage.error)
    else
      TileStageShape(layer, extract);
      CompactedConversion(layer, stage.value, charset, chOffset, chEmpty)
  }

  /** The conversion after a successful tile loop has numbered the tiles of `b`. */
  function CompactedConversion(layer: Layer, b: Built<int>, charset: seq<byte>, chOffset: int, chEmpty: int)
    : Result<TileOutput, TileFailure>
    requires |b.dict| <= TileCapacity && forall j :: 0 <= j < |b.dict| ==> |b.dict[j]| == layer.TileSize()
  {
    var failure := CompactFailure(FlatTiles(b.dict, layer.TileSize()), |charset|);
    if failure.Some? then Err(failure.value)
    else if layer.width == 0 then Err(ZeroWidth)
    else if |b.dict| == 0 && layer.TileSize() > 0 then Err(NoTiles)
    else Ok(Listings(layer, b, charset, chOffset, chEmpty))
  }

  /**
   * What compaction keeps of position `p` of tile `i`: the character there
   * has a number `n`, slot `n` of the optimized set holds exactly its 8
   * bytes, and number 0 is character 0 and nothing else.
   */
  lemma CompactionRoundTrip(dict: seq<seq<int>>, tileSize: nat, charset: seq<byte>, i: nat, p: nat)
    requires |dict| <= TileCapacity && forall j :: 0 <= j < |dict| ==> |dict[j]| == tileSize
    requires CompactFailure(FlatTiles(dict, tileSize), |charset|).None?
    requires i < |dict| && p < tileSize
    ensures var list := UsedChars(FlatTiles(dict, tileSize));
      var n := IndexOf(dict[i][p], list);
      && n < |list| && list[n] == dict[i][p] && (n == 0 <==> dict[i][p] == 0)
      && (forall d :: d in list ==> CharValid(d, |charset|))
      && Gathered(charset, list)[n * 8..n * 8 + 8] == CharBytes(charset, dict[i][p])
  {
    var flat := FlatTiles(dict, tileSize);
    var list := UsedChars(flat);
    CompactionShape(dict, tileSize, charset);
    ConcatHas(dict, i, p);
    assert dict[i][p] in flat;
    UsedCharNumber(flat, dict[i][p]);
    GatheredSlot(charset, list, IndexOf(dict[i][p], list));
  }

  /**
   * The entry of tile `i` in plane `p` is the number of the character at
   * position `p` of the tile, written with the `-chXX[YY]` rule.
   */
  lemma PlaneRoundTrip(dict: seq<seq<int>>, tileSize: nat, charset: seq<byte>, chOffset: int, chEmpty: int,
                       i: nat, p: nat)
    requires |dict| <= TileCapacity && forall j :: 0 <= j < |dict| ==> |dict[j]| == tileSize
    requires CompactFailure(FlatTiles(dict, tileSize), |charset|).None?
    requires i < |dict| && p < tileSize
    ensures var list := UsedChars(FlatTiles(dict, tileSize));
      && Covered(dict, p, UsedMap(list))
      && PlaneRow(dict, p, UsedMap(list), chOffset, chEmpty)[i] == PlaneEntry(ToByte(IndexOf(dict[i][p], list)), chOffset, chEmpty)
  {
    CompactionShape(dict, tileSize, charset);
  }

  // ----- The driver -----

  /** The tile set as the loop leaves it is the distinct tiles back to back, then zeros. */
  lemma FlatTilesOf(tileSet: seq<int>, size: nat, count: nat, dict: seq<seq<int>>)
    requires count <= TileCapacity && |tileSet| == size * TileCapacity && count * size <= |tileSet|
    requires Chunks(tileSet, size, count) == dict
    requires forall k :: count * size <= k < |tileSet| ==> tileSet[k] == 0
    ensures tileSet == FlatTiles(dict, size)
  {
    ChunksConcat(tileSet, size, count);
    assert size * TileCapacity - count * size == size * (TileCapacity - count);
    var tail := tileSet[count * size..];
    assert tail == Zeros(size * (TileCapacity - count));
    assert tileSet == tileSet[..count * size] + tail;
  }

  /** Lists the tile map and the optimized character set. */
  method ListLayer(tileMap: array<byte>, width: nat, optimized: array<byte>, chars: nat)
    returns (tileMapText: string, charsetText: string)
    requires width > 0 && chars * 8 <= optimized.Length
    ensures tileMapText == Rows(tileMap[..], width)
    ensures charsetText == Rows(optimized[..chars * 8], 8)
  {
    tileMapText := AppendByteRows("", tileMap, tileMap.Length, width);
    assert tileMap[..tileMap.Length] == tileMap[..];
    assert "" + Rows(tileMap[..], width) == Rows(tileMap[..], width);
    charsetText := AppendByteRows("", optimized, chars * 8, 8);
    assert "" + Rows(optimized[..chars * 8], 8) == Rows(optimized[..chars * 8], 8);
  }

  /** The tile map bytes written by the loop are the tile indices cut to bytes. */
  lemma TileMapBytes(tileMap: seq<byte>, indices: seq<nat>)
    requires |indices| == |tileMap|
    requires forall k :: 0 <= k < |indices| ==> tileMap[k] == ToByte(indices[k])
    ensures tileMap == TileBytes(indices)
  {
  }

  /**
   * What the tile loop and the compaction leave for the listings: the tile
   * map bytes, the tile set laid out flat, the optimized character set and
   * the numbering of the used characters.
   */
  ghost predicate Emittable(layer: Layer, b: Built<int>, charset: seq<byte>, tileMap: seq<byte>, flat: seq<int>,
                            count: nat, optimized: seq<byte>, chars: nat, used: map<int, byte>)
  {
    && Listable(layer, b, charset)
    && tileMap == TileBytes(b.indices)
    && flat == FlatTiles(b.dict, layer.TileSize())
    && count == |b.dict| && count * layer.TileSize() <= |flat|
    && Chunks(flat, layer.TileSize(), count) == b.dict
    && chars == |UsedChars(flat)| && chars * 8 <= |optimized|
    && used == UsedMap(UsedChars(flat))
    && (forall c :: c in UsedChars(flat) ==> CharValid(c, |charset|))
    && optimized[..chars * 8] == Gathered(charset, UsedChars(flat))
  }

  /** Listings assembled from the parts the driver emits are the layer's listings. */
  lemma ListingsOf(layer: Layer, b: Built<int>, charset: seq<byte>, chOffset: int, chEmpty: int,
                   tileMap: seq<byte>, flat: seq<int>, count: nat, optimized: seq<byte>, chars: nat,
                   used: map<int, byte>, tileMapText: string, planes: seq<string>, charsetText: string)
    requires Emittable(layer, b, charset, tileMap, flat, count, optimized, chars, used)
    requires tileMapText == Rows(tileMap, layer.width)
    requires charsetText == Rows(optimized[..chars * 8], 8)
    requires |planes| == layer.TileSize()
    requires forall c :: 0 <= c < |planes| ==>
      Covered(Chunks(flat, layer.TileSize(), count), c, used)
      && planes[c] == Rows(PlaneRow(Chunks(flat, layer.TileSize(), count), c, used, chOffset, chEmpty), count)
    ensures TileOutput(tileMapText, count, layer.TileWidth(), planes, charsetText, chars, CharsetNote(chOffset, chEmpty))
      == Listings(layer, b, charset, chOffset, chEmpty)
  {
    var want := Listings(layer, b, charset, chOffset, chEmpty);
    forall c | 0 <= c < |planes|
      ensures planes[c] == want.planes[c]
    {
    }
  }

  /** Emits the listings of a layer whose tile loop and compaction succeeded. */
  method EmitLayer(layer: Layer, tileMap: array<byte>, tileSet: array<int>, count: nat, optimized: array<byte>,
                   chars: nat, used: map<int, byte>, chOffset: int, chEmpty: int, ghost b: Built<int>, ghost charset: seq<byte>)
    returns (out: TileOutput)
    requires Emittable(layer, b, charset, tileMap[..], tileSet[..], count, optimized[..], chars, used)
    ensures out == Listings(layer, b, charset, chOffset, chEmpty)
  {
    var tileSize := layer.TileSize();
    UsedCovers(tileSet[..]);
    var tileMapText, charsetText := ListLayer(tileMap, layer.width, optimized, chars);
    var planes := EmitPlanes(tileSet, tileSize, count, used, chOffset, chEmpty);
    ListingsOf(layer, b, charset, chOffset, chEmpty, tileMap[..], tileSet[..], count, optimized[..], chars,
               used, tileMapText, planes, charsetText);
    out := TileOutput(tileMapText, count, layer.TileWidth(), planes, charsetText, chars, CharsetNote(chOffset, chEmpty));
  }

  /** What the tile loop and the compaction leave is what the listings need. */
  lemma EmittableOf(layer: Layer, b: Built<int>, charset: seq<byte>, tileMap: seq<byte>, flat: seq<int>, count: nat,
                    optimized: seq<byte>, chars: nat, used: map<int, byte>)
    requires Listable(layer, b, charset)
    requires |b.indices| == |tileMap| && |flat| == layer.TileSize() * TileCapacity
    requires TilesScanned(flat, layer.TileSize(), count, tileMap, b)
    requires forall c :: c in UsedChars(flat) ==> CharValid(c, |charset|)
    requires chars == |UsedChars(flat)| && chars * 8 <= |optimized| && used == UsedMap(UsedChars(flat))
    requires optimized[..chars * 8] == Gathered(charset, UsedChars(flat))
    ensures Emittable(layer, b, charset, tileMap, flat, count, optimized, chars, used)
  {
    FlatTilesOf(flat, layer.TileSize(), count, b.dict);
    TileMapBytes(tileMap, b.indices);
  }

  /**
   * Converts one tile layer with the current `-chXX[YY]` settings: the tile
   * loop, the compaction, then the tile map, the tile planes and the
   * optimized character set. `extract` stands for the tileset's character
   * map (Java's `extractTile`), `charset` for its character set.
   */
  method ConvertLayer(layer: Layer, extract: (int, int) -> seq<int>, charset: array<byte>, options: TileOptions)
    returns (res: Result<TileOutput, TileFailure>)
    requires forall cx: int, cy: int :: |extract(cx, cy)| == layer.TileSize()
    ensures res == TileConversion(layer, extract, charset[..], options.chOffset, options.chEmpty)
  {
    var tileMap, tileSet, count, failure := BuildTiles(layer, extract);
    if failure.Some? {
      return Err(failure.value);
    }
    ghost var b := TileStage(layer, extract).value;
    var tileSize := layer.TileSize();
    TileStageShape(layer, extract);
    assert TileConversion(layer, extract, charset[..], options.chOffset, options.chEmpty)
      == CompactedConversion(layer, b, charset[..], options.chOffset, options.chEmpty);
    FlatTilesOf(tileSet[..], tileSize, count, b.dict);
    var optimized, chars, used, failure2 := CompactChars(tileSet, charset);
    if failure2.Some? {
      return Err(failure2.value);
    }
    if layer.width == 0 {
      return Err(ZeroWidth);
    }
    if count == 0 && tileSize > 0 {
      return Err(NoTiles);
    }
    BuildSize(LayerTiles(layer, extract, Scanned(layer)), TileCapacity);
    EmittableOf(layer, b, charset[..], tileMap[..], tileSet[..], count, optimized[..], chars, used);
    var out := EmitLayer(layer, tileMap, tileSet, count, optimized, chars, used, options.chOffset, options.chEmpty,
                         b, charset[..]);
    res := Ok(out);
  }
}
