/**
 * The tile loop of the LDtk tile converter: every cell of a tile layer names
 * the top-left pixel of its tile in the tileset; the tile's characters are
 * extracted, identical tiles share one entry of a 256-tile set, and the tile
 * map lists each cell's tile index.
 */
module TileLayer {
  import opened Wrappers
  import opened Bytes
  import opened BlockDictionary

  /**
   * A tile layer: its size in cells, its grid size in pixels, and per cell
   * the `src` pixel coordinates of its tile in the tileset (`gridTiles`).
   */
  datatype Layer = Layer(width: nat, height: nat, gridSize: nat, src: seq<(int, int)>)
  {
    /** Tile side in characters: Java's `gridSize / 8`. */
    function TileWidth(): nat
    {
      gridSize / 8
    }

    /** Characters per tile. */
    function TileSize(): nat
    {
      TileWidth() * TileWidth()
    }

    /** Cells of the tile map. */
    function Cells(): nat
    {
      width * height
    }
  }

  /** The tile set holds 256 tiles. */
  const TileCapacity: nat := 256

  /** Java's `int` division, which truncates toward zero. */
  function JavaDiv(a: int, d: nat): (q: int)
    requires d > 0
    ensures a >= 0 ==> 0 <= a - q * d < d
    ensures a < 0 ==> -(d as int) < a - q * d <= 0
  {
    if a >= 0 then a / d else -((-a) / d)
  }

  /** Truncating division agrees with Dafny's on non-negative operands and is odd in the dividend. */
  lemma JavaDivSymmetric(a: int, d: nat)
    requires d > 0
    ensures JavaDiv(-a, d) == -JavaDiv(a, d)
    ensures a >= 0 ==> 0 <= JavaDiv(a, d) <= a
  {
    if a > 0 {
      assert JavaDiv(-a, d) == -(a / d);
      DivBelow(a, d);
    } else if a < 0 {
      assert JavaDiv(-a, d) == (-a) / d;
    }
  }

  /**
   * The tiles of the first `n` cells: the characters `extract` gives for the
   * cell's source pixel divided by 8 (the tileset's character grid).
   */
  function LayerTiles(layer: Layer, extract: (int, int) -> seq<int>, n: nat): (tiles: seq<seq<int>>)
    requires n <= |layer.src|
    ensures |tiles| == n
  {
    seq(n, i requires 0 <= i < n => extract(JavaDiv(layer.src[i].0, 8), JavaDiv(layer.src[i].1, 8)))
  }

  /** The first `n + 1` cells' tiles are the first `n` cells' tiles and one more. */
  lemma LayerTilesSnoc(layer: Layer, extract: (int, int) -> seq<int>, n: nat)
    requires n < |layer.src|
    ensures LayerTiles(layer, extract, n + 1)
      == LayerTiles(layer, extract, n) + [extract(JavaDiv(layer.src[n].0, 8), JavaDiv(layer.src[n].1, 8))]
  {
    var a, b := LayerTiles(layer, extract, n + 1),
      LayerTiles(layer, extract, n) + [extract(JavaDiv(layer.src[n].0, 8), JavaDiv(layer.src[n].1, 8))];
    assert forall i :: 0 <= i < n + 1 ==> a[i] == b[i];
  }

  /** Cells whose tiles the loop looks at before it ends: all of them, or as many as `gridTiles` lists. */
  function Scanned(layer: Layer): nat
  {
    if |layer.src| < layer.Cells() then |layer.src| else layer.Cells()
  }

  /** Why a tile layer produces no output (Java raises an exception). */
  datatype TileFailure =
    | TooManyTiles   // a 257th distinct tile: the tile set array overflows
    | MissingTiles   // fewer `gridTiles` than cells
    | ShortCharset   // the character set holds no character 0
    | BadChar        // a tile names a character outside the character set
    | ZeroWidth      // rows of zero tile-map entries divide by zero
    | NoTiles        // tile planes of zero entries divide by zero

  /** The tile map entries of the tile indices: Java's `(byte)tilenr`. */
  function TileBytes(indices: seq<nat>): (bytes: seq<byte>)
    ensures |bytes| == |indices|
  {
    seq(|indices|, k requires 0 <= k < |indices| => ToByte(indices[k]))
  }

  /** The tile set as the loop leaves it: the distinct tiles back to back, then zeros up to 256 tiles. */
  function FlatTiles(dict: seq<seq<int>>, tileSize: nat): (flat: seq<int>)
    requires |dict| <= TileCapacity
  {
    Concat(dict) + Zeros(tileSize * (TileCapacity - |dict|))
  }

  /** `n` zeros. */
  function Zeros(n: nat): (z: seq<int>)
    ensures |z| == n && forall k :: 0 <= k < n ==> z[k] == 0
  {
    seq(n, _ => 0)
  }

  /** The tile loop's outcome: the tile set, or the exception that ends it. */
  function TileStage(layer: Layer, extract: (int, int) -> seq<int>): (stage: Result<Built<int>, TileFailure>)
    ensures stage.Ok? ==> |stage.value.dict| <= TileCapacity && |stage.value.indices| == layer.Cells()
    ensures |layer.src| < layer.Cells() ==> stage.Err?
  {
    BuildSize(LayerTiles(layer, extract, Scanned(layer)), TileCapacity);
    var b := Build(LayerTiles(layer, extract, Scanned(layer)), TileCapacity);
    if !b.complete then Err(TooManyTiles)
    else if |layer.src| < layer.Cells() then Err(MissingTiles)
    else Ok(b)
  }

  /**
   * A successful tile loop looks at every cell, numbers each cell's tile
   * below 256 so that its map byte is its index, and finds that tile there.
   */
  lemma TileStageSound(layer: Layer, extract: (int, int) -> seq<int>)
    requires TileStage(layer, extract).Ok?
    ensures var b := TileStage(layer, extract).value;
      var tiles := LayerTiles(layer, extract, layer.Cells());
      && |b.indices| == layer.Cells() && |b.dict| <= TileCapacity && Distinct(b.dict)
      && (forall k :: 0 <= k < layer.Cells() ==>
            b.indices[k] < |b.dict| && TileBytes(b.indices)[k] == b.indices[k] && b.dict[b.indices[k]] == tiles[k])
  {
    var b := TileStage(layer, extract).value;
    BuildSound(LayerTiles(layer, extract, layer.Cells()), TileCapacity);
    forall k | 0 <= k < layer.Cells()
      ensures TileBytes(b.indices)[k] == b.indices[k]
    {
      assert b.indices[k] < 256;
    }
  }

  // ----- The loop -----

  /** The index of the first of `tileCount` tiles of `tileset` equal to `tile`, or `tileCount` when none is. */
  method FindTile(tile: array<int>, tileset: array<int>, tileCount: nat) returns (i: nat)
    requires tileCount * tile.Length <= tileset.Length
    ensures i == Find(tile[..], Chunks(tileset[..], tile.Length, tileCount))
  {
    ghost var dict := Chunks(tileset[..], tile.Length, tileCount);
    var size := tile.Length;
    i := 0;
    while i < tileCount
      invariant i <= tileCount
      invariant forall m :: 0 <= m < i ==> dict[m] != tile[..]
    {
      MulBound(i, tileCount, size);
      var same := BlockMatches(tile, tileset, i * size);
      ChunkMatch(tileset[..], size, tileCount, i, i * size, tile[..]);
      if same {
        return i;
      }
      i := i + 1;
    }
  }

  /** Tile `i` of `count` ends within the first `count` tiles. */
  lemma MulBound(i: nat, count: nat, size: nat)
    requires i < count
    ensures i * size + size <= count * size
  {
    assert (i + 1) * size <= count * size by {
      if size > 0 {
        MulMono(i + 1, count, size);
      }
    }
  }

  /**
   * What the tile loop's arrays hold once the tiles of the first
   * `|st.indices|` cells are looked up: the distinct tiles in the first
   * `count` slots of the set, zeros after them, and each looked-up cell's
   * tile index in the map.
   */
  ghost predicate TilesScanned(tileSet: seq<int>, tileSize: nat, count: nat, tileMap: seq<byte>, st: Built<int>)
  {
    && count == |st.dict| && count * tileSize <= |tileSet|
    && Chunks(tileSet, tileSize, count) == st.dict
    && (forall k :: count * tileSize <= k < |tileSet| ==> tileSet[k] == 0)
    && |st.indices| <= |tileMap|
    && (forall k :: 0 <= k < |st.indices| ==> tileMap[k] == ToByte(st.indices[k]))
  }

  /** Copies the extracted tile into the tile buffer (Java's `extractTile` writing into `tile`). */
  method LoadTile(t: seq<int>, tile: array<int>)
    requires |t| == tile.Length
    modifies tile
    ensures tile[..] == t
  {
    forall k | 0 <= k < tile.Length {
      tile[k] := t[k];
    }
  }

  /** Copies `tile` into tile slot `slot` of the set (Java's `System.arraycopy`). */
  method StoreTile(tile: array<int>, tileSet: array<int>, slot: nat)
    requires slot * tile.Length + tile.Length <= tileSet.Length && tile != tileSet
    modifies tileSet
    ensures tileSet[..slot * tile.Length] == old(tileSet[..slot * tile.Length])
    ensures tileSet[slot * tile.Length..slot * tile.Length + tile.Length] == tile[..]
    ensures tileSet[slot * tile.Length + tile.Length..] == old(tileSet[slot * tile.Length + tile.Length..])
  {
    forall k | 0 <= k < tile.Length {
      tileSet[slot * tile.Length + k] := tile[k];
    }
  }

  /** Storing a new tile in the free slot after `count` tiles adds it to the set and keeps the zeros after it. */
  lemma TilesStore(tileSet: seq<int>, tileSet': seq<int>, tileSize: nat, count: nat, tileMap: seq<byte>,
                   dict: seq<seq<int>>, indices: seq<nat>, tile: seq<int>)
    requires TilesScanned(tileSet, tileSize, count, tileMap, Built(dict, indices, true))
    requires |tile| == tileSize && count * tileSize + tileSize <= |tileSet| == |tileSet'|
    requires tileSet'[..count * tileSize] == tileSet[..count * tileSize]
    requires tileSet'[count * tileSize..count * tileSize + tileSize] == tile
    requires tileSet'[count * tileSize + tileSize..] == tileSet[count * tileSize + tileSize..]
    ensures TilesScanned(tileSet', tileSize, count + 1, tileMap, Built(dict + [tile], indices, true))
  {
    var hi := count * tileSize + tileSize;
    assert (count + 1) * tileSize == hi;
    StoredChunks(tileSet, tileSet', tileSize, count, dict, tile);
    StoredZeros(tileSet, tileSet', hi);
  }

  /** The tile written after the first `count` tiles becomes tile `count`, and those before it stay. */
  lemma StoredChunks(tileSet: seq<int>, tileSet': seq<int>, tileSize: nat, count: nat, dict: seq<seq<int>>,
                     tile: seq<int>)
    requires count * tileSize + tileSize <= |tileSet| == |tileSet'| && |tile| == tileSize
    requires Chunks(tileSet, tileSize, count) == dict
    requires tileSet'[..count * tileSize] == tileSet[..count * tileSize]
    requires tileSet'[count * tileSize..count * tileSize + tileSize] == tile
    ensures Chunks(tileSet', tileSize, count + 1) == dict + [tile]
  {
    assert (count + 1) * tileSize == count * tileSize + tileSize;
    ChunksPrefix(tileSet, tileSet', tileSize, count);
    forall i | 0 <= i < count + 1
      ensures Chunks(tileSet', tileSize, count + 1)[i] == (dict + [tile])[i]
    {
      if i < count {
        ChunksGrow(tileSet', tileSize, count, i);
      } else {
        ChunksLast(tileSet', tileSize, count);
      }
    }
  }

  /** The zeros after position `hi` survive a write that leaves that suffix alone. */
  lemma StoredZeros(tileSet: seq<int>, tileSet': seq<int>, hi: nat)
    requires hi <= |tileSet| == |tileSet'| && tileSet'[hi..] == tileSet[hi..]
    requires forall k :: hi <= k < |tileSet| ==> tileSet[k] == 0
    ensures forall k :: hi <= k < |tileSet'| ==> tileSet'[k] == 0
  {
    forall k | hi <= k < |tileSet'|
      ensures tileSet'[k] == 0
    {
      assert tileSet'[k] == tileSet'[hi..][k - hi] == tileSet[hi..][k - hi];
    }
  }

  /** The first `count` tiles do not change when one more is read. */
  lemma ChunksGrow(flat: seq<int>, size: nat, count: nat, i: nat)
    requires (count + 1) * size <= |flat| && i < count
    ensures Chunks(flat, size, count + 1)[i] == Chunks(flat, size, count)[i]
  {
    var a, b := Chunks(flat, size, count + 1)[i], Chunks(flat, size, count)[i];
    forall j | 0 <= j < size
      ensures a[j] == b[j]
    {
      ChunksAt(flat, size, count + 1, i, j);
      ChunksAt(flat, size, count, i, j);
    }
  }

  /** The last of `count + 1` tiles is the slice after the first `count`. */
  lemma ChunksLast(flat: seq<int>, size: nat, count: nat)
    requires (count + 1) * size <= |flat|
    ensures Chunks(flat, size, count + 1)[count] == flat[count * size..count * size + size]
  {
    var a := Chunks(flat, size, count + 1)[count];
    forall j | 0 <= j < size
      ensures a[j] == flat[count * size..count * size + size][j]
    {
      ChunksAt(flat, size, count + 1, count, j);
    }
  }

  /** Writing the map byte of a cell whose tile is at `idx` records it. */
  lemma TilesLabel(tileSet: seq<int>, tileSize: nat, count: nat, tileMap: seq<byte>, tileMap': seq<byte>,
                   dict: seq<seq<int>>, indices: seq<nat>, idx: nat)
    requires TilesScanned(tileSet, tileSize, count, tileMap, Built(dict, indices, true))
    requires |indices| < |tileMap| && tileMap' == tileMap[|indices| := ToByte(idx)]
    ensures TilesScanned(tileSet, tileSize, count, tileMap', Built(dict, indices + [idx], true))
  {
  }

  /** How looking up one cell's tile ends. */
  datatype TileStep = Stored | Overflow

  /** Stores a new tile as tile `count` of the set. */
  method AddTile(tile: array<int>, tileSet: array<int>, tileMap: array<byte>, count: nat,
                 ghost dict: seq<seq<int>>, ghost indices: seq<nat>)
    requires tileSet.Length == tile.Length * TileCapacity && count < TileCapacity && tile != tileSet
    requires TilesScanned(tileSet[..], tile.Length, count, tileMap[..], Built(dict, indices, true))
    modifies tileSet
    ensures TilesScanned(tileSet[..], tile.Length, count + 1, tileMap[..], Built(dict + [tile[..]], indices, true))
  {
    ghost var before := tileSet[..];
    MulBound(count, TileCapacity, tile.Length);
    StoreTile(tile, tileSet, count);
    TilesStore(before, tileSet[..], tile.Length, count, tileMap[..], dict, indices, tile[..]);
  }

  /**
   * Looks one cell's tile up, stores it as a new tile while the set has
   * room, and writes its index to the map: the body of the tile loop.
   */
  method RecordTile(tile: array<int>, tileSet: array<int>, tileMap: array<byte>, count0: nat, cell: nat,
                    ghost done: seq<seq<int>>)
    returns (count: nat, step: TileStep)
    requires tileSet.Length == tile.Length * TileCapacity && cell < tileMap.Length
    requires tile != tileSet
    requires Build(done, TileCapacity).complete && cell == |Build(done, TileCapacity).indices|
    requires TilesScanned(tileSet[..], tile.Length, count0, tileMap[..], Build(done, TileCapacity))
    modifies tileSet, tileMap
    ensures var st := Build(done + [tile[..]], TileCapacity);
      && (step == Overflow <==> !st.complete)
      && (step == Stored ==> TilesScanned(tileSet[..], tile.Length, count, tileMap[..], st))
  {
    ghost var t := tile[..];
    ghost var size := tile.Length;
    ghost var prev := Build(done, TileCapacity);
    assert prev == Built(prev.dict, prev.indices, true);
    BuildStep(done, t, TileCapacity);
    BuildSize(done, TileCapacity);
    count := count0;
    assert count * size <= tileSet.Length;
    var tilenr := FindTile(tile, tileSet, count);
    ghost var dict := prev.dict;
    if tilenr == count {
      // Java's arraycopy overflows the 256-tile array exactly when the set is full.
      if count == TileCapacity {
        return count, Overflow;
      }
      AddTile(tile, tileSet, tileMap, count, prev.dict, prev.indices);
      dict := prev.dict + [t];
      count := count + 1;
    }
    ghost var map0 := tileMap[..];
    tileMap[cell] := ToByte(tilenr);
    assert tileMap[..] == map0[cell := ToByte(tilenr)];
    TilesLabel(tileSet[..], tile.Length, count, map0, tileMap[..], dict, prev.indices, tilenr);
    step := Stored;
  }

  /**
   * The tile loop: looks up every cell's tile in turn, from the cell's
   * source pixel divided by 8. A 257th distinct tile overflows the set, and a
   * cell beyond the listed `gridTiles` is missing; both are Java's exceptions.
   */
  method BuildTiles(layer: Layer, extract: (int, int) -> seq<int>)
    returns (tileMap: array<byte>, tileSet: array<int>, count: nat, failure: Option<TileFailure>)
    requires forall cx: int, cy: int :: |extract(cx, cy)| == layer.TileSize()
    ensures fresh(tileMap) && fresh(tileSet)
    ensures var stage := TileStage(layer, extract);
      && (stage.Err? <==> failure.Some?)
      && (stage.Err? ==> failure.value == stage.error)
      && (stage.Ok? ==>
            && tileMap.Length == layer.Cells() && tileSet.Length == layer.TileSize() * TileCapacity
            && TilesScanned(tileSet[..], layer.TileSize(), count, tileMap[..], stage.value))
  {
    var tileSize := layer.TileSize();
    tileMap := new byte[layer.Cells()](_ => 0);
    tileSet := new int[tileSize * TileCapacity](_ => 0);
    var tile := new int[tileSize](_ => 0);
    count := 0;
    var step := Stored;
    var i := 0;
    ghost var done: seq<seq<int>> := [];
    while i < tileMap.Length && i < |layer.src| && step == Stored
      invariant i <= Scanned(layer)
      invariant step == Stored ==> done == LayerTiles(layer, extract, i) && Build(done, TileCapacity).complete
      invariant step == Stored ==> |Build(done, TileCapacity).indices| == i
      invariant step == Stored ==> TilesScanned(tileSet[..], tileSize, count, tileMap[..], Build(done, TileCapacity))
      invariant step == Overflow ==> !Build(LayerTiles(layer, extract, Scanned(layer)), TileCapacity).complete
    {
      count, step, done := NextTile(layer, extract, i, tile, tileSet, tileMap, count, done);
      i := i + 1;
    }
    if step == Overflow {
      failure := Some(TooManyTiles);
    } else if i < tileMap.Length {
      failure := Some(MissingTiles);
    } else {
      failure := None;
    }
    TilesEnd(layer, extract, tileMap.Length, tileSet[..], count, tileMap[..], i, step == Overflow, failure, done);
  }

  /** Extracts the tile of cell `i` from its source pixel divided by 8 and records it. */
  method NextTile(layer: Layer, extract: (int, int) -> seq<int>, i: nat, tile: array<int>, tileSet: array<int>,
                  tileMap: array<byte>, count0: nat, ghost done0: seq<seq<int>>)
    returns (count: nat, step: TileStep, ghost done: seq<seq<int>>)
    requires forall cx: int, cy: int :: |extract(cx, cy)| == layer.TileSize()
    requires tile.Length == layer.TileSize() && tileSet.Length == tile.Length * TileCapacity
    requires tileMap.Length == layer.Cells() && i < tileMap.Length && i < |layer.src| && tile != tileSet
    requires done0 == LayerTiles(layer, extract, i) && Build(done0, TileCapacity).complete
    requires |Build(done0, TileCapacity).indices| == i
    requires TilesScanned(tileSet[..], tile.Length, count0, tileMap[..], Build(done0, TileCapacity))
    modifies tile, tileSet, tileMap
    ensures step == Stored ==> done == LayerTiles(layer, extract, i + 1) && Build(done, TileCapacity).complete
    ensures step == Stored ==> |Build(done, TileCapacity).indices| == i + 1
    ensures step == Stored ==> TilesScanned(tileSet[..], tile.Length, count, tileMap[..], Build(done, TileCapacity))
    ensures step == Overflow ==> !Build(LayerTiles(layer, extract, Scanned(layer)), TileCapacity).complete
  {
    var src := layer.src[i];
    var ctx := JavaDiv(src.0, 8);
    var cty := JavaDiv(src.1, 8);
    LoadTile(extract(ctx, cty), tile);
    ghost var t := tile[..];
    LayerTilesSnoc(layer, extract, i);
    assert LayerTiles(layer, extract, i + 1) == done0 + [t];
    count, step := RecordTile(tile, tileSet, tileMap, count0, i, done0);
    assert tile[..] == t;
    done := done0 + [t];
    if step == Overflow {
      TilesOverflow(layer, extract, i + 1);
    } else {
      BuildSize(done, TileCapacity);
    }
  }

  /** The tile loop's outcome once every cell is looked up, `gridTiles` ran out or the set overflowed. */
  lemma TilesEnd(layer: Layer, extract: (int, int) -> seq<int>, cells: nat, tileSet: seq<int>, count: nat,
                 tileMap: seq<byte>, i: nat, overflow: bool, failure: Option<TileFailure>, done: seq<seq<int>>)
    requires cells == layer.Cells() && i <= Scanned(layer)
    requires !overflow ==> i == cells || i == |layer.src|
    requires !overflow ==> done == LayerTiles(layer, extract, i) && Build(done, TileCapacity).complete
    requires !overflow ==> TilesScanned(tileSet, layer.TileSize(), count, tileMap, Build(done, TileCapacity))
    requires overflow ==> !Build(LayerTiles(layer, extract, Scanned(layer)), TileCapacity).complete
    requires failure == if overflow then Some(TooManyTiles) else if i < cells then Some(MissingTiles) else None
    ensures var stage := TileStage(layer, extract);
      && (stage.Err? <==> failure.Some?)
      && (stage.Err? ==> failure.value == stage.error)
      && (stage.Ok? ==> TilesScanned(tileSet, layer.TileSize(), count, tileMap, stage.value))
  {
    if !overflow {
      assert i == Scanned(layer);
    }
  }

  /** Once the tiles of the first `n` cells overflow the set, so do those of all the scanned cells. */
  lemma TilesOverflow(layer: Layer, extract: (int, int) -> seq<int>, n: nat)
    requires n <= Scanned(layer)
    requires !Build(LayerTiles(layer, extract, n), TileCapacity).complete
    ensures !Build(LayerTiles(layer, extract, Scanned(layer)), TileCapacity).complete
  {
    var all := LayerTiles(layer, extract, Scanned(layer));
    var front := LayerTiles(layer, extract, n);
    assert all == front + all[n..];
    BuildStopped(front, all[n..], TileCapacity);
  }

  // ----- Proof helpers: arithmetic facts the proofs above cite step by step -----

  /** Dividing a natural by a positive divisor does not make it larger. */
  lemma DivBelow(a: nat, d: nat)
    requires d > 0
    ensures 0 <= a / d <= a
  {
    var q, r := a / d, a % d;
    assert a == q * d + r && 0 <= r;
    assert q * d == q + q * (d - 1);
    assert q * (d - 1) >= 0 by { MulNonNeg(q, d - 1); }
  }

  /** A product of naturals is a natural. */
  lemma MulNonNeg(a: nat, b: nat)
    ensures a * b >= 0
  {
  }

  /** Multiplying by a natural keeps the order. */
  lemma MulMono(a: nat, b: nat, size: nat)
    requires a <= b
    ensures a * size <= b * size
  {
  }
}
