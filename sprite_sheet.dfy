/**
 * Sprite mode of the sprite converter (no `-chXX` offset): the image is cut
 * into 24x21 blocks, rows of blocks starting at the `-syXX` offset, each block
 * is packed into a 64-byte sprite (63 bytes of pixels and one padding byte),
 * and every sprite with a bit set is listed with its number and position.
 */
module SpriteSheet {
  import opened Bytes
  import opened SpriteSettings
  import opened PixelEncoding
  import opened ByteRows

  /** A listed sprite: its number, its top-left pixel, and its `!byte` rows. */
  datatype Sprite = Sprite(nr: nat, x: nat, y: nat, text: string)

  /** A non-empty block found on the sheet: where it is and its 64 bytes. */
  datatype Found = Found(x: nat, y: nat, bytes: seq<byte>)

  /**
   * The 64 bytes of the sprite whose top-left pixel is (x, y): the packed
   * block, then the padding byte, which no block writes and so stays zero.
   */
  function SpriteBytes(s: Settings, r: Raster, x: nat, y: nat): (bytes: seq<byte>)
    requires s.Valid() && r.Valid() && x + 24 <= r.width && y + 21 <= r.height
    ensures |bytes| == 64
  {
    PackedObjectLength(s, r, x, y, 24, 21);
    CellBytes(s.pixelWidth);
    PackCodes(ObjectCodes(s, r, x, y, 24, 21), s.pixelWidth) + [0]
  }

  /** The non-empty sprites of the block row at `y`, from column `x` rightwards. */
  function RowFrom(s: Settings, r: Raster, x: nat, y: nat): seq<Found>
    requires s.Valid() && r.Valid() && y + 21 <= r.height
    decreases r.width - x
  {
    if x + 24 <= r.width then
      var bytes := SpriteBytes(s, r, x, y);
      (if AllZero(bytes) then [] else [Found(x, y, bytes)]) + RowFrom(s, r, x + 24, y)
    else []
  }

  /** The non-empty sprites of the block rows from `y` downwards, row by row. */
  function SheetFrom(s: Settings, r: Raster, y: nat): seq<Found>
    requires s.Valid() && r.Valid()
    decreases r.height - y
  {
    if y + 21 <= r.height then RowFrom(s, r, 0, y) + SheetFrom(s, r, y + 21) else []
  }

  /** The listing of the found sprites, numbered from 0 in the order found. */
  function Listing(found: seq<Found>): (sprites: seq<Sprite>)
    ensures |sprites| == |found|
  {
    seq(|found|, k requires 0 <= k < |found| => Sprite(k, found[k].x, found[k].y, Rows(found[k].bytes, 24)))
  }

  /** What the sprite conversion of an image lists. */
  function SpriteConversion(s: Settings, r: Raster): (sprites: seq<Sprite>)
    requires s.Valid() && r.Valid()
    ensures forall k :: 0 <= k < |sprites| ==> sprites[k].nr == k
  {
    Listing(SheetFrom(s, r, s.syOffset))
  }

  // ----- Properties of the sheet -----

  /** `b` is reached from `a` in steps of `m` that each leave room for a whole block before `limit`. */
  predicate Steps(a: int, b: int, m: nat, limit: int)
    decreases limit - a
  {
    m > 0 && a + m <= limit && (b == a || Steps(a + m, b, m, limit))
  }

  /** A positive multiple of `m` is at least `m`, and less `m` it is still a multiple. */
  lemma MultipleStep(d: int, m: nat)
    requires m > 0 && d > 0 && d % m == 0
    ensures d >= m && (d - m) % m == 0
  {
    DivModUnique(d - m, m, d / m - 1, 0);
  }

  /** A multiple of `m` plus `m` is still a multiple. */
  lemma MultipleAdd(d: int, m: nat)
    requires m > 0 && d % m == 0
    ensures (d + m) % m == 0
  {
    DivModUnique(d + m, m, d / m + 1, 0);
  }

  /** The loop positions from `a`: the multiples of `m` above `a` that leave room for a block. */
  lemma {:induction false} StepsExact(a: int, b: int, m: nat, limit: int)
    requires m > 0
    ensures Steps(a, b, m, limit) <==> a <= b && (b - a) % m == 0 && b + m <= limit
    decreases limit - a
  {
    if a + m <= limit && b != a {
      StepsExact(a + m, b, m, limit);
      if a <= b && (b - a) % m == 0 {
        MultipleStep(b - a, m);
      }
      if a + m <= b && (b - (a + m)) % m == 0 {
        MultipleAdd(b - (a + m), m);
      }
    }
  }

  /** Block (x, y) lies on the grid of 24x21 blocks whose rows start at `y0`. */
  predicate OnSheet(r: Raster, y0: nat, x: nat, y: nat)
  {
    x + 24 <= r.width && y + 21 <= r.height && Steps(0, x, 24, r.width) && Steps(y0, y, 21, r.height)
  }

  /** The grid in plain arithmetic: columns at multiples of 24, rows 21 apart from `y0`, all inside the image. */
  lemma OnSheetGrid(r: Raster, y0: nat, x: nat, y: nat)
    ensures OnSheet(r, y0, x, y) <==>
      x % 24 == 0 && x + 24 <= r.width && y0 <= y && (y - y0) % 21 == 0 && y + 21 <= r.height
  {
    StepsExact(0, x, 24, r.width);
    StepsExact(y0, y, 21, r.height);
  }

  /** Sprite `a` comes before sprite `b` in row-major order. */
  predicate Before(a: Found, b: Found)
  {
    a.y < b.y || (a.y == b.y && a.x < b.x)
  }

  /** The row from `x` unfolds into the block at `x` and the row from `x + 24`. */
  lemma RowUnfold(s: Settings, r: Raster, x: nat, y: nat)
    requires s.Valid() && r.Valid() && y + 21 <= r.height && x + 24 <= r.width
    ensures var bytes := SpriteBytes(s, r, x, y);
      RowFrom(s, r, x, y) == (if AllZero(bytes) then [] else [Found(x, y, bytes)]) + RowFrom(s, r, x + 24, y)
  {
  }

  /** Every sprite of the row from `x` lies in the row, a whole number of blocks from `x`, and holds that non-empty block. */
  lemma {:induction false} RowSound(s: Settings, r: Raster, x: nat, y: nat)
    requires s.Valid() && r.Valid() && y + 21 <= r.height
    ensures forall f :: f in RowFrom(s, r, x, y) ==>
      && f.y == y && x <= f.x && f.x + 24 <= r.width && Steps(x, f.x, 24, r.width)
      && f.bytes == SpriteBytes(s, r, f.x, y) && !AllZero(f.bytes)
    decreases r.width - x
  {
    if x + 24 <= r.width {
      RowSound(s, r, x + 24, y);
      RowUnfold(s, r, x, y);
      var rest := RowFrom(s, r, x + 24, y);
      forall f | f in RowFrom(s, r, x, y)
        ensures f.y == y && x <= f.x && f.x + 24 <= r.width && Steps(x, f.x, 24, r.width)
        ensures f.bytes == SpriteBytes(s, r, f.x, y) && !AllZero(f.bytes)
      {
        if f !in rest {
          assert f == Found(x, y, SpriteBytes(s, r, x, y));
        }
      }
    }
  }

  /** The sprites of the row from `x` lie at or after `x` and run left to right. */
  lemma {:induction false} RowOrdered(s: Settings, r: Raster, x: nat, y: nat)
    requires s.Valid() && r.Valid() && y + 21 <= r.height
    ensures var row := RowFrom(s, r, x, y);
      && (forall k :: 0 <= k < |row| ==> x <= row[k].x)
      && (forall k, l :: 0 <= k < l < |row| ==> row[k].x < row[l].x)
    decreases r.width - x
  {
    if x + 24 <= r.width {
      RowOrdered(s, r, x + 24, y);
      RowUnfold(s, r, x, y);
      var rest := RowFrom(s, r, x + 24, y);
      var row := RowFrom(s, r, x, y);
      if !AllZero(SpriteBytes(s, r, x, y)) {
        assert row == [Found(x, y, SpriteBytes(s, r, x, y))] + rest;
        forall k | 0 < k < |row|
          ensures row[k] == rest[k - 1]
        {
        }
      }
    }
  }

  /** Every block of the row from `x` with a bit set, a whole number of blocks from `x`, is found. */
  lemma {:induction false} RowComplete(s: Settings, r: Raster, x: nat, y: nat, x': nat)
    requires s.Valid() && r.Valid() && y + 21 <= r.height
    requires x' + 24 <= r.width && Steps(x, x', 24, r.width) && !AllZero(SpriteBytes(s, r, x', y))
    ensures var row := RowFrom(s, r, x, y);
      exists k :: 0 <= k < |row| && row[k].x == x'
    decreases r.width - x
  {
    RowUnfold(s, r, x, y);
    var row := RowFrom(s, r, x, y);
    if x' == x {
      assert row[0].x == x';
    } else {
      RowComplete(s, r, x + 24, y, x');
      var rest := RowFrom(s, r, x + 24, y);
      var k :| 0 <= k < |rest| && rest[k].x == x';
      var h := |row| - |rest|;
      assert row[h + k] == rest[k];
    }
  }

  /** The sheet from `y0` unfolds into the row at `y0` and the sheet from `y0 + 21`. */
  lemma SheetUnfold(s: Settings, r: Raster, y0: nat)
    requires s.Valid() && r.Valid() && y0 + 21 <= r.height
    ensures SheetFrom(s, r, y0) == RowFrom(s, r, 0, y0) + SheetFrom(s, r, y0 + 21)
  {
  }

  /** Every sprite of the sheet from `y0` lies on the grid and holds that non-empty block. */
  lemma {:induction false} SheetSound(s: Settings, r: Raster, y0: nat)
    requires s.Valid() && r.Valid()
    ensures forall f :: f in SheetFrom(s, r, y0) ==>
      && y0 <= f.y && OnSheet(r, y0, f.x, f.y)
      && f.bytes == SpriteBytes(s, r, f.x, f.y) && !AllZero(f.bytes)
    decreases r.height - y0
  {
    if y0 + 21 <= r.height {
      SheetSound(s, r, y0 + 21);
      RowSound(s, r, 0, y0);
      SheetUnfold(s, r, y0);
      var row := RowFrom(s, r, 0, y0);
      forall f | f in SheetFrom(s, r, y0)
        ensures y0 <= f.y && OnSheet(r, y0, f.x, f.y)
        ensures f.bytes == SpriteBytes(s, r, f.x, f.y) && !AllZero(f.bytes)
      {
        if f in row {
          assert f.y == y0 && Steps(0, f.x, 24, r.width);
        }
      }
    }
  }

  /** The sprites of `found` run in row-major order. */
  predicate Ordered(found: seq<Found>)
  {
    forall k, l :: 0 <= k < l < |found| ==> Before(found[k], found[l])
  }

  /** Two runs in row-major order, the first wholly before the second, join into one. */
  lemma OrderedConcat(a: seq<Found>, b: seq<Found>)
    requires Ordered(a) && Ordered(b)
    requires forall f, g :: f in a && g in b ==> Before(f, g)
    ensures Ordered(a + b)
  {
    var ab := a + b;
    forall k, l | 0 <= k < l < |ab|
      ensures Before(ab[k], ab[l])
    {
      if l < |a| {
        assert ab[k] == a[k] && ab[l] == a[l];
      } else if k < |a| {
        assert ab[k] == a[k] && ab[l] == b[l - |a|];
        assert a[k] in a && b[l - |a|] in b;
      } else {
        assert ab[k] == b[k - |a|] && ab[l] == b[l - |a|];
      }
    }
  }

  /** The sprites of the sheet from `y0` run in row-major order. */
  lemma {:induction false} SheetOrdered(s: Settings, r: Raster, y0: nat)
    requires s.Valid() && r.Valid()
    ensures Ordered(SheetFrom(s, r, y0))
    decreases r.height - y0
  {
    if y0 + 21 <= r.height {
      SheetOrdered(s, r, y0 + 21);
      SheetSound(s, r, y0 + 21);
      RowSound(s, r, 0, y0);
      RowOrdered(s, r, 0, y0);
      SheetUnfold(s, r, y0);
      var row := RowFrom(s, r, 0, y0);
      assert Ordered(row) by {
        forall k, l | 0 <= k < l < |row|
          ensures Before(row[k], row[l])
        {
          assert row[k] in row && row[l] in row;
        }
      }
      OrderedConcat(row, SheetFrom(s, r, y0 + 21));
    }
  }

  /** Every block on the grid of the sheet from `y0` with a bit set is found. */
  lemma {:induction false} SheetComplete(s: Settings, r: Raster, y0: nat, x: nat, y: nat)
    requires s.Valid() && r.Valid()
    requires OnSheet(r, y0, x, y) && !AllZero(SpriteBytes(s, r, x, y))
    ensures var sheet := SheetFrom(s, r, y0);
      exists k :: 0 <= k < |sheet| && sheet[k].x == x && sheet[k].y == y
    decreases r.height - y0
  {
    SheetUnfold(s, r, y0);
    var row := RowFrom(s, r, 0, y0);
    var sheet := SheetFrom(s, r, y0);
    if y == y0 {
      RowComplete(s, r, 0, y0, x);
      RowSound(s, r, 0, y0);
      var k :| 0 <= k < |row| && row[k].x == x;
      assert sheet[k] == row[k] && row[k] in row;
    } else {
      SheetComplete(s, r, y0 + 21, x, y);
      var rest := SheetFrom(s, r, y0 + 21);
      var k :| 0 <= k < |rest| && rest[k].x == x && rest[k].y == y;
      assert sheet[|row| + k] == rest[k];
    }
  }

  /**
   * The sheet from `y0`: every sprite found lies on the grid, holds that
   * block's bytes and has a bit set; every block on the grid with a bit set
   * is found; and the sprites run in row-major order, so no block is listed
   * twice.
   */
  lemma SheetExact(s: Settings, r: Raster, y0: nat)
    requires s.Valid() && r.Valid()
    ensures var sheet := SheetFrom(s, r, y0);
      && (forall k :: 0 <= k < |sheet| ==>
            OnSheet(r, y0, sheet[k].x, sheet[k].y)
            && sheet[k].bytes == SpriteBytes(s, r, sheet[k].x, sheet[k].y) && !AllZero(sheet[k].bytes))
      && (forall x, y :: OnSheet(r, y0, x, y) && !AllZero(SpriteBytes(s, r, x, y)) ==>
            exists k :: 0 <= k < |sheet| && sheet[k].x == x && sheet[k].y == y)
      && Ordered(sheet)
  {
    var sheet := SheetFrom(s, r, y0);
    SheetSound(s, r, y0);
    SheetOrdered(s, r, y0);
    assert forall k :: 0 <= k < |sheet| ==> sheet[k] in sheet;
    forall x, y | OnSheet(r, y0, x, y) && !AllZero(SpriteBytes(s, r, x, y))
      ensures exists k :: 0 <= k < |sheet| && sheet[k].x == x && sheet[k].y == y
    {
      SheetComplete(s, r, y0, x, y);
    }
  }

  /**
   * The listing of the conversion: sprite `k` is numbered `k`, sits on the
   * grid, and lists a block with a bit set; every such block is listed; and
   * the listing runs in row-major order.
   */
  lemma SpriteConversionExact(s: Settings, r: Raster)
    requires s.Valid() && r.Valid()
    ensures var sprites := SpriteConversion(s, r);
      && (forall k :: 0 <= k < |sprites| ==>
            && sprites[k].nr == k && OnSheet(r, s.syOffset, sprites[k].x, sprites[k].y)
            && !AllZero(SpriteBytes(s, r, sprites[k].x, sprites[k].y))
            && sprites[k].text == Rows(SpriteBytes(s, r, sprites[k].x, sprites[k].y), 24))
      && (forall x, y :: OnSheet(r, s.syOffset, x, y) && !AllZero(SpriteBytes(s, r, x, y)) ==>
            exists k :: 0 <= k < |sprites| && sprites[k].x == x && sprites[k].y == y)
      && (forall k, l :: 0 <= k < l < |sprites| ==>
            sprites[k].y < sprites[l].y || (sprites[k].y == sprites[l].y && sprites[k].x < sprites[l].x))
  {
    var sheet := SheetFrom(s, r, s.syOffset);
    SheetExact(s, r, s.syOffset);
    var sprites := SpriteConversion(s, r);
    forall x, y | OnSheet(r, s.syOffset, x, y) && !AllZero(SpriteBytes(s, r, x, y))
      ensures exists k :: 0 <= k < |sprites| && sprites[k].x == x && sprites[k].y == y
    {
      var k :| 0 <= k < |sheet| && sheet[k].x == x && sheet[k].y == y;
      assert sprites[k].x == x && sprites[k].y == y;
    }
    forall k, l | 0 <= k < l < |sprites|
      ensures sprites[k].y < sprites[l].y || (sprites[k].y == sprites[l].y && sprites[k].x < sprites[l].x)
    {
      assert Before(sheet[k], sheet[l]);
    }
  }

  /** Listing one more sprite appends it, numbered by the count before it. */
  lemma ListingAppend(found: seq<Found>, f: Found)
    ensures Listing(found + [f]) == Listing(found) + [Sprite(|found|, f.x, f.y, Rows(f.bytes, 24))]
  {
    var a, b := Listing(found + [f]), Listing(found) + [Sprite(|found|, f.x, f.y, Rows(f.bytes, 24))];
    assert forall k :: 0 <= k < |a| ==> a[k] == b[k];
  }

  // ----- The conversion loop -----

  /**
   * Sprite mode of one image: every 24x21 block of the rows from the `-syXX`
   * offset is extracted into one reused 64-byte buffer and listed when a bit
   * is set.
   */
  method ConvertSprites(s: Settings, r: Raster) returns (sprites: seq<Sprite>)
    requires s.Valid() && !s.CharMode() && r.Valid()
    ensures sprites == SpriteConversion(s, r)
  {
    var sprite := new byte[64](_ => 0);
    ghost var found: seq<Found> := [];
    sprites := [];
    var sy := s.syOffset;
    while sy + 21 <= r.height
      invariant sprite[63] == 0
      invariant found + SheetFrom(s, r, sy) == SheetFrom(s, r, s.syOffset)
      invariant sprites == Listing(found)
      decreases r.height - sy
    {
      ghost var before := found;
      sprites, found := ConvertSpriteRow(s, r, sy, sprite, sprites, found);
      SheetUnfold(s, r, sy);
      AppendAssoc(before, RowFrom(s, r, 0, sy), SheetFrom(s, r, sy + 21));
      sy := sy + 21;
    }
    assert found + [] == found;
  }

  /** One row of blocks: appends the row's non-empty sprites to the listing. */
  method ConvertSpriteRow(s: Settings, r: Raster, sy: nat, sprite: array<byte>, sprites0: seq<Sprite>,
                          ghost found0: seq<Found>)
    returns (sprites: seq<Sprite>, ghost found: seq<Found>)
    requires s.Valid() && r.Valid() && sy + 21 <= r.height
    requires sprite.Length == 64 && sprite[63] == 0 && sprites0 == Listing(found0)
    modifies sprite
    ensures sprite[63] == 0
    ensures found == found0 + RowFrom(s, r, 0, sy) && sprites == Listing(found)
  {
    sprites, found := sprites0, found0;
    var sx := 0;
    while sx + 24 <= r.width
      invariant sprite[63] == 0 && sprites == Listing(found)
      invariant found + RowFrom(s, r, sx, sy) == found0 + RowFrom(s, r, 0, sy)
      decreases r.width - sx
    {
      ghost var before := found;
      sprites, found := ListSprite(s, r, sx, sy, sprite, sprites, found);
      RowUnfold(s, r, sx, sy);
      AppendAssoc(before, found[|before|..], RowFrom(s, r, sx + 24, sy));
      sx := sx + 24;
    }
  }

  /** `a + b + c` regrouped, where `b` is what was appended to `a`. */
  lemma AppendAssoc<T>(a: seq<T>, b: seq<T>, c: seq<T>)
    ensures (a + b) + c == a + (b + c)
  {
  }

  /**
   * The block at (sx, sy): extracts it into the buffer and, when a bit is
   * set, lists it with the next number.
   */
  method ListSprite(s: Settings, r: Raster, sx: nat, sy: nat, sprite: array<byte>, sprites0: seq<Sprite>,
                    ghost found0: seq<Found>)
    returns (sprites: seq<Sprite>, ghost found: seq<Found>)
    requires s.Valid() && r.Valid() && sx + 24 <= r.width && sy + 21 <= r.height
    requires sprite.Length == 64 && sprite[63] == 0 && sprites0 == Listing(found0)
    modifies sprite
    ensures sprite[63] == 0 && sprites == Listing(found)
    ensures var bytes := SpriteBytes(s, r, sx, sy);
      found == found0 + (if AllZero(bytes) then [] else [Found(sx, sy, bytes)])
  {
    CellBytes(s.pixelWidth);
    ExtractObject(s, r, sx, sy, 24, 21, sprite);
    assert sprite[..] == SpriteBytes(s, r, sx, sy);
    var any := ContainsAnyBits(sprite);
    sprites, found := sprites0, found0;
    if any {
      var text := AppendByteRows("", sprite, 64, 24);
      assert sprite[..64] == sprite[..];
      assert "" + Rows(sprite[..], 24) == Rows(sprite[..], 24);
      ListingAppend(found, Found(sx, sy, sprite[..]));
      sprites := sprites + [Sprite(|sprites|, sx, sy, text)];
      found := found + [Found(sx, sy, sprite[..])];
    }
  }
}
