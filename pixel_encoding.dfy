/**
 * Pixel encoding of the sprite/charset converter: a palette index becomes a
 * 1-bit (hires) or 2-bit (multicolour) code, and the codes of an object are
 * shifted into bytes most significant bits first.
 */
module PixelEncoding {
  import opened Bytes
  import opened SpriteSettings

  /** A decoded indexed-colour image: `samples[y][x]` is the palette index at (x, y). */
  datatype Raster = Raster(width: nat, height: nat, samples: seq<seq<int>>)
  {
    predicate Valid()
    {
      |samples| == height && forall y :: 0 <= y < height ==> |samples[y]| == width
    }

    function Sample(x: nat, y: nat): int
      requires Valid() && x < width && y < height
    {
      samples[y][x]
    }
  }

  /**
   * The bit code of one pixel. Hires: with a foreground set, the foreground is
   * 1 and every other colour 0; otherwise the background is 0 and every other
   * colour 1. Multicolour: background 00, multicolour 1 01; multicolour 2 is 10
   * in a character and 11 in a sprite, and any other colour takes the code
   * that multicolour 2 does not. Earlier roles win when indices coincide.
   */
  function RemapPixel(s: Settings, pixel: int): (code: nat)
    requires s.Valid()
    ensures code < if s.pixelWidth == 1 then 2 else 4
  {
    if s.pixelWidth == 1 then
      if s.fgIndex >= 0 then (if pixel == s.fgIndex then 1 else 0)
      else (if pixel == s.bgIndex then 0 else 1)
    else if s.CharMode() then
      if pixel == s.bgIndex then 0
      else if pixel == s.mc1Index then 1
      else if pixel == s.mc2Index then 2
      else 3
    else
      if pixel == s.bgIndex then 0
      else if pixel == s.mc1Index then 1
      else if pixel == s.mc2Index then 3
      else 2
  }

  /** Hires: a set foreground is the only colour coded 1; otherwise the background is the only colour coded 0. */
  lemma HiresCodes(s: Settings, pixel: int)
    requires s.Valid() && s.pixelWidth == 1
    ensures RemapPixel(s, pixel) <= 1
    ensures s.fgIndex >= 0 ==> (RemapPixel(s, pixel) == 1 <==> pixel == s.fgIndex)
    ensures s.fgIndex < 0 ==> (RemapPixel(s, pixel) == 0 <==> pixel == s.bgIndex)
  {
  }

  /**
   * Multicolour: the background is always 00 and multicolour 1 always 01 (the
   * background winning when they coincide), whatever the object kind.
   */
  lemma MulticolourFixedCodes(s: Settings, pixel: int)
    requires s.Valid() && s.pixelWidth == 2
    ensures RemapPixel(s, pixel) < 4
    ensures RemapPixel(s, pixel) == 0 <==> pixel == s.bgIndex
    ensures RemapPixel(s, pixel) == 1 <==> pixel != s.bgIndex && pixel == s.mc1Index
  {
  }

  /** Exchanges the codes 10 and 11. */
  function SwapHighCodes(code: nat): nat
  {
    if code == 2 then 3 else if code == 3 then 2 else code
  }

  /**
   * The hardware asymmetry between the object kinds: with the same colours, a
   * character's multicolour codes are a sprite's with 10 and 11 exchanged;
   * in a character multicolour 2 is 10 and any unassigned colour 11.
   */
  lemma CharSpriteAsymmetry(s: Settings, pixel: int)
    requires s.Valid() && s.pixelWidth == 2 && s.CharMode()
    ensures var sprite := s.(chOffset := -1);
      RemapPixel(s, pixel) == SwapHighCodes(RemapPixel(sprite, pixel))
    ensures pixel != s.bgIndex && pixel != s.mc1Index ==>
      (RemapPixel(s, pixel) == 2 <==> pixel == s.mc2Index)
  {
  }

  /** Number of pixels sampled from one row: x = 0, w, 2w, ... below `width`. */
  function PixelsPerRow(width: nat, pixelWidth: nat): nat
    requires pixelWidth == 1 || pixelWidth == 2
  {
    if pixelWidth == 1 then width else (width + 1) / 2
  }

  /** `count * pixelWidth`: the x of the `count`-th sampled pixel, or the bits held by `count` codes. */
  function Scaled(count: nat, pixelWidth: nat): nat
  {
    if pixelWidth == 1 then count else 2 * count
  }

  /** Codes of the pixels sampled from row `y`, left to right. */
  function RowCodes(s: Settings, r: Raster, xoff: nat, y: nat, width: nat): (codes: seq<nat>)
    requires s.Valid() && r.Valid()
    requires xoff + width <= r.width && y < r.height
    ensures |codes| == PixelsPerRow(width, s.pixelWidth)
  {
    RowPrefix(s, r, xoff, y, width, PixelsPerRow(width, s.pixelWidth))
  }

  /** Codes of the first `n` pixels sampled from row `y`: those at x = xoff, xoff + w, ..., xoff + (n - 1) * w. */
  function RowPrefix(s: Settings, r: Raster, xoff: nat, y: nat, width: nat, n: nat): (codes: seq<nat>)
    requires s.Valid() && r.Valid()
    requires xoff + width <= r.width && y < r.height && n <= PixelsPerRow(width, s.pixelWidth)
    ensures |codes| == n
  {
    if n == 0 then []
    else RowPrefix(s, r, xoff, y, width, n - 1) + [RemapPixel(s, r.Sample(xoff + Scaled(n - 1, s.pixelWidth), y))]
  }

  /** The `j`-th code of a row is the code of the pixel at x = xoff + j * w, and all codes fit their pixel width. */
  lemma {:induction false} RowPrefixSampled(s: Settings, r: Raster, xoff: nat, y: nat, width: nat, n: nat)
    requires s.Valid() && r.Valid()
    requires xoff + width <= r.width && y < r.height && n <= PixelsPerRow(width, s.pixelWidth)
    ensures var codes := RowPrefix(s, r, xoff, y, width, n);
      forall j :: 0 <= j < n ==>
        xoff + Scaled(j, s.pixelWidth) < r.width && codes[j] == RemapPixel(s, r.Sample(xoff + Scaled(j, s.pixelWidth), y))
  {
    if n > 0 {
      RowPrefixSampled(s, r, xoff, y, width, n - 1);
    }
  }

  /** A shorter prefix of a row is a prefix of the whole row. */
  lemma {:induction false} RowPrefixPrefix(s: Settings, r: Raster, xoff: nat, y: nat, width: nat, i: nat, n: nat)
    requires s.Valid() && r.Valid()
    requires xoff + width <= r.width && y < r.height && i <= n == PixelsPerRow(width, s.pixelWidth)
    ensures RowPrefix(s, r, xoff, y, width, i) <= RowCodes(s, r, xoff, y, width)
  {
    RowPrefixGrows(s, r, xoff, y, width, i, n);
  }

  lemma {:induction false} RowPrefixGrows(s: Settings, r: Raster, xoff: nat, y: nat, width: nat, i: nat, n: nat)
    requires s.Valid() && r.Valid()
    requires xoff + width <= r.width && y < r.height && i <= n <= PixelsPerRow(width, s.pixelWidth)
    ensures RowPrefix(s, r, xoff, y, width, i) <= RowPrefix(s, r, xoff, y, width, n)
  {
    if i < n {
      RowPrefixGrows(s, r, xoff, y, width, i, n - 1);
    }
  }

  /** Codes of an object whose top-left pixel is (xoff, yoff), in row-major order. */
  function ObjectCodes(s: Settings, r: Raster, xoff: nat, yoff: nat, width: nat, height: nat): (codes: seq<nat>)
    requires s.Valid() && r.Valid()
    requires xoff + width <= r.width && yoff + height <= r.height
  {
    if height == 0 then []
    else ObjectCodes(s, r, xoff, yoff, width, height - 1) + RowCodes(s, r, xoff, yoff + height - 1, width)
  }

  /** Every code of an object fits in one pixel's bits. */
  predicate Fits(codes: seq<nat>, pixelWidth: nat)
  {
    forall k :: 0 <= k < |codes| ==> codes[k] < if pixelWidth == 1 then 2 else 4
  }

  /** Every code of an object fits its pixel width, and the object holds `ObjectBits` bits of codes. */
  lemma ObjectCodesFit(s: Settings, r: Raster, xoff: nat, yoff: nat, width: nat, height: nat)
    requires s.Valid() && r.Valid()
    requires xoff + width <= r.width && yoff + height <= r.height
    ensures Fits(ObjectCodes(s, r, xoff, yoff, width, height), s.pixelWidth)
    ensures Scaled(|ObjectCodes(s, r, xoff, yoff, width, height)|, s.pixelWidth) == ObjectBits(width, height, s.pixelWidth)
  {
    ObjectCodesFits(s, r, xoff, yoff, width, height);
    ObjectCodesBits(s, r, xoff, yoff, width, height);
  }

  lemma {:induction false} ObjectCodesFits(s: Settings, r: Raster, xoff: nat, yoff: nat, width: nat, height: nat)
    requires s.Valid() && r.Valid()
    requires xoff + width <= r.width && yoff + height <= r.height
    ensures Fits(ObjectCodes(s, r, xoff, yoff, width, height), s.pixelWidth)
  {
    if height > 0 {
      ObjectCodesFits(s, r, xoff, yoff, width, height - 1);
      var front := ObjectCodes(s, r, xoff, yoff, width, height - 1);
      var row := RowCodes(s, r, xoff, yoff + height - 1, width);
      assert ObjectCodes(s, r, xoff, yoff, width, height) == front + row;
      RowCodesFit(s, r, xoff, yoff + height - 1, width, PixelsPerRow(width, s.pixelWidth));
      FitsConcat(front, row, s.pixelWidth);
    }
  }

  lemma {:induction false} ObjectCodesBits(s: Settings, r: Raster, xoff: nat, yoff: nat, width: nat, height: nat)
    requires s.Valid() && r.Valid()
    requires xoff + width <= r.width && yoff + height <= r.height
    ensures Scaled(|ObjectCodes(s, r, xoff, yoff, width, height)|, s.pixelWidth) == ObjectBits(width, height, s.pixelWidth)
  {
    if height > 0 {
      ObjectCodesBits(s, r, xoff, yoff, width, height - 1);
      var n := |ObjectCodes(s, r, xoff, yoff, width, height - 1)|;
      var m := |RowCodes(s, r, xoff, yoff + height - 1, width)|;
      assert |ObjectCodes(s, r, xoff, yoff, width, height)| == n + m;
      assert Scaled(n + m, s.pixelWidth) == Scaled(n, s.pixelWidth) + Scaled(m, s.pixelWidth);
    }
  }

  /** Every code of a row fits its pixel width. */
  lemma {:induction false} RowCodesFit(s: Settings, r: Raster, xoff: nat, y: nat, width: nat, n: nat)
    requires s.Valid() && r.Valid()
    requires xoff + width <= r.width && y < r.height && n <= PixelsPerRow(width, s.pixelWidth)
    ensures Fits(RowPrefix(s, r, xoff, y, width, n), s.pixelWidth)
  {
    if n > 0 {
      RowCodesFit(s, r, xoff, y, width, n - 1);
      var c := RemapPixel(s, r.Sample(xoff + Scaled(n - 1, s.pixelWidth), y));
      FitsConcat(RowPrefix(s, r, xoff, y, width, n - 1), [c], s.pixelWidth);
    }
  }

  lemma FitsConcat(a: seq<nat>, b: seq<nat>, pixelWidth: nat)
    requires Fits(a, pixelWidth) && Fits(b, pixelWidth)
    ensures Fits(a + b, pixelWidth)
  {
    forall k | 0 <= k < |a + b|
      ensures (a + b)[k] < if pixelWidth == 1 then 2 else 4
    {
      if k < |a| { assert (a + b)[k] == a[k]; } else { assert (a + b)[k] == b[k - |a|]; }
    }
  }

  /** Codes that fill one byte. */
  function CodesPerByte(pixelWidth: nat): nat
    requires pixelWidth == 1 || pixelWidth == 2
  {
    if pixelWidth == 1 then 8 else 4
  }

  /**
   * One accumulator step, Java's `b <<= w; b |= code` on a `byte`: the shift
   * drops the bits that leave the byte, and the code fills the bits the shift
   * cleared.
   */
  function ShiftIn(b: byte, code: nat, pixelWidth: nat): (shifted: byte)
    requires pixelWidth == 1 || pixelWidth == 2
    ensures pixelWidth == 1 && code < 2 ==> shifted % 2 == code && shifted / 2 == b % 128
    ensures pixelWidth == 2 && code < 4 ==> shifted % 4 == code && shifted / 4 == b % 64
  {
    if pixelWidth == 1 then ShiftOne(b, code); (2 * b + code) % 256
    else ShiftTwo(b, code); (4 * b + code) % 256
  }

  /** Shifting one bit in: the top bit of `b` leaves the byte and the code fills bit 0. */
  lemma ShiftOne(b: byte, code: nat)
    ensures code < 2 ==> (2 * b + code) % 256 % 2 == code && (2 * b + code) % 256 / 2 == b % 128
  {
    if code < 2 {
      if b < 128 {
        assert (2 * b + code) % 256 == 2 * b + code;
      } else {
        assert (2 * b + code) % 256 == 2 * (b - 128) + code;
      }
    }
  }

  /** Shifting two bits in: the top two bits of `b` leave the byte and the code fills bits 0 and 1. */
  lemma ShiftTwo(b: byte, code: nat)
    ensures code < 4 ==> (4 * b + code) % 256 % 4 == code && (4 * b + code) % 256 / 4 == b % 64
  {
    if code < 4 {
      var t := if b < 64 then b else if b < 128 then b - 64 else if b < 192 then b - 128 else b - 192;
      assert b % 64 == t;
      assert (4 * b + code) % 256 == 4 * t + code;
    }
  }

  /** Shifts codes into a byte, first code in the highest bits. */
  function Pack(codes: seq<nat>, pixelWidth: nat): byte
    requires pixelWidth == 1 || pixelWidth == 2
    requires |codes| <= CodesPerByte(pixelWidth) && Fits(codes, pixelWidth)
  {
    if codes == [] then 0
    else ShiftIn(Pack(codes[..|codes| - 1], pixelWidth), codes[|codes| - 1], pixelWidth)
  }

  /** The full bytes of a code stream, one per `CodesPerByte` codes; a trailing partial byte is dropped. */
  function PackCodes(codes: seq<nat>, pixelWidth: nat): (bytes: seq<byte>)
    requires pixelWidth == 1 || pixelWidth == 2
    requires Fits(codes, pixelWidth)
    decreases |codes|
  {
    var k := CodesPerByte(pixelWidth);
    if |codes| < k then []
    else [Pack(codes[..k], pixelWidth)] + PackCodes(codes[k..], pixelWidth)
  }

  /**
   * Reads the codes of `m` pixels back out of a byte: the last pixel's code is
   * in the lowest bits, each earlier one a field further up.
   */
  function Unpack(b: byte, pixelWidth: nat, m: nat): (codes: seq<nat>)
    requires pixelWidth == 1 || pixelWidth == 2
    ensures |codes| == m
  {
    if m == 0 then []
    else if pixelWidth == 1 then Unpack(b / 2, pixelWidth, m - 1) + [b % 2]
    else Unpack(b / 4, pixelWidth, m - 1) + [b % 4]
  }

  /** The number of values `m` codes can take: 2^(w*m). */
  function Span(pixelWidth: nat, m: nat): nat
  {
    if m == 0 then 1
    else if pixelWidth == 1 then 2 * Span(pixelWidth, m - 1)
    else 4 * Span(pixelWidth, m - 1)
  }

  /** The codes of one byte fill at most its 256 values. */
  lemma {:induction false} SpanBound(pixelWidth: nat, m: nat)
    requires pixelWidth == 1 || pixelWidth == 2
    requires m <= CodesPerByte(pixelWidth)
    ensures 1 <= Span(pixelWidth, m) <= 256
    decreases CodesPerByte(pixelWidth) - m
  {
    if m < CodesPerByte(pixelWidth) {
      SpanBound(pixelWidth, m + 1);
    } else if pixelWidth == 1 {
      assert Span(1, 8) == 256;
    } else {
      assert Span(2, 4) == 256;
    }
  }

  /** A packed group of `m` codes is below 2^(w*m): no bit is shifted out of the byte. */
  lemma {:induction false} PackBound(codes: seq<nat>, pixelWidth: nat)
    requires pixelWidth == 1 || pixelWidth == 2
    requires |codes| <= CodesPerByte(pixelWidth) && Fits(codes, pixelWidth)
    ensures Pack(codes, pixelWidth) < Span(pixelWidth, |codes|)
    decreases |codes|, 1
  {
    if codes != [] {
      var front := codes[..|codes| - 1];
      PackBound(front, pixelWidth);
      PackStep(codes, pixelWidth);
    }
  }

  /**
   * Round trip: unpacking a packed group gives back its codes, so the leftmost
   * pixel's code lands in the highest bits used and each later pixel's code in
   * the field below.
   */
  lemma {:induction false} UnpackPack(codes: seq<nat>, pixelWidth: nat)
    requires pixelWidth == 1 || pixelWidth == 2
    requires |codes| <= CodesPerByte(pixelWidth) && Fits(codes, pixelWidth)
    ensures Unpack(Pack(codes, pixelWidth), pixelWidth, |codes|) == codes
    decreases |codes|
  {
    if codes != [] {
      var m := |codes|;
      var front := codes[..m - 1];
      UnpackLast(codes, pixelWidth);
      UnpackPack(front, pixelWidth);
      assert codes == front + [codes[m - 1]];
    }
  }

  /** The lowest field of a packed group is its last code, and the fields above it unpack as the front group. */
  lemma UnpackLast(codes: seq<nat>, pixelWidth: nat)
    requires pixelWidth == 1 || pixelWidth == 2
    requires 0 < |codes| <= CodesPerByte(pixelWidth) && Fits(codes, pixelWidth)
    ensures var m := |codes|;
      Fits(codes[..m - 1], pixelWidth)
      && Unpack(Pack(codes, pixelWidth), pixelWidth, m) == Unpack(Pack(codes[..m - 1], pixelWidth), pixelWidth, m - 1) + [codes[m - 1]]
  {
    var m := |codes|;
    PackStep(codes, pixelWidth);
    var p := Pack(codes, pixelWidth);
    if pixelWidth == 1 {
      assert Unpack(p, 1, m) == Unpack(p / 2, 1, m - 1) + [p % 2];
    } else {
      assert Unpack(p, 2, m) == Unpack(p / 4, 2, m - 1) + [p % 4];
    }
  }

  /** A non-empty group is its front group shifted up by one field, with the last code in the low field. */
  lemma PackStep(codes: seq<nat>, pixelWidth: nat)
    requires pixelWidth == 1 || pixelWidth == 2
    requires 0 < |codes| <= CodesPerByte(pixelWidth) && Fits(codes, pixelWidth)
    ensures var m := |codes|;
      && Fits(codes[..m - 1], pixelWidth)
      && var p, last := Pack(codes[..m - 1], pixelWidth), codes[m - 1];
      && (pixelWidth == 1 ==> Pack(codes, pixelWidth) == 2 * p + last && p == Pack(codes, pixelWidth) / 2 && last == Pack(codes, pixelWidth) % 2)
      && (pixelWidth == 2 ==> Pack(codes, pixelWidth) == 4 * p + last && p == Pack(codes, pixelWidth) / 4 && last == Pack(codes, pixelWidth) % 4)
    decreases |codes|, 0
  {
    var m := |codes|;
    var front := codes[..m - 1];
    assert Fits(front, pixelWidth);
    var p, last := Pack(front, pixelWidth), codes[m - 1];
    assert Pack(codes, pixelWidth) == ShiftIn(p, last, pixelWidth);
    PackBound(front, pixelWidth);
    SpanBound(pixelWidth, m);
    ShiftExact(p, last, pixelWidth, Span(pixelWidth, m - 1));
  }

  /** Shifting a code into a group of value below `span` loses no bit while the wider group stays within a byte. */
  lemma ShiftExact(p: byte, last: nat, pixelWidth: nat, span: nat)
    requires pixelWidth == 1 || pixelWidth == 2
    requires last < (if pixelWidth == 1 then 2 else 4) && p < span
    requires (if pixelWidth == 1 then 2 * span else 4 * span) <= 256
    ensures pixelWidth == 1 ==> ShiftIn(p, last, pixelWidth) == 2 * p + last && p == (2 * p + last) / 2 && last == (2 * p + last) % 2
    ensures pixelWidth == 2 ==> ShiftIn(p, last, pixelWidth) == 4 * p + last && p == (4 * p + last) / 4 && last == (4 * p + last) % 4
  {
  }

  /** The codes shifted into the byte under construction once `codes` have been consumed. */
  function Pending(codes: seq<nat>, pixelWidth: nat): (pending: seq<nat>)
    requires pixelWidth == 1 || pixelWidth == 2
    ensures |pending| < CodesPerByte(pixelWidth) && |pending| <= |codes| && pending == codes[|codes| - |pending|..]
    decreases |codes|
  {
    if |codes| < CodesPerByte(pixelWidth) then codes else Pending(codes[CodesPerByte(pixelWidth)..], pixelWidth)
  }

  /** A code stream of `m` codes packs into `m / CodesPerByte` bytes. */
  lemma {:induction false} PackCodesLength(codes: seq<nat>, pixelWidth: nat)
    requires pixelWidth == 1 || pixelWidth == 2
    requires Fits(codes, pixelWidth)
    ensures |PackCodes(codes, pixelWidth)| == |codes| / CodesPerByte(pixelWidth)
    decreases |codes|
  {
    var k := CodesPerByte(pixelWidth);
    if |codes| >= k {
      assert Fits(codes[k..], pixelWidth);
      PackCodesLength(codes[k..], pixelWidth);
      if pixelWidth == 1 {
        assert (|codes| - 8) / 8 + 1 == |codes| / 8;
      } else {
        assert (|codes| - 4) / 4 + 1 == |codes| / 4;
      }
    }
  }

  /** The codes before an appended one, and the pending codes with it, still fit. */
  lemma AppendFits(codes: seq<nat>, c: nat, pixelWidth: nat)
    requires pixelWidth == 1 || pixelWidth == 2
    requires Fits(codes + [c], pixelWidth)
    ensures Fits(codes, pixelWidth) && Fits(Pending(codes, pixelWidth) + [c], pixelWidth)
  {
    var all := codes + [c];
    FitsSlice(all, 0, |codes|, pixelWidth);
    assert all[..|codes|] == codes;
    var pending := Pending(codes, pixelWidth);
    FitsSlice(all, |codes| - |pending|, |all|, pixelWidth);
    assert all[|codes| - |pending|..] == pending + [c];
  }

  lemma FitsSlice(codes: seq<nat>, i: nat, j: nat, pixelWidth: nat)
    requires i <= j <= |codes|
    requires Fits(codes, pixelWidth)
    ensures Fits(codes[i..j], pixelWidth)
  {
  }

  /** Appending after a full first byte's worth of codes appends to the rest. */
  lemma AppendSplit(codes: seq<nat>, c: nat, k: nat)
    requires k <= |codes|
    ensures (codes + [c])[..k] == codes[..k] && (codes + [c])[k..] == codes[k..] + [c]
  {
  }

  /** Consuming one more code either completes the pending codes into a byte or adds it to them. */
  lemma {:induction false} PendingAppend(codes: seq<nat>, c: nat, pixelWidth: nat)
    requires pixelWidth == 1 || pixelWidth == 2
    ensures Pending(codes + [c], pixelWidth) ==
      if |Pending(codes, pixelWidth)| + 1 == CodesPerByte(pixelWidth) then [] else Pending(codes, pixelWidth) + [c]
    decreases |codes|
  {
    var k := CodesPerByte(pixelWidth);
    if |codes| >= k {
      AppendSplit(codes, c, k);
      PendingAppend(codes[k..], c, pixelWidth);
    } else if |codes| + 1 == k {
      assert (codes + [c])[k..] == [];
    }
  }

  lemma ConcatAssoc<T>(a: seq<T>, b: seq<T>, c: seq<T>)
    ensures a + (b + c) == (a + b) + c
  {
  }

  /** What appending `c` to `codes` does to the packed bytes: a byte more exactly when it completes the pending codes. */
  ghost predicate AppendPacks(codes: seq<nat>, c: nat, pixelWidth: nat)
    requires pixelWidth == 1 || pixelWidth == 2
    requires Fits(codes, pixelWidth) && Fits(codes + [c], pixelWidth) && Fits(Pending(codes, pixelWidth) + [c], pixelWidth)
  {
    PackCodes(codes + [c], pixelWidth) == PackCodes(codes, pixelWidth) +
      if |Pending(codes, pixelWidth)| + 1 == CodesPerByte(pixelWidth) then [Pack(Pending(codes, pixelWidth) + [c], pixelWidth)] else []
  }

  /** Consuming one more code adds a byte exactly when it completes the pending codes. */
  lemma {:induction false} PackCodesAppend(codes: seq<nat>, c: nat, pixelWidth: nat)
    requires pixelWidth == 1 || pixelWidth == 2
    requires Fits(codes + [c], pixelWidth)
    ensures Fits(codes, pixelWidth) && Fits(Pending(codes, pixelWidth) + [c], pixelWidth)
    ensures PackCodes(codes + [c], pixelWidth) == PackCodes(codes, pixelWidth) +
      if |Pending(codes, pixelWidth)| + 1 == CodesPerByte(pixelWidth) then [Pack(Pending(codes, pixelWidth) + [c], pixelWidth)] else []
    decreases |codes|
  {
    var k := CodesPerByte(pixelWidth);
    AppendFits(codes, c, pixelWidth);
    if |codes| >= k {
      var all := codes + [c];
      AppendSplit(codes, c, k);
      FitsSlice(all, k, |all|, pixelWidth);
      assert all[k..|all|] == codes[k..] + [c];
      PackCodesAppend(codes[k..], c, pixelWidth);
      PackCodesAppendStep(codes, c, pixelWidth);
    } else {
      PackCodesAppendShort(codes, c, pixelWidth);
    }
  }

  /** Base case of PackCodesAppend: fewer codes than a byte holds are all pending. */
  lemma PackCodesAppendShort(codes: seq<nat>, c: nat, pixelWidth: nat)
    requires pixelWidth == 1 || pixelWidth == 2
    requires |codes| < CodesPerByte(pixelWidth)
    requires Fits(codes, pixelWidth) && Fits(codes + [c], pixelWidth) && Fits(Pending(codes, pixelWidth) + [c], pixelWidth)
    ensures AppendPacks(codes, c, pixelWidth)
  {
    var k := CodesPerByte(pixelWidth);
    var all := codes + [c];
    assert Pending(codes, pixelWidth) == codes;
    if |codes| + 1 == k {
      assert all[..k] == all;
      assert all[k..] == [];
      assert PackCodes(all, pixelWidth) == [Pack(all, pixelWidth)];
    }
  }

  /** Inductive step of PackCodesAppend: the first byte is the same, and the rest follows the shorter stream. */
  lemma PackCodesAppendStep(codes: seq<nat>, c: nat, pixelWidth: nat)
    requires pixelWidth == 1 || pixelWidth == 2
    requires |codes| >= CodesPerByte(pixelWidth)
    requires Fits(codes, pixelWidth) && Fits(codes + [c], pixelWidth) && Fits(Pending(codes, pixelWidth) + [c], pixelWidth)
    requires var rest := codes[CodesPerByte(pixelWidth)..];
      && Fits(rest, pixelWidth) && Fits(rest + [c], pixelWidth) && Fits(Pending(rest, pixelWidth) + [c], pixelWidth)
      && AppendPacks(rest, c, pixelWidth)
    ensures AppendPacks(codes, c, pixelWidth)
  {
    var k := CodesPerByte(pixelWidth);
    var rest := codes[k..];
    var all := codes + [c];
    AppendSplit(codes, c, k);
    var first := Pack(codes[..k], pixelWidth);
    assert PackCodes(all, pixelWidth) == [first] + PackCodes(rest + [c], pixelWidth);
    assert PackCodes(codes, pixelWidth) == [first] + PackCodes(rest, pixelWidth);
    assert Pending(codes, pixelWidth) == Pending(rest, pixelWidth);
    var p := Pending(rest, pixelWidth);
    var tail := if |p| + 1 == k then [Pack(p + [c], pixelWidth)] else [];
    ConcatAssoc([first], PackCodes(rest, pixelWidth), tail);
  }

  /** Bits of codes in an object: each row contributes its sampled pixels' codes. */
  function ObjectBits(width: nat, height: nat, pixelWidth: nat): nat
    requires pixelWidth == 1 || pixelWidth == 2
  {
    if height == 0 then 0 else ObjectBits(width, height - 1, pixelWidth) + Scaled(PixelsPerRow(width, pixelWidth), pixelWidth)
  }

  /** Number of bytes an object packs into: a trailing partial byte is never stored. */
  function ObjectBytes(width: nat, height: nat, pixelWidth: nat): nat
    requires pixelWidth == 1 || pixelWidth == 2
  {
    ObjectBits(width, height, pixelWidth) / 8
  }

  /** The packed bytes of an object number ObjectBytes. */
  lemma PackedObjectLength(s: Settings, r: Raster, xoff: nat, yoff: nat, width: nat, height: nat)
    requires s.Valid() && r.Valid()
    requires xoff + width <= r.width && yoff + height <= r.height
    ensures Fits(ObjectCodes(s, r, xoff, yoff, width, height), s.pixelWidth)
    ensures |PackCodes(ObjectCodes(s, r, xoff, yoff, width, height), s.pixelWidth)| == ObjectBytes(width, height, s.pixelWidth)
  {
    var codes := ObjectCodes(s, r, xoff, yoff, width, height);
    ObjectCodesFit(s, r, xoff, yoff, width, height);
    PackCodesLength(codes, s.pixelWidth);
    WholeBytes(|codes|, s.pixelWidth);
  }

  /** `n` codes fill as many whole bytes as their `n * w` bits do. */
  lemma WholeBytes(n: nat, pixelWidth: nat)
    requires pixelWidth == 1 || pixelWidth == 2
    ensures n / CodesPerByte(pixelWidth) == Scaled(n, pixelWidth) / 8
  {
    if pixelWidth == 2 {
      var q := n / 4;
      assert n == 4 * q + n % 4;
      assert 2 * n == 8 * q + 2 * (n % 4);
    }
  }

  /**
   * Whatever the pixel width, an object of even width packs into
   * `width * height / 8` bytes: 8 for a character, 63 for a sprite.
   */
  lemma ObjectBytesCount(width: nat, height: nat, pixelWidth: nat)
    requires pixelWidth == 1 || pixelWidth == 2
    requires width % 2 == 0
    ensures ObjectBytes(width, height, pixelWidth) == width * height / 8
  {
    ObjectBitsCount(width, height, pixelWidth);
  }

  /** A character packs into 8 bytes and a sprite into 63, whatever the pixel width. */
  lemma CellBytes(pixelWidth: nat)
    requires pixelWidth == 1 || pixelWidth == 2
    ensures ObjectBytes(8, 8, pixelWidth) == 8 && ObjectBytes(24, 21, pixelWidth) == 63
  {
    ObjectBitsCount(8, 8, pixelWidth);
    ObjectBitsCount(24, 21, pixelWidth);
  }

  /** With an even width, every row contributes `width` bits. */
  lemma {:induction false} ObjectBitsCount(width: nat, height: nat, pixelWidth: nat)
    requires pixelWidth == 1 || pixelWidth == 2
    requires width % 2 == 0
    ensures ObjectBits(width, height, pixelWidth) == width * height
  {
    if height > 0 {
      ObjectBitsCount(width, height - 1, pixelWidth);
      assert width * height == width * (height - 1) + width;
    }
  }

  /** The accumulator of the packing loop: the bytes stored so far, the bits pending, and the byte under construction. */
  datatype Acc = Acc(stored: seq<byte>, bitcount: nat, b: byte)

  /** One pixel of the packing loop: the code is shifted into `b`, which is stored, and the accumulator reset, once it holds 8 bits. */
  function Feed(a: Acc, code: nat, pixelWidth: nat): Acc
    requires pixelWidth == 1 || pixelWidth == 2
  {
    var b := ShiftIn(a.b, code, pixelWidth);
    if a.bitcount + pixelWidth == 8 then Acc(a.stored + [b], 0, 0) else Acc(a.stored, a.bitcount + pixelWidth, b)
  }

  /** The accumulator before the first pixel of an object. */
  const Start := Acc([], 0, 0)

  /** The accumulator after feeding `codes`, one by one, to `a`. */
  function Run(a: Acc, codes: seq<nat>, pixelWidth: nat): Acc
    requires pixelWidth == 1 || pixelWidth == 2
  {
    if codes == [] then a
    else Feed(Run(a, codes[..|codes| - 1], pixelWidth), codes[|codes| - 1], pixelWidth)
  }

  /** The state in terms of whole bytes: every completed group packed, the rest pending in `b`. */
  ghost function Grouped(codes: seq<nat>, pixelWidth: nat): Acc
    requires pixelWidth == 1 || pixelWidth == 2
    requires Fits(codes, pixelWidth)
  {
    var pending := Pending(codes, pixelWidth);
    Acc(PackCodes(codes, pixelWidth), Scaled(|pending|, pixelWidth), Pack(pending, pixelWidth))
  }

  lemma RunAppend(a: Acc, codes: seq<nat>, c: nat, pixelWidth: nat)
    requires pixelWidth == 1 || pixelWidth == 2
    ensures Run(a, codes + [c], pixelWidth) == Feed(Run(a, codes, pixelWidth), c, pixelWidth)
  {
    assert (codes + [c])[..|codes|] == codes;
  }

  /** Feeding two code streams one after the other is feeding their concatenation. */
  lemma {:induction false} RunConcat(a: Acc, first: seq<nat>, second: seq<nat>, pixelWidth: nat)
    requires pixelWidth == 1 || pixelWidth == 2
    ensures Run(a, first + second, pixelWidth) == Run(Run(a, first, pixelWidth), second, pixelWidth)
    decreases |second|
  {
    if second == [] {
      assert first + second == first;
    } else {
      var n := |second|;
      var front, c := second[..n - 1], second[n - 1];
      assert second == front + [c];
      ConcatAssoc(first, front, [c]);
      RunConcat(a, first, front, pixelWidth);
      RunAppend(a, first + front, c, pixelWidth);
    }
  }

  /**
   * The packing loop stores exactly the packed groups of its codes: after any
   * number of codes, the stored bytes are the completed groups, `bitcount`
   * counts the bits of the codes left over, and `b` holds them packed.
   */
  lemma {:induction false} RunPacks(codes: seq<nat>, pixelWidth: nat)
    requires pixelWidth == 1 || pixelWidth == 2
    requires Fits(codes, pixelWidth)
    ensures Run(Start, codes, pixelWidth) == Grouped(codes, pixelWidth)
  {
    if codes != [] {
      var n := |codes|;
      var front, c := codes[..n - 1], codes[n - 1];
      assert codes == front + [c];
      FitsSlice(codes, 0, n - 1, pixelWidth);
      RunPacks(front, pixelWidth);
      RunStep(front, c, pixelWidth);
    }
  }

  /** Inductive step of RunPacks: the code either completes the pending group or joins it. */
  lemma RunStep(codes: seq<nat>, c: nat, pixelWidth: nat)
    requires pixelWidth == 1 || pixelWidth == 2
    requires Fits(codes + [c], pixelWidth) && Fits(codes, pixelWidth)
    requires Run(Start, codes, pixelWidth) == Grouped(codes, pixelWidth)
    ensures Run(Start, codes + [c], pixelWidth) == Grouped(codes + [c], pixelWidth)
  {
    RunAppend(Start, codes, c, pixelWidth);
    PackCodesAppend(codes, c, pixelWidth);
    PendingAppend(codes, c, pixelWidth);
    FeedPending(PackCodes(codes, pixelWidth), Pending(codes, pixelWidth), c, pixelWidth);
  }

  /** Feeding a code to an accumulator holding `pending` packed either completes the byte or extends the pending codes. */
  lemma FeedPending(stored: seq<byte>, pending: seq<nat>, c: nat, pixelWidth: nat)
    requires pixelWidth == 1 || pixelWidth == 2
    requires |pending| < CodesPerByte(pixelWidth) && Fits(pending + [c], pixelWidth)
    ensures Fits(pending, pixelWidth)
    ensures Feed(Acc(stored, Scaled(|pending|, pixelWidth), Pack(pending, pixelWidth)), c, pixelWidth) ==
      if |pending| + 1 == CodesPerByte(pixelWidth) then Acc(stored + [Pack(pending + [c], pixelWidth)], 0, Pack([], pixelWidth))
      else Acc(stored, Scaled(|pending + [c]|, pixelWidth), Pack(pending + [c], pixelWidth))
  {
    PackAppend(pending, c, pixelWidth);
  }

  /** Packing one more code shifts it into the packed group. */
  lemma PackAppend(codes: seq<nat>, c: nat, pixelWidth: nat)
    requires pixelWidth == 1 || pixelWidth == 2
    requires |codes| < CodesPerByte(pixelWidth) && Fits(codes + [c], pixelWidth)
    ensures Fits(codes, pixelWidth)
    ensures Pack(codes + [c], pixelWidth) == ShiftIn(Pack(codes, pixelWidth), c, pixelWidth)
  {
    assert (codes + [c])[..|codes|] == codes;
  }

  /** Feeding more codes only appends to the stored bytes. */
  lemma {:induction false} RunStoredGrows(a: Acc, codes: seq<nat>, i: nat, pixelWidth: nat)
    requires pixelWidth == 1 || pixelWidth == 2
    requires i <= |codes|
    ensures Run(a, codes[..i], pixelWidth).stored <= Run(a, codes, pixelWidth).stored
    ensures |Run(a, codes[..i], pixelWidth).stored| <= |Run(a, codes, pixelWidth).stored|
    decreases |codes|
  {
    if i < |codes| {
      var front := codes[..|codes| - 1];
      assert codes[..i] == front[..i];
      RunStoredGrows(a, front, i, pixelWidth);
    } else {
      assert codes[..i] == codes;
    }
  }

  /** Feeding a prefix of a code stream stores no more bytes than feeding the whole stream. */
  lemma RunPrefixStored(a: Acc, prefix: seq<nat>, codes: seq<nat>, pixelWidth: nat)
    requires pixelWidth == 1 || pixelWidth == 2
    requires prefix <= codes
    ensures |Run(a, prefix, pixelWidth).stored| <= |Run(a, codes, pixelWidth).stored|
  {
    assert codes[..|prefix|] == prefix;
    RunStoredGrows(a, codes, |prefix|, pixelWidth);
  }

  /**
   * The method's variables hold the accumulator `a`: the buffer is its stored
   * bytes followed by the rest of the buffer's `initial` contents.
   */
  ghost predicate Holds(bytes: seq<byte>, initial: seq<byte>, bufoffset: nat, bitcount: nat, b: byte, a: Acc)
  {
    && |a.stored| <= |initial|
    && bytes == a.stored + initial[|a.stored|..]
    && bufoffset == |a.stored| && bitcount == a.bitcount && b == a.b
  }

  /** Storing a byte just after the stored ones extends them by it, over the initial contents. */
  lemma StoreNext(stored: seq<byte>, initial: seq<byte>, v: byte)
    requires |stored| < |initial|
    ensures (stored + initial[|stored|..])[|stored| := v] == (stored + [v]) + initial[|stored| + 1..]
  {
    var n := |stored|;
    var lhs := (stored + initial[n..])[n := v];
    var rhs := (stored + [v]) + initial[n + 1..];
    assert forall i :: 0 <= i < |lhs| ==> lhs[i] == rhs[i];
  }

  /** The codes of the first `y` rows are a prefix of the codes of the first `height`. */
  lemma {:induction false} ObjectCodesPrefix(s: Settings, r: Raster, xoff: nat, yoff: nat, width: nat, y: nat, height: nat)
    requires s.Valid() && r.Valid()
    requires xoff + width <= r.width && yoff + height <= r.height
    requires y <= height
    ensures ObjectCodes(s, r, xoff, yoff, width, y) <= ObjectCodes(s, r, xoff, yoff, width, height)
  {
    if y < height {
      ObjectCodesPrefix(s, r, xoff, yoff, width, y, height - 1);
    }
  }

  /**
   * Packs the object whose top-left pixel is (xoff, yoff) into `buf`: row by
   * row, every `pixelWidth`-th pixel's code is shifted into an accumulator that
   * is stored whenever it holds 8 bits. Exactly the object's bytes are written,
   * from index 0; the rest of `buf` is left as it was.
   */
  method ExtractObject(s: Settings, r: Raster, xoff: nat, yoff: nat, width: nat, height: nat, buf: array<byte>)
    requires s.Valid() && r.Valid()
    requires xoff + width <= r.width && yoff + height <= r.height
    requires ObjectBytes(width, height, s.pixelWidth) <= buf.Length
    modifies buf
    ensures var codes := ObjectCodes(s, r, xoff, yoff, width, height);
      Fits(codes, s.pixelWidth)
      && buf[..] == PackCodes(codes, s.pixelWidth) + old(buf[..])[ObjectBytes(width, height, s.pixelWidth)..]
  {
    ghost var initial := buf[..];
    var bufoffset: nat := 0;
    var bitcount: nat := 0;
    var b: byte := 0;
    var y := 0;
    ghost var acc := Start;
    while y < height
      invariant 0 <= y <= height
      invariant acc == Run(Start, ObjectCodes(s, r, xoff, yoff, width, y), s.pixelWidth)
      invariant Holds(buf[..], initial, bufoffset, bitcount, b, acc)
    {
      RowStep(s, r, xoff, yoff, width, height, y, acc);
      bufoffset, bitcount, b := PackRow(s, r, xoff, yoff + y, width, buf, bufoffset, bitcount, b, acc, initial);
      acc := Run(acc, RowCodes(s, r, xoff, yoff + y, width), s.pixelWidth);
      y := y + 1;
    }
    ObjectPacked(s, r, xoff, yoff, width, height, acc, buf[..], initial);
  }

  /** Once every row is fed, the stored bytes are the object's packed bytes. */
  lemma ObjectPacked(s: Settings, r: Raster, xoff: nat, yoff: nat, width: nat, height: nat,
                     acc: Acc, bytes: seq<byte>, initial: seq<byte>)
    requires s.Valid() && r.Valid()
    requires xoff + width <= r.width && yoff + height <= r.height
    requires acc == Run(Start, ObjectCodes(s, r, xoff, yoff, width, height), s.pixelWidth)
    requires ObjectBytes(width, height, s.pixelWidth) <= |initial|
    requires |acc.stored| <= |initial| && bytes == acc.stored + initial[|acc.stored|..]
    ensures var codes := ObjectCodes(s, r, xoff, yoff, width, height);
      Fits(codes, s.pixelWidth)
      && bytes == PackCodes(codes, s.pixelWidth) + initial[ObjectBytes(width, height, s.pixelWidth)..]
  {
    PackedObjectLength(s, r, xoff, yoff, width, height);
    RunPacks(ObjectCodes(s, r, xoff, yoff, width, height), s.pixelWidth);
  }

  /**
   * Row `y` of an object continues the accumulator `acc` of the rows above,
   * and stores no more than the object's bytes.
   */
  lemma RowStep(s: Settings, r: Raster, xoff: nat, yoff: nat, width: nat, height: nat, y: nat, acc: Acc)
    requires s.Valid() && r.Valid()
    requires xoff + width <= r.width && yoff + height <= r.height && y < height
    requires acc == Run(Start, ObjectCodes(s, r, xoff, yoff, width, y), s.pixelWidth)
    ensures Run(acc, RowCodes(s, r, xoff, yoff + y, width), s.pixelWidth)
         == Run(Start, ObjectCodes(s, r, xoff, yoff, width, y + 1), s.pixelWidth)
    ensures |Run(acc, RowCodes(s, r, xoff, yoff + y, width), s.pixelWidth).stored| <= ObjectBytes(width, height, s.pixelWidth)
  {
    RowConcat(s, r, xoff, yoff, width, height, y);
    RowWithin(s, r, xoff, yoff, width, height, y);
    ObjectStored(s, r, xoff, yoff, width, height);
  }

  /** The whole object's accumulator has stored exactly its ObjectBytes bytes. */
  lemma ObjectStored(s: Settings, r: Raster, xoff: nat, yoff: nat, width: nat, height: nat)
    requires s.Valid() && r.Valid()
    requires xoff + width <= r.width && yoff + height <= r.height
    ensures |Run(Start, ObjectCodes(s, r, xoff, yoff, width, height), s.pixelWidth).stored| == ObjectBytes(width, height, s.pixelWidth)
  {
    PackedObjectLength(s, r, xoff, yoff, width, height);
    RunPacks(ObjectCodes(s, r, xoff, yoff, width, height), s.pixelWidth);
  }

  /** Feeding row `y` to the accumulator of the rows above gives the accumulator of the rows through `y`. */
  lemma RowConcat(s: Settings, r: Raster, xoff: nat, yoff: nat, width: nat, height: nat, y: nat)
    requires s.Valid() && r.Valid()
    requires xoff + width <= r.width && yoff + height <= r.height && y < height
    ensures Run(Run(Start, ObjectCodes(s, r, xoff, yoff, width, y), s.pixelWidth), RowCodes(s, r, xoff, yoff + y, width), s.pixelWidth)
         == Run(Start, ObjectCodes(s, r, xoff, yoff, width, y + 1), s.pixelWidth)
  {
    var above := ObjectCodes(s, r, xoff, yoff, width, y);
    var row := RowCodes(s, r, xoff, yoff + y, width);
    assert ObjectCodes(s, r, xoff, yoff, width, y + 1) == above + row;
    RunConcat(Start, above, row, s.pixelWidth);
  }

  /** The accumulator through row `y` has stored no more than the whole object's. */
  lemma RowWithin(s: Settings, r: Raster, xoff: nat, yoff: nat, width: nat, height: nat, y: nat)
    requires s.Valid() && r.Valid()
    requires xoff + width <= r.width && yoff + height <= r.height && y < height
    ensures |Run(Start, ObjectCodes(s, r, xoff, yoff, width, y + 1), s.pixelWidth).stored|
         <= |Run(Start, ObjectCodes(s, r, xoff, yoff, width, height), s.pixelWidth).stored|
  {
    var through := ObjectCodes(s, r, xoff, yoff, width, y + 1);
    var all := ObjectCodes(s, r, xoff, yoff, width, height);
    ObjectCodesPrefix(s, r, xoff, yoff, width, y + 1, height);
    assert all[..|through|] == through;
    RunStoredGrows(Start, all, |through|, s.pixelWidth);
  }

  /**
   * The inner loop of ExtractObject: shifts the codes of the pixels of row `y`
   * from x = `xoff` into the accumulator `a0` the variables hold, storing each
   * completed byte at `bufoffset`.
   */
  method PackRow(s: Settings, r: Raster, xoff: nat, y: nat, width: nat,
                 buf: array<byte>, bufoffset0: nat, bitcount0: nat, b0: byte, ghost a0: Acc, ghost initial: seq<byte>)
    returns (bufoffset: nat, bitcount: nat, b: byte)
    requires s.Valid() && r.Valid()
    requires xoff + width <= r.width && y < r.height
    requires Holds(buf[..], initial, bufoffset0, bitcount0, b0, a0)
    requires |Run(a0, RowCodes(s, r, xoff, y, width), s.pixelWidth).stored| <= |initial|
    modifies buf
    ensures Holds(buf[..], initial, bufoffset, bitcount, b, Run(a0, RowCodes(s, r, xoff, y, width), s.pixelWidth))
  {
    var pw := s.pixelWidth;
    bufoffset, bitcount, b := bufoffset0, bitcount0, b0;
    var x := 0;
    ghost var j := 0;
    ghost var acc := a0;
    while x < width
      invariant 0 <= j <= PixelsPerRow(width, pw) && x == Scaled(j, pw)
      invariant j < PixelsPerRow(width, pw) <==> x < width
      invariant acc == Run(a0, RowPrefix(s, r, xoff, y, width, j), pw)
      invariant Holds(buf[..], initial, bufoffset, bitcount, b, acc)
    {
      NextCode(s, r, xoff, y, width, j, x, a0);
      var pixel := r.Sample(xoff + x, y);
      var code := RemapPixel(s, pixel);
      bufoffset, bitcount, b := ShiftPixel(buf, bufoffset, bitcount, b, code, pw, acc, initial);
      acc := Feed(acc, code, pw);
      x := x + pw;
      j := j + 1;
    }
  }

  /**
   * One pixel of the inner loop of ExtractObject: `b = (b << w) | code`, and
   * once `b` holds 8 bits it is stored at `bufoffset` and the accumulator
   * starts afresh. The variables then hold the accumulator fed with the code.
   */
  method ShiftPixel(buf: array<byte>, bufoffset0: nat, bitcount0: nat, b0: byte, code: nat, pixelWidth: nat,
                    ghost a: Acc, ghost initial: seq<byte>)
    returns (bufoffset: nat, bitcount: nat, b: byte)
    requires pixelWidth == 1 || pixelWidth == 2
    requires Holds(buf[..], initial, bufoffset0, bitcount0, b0, a)
    requires |Feed(a, code, pixelWidth).stored| <= |initial|
    modifies buf
    ensures Holds(buf[..], initial, bufoffset, bitcount, b, Feed(a, code, pixelWidth))
  {
    bufoffset := bufoffset0;
    b := ShiftIn(b0, code, pixelWidth);
    bitcount := bitcount0 + pixelWidth;
    if bitcount == 8 {
      StoreNext(a.stored, initial, b);
      buf[bufoffset] := b;
      bufoffset := bufoffset + 1;
      bitcount := 0;
      b := 0;
    }
  }

  /**
   * Taking the pixel at x = `xoff + x`, the `j`-th of its row, feeds its code
   * to the accumulator, and stays within the bytes of the whole row.
   */
  lemma NextCode(s: Settings, r: Raster, xoff: nat, y: nat, width: nat, j: nat, x: nat, a: Acc)
    requires s.Valid() && r.Valid()
    requires xoff + width <= r.width && y < r.height && j < PixelsPerRow(width, s.pixelWidth) && x == Scaled(j, s.pixelWidth)
    ensures xoff + x < r.width
    ensures var fed := Feed(Run(a, RowPrefix(s, r, xoff, y, width, j), s.pixelWidth), RemapPixel(s, r.Sample(xoff + x, y)), s.pixelWidth);
      && Run(a, RowPrefix(s, r, xoff, y, width, j + 1), s.pixelWidth) == fed
      && |fed.stored| <= |Run(a, RowCodes(s, r, xoff, y, width), s.pixelWidth).stored|
  {
    NextCodeFeeds(s, r, xoff, y, width, j, x, a);
    NextCodeWithin(s, r, xoff, y, width, j, a);
  }

  /** The code of the `j`-th pixel of the row extends the accumulator of the first `j` codes by one feed. */
  lemma NextCodeFeeds(s: Settings, r: Raster, xoff: nat, y: nat, width: nat, j: nat, x: nat, a: Acc)
    requires s.Valid() && r.Valid()
    requires xoff + width <= r.width && y < r.height && j < PixelsPerRow(width, s.pixelWidth) && x == Scaled(j, s.pixelWidth)
    ensures xoff + x < r.width
    ensures Run(a, RowPrefix(s, r, xoff, y, width, j + 1), s.pixelWidth)
         == Feed(Run(a, RowPrefix(s, r, xoff, y, width, j), s.pixelWidth), RemapPixel(s, r.Sample(xoff + x, y)), s.pixelWidth)
  {
    var c := RemapPixel(s, r.Sample(xoff + x, y));
    assert RowPrefix(s, r, xoff, y, width, j + 1) == RowPrefix(s, r, xoff, y, width, j) + [c];
    RunAppend(a, RowPrefix(s, r, xoff, y, width, j), c, s.pixelWidth);
  }

  /** The bytes stored after `j + 1` codes of a row are no more than those stored after the whole row. */
  lemma NextCodeWithin(s: Settings, r: Raster, xoff: nat, y: nat, width: nat, j: nat, a: Acc)
    requires s.Valid() && r.Valid()
    requires xoff + width <= r.width && y < r.height && j < PixelsPerRow(width, s.pixelWidth)
    ensures |Run(a, RowPrefix(s, r, xoff, y, width, j + 1), s.pixelWidth).stored| <= |Run(a, RowCodes(s, r, xoff, y, width), s.pixelWidth).stored|
  {
    var n := PixelsPerRow(width, s.pixelWidth);
    RowPrefixPrefix(s, r, xoff, y, width, j + 1, n);
    RunPrefixStored(a, RowPrefix(s, r, xoff, y, width, j + 1), RowCodes(s, r, xoff, y, width), s.pixelWidth);
  }
}
