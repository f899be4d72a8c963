/**
 * The `-chXX[YY]` option of the LDtk tile converter: XX offsets every
 * character index written to the tile planes; with YY, character 0 is
 * written as YY instead and the other characters start at XX.
 */
module TileSettings {
  import opened Wrappers
  import opened Bytes

  /** A matched `-chXX[YY]` option: XX, and YY when given, each two hex digits. */
  datatype ChOption = ChOption(first: nat, second: Option<nat>)
  {
    predicate Valid()
    {
      first < 256 && (second.Some? ==> second.value < 256)
    }
  }

  /** The converter's two character settings, which persist from one input file to the next. */
  class TileOptions {
    /** Added to every compacted character index (default 0). */
    var chOffset: int
    /** Where character 0 goes, or -1 to give it the offset like the others (default -1). */
    var chEmpty: int

    constructor()
      ensures chOffset == 0 && chEmpty == -1
    {
      chOffset := 0;
      chEmpty := -1;
    }

    /**
     * Applies a matched option: XX alone sets the offset; XX with YY sets the
     * slot of character 0 to YY and the offset to XX - 1, so that character 1
     * lands on XX. Without a match nothing changes.
     */
    method UpdateSettings(ch: Option<ChOption>)
      requires ch.Some? ==> ch.value.Valid()
      modifies this
      ensures ch.None? ==> chOffset == old(chOffset) && chEmpty == old(chEmpty)
      ensures ch.Some? && ch.value.second.None? ==> chOffset == ch.value.first && chEmpty == old(chEmpty)
      ensures ch.Some? && ch.value.second.Some? ==> chOffset == ch.value.first - 1 && chEmpty == ch.value.second.value
      ensures -1 <= old(chOffset) < 256 && -1 <= old(chEmpty) < 256 ==> -1 <= chOffset < 256 && -1 <= chEmpty < 256
    {
      if ch.Some? {
        chOffset := ch.value.first;
        if ch.value.second.Some? {
          chEmpty := ch.value.second.value;
          chOffset := chOffset - 1;
        }
      }
    }
  }

  /**
   * The tile-plane entry of compacted character index `cindex` (a Java
   * `byte`): YY for character 0 when YY is set, otherwise the index plus the
   * offset, cut to a byte.
   */
  function PlaneEntry(cindex: byte, chOffset: int, chEmpty: int): (entry: byte)
    ensures chEmpty == -1 || cindex != 0 ==> (cindex + chOffset - entry) % 256 == 0
    ensures chEmpty != -1 && cindex == 0 ==> (chEmpty - entry) % 256 == 0
  {
    if chEmpty == -1 || cindex != 0 then ToByte(Signed(cindex) + chOffset) else ToByte(chEmpty)
  }

  /** Reading a byte back signed and cutting it again loses nothing modulo 256. */
  lemma SignedCut(k: int, chOffset: int)
    ensures ToByte(Signed(ToByte(k)) + chOffset) == ToByte(k + chOffset)
  {
    var b := ToByte(k);
    var q := k / 256;
    assert k == q * 256 + b;
    if b < 128 {
      assert k + chOffset == (b + chOffset) + q * 256;
    } else {
      assert k + chOffset == (b - 256 + chOffset) + (q + 1) * 256;
    }
    ShiftByMultiple(Signed(b) + chOffset, k + chOffset - (Signed(b) + chOffset));
  }

  /** Adding a multiple of 256 does not change the cut. */
  lemma ShiftByMultiple(x: int, d: int)
    requires d % 256 == 0
    ensures ToByte(x + d) == ToByte(x)
  {
    var q, m := x / 256, x % 256;
    assert x + d == (q + d / 256) * 256 + m;
  }

  /** Without YY every compacted character `k` is written as `k` plus the offset. */
  lemma PlaneEntryOffset(k: int, chOffset: int)
    ensures PlaneEntry(ToByte(k), chOffset, -1) == ToByte(k + chOffset)
  {
    SignedCut(k, chOffset);
  }

  /**
   * With `-chXXYY`: character 0 is written as YY, and every other character
   * `k` below 256 as XX + k - 1, so character 1 lands on XX.
   */
  lemma PlaneEntryPair(k: nat, xx: nat, yy: nat)
    requires k < 256 && xx < 256 && yy < 256
    ensures PlaneEntry(ToByte(k), xx - 1, yy) == if k == 0 then yy else ToByte(xx + k - 1)
  {
    SignedCut(k, xx - 1);
  }

  /**
   * The slot YY is not kept free: when it lies at or above XX, the character
   * `yy - xx + 1` is written as YY too, the same entry as character 0.
   */
  lemma PlaneEntrySlotShared(xx: nat, yy: nat)
    requires 1 <= xx <= yy < 256
    ensures var k := yy - xx + 1;
      1 <= k < 256 && PlaneEntry(ToByte(k), xx - 1, yy) == PlaneEntry(ToByte(0), xx - 1, yy) == yy
  {
    PlaneEntryPair(yy - xx + 1, xx, yy);
    PlaneEntryPair(0, xx, yy);
  }
}
