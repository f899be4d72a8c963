/**
 * The character compaction of the LDtk tile converter: the characters the
 * tile set uses, character 0 first and the rest in first-seen order, are
 * renumbered 0, 1, 2, … and copied into an optimized character set; the tile
 * planes then list, position by position, each tile's renumbered character.
 */
module CharCompaction {
  import opened Wrappers
  import opened Bytes
  import opened BlockDictionary
  import opened TileSettings
  import opened TileLayer
  import opened ByteRows

  // ----- First-seen numbering -----

  /** No value occurs twice. */
  predicate NoDuplicates(s: seq<int>)
  {
    forall i, j :: 0 <= i < j < |s| ==> s[i] != s[j]
  }

  /** The distinct values of `keys` in the order of their first occurrence. */
  function FirstSeen(keys: seq<int>): seq<int>
  {
    if |keys| == 0 then []
    else
      var prev := FirstSeen(keys[..|keys| - 1]);
      if keys[|keys| - 1] in prev then prev else prev + [keys[|keys| - 1]]
  }

  /** The position of the first `c` in `list`, or `|list|` when there is none. */
  function IndexOf(c: int, list: seq<int>): (i: nat)
    ensures i <= |list|
    ensures i < |list| ==> list[i] == c
    ensures forall j :: 0 <= j < i ==> list[j] != c
  {
    if |list| == 0 then 0 else if list[0] == c then 0 else 1 + IndexOf(c, list[1..])
  }

  /** The characters a tile set uses, numbered by position: character 0 first (it is always copied), then first-seen order. */
  function UsedChars(flat: seq<int>): (list: seq<int>)
    ensures |list| > 0 && list[0] == 0
  {
    FirstSeenFront([0] + flat);
    FirstSeen([0] + flat)
  }

  /** Java's `usedChars` map: every used character to its new number, cut to a byte. */
  function UsedMap(list: seq<int>): (used: map<int, byte>)
    ensures forall c :: c in used <==> c in list
    ensures |list| <= 256 ==> forall c :: c in used ==> used[c] < |list| && list[used[c]] == c
  {
    map c | c in list :: ToByte(IndexOf(c, list))
  }

  /** The first-seen list holds each value of `keys` exactly once. */
  lemma {:induction false} FirstSeenSound(keys: seq<int>)
    ensures var list := FirstSeen(keys);
      NoDuplicates(list) && |list| <= |keys| && (forall c :: c in list <==> c in keys)
  {
    if |keys| > 0 {
      var front := keys[..|keys| - 1];
      FirstSeenSound(front);
      assert keys == front + [keys[|keys| - 1]];
    }
  }

  /** The list is in order of first occurrence: an earlier entry occurs first earlier in `keys`. */
  lemma {:induction false} FirstSeenOrdered(keys: seq<int>)
    ensures var list := FirstSeen(keys);
      forall j, k :: 0 <= j < k < |list| ==> IndexOf(list[j], keys) < IndexOf(list[k], keys) < |keys|
  {
    if |keys| > 0 {
      var front, x := keys[..|keys| - 1], keys[|keys| - 1];
      var prev := FirstSeen(front);
      FirstSeenOrdered(front);
      FirstSeenSound(front);
      assert keys == front + [x];
      forall c | c in front
        ensures IndexOf(c, keys) == IndexOf(c, front)
      {
        IndexOfAppend(c, front, x);
      }
      if x !in prev {
        IndexOfAppend(x, front, x);
      }
    }
  }

  /** Appending a value leaves the positions before it alone and puts a new value at the end. */
  lemma IndexOfAppend(c: int, list: seq<int>, x: int)
    ensures c in list ==> IndexOf(c, list + [x]) == IndexOf(c, list)
    ensures c !in list && c == x ==> IndexOf(c, list + [x]) == |list|
  {
    var i := IndexOf(c, list);
    if c in list {
      assert i < |list|;
      var j := IndexOf(c, list + [x]);
      assert (list + [x])[i] == c;
      assert j <= i;
      assert j < |list| ==> list[j] == c;
    } else if c == x {
      var j := IndexOf(c, list + [x]);
      assert (list + [x])[|list|] == c;
      assert j == |list|;
    }
  }

  /**
   * `usedChars` maps character 0 to 0 and every character of the tile set to
   * its own number, dense from 0 and in first-seen order.
   */
  lemma UsedCharsSound(flat: seq<int>)
    ensures var list := UsedChars(flat);
      && |list| > 0 && list[0] == 0 && NoDuplicates(list)
      && (forall c :: c in list <==> c == 0 || c in flat)
      && (forall c :: c in list ==> IndexOf(c, list) < |list| && list[IndexOf(c, list)] == c)
      && (forall j, k :: 0 <= j < k < |list| ==> IndexOf(list[j], [0] + flat) < IndexOf(list[k], [0] + flat))
  {
    var keys := [0] + flat;
    FirstSeenSound(keys);
    FirstSeenOrdered(keys);
    FirstSeenFront(keys);
  }

  /** Every character of the tiles has an entry in the numbering. */
  lemma UsedCovers(flat: seq<int>)
    ensures forall k :: 0 <= k < |flat| ==> flat[k] in UsedMap(UsedChars(flat))
  {
    forall k | 0 <= k < |flat|
      ensures flat[k] in UsedMap(UsedChars(flat))
    {
      UsedCharNumber(flat, flat[k]);
    }
  }

  /** A used character has a number, and number 0 is character 0 alone. */
  lemma UsedCharNumber(flat: seq<int>, ch: int)
    requires ch == 0 || ch in flat
    ensures var list := UsedChars(flat);
      var n := IndexOf(ch, list);
      n < |list| && list[n] == ch && (n == 0 <==> ch == 0)
  {
    var keys := [0] + flat;
    FirstSeenSound(keys);
    FirstSeenFront(keys);
    assert ch in keys;
  }

  /** The first key is first in the list. */
  lemma {:induction false} FirstSeenFront(keys: seq<int>)
    requires |keys| > 0
    ensures |FirstSeen(keys)| > 0 && FirstSeen(keys)[0] == keys[0]
  {
    if |keys| > 1 {
      FirstSeenFront(keys[..|keys| - 1]);
    } else {
      assert keys[..0] == [];
    }
  }

  /** Different used characters get different numbers: the numbering is a bijection onto `0 .. |list|`. */
  lemma UsedNumbersDistinct(list: seq<int>, a: int, b: int)
    requires NoDuplicates(list) && a in list && b in list && a != b
    ensures IndexOf(a, list) != IndexOf(b, list)
  {
  }

  /** Trailing zeros of the tile set, the unused tile slots, change nothing. */
  lemma {:induction false} UsedCharsZeros(flat: seq<int>, n: nat)
    ensures UsedChars(flat + Zeros(n)) == UsedChars(flat)
  {
    if n > 0 {
      var keys, keys' := [0] + (flat + Zeros(n)), [0] + (flat + Zeros(n - 1));
      assert Zeros(n) == Zeros(n - 1) + [0];
      assert keys[..|keys| - 1] == keys' && keys[|keys| - 1] == 0;
      UsedCharsZeros(flat, n - 1);
      FirstSeenFront(keys');
      assert 0 in FirstSeen(keys');
      assert FirstSeen(keys) == FirstSeen(keys');
    } else {
      assert flat + Zeros(0) == flat;
    }
  }

  /** One more key extends the first-seen list by it when it is new. */
  lemma UsedCharsStep(flat: seq<int>, i: nat)
    requires i < |flat|
    ensures var prev := UsedChars(flat[..i]);
      UsedChars(flat[..i + 1]) == if flat[i] in prev then prev else prev + [flat[i]]
  {
    var keys := [0] + flat[..i + 1];
    assert keys[..|keys| - 1] == [0] + flat[..i];
  }

  /** Before any key is read, character 0 alone is used. */
  lemma UsedCharsStart(flat: seq<int>)
    ensures UsedChars(flat[..0]) == [0]
  {
    var keys := [0] + flat[..0];
    assert keys == [0] && keys[..0] == [];
    assert FirstSeen(keys) == FirstSeen(keys[..0]) + [0];
  }

  /** Adding a new character numbers it `|list|` and keeps the other numbers. */
  lemma UsedMapStep(list: seq<int>, c: int)
    requires c !in list
    ensures UsedMap(list + [c]) == UsedMap(list)[c := ToByte(|list|)]
  {
    var a, b := UsedMap(list + [c]), UsedMap(list)[c := ToByte(|list|)];
    forall d | d in list
      ensures a[d] == b[d]
    {
      IndexOfAppend(d, list, c);
    }
    IndexOfAppend(c, list, c);
    assert a.Keys == b.Keys;
  }

  // ----- The optimized character set -----

  /** Character `c` lies inside a character set of `len` bytes (Java's `arraycopy` bounds). */
  predicate CharValid(c: int, len: nat)
  {
    0 <= c && c * 8 + 8 <= len
  }

  /** Every character of the tile set lies inside the character set. */
  predicate AllValid(flat: seq<int>, len: nat)
  {
    forall k :: 0 <= k < |flat| ==> CharValid(flat[k], len)
  }

  /** The 8 bytes of character `c`. */
  function CharBytes(charset: seq<byte>, c: int): (bytes: seq<byte>)
    requires CharValid(c, |charset|)
    ensures |bytes| == 8
  {
    charset[c * 8..c * 8 + 8]
  }

  /** The bytes of the listed characters, one after another. */
  function Gathered(charset: seq<byte>, list: seq<int>): (bytes: seq<byte>)
    requires forall c :: c in list ==> CharValid(c, |charset|)
    ensures |bytes| == 8 * |list|
  {
    if |list| == 0 then []
    else Gathered(charset, list[..|list| - 1]) + CharBytes(charset, list[|list| - 1])
  }

  /** Slot `k` of the gathered bytes holds exactly the bytes of character `list[k]`. */
  lemma {:induction false} GatheredSlot(charset: seq<byte>, list: seq<int>, k: nat)
    requires forall c :: c in list ==> CharValid(c, |charset|)
    requires k < |list|
    ensures Gathered(charset, list)[k * 8..k * 8 + 8] == CharBytes(charset, list[k])
  {
    var front := list[..|list| - 1];
    var g := Gathered(charset, front);
    if k < |list| - 1 {
      GatheredSlot(charset, front, k);
      assert Gathered(charset, list)[k * 8..k * 8 + 8] == g[k * 8..k * 8 + 8];
    } else {
      assert Gathered(charset, list)[k * 8..k * 8 + 8] == CharBytes(charset, list[k]);
    }
  }

  /** Distinct naturals below `n` number at most `n`. */
  lemma Pigeonhole(s: seq<int>, n: nat)
    requires NoDuplicates(s)
    requires forall x :: x in s ==> 0 <= x < n
    ensures |s| <= n
  {
    var range := seq(n, i => i);
    var values, bound := set x | x in s, set x | x in range;
    DistinctCard(s);
    DistinctCard(range);
    forall x | x in values
      ensures x in bound
    {
      assert range[x] == x;
    }
    assert bound == values + (bound - values);
  }

  /** A sequence without duplicates has as many values as entries. */
  lemma {:induction false} DistinctCard(s: seq<int>)
    requires NoDuplicates(s)
    ensures |set x | x in s| == |s|
  {
    if |s| > 0 {
      var front := s[..|s| - 1];
      DistinctCard(front);
      assert (set x | x in s) == (set x | x in front) + {s[|s| - 1]};
      assert s[|s| - 1] !in front;
    }
  }

  /** Distinct characters inside a set of `len` bytes number at most `len / 8`. */
  lemma CharsFit(list: seq<int>, len: nat)
    requires NoDuplicates(list)
    requires forall c :: c in list ==> CharValid(c, len)
    ensures |list| * 8 <= len
  {
    forall c | c in list
      ensures 0 <= c < len / 8
    {
    }
    Pigeonhole(list, len / 8);
  }

  /** How compacting the characters fails: Java's `arraycopy` out of bounds. */
  function CompactFailure(flat: seq<int>, len: nat): (failure: Option<TileFailure>)
    ensures failure.None? <==> 8 <= len && AllValid(flat, len)
    ensures failure == Some(BadChar) ==> exists k :: 0 <= k < |flat| && !CharValid(flat[k], len)
  {
    if len < 8 then Some(ShortCharset)
    else if !AllValid(flat, len) then Some(BadChar)
    else None
  }

  /** Copies character `c` of the set into slot `slot` of the optimized set (Java's `System.arraycopy`). */
  method CopyChar(charset: array<byte>, optimized: array<byte>, c: nat, slot: nat)
    requires CharValid(c, charset.Length) && slot * 8 + 8 <= optimized.Length && charset != optimized
    modifies optimized
    ensures optimized[..slot * 8] == old(optimized[..slot * 8])
    ensures optimized[slot * 8..slot * 8 + 8] == CharBytes(charset[..], c)
    ensures optimized[slot * 8 + 8..] == old(optimized[slot * 8 + 8..])
  {
    forall i | slot * 8 <= i < slot * 8 + 8 {
      optimized[i] := charset[c * 8 + (i - slot * 8)];
    }
    ghost var copied, source := optimized[slot * 8..slot * 8 + 8], charset[c * 8..c * 8 + 8];
    forall k | 0 <= k < 8
      ensures copied[k] == source[k]
    {
      assert copied[k] == optimized[slot * 8 + k];
    }
  }

  /**
   * Builds `usedChars` and the optimized character set: character 0 first,
   * then every character of the tile set not seen before, in order.
   */
  method CompactChars(tileSet: array<int>, charset: array<byte>)
    returns (optimized: array<byte>, count: nat, used: map<int, byte>, failure: Option<TileFailure>)
    ensures fresh(optimized)
    ensures failure == CompactFailure(tileSet[..], charset.Length)
    ensures failure.None? ==> var list := UsedChars(tileSet[..]);
      && (forall c :: c in list ==> CharValid(c, charset.Length))
      && count == |list| && count * 8 <= optimized.Length
      && used == UsedMap(list)
      && optimized[..count * 8] == Gathered(charset[..], list)
  {
    optimized := new byte[charset.Length](_ => 0);
    if charset.Length < 8 {
      return optimized, 0, map[], Some(ShortCharset);
    }
    CopyChar(charset, optimized, 0, 0);
    count := 1;
    used := map[0 := 0];
    failure := None;
    ghost var list := [0];
    UsedCharsStart(tileSet[..]);
    assert optimized[..8] == Gathered(charset[..], list);
    assert used == UsedMap(list);
    var i := 0;
    while i < tileSet.Length && failure.None?
      invariant i <= tileSet.Length
      invariant failure.None? ==> Compacted(tileSet[..], i, charset[..], optimized[..], count, used, list)
      invariant failure.Some? ==> failure == Some(BadChar) && !AllValid(tileSet[..], charset.Length)
    {
      count, used, failure, list := CompactStep(tileSet, i, charset, optimized, count, used, list);
      i := i + 1;
    }
    if failure.None? {
      assert tileSet[..i] == tileSet[..];
    }
  }

  /**
   * What compaction holds after the first `i` entries of the tile set: the
   * used list, its numbers in `used`, and the gathered characters in the
   * first `count` slots of the optimized set.
   */
  ghost predicate Compacted(flat: seq<int>, i: nat, charset: seq<byte>, optimized: seq<byte>, count: nat,
                            used: map<int, byte>, list: seq<int>)
  {
    && i <= |flat| && |optimized| == |charset|
    && list == UsedChars(flat[..i]) && NoDuplicates(list)
    && (forall c :: c in list ==> CharValid(c, |charset|))
    && AllValid(flat[..i], |charset|)
    && count == |list| && count * 8 <= |charset|
    && used == UsedMap(list)
    && optimized[..count * 8] == Gathered(charset, list)
  }

  /** Reads entry `i` of the tile set: a new valid character gets the next number and slot, a new invalid one fails. */
  method CompactStep(tileSet: array<int>, i: nat, charset: array<byte>, optimized: array<byte>, count0: nat,
                     used0: map<int, byte>, ghost list0: seq<int>)
    returns (count: nat, used: map<int, byte>, failure: Option<TileFailure>, ghost list: seq<int>)
    requires i < tileSet.Length && charset != optimized
    requires Compacted(tileSet[..], i, charset[..], optimized[..], count0, used0, list0)
    modifies optimized
    ensures failure.None? ==> Compacted(tileSet[..], i + 1, charset[..], optimized[..], count, used, list)
    ensures failure.Some? ==> failure == Some(BadChar) && !AllValid(tileSet[..], charset.Length)
  {
    count, used, failure, list := count0, used0, None, list0;
    var charnr := tileSet[i];
    if charnr in used {
      CompactedKeep(tileSet[..], i, charset[..], optimized[..], count, used, list);
      return;
    }
    if charnr < 0 || charnr * 8 + 8 > charset.Length {
      assert !CharValid(tileSet[..][i], charset.Length);
      return count, used, Some(BadChar), list;
    }
    CompactedRoom(charset[..], count, list, charnr);
    ghost var before := optimized[..];
    used := used[charnr := ToByte(count)];
    CopyChar(charset, optimized, charnr, count);
    CompactedAdd(tileSet[..], i, charset[..], before, optimized[..], count, used0, list);
    list := list + [charnr];
    count := count + 1;
  }

  /** A new value keeps a sequence free of duplicates. */
  lemma NoDuplicatesSnoc(list: seq<int>, c: int)
    requires NoDuplicates(list) && c !in list
    ensures NoDuplicates(list + [c])
  {
  }

  /** Copying a new character's bytes into the slot after the gathered ones gathers it too. */
  lemma GatheredSnoc(charset: seq<byte>, list: seq<int>, c: int, optimized: seq<byte>, optimized': seq<byte>, count: nat)
    requires forall d :: d in list ==> CharValid(d, |charset|)
    requires CharValid(c, |charset|) && count == |list|
    requires count * 8 + 8 <= |optimized| == |optimized'|
    requires optimized[..count * 8] == Gathered(charset, list)
    requires optimized'[..count * 8] == optimized[..count * 8]
    requires optimized'[count * 8..count * 8 + 8] == CharBytes(charset, c)
    ensures optimized'[..(count + 1) * 8] == Gathered(charset, list + [c])
  {
    var n := count * 8;
    assert (count + 1) * 8 == n + 8;
    GatheredAppend(charset, list, c);
    SlotSplit(optimized', n);
    JoinParts(optimized'[..n + 8], optimized'[..n], optimized'[n..n + 8],
              Gathered(charset, list), CharBytes(charset, c), Gathered(charset, list + [c]));
  }

  /** Gathering one more character appends its bytes. */
  lemma GatheredAppend(charset: seq<byte>, list: seq<int>, c: int)
    requires forall d :: d in list ==> CharValid(d, |charset|)
    requires CharValid(c, |charset|)
    ensures forall d :: d in list + [c] ==> CharValid(d, |charset|)
    ensures Gathered(charset, list + [c]) == Gathered(charset, list) + CharBytes(charset, c)
  {
    assert (list + [c])[..|list|] == list;
  }

  /** An entry already numbered changes nothing but the position. */
  lemma CompactedKeep(flat: seq<int>, i: nat, charset: seq<byte>, optimized: seq<byte>, count: nat,
                      used: map<int, byte>, list: seq<int>)
    requires Compacted(flat, i, charset, optimized, count, used, list)
    requires i < |flat| && flat[i] in used
    ensures Compacted(flat, i + 1, charset, optimized, count, used, list)
  {
    assert flat[i] in list;
    UsedCharsStep(flat, i);
    ValidStep(flat, i, |charset|);
  }

  /** The first `i + 1` entries are valid when the first `i` and entry `i` are. */
  lemma ValidStep(flat: seq<int>, i: nat, len: nat)
    requires i < |flat| && AllValid(flat[..i], len) && CharValid(flat[i], len)
    ensures AllValid(flat[..i + 1], len)
  {
    assert flat[..i + 1] == flat[..i] + [flat[i]];
  }

  /** A new valid character still fits in the optimized set: distinct valid characters fit in the original. */
  lemma CompactedRoom(charset: seq<byte>, count: nat, list: seq<int>, c: int)
    requires NoDuplicates(list) && c !in list && count == |list|
    requires forall d :: d in list ==> CharValid(d, |charset|)
    requires CharValid(c, |charset|)
    ensures count * 8 + 8 <= |charset|
  {
    CharsFit(list + [c], |charset|);
  }

  /** A new valid character takes the next number and the next slot. */
  lemma CompactedAdd(flat: seq<int>, i: nat, charset: seq<byte>, optimized: seq<byte>, optimized': seq<byte>,
                     count: nat, used: map<int, byte>, list: seq<int>)
    requires Compacted(flat, i, charset, optimized, count, used, list)
    requires i < |flat| && flat[i] !in used && CharValid(flat[i], |charset|)
    requires count * 8 + 8 <= |optimized| == |optimized'|
    requires optimized'[..count * 8] == optimized[..count * 8]
    requires optimized'[count * 8..count * 8 + 8] == CharBytes(charset, flat[i])
    ensures Compacted(flat, i + 1, charset, optimized', count + 1, used[flat[i] := ToByte(count)], list + [flat[i]])
  {
    var c := flat[i];
    assert c !in list;
    UsedCharsStep(flat, i);
    ValidStep(flat, i, |charset|);
    UsedMapStep(list, c);
    CharsFit(list + [c], |charset|);
    NoDuplicatesSnoc(list, c);
    GatheredSnoc(charset, list, c, optimized, optimized', count);
  }

  // ----- Tile planes -----

  /** Every character at position `c` of every tile is a key of `used`. */
  predicate Covered(dict: seq<seq<int>>, c: nat, used: map<int, byte>)
  {
    forall i :: 0 <= i < |dict| ==> c < |dict[i]| && dict[i][c] in used
  }

  /**
   * Tile plane `c`: for each tile, the entry of the character at its
   * position `c`, renumbered by `used` and written with the `-chXX[YY]` rule.
   */
  function PlaneRow(dict: seq<seq<int>>, c: nat, used: map<int, byte>, chOffset: int, chEmpty: int): (row: seq<byte>)
    requires Covered(dict, c, used)
    ensures |row| == |dict|
  {
    seq(|dict|, i requires 0 <= i < |dict| && Covered(dict, c, used) => PlaneEntry(used[dict[i][c]], chOffset, chEmpty))
  }

  /** The tiles of a set whose every entry is a key of `used` are covered at every position. */
  lemma ChunksCovered(flat: seq<int>, size: nat, count: nat, c: nat, used: map<int, byte>)
    requires count * size <= |flat| && c < size
    requires forall k :: 0 <= k < |flat| ==> flat[k] in used
    ensures Covered(Chunks(flat, size, count), c, used)
  {
    forall i | 0 <= i < count
      ensures Chunks(flat, size, count)[i][c] in used
    {
      ChunksAt(flat, size, count, i, c);
    }
  }

  /** Fills `tileRow` with tile plane `c` (the inner loop of the plane emission). */
  method FillRow(tileSet: array<int>, tileSize: nat, count: nat, c: nat, used: map<int, byte>,
                 chOffset: int, chEmpty: int, tileRow: array<byte>)
    requires c < tileSize && count * tileSize <= tileSet.Length && tileRow.Length == count
    requires Covered(Chunks(tileSet[..], tileSize, count), c, used)
    modifies tileRow
    ensures tileRow[..] == PlaneRow(Chunks(tileSet[..], tileSize, count), c, used, chOffset, chEmpty)
  {
    ghost var dict := Chunks(tileSet[..], tileSize, count);
    var i := 0;
    while i < count
      invariant i <= count
      invariant forall k :: 0 <= k < i ==> tileRow[k] == PlaneEntry(used[dict[k][c]], chOffset, chEmpty)
    {
      MulBound(i, count, tileSize);
      ChunksAt(tileSet[..], tileSize, count, i, c);
      var cindex := used[tileSet[i * tileSize + c]];
      tileRow[i] := PlaneEntry(cindex, chOffset, chEmpty);
      i := i + 1;
    }
  }

  /** Lists tile plane `c`, using `tileRow` as the row buffer. */
  method EmitPlane(tileSet: array<int>, tileSize: nat, count: nat, c: nat, used: map<int, byte>,
                   chOffset: int, chEmpty: int, tileRow: array<byte>)
    returns (text: string)
    requires c < tileSize && count > 0 && count * tileSize <= tileSet.Length && tileRow.Length == count
    requires forall k :: 0 <= k < tileSet.Length ==> tileSet[k] in used
    modifies tileRow
    ensures Covered(Chunks(tileSet[..], tileSize, count), c, used)
    ensures text == Rows(PlaneRow(Chunks(tileSet[..], tileSize, count), c, used, chOffset, chEmpty), count)
  {
    ChunksCovered(tileSet[..], tileSize, count, c, used);
    FillRow(tileSet, tileSize, count, c, used, chOffset, chEmpty, tileRow);
    text := AppendByteRows("", tileRow, count, count);
    assert tileRow[..count] == tileRow[..];
    assert "" + Rows(tileRow[..], count) == Rows(tileRow[..], count);
  }

  /**
   * Emits the tile planes in structure-of-arrays layout: for each position
   * `c` of a tile, one row of `count` entries. Java appends them one after
   * another to its output; here plane `c` is `planes[c]`.
   */
  method EmitPlanes(tileSet: array<int>, tileSize: nat, count: nat, used: map<int, byte>, chOffset: int, chEmpty: int)
    returns (planes: seq<string>)
    requires (count > 0 || tileSize == 0) && count * tileSize <= tileSet.Length
    requires forall k :: 0 <= k < tileSet.Length ==> tileSet[k] in used
    ensures |planes| == tileSize
    ensures forall c :: 0 <= c < tileSize ==>
      Covered(Chunks(tileSet[..], tileSize, count), c, used)
      && planes[c] == Rows(PlaneRow(Chunks(tileSet[..], tileSize, count), c, used, chOffset, chEmpty), count)
  {
    ghost var dict := Chunks(tileSet[..], tileSize, count);
    var tileRow := new byte[count](_ => 0);
    planes := [];
    var c := 0;
    while c < tileSize
      invariant c <= tileSize && |planes| == c
      invariant forall p :: 0 <= p < c ==>
        Covered(dict, p, used) && planes[p] == Rows(PlaneRow(dict, p, used, chOffset, chEmpty), count)
    {
      var text := EmitPlane(tileSet, tileSize, count, c, used, chOffset, chEmpty, tileRow);
      planes := planes + [text];
      c := c + 1;
    }
  }

  // ----- Proof helpers: sequence identities the proofs above cite step by step -----

  /** The first `n + 8` entries are the first `n` followed by the next 8. */
  lemma SlotSplit(s: seq<byte>, n: nat)
    requires n + 8 <= |s|
    ensures s[..n + 8] == s[..n] + s[n..n + 8]
  {
  }

  /** Equal parts make equal wholes. */
  lemma JoinParts(whole: seq<byte>, a: seq<byte>, b: seq<byte>, a': seq<byte>, b': seq<byte>, whole': seq<byte>)
    requires whole == a + b && a == a' && b == b' && whole' == a' + b'
    ensures whole == whole'
  {
  }
}
