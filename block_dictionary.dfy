/**
 * The deduplication discipline shared by the character set of the sprite
 * converter and the tile set of the level converter: blocks are looked up by a
 * linear scan in first-seen order, the first byte-exact match wins, an unseen
 * block is appended while there is room, and the first block that finds no room
 * stops the build.
 */
module BlockDictionary {

  /** Index of the first entry of `dict` equal to `block`, or `|dict|` when there is none. */
  function Find<T(==)>(block: seq<T>, dict: seq<seq<T>>): (i: nat)
    ensures i <= |dict|
    ensures i < |dict| ==> dict[i] == block
    ensures forall j :: 0 <= j < i ==> dict[j] != block
  {
    if dict == [] then 0
    else if dict[0] == block then 0
    else 1 + Find(block, dict[1..])
  }

  /** The first `count` blocks of `size` elements stored back to back in `flat`. */
  function Chunks<T>(flat: seq<T>, size: nat, count: nat): (blocks: seq<seq<T>>)
    requires count * size <= |flat|
    ensures |blocks| == count
    ensures forall i :: 0 <= i < count ==> |blocks[i]| == size
  {
    if count == 0 then []
    else Chunks(flat, size, count - 1) + [flat[(count - 1) * size..count * size]]
  }

  /** Whether `block` is stored in `flat` from position `base` on: the inner comparison loop of both lookups. */
  method BlockMatches<T(==)>(block: array<T>, flat: array<T>, base: nat) returns (same: bool)
    requires base + block.Length <= flat.Length
    ensures same <==> forall k :: 0 <= k < block.Length ==> block[k] == flat[base + k]
  {
    var j := 0;
    while j < block.Length && block[j] == flat[base + j]
      invariant j <= block.Length
      invariant forall k :: 0 <= k < j ==> block[k] == flat[base + k]
    {
      j := j + 1;
    }
    same := j == block.Length;
  }

  /** Block `i` equals `block` exactly when every element of `block` is at its place in the flat storage. */
  lemma ChunkMatch<T>(flat: seq<T>, size: nat, count: nat, i: nat, base: nat, block: seq<T>)
    requires count * size <= |flat| && i < count && |block| == size && base == i * size
    requires base + size <= |flat|
    ensures Chunks(flat, size, count)[i] == block <==> forall k :: 0 <= k < size ==> block[k] == flat[base + k]
  {
    var blocks := Chunks(flat, size, count);
    forall k | 0 <= k < size
      ensures blocks[i][k] == flat[i * size + k]
    {
      ChunksAt(flat, size, count, i, k);
    }
  }

  /** Element `j` of block `i` sits at `i * size + j` of the flat storage. */
  lemma {:induction false} ChunksAt<T>(flat: seq<T>, size: nat, count: nat, i: nat, j: nat)
    requires count * size <= |flat|
    requires i < count && j < size
    ensures i * size + j < |flat|
    ensures Chunks(flat, size, count)[i][j] == flat[i * size + j]
  {
    if i < count - 1 {
      ChunksAt(flat, size, count - 1, i, j);
    }
  }

  /** Two storages that agree on the first `count * size` elements hold the same blocks. */
  lemma {:induction false} ChunksPrefix<T>(flat: seq<T>, flat': seq<T>, size: nat, count: nat)
    requires count * size <= |flat| && count * size <= |flat'|
    requires flat[..count * size] == flat'[..count * size]
    ensures Chunks(flat, size, count) == Chunks(flat', size, count)
  {
    if count > 0 {
      assert (count - 1) * size == count * size - size;
      assert flat[..(count - 1) * size] == flat[..count * size][..(count - 1) * size];
      assert flat'[..(count - 1) * size] == flat'[..count * size][..(count - 1) * size];
      ChunksPrefix(flat, flat', size, count - 1);
      assert flat[(count - 1) * size..count * size] == flat[..count * size][(count - 1) * size..];
      assert flat'[(count - 1) * size..count * size] == flat'[..count * size][(count - 1) * size..];
    }
  }

  /** No two entries of `dict` are equal. */
  predicate Distinct<T(==)>(dict: seq<seq<T>>)
  {
    forall i, j :: 0 <= i < j < |dict| ==> dict[i] != dict[j]
  }

  /**
   * Indices are numbered in first-seen order: every index below `indices[k]`
   * already occurs before position `k`.
   */
  predicate FirstSeenOrder(indices: seq<nat>)
  {
    forall k :: 0 <= k < |indices| ==>
      forall j :: 0 <= j < indices[k] ==> j in indices[..k]
  }

  /** State of a dictionary build: the unique blocks, one index per recorded block, and whether every block fitted. */
  datatype Built<T> = Built(dict: seq<seq<T>>, indices: seq<nat>, complete: bool)

  /**
   * Looks every block up in turn, appending the unseen ones while fewer than
   * `capacity` entries exist. The first unseen block that finds the dictionary
   * full is not recorded, and nothing after it is looked at.
   */
  function Build<T(==)>(blocks: seq<seq<T>>, capacity: nat): Built<T>
  {
    if blocks == [] then Built([], [], true)
    else
      var prev := Build(blocks[..|blocks| - 1], capacity);
      var b := blocks[|blocks| - 1];
      var i := Find(b, prev.dict);
      if !prev.complete then prev
      else if i < |prev.dict| then Built(prev.dict, prev.indices + [i], true)
      else if |prev.dict| < capacity then Built(prev.dict + [b], prev.indices + [i], true)
      else Built(prev.dict, prev.indices, false)
  }

  /** One step of a build: what recording `b` after `blocks` does to the state. */
  lemma BuildStep<T>(blocks: seq<seq<T>>, b: seq<T>, capacity: nat)
    ensures var prev, next := Build(blocks, capacity), Build(blocks + [b], capacity);
      var i := Find(b, prev.dict);
      next == if !prev.complete then prev
              else if i < |prev.dict| then Built(prev.dict, prev.indices + [i], true)
              else if |prev.dict| < capacity then Built(prev.dict + [b], prev.indices + [i], true)
              else Built(prev.dict, prev.indices, false)
  {
    assert (blocks + [b])[..|blocks|] == blocks;
  }

  /** A build stays within capacity and records a prefix of the blocks, all of them unless it stopped on a full dictionary. */
  lemma {:induction false} BuildSize<T>(blocks: seq<seq<T>>, capacity: nat)
    ensures var r := Build(blocks, capacity);
      && |r.dict| <= capacity
      && |r.dict| <= |r.indices| <= |blocks|
      && (r.complete <==> |r.indices| == |blocks|)
      && (!r.complete ==> |r.dict| == capacity)
  {
    if blocks != [] {
      BuildSize(blocks[..|blocks| - 1], capacity);
    }
  }

  /** When all blocks have `n` elements, so has every dictionary entry. */
  lemma {:induction false} BuildUniform<T>(blocks: seq<seq<T>>, capacity: nat, n: nat)
    requires forall k :: 0 <= k < |blocks| ==> |blocks[k]| == n
    ensures var r := Build(blocks, capacity);
      forall j :: 0 <= j < |r.dict| ==> |r.dict[j]| == n
  {
    if blocks != [] {
      var front := blocks[..|blocks| - 1];
      BuildUniform(front, capacity, n);
      BuildStep(front, blocks[|blocks| - 1], capacity);
      assert front + [blocks[|blocks| - 1]] == blocks;
    }
  }

  /** Each recorded block is indexed by the first entry equal to it, and no two entries are equal. */
  lemma {:induction false} BuildIndexed<T>(blocks: seq<seq<T>>, capacity: nat)
    ensures Indexed(blocks, Build(blocks, capacity))
  {
    if blocks != [] {
      var n := |blocks| - 1;
      var front := blocks[..n];
      var b := blocks[n];
      assert front + [b] == blocks;
      BuildIndexed(front, capacity);
      BuildSize(front, capacity);
      BuildStep(front, b, capacity);
      var prev := Build(front, capacity);
      if prev.complete {
        AppendBlock(front, prev, b, capacity);
      }
    }
  }

  /** The guarantee of BuildIndexed for one build state `r` over `blocks`. */
  predicate Indexed<T(==)>(blocks: seq<seq<T>>, r: Built<T>)
  {
    && Distinct(r.dict)
    && |r.indices| <= |blocks|
    && (forall k :: 0 <= k < |r.indices| ==>
          r.indices[k] == Find(blocks[k], r.dict) && r.indices[k] < |r.dict| && r.dict[r.indices[k]] == blocks[k])
  }

  /** Recording one more block after a complete build keeps it indexed. */
  lemma AppendBlock<T>(front: seq<seq<T>>, prev: Built<T>, b: seq<T>, capacity: nat)
    requires Indexed(front, prev) && prev.complete && |prev.indices| == |front|
    ensures var i := Find(b, prev.dict);
      && (i < |prev.dict| ==> Indexed(front + [b], Built(prev.dict, prev.indices + [i], true)))
      && (i == |prev.dict| ==> Indexed(front + [b], Built(prev.dict + [b], prev.indices + [i], true)))
  {
    var i := Find(b, prev.dict);
    var blocks := front + [b];
    var indices' := prev.indices + [i];
    if i < |prev.dict| {
      assert forall k :: 0 <= k < |indices'| ==> blocks[k] == if k < |front| then front[k] else b;
    } else {
      var dict' := prev.dict + [b];
      forall k | 0 <= k < |indices'|
        ensures indices'[k] == Find(blocks[k], dict') && indices'[k] < |dict'| && dict'[indices'[k]] == blocks[k]
      {
        if k < |front| {
          FindExtend(front[k], prev.dict, b);
        } else {
          FindAppended(b, prev.dict);
        }
      }
    }
  }

  /** A block absent from `dict` is found at the entry appended for it. */
  lemma FindAppended<T>(b: seq<T>, dict: seq<seq<T>>)
    requires Find(b, dict) == |dict|
    ensures Find(b, dict + [b]) == |dict|
  {
    var i' := Find(b, dict + [b]);
    assert (dict + [b])[|dict|] == b;
  }

  /** Entries are numbered in first-seen order, and each one is used by some recorded block. */
  lemma {:induction false} BuildNumbering<T>(blocks: seq<seq<T>>, capacity: nat)
    ensures var r := Build(blocks, capacity);
      && FirstSeenOrder(r.indices)
      && (forall j :: 0 <= j < |r.dict| ==> j in r.indices)
  {
    if blocks != [] {
      var n := |blocks| - 1;
      var front := blocks[..n];
      BuildNumbering(front, capacity);
      var prev := Build(front, capacity);
      var i := Find(blocks[n], prev.dict);
      if prev.complete && (i < |prev.dict| || |prev.dict| < capacity) {
        FirstSeenAppend(prev.indices, i);
      }
    }
  }

  /**
   * What a build guarantees: the dictionary stays within capacity and holds no
   * duplicates; each recorded block is indexed by the first (and only) entry
   * equal to it; the blocks recorded are exactly a prefix of the input, all of
   * it unless the build stopped on a full dictionary; entries are numbered in
   * first-seen order, and each one is used by some block.
   */
  lemma BuildSound<T>(blocks: seq<seq<T>>, capacity: nat)
    ensures var r := Build(blocks, capacity);
      && |r.dict| <= capacity
      && Distinct(r.dict)
      && |r.indices| <= |blocks|
      && (r.complete <==> |r.indices| == |blocks|)
      && (!r.complete ==> |r.dict| == capacity)
      && (forall k :: 0 <= k < |r.indices| ==>
            r.indices[k] == Find(blocks[k], r.dict) && r.indices[k] < |r.dict| && r.dict[r.indices[k]] == blocks[k])
      && FirstSeenOrder(r.indices)
      && (forall j :: 0 <= j < |r.dict| ==> j in r.indices)
  {
    BuildSize(blocks, capacity);
    BuildIndexed(blocks, capacity);
    BuildNumbering(blocks, capacity);
    assert Indexed(blocks, Build(blocks, capacity));
  }

  /** An index whose predecessors all occur already may follow a first-seen numbering. */
  lemma FirstSeenAppend(indices: seq<nat>, x: nat)
    requires FirstSeenOrder(indices)
    requires forall j :: 0 <= j < x ==> j in indices
    ensures FirstSeenOrder(indices + [x])
  {
    var r := indices + [x];
    forall k | 0 <= k < |r|
      ensures forall j :: 0 <= j < r[k] ==> j in r[..k]
    {
      if k < |indices| {
        assert r[..k] == indices[..k];
      } else {
        assert r[..k] == indices;
      }
    }
  }

  /** Appending an entry does not move the first match of a block already present. */
  lemma FindExtend<T>(block: seq<T>, dict: seq<seq<T>>, b: seq<T>)
    requires Find(block, dict) < |dict|
    ensures Find(block, dict + [b]) == Find(block, dict)
  {
    var i := Find(block, dict);
    var i' := Find(block, dict + [b]);
    assert (dict + [b])[i] == block;
    if i' < i {
      assert (dict + [b])[i'] == dict[i'];
    }
  }

  /** The dictionary grows by at most one entry per recorded block. */
  lemma BuildGrowth<T>(blocks: seq<seq<T>>, b: seq<T>, capacity: nat)
    ensures |Build(blocks + [b], capacity).dict| <= |Build(blocks, capacity).dict| + 1
    ensures |Build(blocks + [b], capacity).indices| <= |Build(blocks, capacity).indices| + 1
  {
    BuildStep(blocks, b, capacity);
  }

  /** Looking the same block up twice in a row gives the same index both times. */
  lemma BuildIdempotent<T>(blocks: seq<seq<T>>, b: seq<T>, capacity: nat)
    requires Build(blocks + [b], capacity).complete
    ensures var r := Build(blocks + [b, b], capacity);
      r.complete && |r.indices| == |blocks| + 2 && r.indices[|blocks|] == r.indices[|blocks| + 1]
      && r.dict == Build(blocks + [b], capacity).dict
  {
    BuildSound(blocks + [b], capacity);
    BuildSound(blocks + [b, b], capacity);
    BuildStep(blocks + [b], b, capacity);
    assert blocks + [b] + [b] == blocks + [b, b];
  }

  /** Once a build has stopped on a full dictionary, later blocks change nothing. */
  lemma {:induction false} BuildStopped<T>(blocks: seq<seq<T>>, rest: seq<seq<T>>, capacity: nat)
    requires !Build(blocks, capacity).complete
    ensures Build(blocks + rest, capacity) == Build(blocks, capacity)
  {
    if rest != [] {
      var front := rest[..|rest| - 1];
      BuildStopped(blocks, front, capacity);
      assert blocks + rest == (blocks + front) + [rest[|rest| - 1]];
      BuildStep(blocks + front, rest[|rest| - 1], capacity);
    } else {
      assert blocks + rest == blocks;
    }
  }
  /** Recording more blocks only extends the indices recorded so far. */
  lemma {:induction false} BuildMonotone<T>(blocks: seq<seq<T>>, rest: seq<seq<T>>, capacity: nat)
    ensures Build(blocks, capacity).indices <= Build(blocks + rest, capacity).indices
  {
    if rest == [] {
      assert blocks + rest == blocks;
    } else {
      var front := rest[..|rest| - 1];
      BuildMonotone(blocks, front, capacity);
      assert blocks + rest == (blocks + front) + [rest[|rest| - 1]];
      BuildStep(blocks + front, rest[|rest| - 1], capacity);
    }
  }

  /** The blocks of a storage, laid back to back again, are the storage's first `count * size` elements. */
  lemma {:induction false} ChunksConcat<T>(flat: seq<T>, size: nat, count: nat)
    requires count * size <= |flat|
    ensures Concat(Chunks(flat, size, count)) == flat[..count * size]
  {
    if count > 0 {
      var n := count - 1;
      var lo, hi := n * size, count * size;
      assert hi == lo + size;
      var front := Chunks(flat, size, n);
      ChunksConcat(flat, size, n);
      assert Chunks(flat, size, count) == front + [flat[lo..hi]];
      ConcatSnoc(front, flat[lo..hi]);
      assert flat[..hi] == flat[..lo] + flat[lo..hi];
    }
  }

  /** The elements of `blocks`, in order. */
  function Concat<T>(blocks: seq<seq<T>>): seq<T>
  {
    if |blocks| == 0 then [] else Concat(blocks[..|blocks| - 1]) + blocks[|blocks| - 1]
  }

  /** Appending a block appends its elements. */
  lemma ConcatSnoc<T>(blocks: seq<seq<T>>, b: seq<T>)
    ensures Concat(blocks + [b]) == Concat(blocks) + b
  {
    assert (blocks + [b])[..|blocks|] == blocks;
  }
}
