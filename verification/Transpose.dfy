/** Transposing row-major vectors into blocks of eight lanes, dimension by dimension. */
module Transpose {
  import opened Machine
  import opened Metric
  import opened Layout

  /** Copies one row-major vector into padded row g; every other padded row keeps its vector. */
  method TransposeRow(vectors: seq<Int16>, row: nat, blocks: array<Int16>, g: nat)
    requires row * 14 + 14 <= |vectors| && InBlock(blocks[..], g)
    modifies blocks
    ensures LaneVec(blocks[..], g) == VecAt(vectors, row)
    ensures forall h: nat :: h != g && InBlock(blocks[..], h) ==> LaneVec(blocks[..], h) == LaneVec(old(blocks[..]), h)
  {
    ghost var was := blocks[..];
    for d := 0 to 14
      invariant forall e: nat :: e < d ==> blocks[SlotIndex(g, e)] == vectors[row * 14 + e]
      invariant forall i :: 0 <= i < blocks.Length && (forall e: nat :: e < d ==> i != SlotIndex(g, e))
                  ==> blocks[i] == was[i]
    {
      blocks[SlotIndex(g, d)] := vectors[row * 14 + d];
    }
    forall h: nat | h != g && InBlock(blocks[..], h)
      ensures LaneVec(blocks[..], h) == LaneVec(was, h)
    {
      forall d: nat | d < 14
        ensures blocks[SlotIndex(h, d)] == was[SlotIndex(h, d)]
      {
        forall e: nat | e < 14
          ensures SlotIndex(h, d) != SlotIndex(g, e)
        {
          if SlotIndex(h, d) == SlotIndex(g, e) {
            SlotIndexIsInjective(h, d, g, e);
          }
        }
      }
    }
  }

  /** Row i of list c reads back from the blocks. */
  ghost predicate LaneHolds(
      blocks: seq<Int16>, vectors: seq<Int16>, listOffsets: seq<nat>, blockOffsets: seq<nat>, c: int, i: int)
    requires |listOffsets| == |blockOffsets|
  {
    && 0 <= c < |listOffsets| && 0 <= i
    && InBlock(blocks, 8 * blockOffsets[c] + i) && (listOffsets[c] + i) * 14 + 14 <= |vectors|
    && LaneVec(blocks, 8 * blockOffsets[c] + i) == VecAt(vectors, listOffsets[c] + i)
  }

  /** The rows of the lists before c, and the first n of list c, have been transposed. */
  ghost predicate TransposedTo(
      blocks: seq<Int16>, vectors: seq<Int16>, listOffsets: seq<nat>, blockOffsets: seq<nat>, c: nat, n: nat)
    requires |listOffsets| == |blockOffsets| && c < |listOffsets|
  {
    && (forall e, i :: 0 <= e < c && 0 <= i && IsRowOf(listOffsets, e, i)
          ==> LaneHolds(blocks, vectors, listOffsets, blockOffsets, e, i))
    && forall i :: 0 <= i < n ==> LaneHolds(blocks, vectors, listOffsets, blockOffsets, c, i)
  }

  ghost predicate IsRowOf(listOffsets: seq<nat>, c: int, i: int) {
    0 <= c < |listOffsets| - 1 && 0 <= i && listOffsets[c] + i < listOffsets[c + 1]
  }

  /** The offsets describe lists of rows and the blocks they need. */
  ghost predicate OffsetsFit(vectors: seq<Int16>, listOffsets: seq<nat>, blockOffsets: seq<nat>) {
    && |listOffsets| == |blockOffsets| > 0
    && Monotone(listOffsets) && Monotone(blockOffsets)
    && listOffsets[|listOffsets| - 1] * 14 <= |vectors|
    && BlockSpans(listOffsets, blockOffsets)
  }

  /** A list's padded rows end where the next list's begin. */
  lemma PaddedRowBounds(vectors: seq<Int16>, listOffsets: seq<nat>, blockOffsets: seq<nat>, c: int, i: int)
    requires OffsetsFit(vectors, listOffsets, blockOffsets) && IsRowOf(listOffsets, c, i)
    ensures 8 * blockOffsets[c] + i < 8 * blockOffsets[c + 1] <= 8 * blockOffsets[|blockOffsets| - 1]
    ensures (listOffsets[c] + i) * 14 + 14 <= |vectors|
  {
    assert listOffsets[c + 1] <= listOffsets[|listOffsets| - 1];
  }

  /** Transposing the next row keeps every earlier one. */
  lemma TransposeStep(
      was: seq<Int16>, blocks: seq<Int16>, vectors: seq<Int16>, listOffsets: seq<nat>, blockOffsets: seq<nat>,
      c: nat, n: nat)
    requires OffsetsFit(vectors, listOffsets, blockOffsets) && IsRowOf(listOffsets, c, n) && |was| == |blocks|
    requires TransposedTo(was, vectors, listOffsets, blockOffsets, c, n)
    requires LaneHolds(blocks, vectors, listOffsets, blockOffsets, c, n)
    requires forall h: nat :: h != 8 * blockOffsets[c] + n && InBlock(blocks, h)
               ==> LaneVec(blocks, h) == LaneVec(was, h)
    ensures TransposedTo(blocks, vectors, listOffsets, blockOffsets, c, n + 1)
  {
    forall e, i | 0 <= e < c && 0 <= i && IsRowOf(listOffsets, e, i)
      ensures LaneHolds(blocks, vectors, listOffsets, blockOffsets, e, i)
    {
      PaddedRowBounds(vectors, listOffsets, blockOffsets, e, i);
      assert blockOffsets[e + 1] <= blockOffsets[c];
      assert LaneHolds(was, vectors, listOffsets, blockOffsets, e, i);
    }
    forall i | 0 <= i < n + 1
      ensures LaneHolds(blocks, vectors, listOffsets, blockOffsets, c, i)
    {
      assert i < n ==> LaneHolds(was, vectors, listOffsets, blockOffsets, c, i);
    }
  }

  lemma TransposeNextList(
      blocks: seq<Int16>, vectors: seq<Int16>, listOffsets: seq<nat>, blockOffsets: seq<nat>, c: nat)
    requires OffsetsFit(vectors, listOffsets, blockOffsets) && c + 1 < |listOffsets|
    requires TransposedTo(blocks, vectors, listOffsets, blockOffsets, c, listOffsets[c + 1] - listOffsets[c])
    ensures TransposedTo(blocks, vectors, listOffsets, blockOffsets, c + 1, 0)
  {
  }

  /** Transposes every row; reading a lane gives back the row, and no slot is written twice. */
  method BuildIvfBlocks(vectors: seq<Int16>, listOffsets: seq<nat>, blockOffsets: seq<nat>)
    returns (blocks: array<Int16>)
    requires OffsetsFit(vectors, listOffsets, blockOffsets)
    ensures fresh(blocks) && blocks.Length == blockOffsets[|blockOffsets| - 1] * 112
    ensures TransposedTo(blocks[..], vectors, listOffsets, blockOffsets, |listOffsets| - 1, 0)
  {
    hide TransposedTo, SlotIndex, LaneVec, VecAt;
    var k := |listOffsets| - 1;
    blocks := new Int16[blockOffsets[k] * 112](_ => 0);
    NothingTransposed(blocks[..], vectors, listOffsets, blockOffsets);
    for c := 0 to k
      invariant TransposedTo(blocks[..], vectors, listOffsets, blockOffsets, c, 0)
    {
      assert listOffsets[c] <= listOffsets[c + 1];
      for rel := 0 to listOffsets[c + 1] - listOffsets[c]
        invariant TransposedTo(blocks[..], vectors, listOffsets, blockOffsets, c, rel)
      {
        PaddedRowBounds(vectors, listOffsets, blockOffsets, c, rel);
        ghost var was := blocks[..];
        TransposeRow(vectors, listOffsets[c] + rel, blocks, 8 * blockOffsets[c] + rel);
        TransposeStep(was, blocks[..], vectors, listOffsets, blockOffsets, c, rel);
      }
      TransposeNextList(blocks[..], vectors, listOffsets, blockOffsets, c);
    }
  }

  lemma NothingTransposed(blocks: seq<Int16>, vectors: seq<Int16>, listOffsets: seq<nat>, blockOffsets: seq<nat>)
    requires |listOffsets| == |blockOffsets| > 0
    ensures TransposedTo(blocks, vectors, listOffsets, blockOffsets, 0, 0)
  {
  }

  /** The transposed form of the first n row-major vectors, zero in the padding lanes. */
  ghost function TransposeTable(flat: seq<Int16>, n: nat): (t: seq<Int16>)
    requires n * 14 <= |flat|
    ensures |t| == BlocksForRows(n) * 112
  {
    seq(BlocksForRows(n) * 112, i requires 0 <= i < BlocksForRows(n) * 112 =>
      var g := i / 112 * 8 + i % 8;
      if g < n then flat[g * 14 + i % 112 / 8] else 0)
  }

  lemma {:induction false} SlotParts(g: nat, d: nat)
    requires d < 14
    ensures SlotIndex(g, d) / 112 == g / 8 && SlotIndex(g, d) % 8 == g % 8 && SlotIndex(g, d) % 112 / 8 == d
    ensures g / 8 * 8 + g % 8 == g
  {
    var r := d * 8 + g % 8;
    assert SlotIndex(g, d) == g / 8 * 112 + r && 0 <= r < 112;
  }

  /** Reading a lane of the transposed form gives back the vector. */
  lemma TransposeTableTransposes(flat: seq<Int16>, n: nat)
    requires n * 14 <= |flat|
    ensures Transposes(TransposeTable(flat, n), flat, n)
  {
    forall c: nat | c < n
      ensures LaneVec(TransposeTable(flat, n), c) == VecAt(flat, c)
    {
      forall d: nat | d < 14
        ensures LaneVec(TransposeTable(flat, n), c)[d] == VecAt(flat, c)[d]
      {
        SlotParts(c, d);
      }
    }
  }

  /** Every slot belongs to a padded row and a dimension. */
  lemma SlotOwner(i: nat, k: nat) returns (g: nat, d: nat)
    requires i < k * 112
    ensures g < 8 * k && d < 14 && SlotIndex(g, d) == i
  {
    var b, r := i / 112, i % 112;
    g, d := b * 8 + r % 8, r / 8;
    assert g / 8 == b && g % 8 == r % 8;
  }

  /** Blocks with the same lanes are the same blocks. */
  lemma LanesDetermineBlocks(a: seq<Int16>, b: seq<Int16>, k: nat)
    requires |a| == |b| == k * 112
    requires forall g: nat :: g < 8 * k ==> InBlock(a, g) && InBlock(b, g) && LaneVec(a, g) == LaneVec(b, g)
    ensures a == b
  {
    forall i | 0 <= i < |a|
      ensures a[i] == b[i]
    {
      var g, d := SlotOwner(i, k);
      assert LaneVec(a, g)[d] == a[i] && LaneVec(b, g)[d] == b[i];
    }
  }

  /** The same transposition for the centroid table. */
  method BuildCentroidBlocks(centroids: seq<Int16>, clusters: nat) returns (blocks: array<Int16>)
    requires clusters * 14 <= |centroids|
    ensures fresh(blocks) && blocks[..] == TransposeTable(centroids, clusters)
  {
    hide SlotIndex, LaneVec, VecAt, TransposeTable;
    var k := BlocksForRows(clusters);
    blocks := new Int16[k * 112](_ => 0);
    ghost var zero := blocks[..];
    for c := 0 to clusters
      invariant forall e: nat :: e < c ==> LaneVec(blocks[..], e) == VecAt(centroids, e)
      invariant forall e: nat :: c <= e < 8 * k ==> InBlock(blocks[..], e) && LaneVec(blocks[..], e) == LaneVec(zero, e)
    {
      ghost var was := blocks[..];
      TransposeRow(centroids, c, blocks, c);
      assert forall e: nat :: e < 8 * k && e != c ==> LaneVec(blocks[..], e) == LaneVec(was, e);
    }
    TransposeTableLanes(centroids, clusters, zero);
    LanesDetermineBlocks(blocks[..], TransposeTable(centroids, clusters), k);
  }

  lemma TransposeTableLanes(flat: seq<Int16>, n: nat, zero: seq<Int16>)
    requires n * 14 <= |flat| && |zero| == BlocksForRows(n) * 112 && forall i :: 0 <= i < |zero| ==> zero[i] == 0
    ensures var t := TransposeTable(flat, n);
            forall g: nat :: g < 8 * BlocksForRows(n) ==>
              InBlock(t, g) && LaneVec(t, g) == if g < n then VecAt(flat, g) else LaneVec(zero, g)
  {
    var t := TransposeTable(flat, n);
    forall g: nat | g < 8 * BlocksForRows(n)
      ensures InBlock(t, g) && LaneVec(t, g) == if g < n then VecAt(flat, g) else LaneVec(zero, g)
    {
      forall d: nat | d < 14
        ensures LaneVec(t, g)[d] == if g < n then VecAt(flat, g)[d] else 0
      {
        SlotParts(g, d);
      }
    }
  }
}
