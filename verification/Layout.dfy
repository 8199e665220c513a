/** How an index lays its rows out in flat 16-bit slices, and the logical view it presents. */
module Layout {
  import opened Machine
  import opened Metric
  import opened SearchTheory
  import opened Exactness

  const BLOCK_SIZE: nat := 8
  const BLOCK_STRIDE: nat := 112

  datatype IvfMetadata = IvfMetadata(
    clusters: int,
    centroids: seq<Int16>,
    centroidBlocks: seq<Int16>,
    listOffsets: seq<Uint32>,
    blockOffsets: seq<Uint32>,
    bboxMin: seq<Int16>,
    bboxMax: seq<Int16>,
    origIDs: seq<Uint32>,
    nprobe: int,
    ambiguousNProbe: int,
    repair: bool)

  /** Component d of row r in row-major order. */
  function VecAt(flat: seq<Int16>, r: nat): (v: Vec)
    requires r * 14 + 14 <= |flat|
    ensures forall d :: 0 <= d < 14 ==> v[d] == flat[r * 14 + d]
  {
    seq(14, d requires 0 <= d < 14 => flat[r * 14 + d])
  }

  /** The first n row-major vectors. */
  function Vectors(flat: seq<Int16>, n: nat): (vs: seq<Vec>)
    requires n * 14 <= |flat|
    ensures |vs| == n && forall r :: 0 <= r < n ==> vs[r] == VecAt(flat, r)
  {
    seq<Vec>(n, r requires 0 <= r < n => VecAt(flat, r))
  }

  /** Where component d of padded row g sits: block g / 8, dimension-major, lane g % 8. */
  function SlotIndex(g: nat, d: nat): nat {
    g / 8 * 112 + d * 8 + g % 8
  }

  /** Whether padded row g lies in the blocks. */
  predicate InBlock(blocks: seq<Int16>, g: nat) {
    g / 8 * 112 + 112 <= |blocks|
  }

  /** The vector in padded row g of transposed blocks. */
  function LaneVec(blocks: seq<Int16>, g: nat): (v: Vec)
    requires InBlock(blocks, g)
    ensures forall d :: 0 <= d < 14 ==> v[d] == blocks[SlotIndex(g, d)]
  {
    seq(14, d requires 0 <= d < 14 => blocks[SlotIndex(g, d)])
  }

  /** Different (row, dimension) pairs never share a slot. */
  lemma SlotIndexIsInjective(g: nat, d: nat, h: nat, e: nat)
    requires d < 14 && e < 14 && SlotIndex(g, d) == SlotIndex(h, e)
    ensures g == h && d == e
  {
    var x, y := d * 8 + g % 8, e * 8 + h % 8;
    assert g / 8 == h / 8 && x == y;
    assert g == g / 8 * 8 + g % 8 && h == h / 8 * 8 + h % 8;
  }

  /** Lane l of block b holds its component d 8 d + l slots into the block's 112. */
  lemma SlotOfLane(b: nat, l: nat, d: nat)
    requires l < 8 && d < 14
    ensures SlotIndex(8 * b + l, d) == 112 * b + 8 * d + l
    ensures 112 * b <= SlotIndex(8 * b + l, d) < 112 * (b + 1)
  {
    assert (8 * b + l) / 8 == b && (8 * b + l) % 8 == l;
  }

  ghost predicate Monotone(s: seq<int>) {
    forall i, j :: 0 <= i <= j < |s| ==> s[i] <= s[j]
  }

  function BlocksForRows(rows: int): nat {
    if rows <= 0 then 0 else (rows + 7) / 8
  }

  /** The lanes of the whole blocks among n transposed vectors. */
  function LaneVectors(blocks: seq<Int16>, n: nat): (vs: seq<Vec>)
    requires BlocksForRows(n) * 112 <= |blocks|
    ensures |vs| == n / 8 * 8 && forall c :: 0 <= c < |vs| ==> InBlock(blocks, c) && vs[c] == LaneVec(blocks, c)
  {
    assert forall c :: 0 <= c < n / 8 * 8 ==> InBlock(blocks, c);
    seq<Vec>(n / 8 * 8, c requires 0 <= c < n / 8 * 8 => LaneVec(blocks, c))
  }

  /** What the SIMD selection measures: lanes of the transposed centroids, or the centroids without complete ones. */
  ghost function SimdLanes(centroids: seq<Int16>, centroidBlocks: seq<Int16>, n: nat): (vs: seq<Vec>)
    requires n * 14 <= |centroids|
    ensures |vs| == n / 8 * 8
  {
    if |centroidBlocks| >= BlocksForRows(n) * 112 then LaneVectors(centroidBlocks, n) else Vectors(centroids, n / 8 * 8)
  }

  /** Every list owns exactly the blocks its rows need. */
  ghost predicate BlockSpans(lists: seq<int>, blocks: seq<int>)
    requires |lists| == |blocks|
  {
    forall c, e :: 0 <= c && e == c + 1 && e < |lists| ==> blocks[e] - blocks[c] == BlocksForRows(lists[e] - lists[c])
  }

  /** Transposed centroids give the same distances as row-major ones. */
  ghost predicate Transposes(centroidBlocks: seq<Int16>, centroids: seq<Int16>, clusters: nat)
    requires clusters * 14 <= |centroids|
  {
    && BlocksForRows(clusters) * 112 <= |centroidBlocks|
    && forall c: nat :: c < clusters ==> LaneVec(centroidBlocks, c) == VecAt(centroids, c)
  }

  datatype IndexData = IndexData(
    vectors: seq<Int16>,
    blocks: seq<Int16>,
    labels: seq<Byte>,
    ivf: IvfMetadata)
  {
    /** First row of list c; one past the last row of list c - 1. */
    function ListStart(c: nat): nat
      requires c < |ivf.listOffsets|
    {
      ivf.listOffsets[c]
    }

    function BlockStart(c: nat): nat
      requires c < |ivf.blockOffsets|
    {
      ivf.blockOffsets[c]
    }

    predicate HasIvf() {
      && ivf.clusters > 0
      && |ivf.listOffsets| == ivf.clusters + 1
      && |ivf.centroids| >= ivf.clusters * 14
    }

    predicate HasIvfBlocks() {
      && HasIvf()
      && |ivf.blockOffsets| == ivf.clusters + 1
      && |blocks| >= BlockStart(ivf.clusters) * 112
    }

    predicate HasBoxes() {
      |ivf.bboxMin| >= ivf.clusters * 14 && |ivf.bboxMax| >= ivf.clusters * 14
    }

    /** The list offsets tile the rows in order. */
    ghost predicate ValidOffsets(count: nat) {
      && ivf.clusters > 0 && |ivf.listOffsets| == ivf.clusters + 1
      && ListStart(0) == 0 && ListStart(ivf.clusters) == count
      && Monotone(ivf.listOffsets)
    }

    ghost predicate ValidBlockOffsets() {
      && |ivf.listOffsets| == |ivf.blockOffsets| == ivf.clusters + 1
      && ivf.clusters > 0 && BlockStart(0) == 0
      && Monotone(ivf.blockOffsets)
      && BlockSpans(ivf.listOffsets, ivf.blockOffsets)
    }

    /** The transposed centroids, when present in full, are the centroids. */
    ghost predicate CentroidBlocksAgree()
      requires HasIvf()
    {
      |ivf.centroidBlocks| >= BlocksForRows(ivf.clusters) * 112
      ==> Transposes(ivf.centroidBlocks, ivf.centroids, ivf.clusters)
    }

    /** Everything a scan of a list indexes is in bounds. */
    ghost predicate Scannable() {
      && HasIvf()
      && ValidOffsets(|labels|)
      && (HasIvfBlocks() ==> ValidBlockOffsets())
      && (!HasIvfBlocks() ==> |vectors| >= |labels| * 14)
    }

    /** Every list can be scanned, and the probe mask has a bit for each. */
    ghost predicate Searchable() {
      Scannable() && ivf.clusters <= 8192
    }

    /** The vectors that the SIMD selection reads. */
    ghost function Lanes(): (vs: seq<Vec>)
      requires HasIvf()
      ensures |vs| == ivf.clusters / 8 * 8
    {
      SimdLanes(ivf.centroids, ivf.centroidBlocks, ivf.clusters)
    }

    /** Rows of list c. */
    ghost function ListLength(c: nat): nat
      requires Scannable() && c < ivf.clusters
    {
      ListStart(c + 1) - ListStart(c)
    }

    lemma RowInBounds(c: nat, i: nat)
      requires Scannable() && c < ivf.clusters && i < ListLength(c)
      ensures ListStart(c) + i < |labels|
      ensures HasIvfBlocks() ==> (8 * BlockStart(c) + i) / 8 < BlockStart(c + 1)
      ensures HasIvfBlocks() ==> InBlock(blocks, 8 * BlockStart(c) + i)
    {
      assert ListStart(c + 1) <= ListStart(ivf.clusters);
      if HasIvfBlocks() {
        assert BlockStart(c + 1) <= BlockStart(ivf.clusters);
        assert (8 * BlockStart(c) + i) / 8 == BlockStart(c) + i / 8;
      }
    }

    /** The id a scan reports for a row: the recorded one, or the row itself where none is recorded. */
    ghost function RowId(row: Uint32, rowEnd: nat): Uint32 {
      if HasIvfBlocks() then (if |ivf.origIDs| >= rowEnd && row < rowEnd then ivf.origIDs[row] else row)
      else (if |ivf.origIDs| > row then ivf.origIDs[row] else row)
    }

    ghost function RowAt(c: nat, i: nat): Row
      requires Scannable() && c < ivf.clusters && i < ListLength(c)
    {
      RowInBounds(c, i);
      var row := ListStart(c) + i;
      Row(if HasIvfBlocks() then LaneVec(blocks, 8 * BlockStart(c) + i) else VecAt(vectors, row),
          labels[row] == 1,
          RowId(row, ListStart(c + 1)))
    }

    ghost function ListRows(c: nat): (rows: seq<Row>)
      requires Scannable() && c < ivf.clusters
      ensures |rows| == ListLength(c)
      ensures forall i :: 0 <= i < |rows| ==> rows[i] == RowAt(c, i)
    {
      seq(ListLength(c), i requires 0 <= i < ListLength(c) => RowAt(c, i))
    }

    ghost function BoxAt(c: nat): Box
      requires HasBoxes() && c < ivf.clusters
    {
      Box(VecAt(ivf.bboxMin, c), VecAt(ivf.bboxMax, c))
    }

    /** What a scan and a selection observe. */
    ghost function Observed(): (v: View)
      requires Scannable()
      ensures WellFormed(v) && |v.lists| == ivf.clusters
      ensures forall c :: 0 <= c < ivf.clusters ==> v.lists[c] == ListRows(c)
      ensures v.centroids == Vectors(ivf.centroids, ivf.clusters) && v.lanes == Lanes()
      ensures |v.boxes| == if HasBoxes() then ivf.clusters else 0
      ensures forall c :: 0 <= c < |v.boxes| ==> v.boxes[c] == BoxAt(c)
    {
      View(seq(ivf.clusters, c requires 0 <= c < ivf.clusters => ListRows(c)),
           Vectors(ivf.centroids, ivf.clusters), Lanes(),
           if HasBoxes() then seq(ivf.clusters, c requires 0 <= c < ivf.clusters => BoxAt(c)) else [])
    }

    ghost function Config(): Settings {
      Settings(ivf.nprobe, ivf.ambiguousNProbe, ivf.repair)
    }
  }

  /** Where a scan finds row i of list c in blocks: its vector, its label, where 1 is fraud, and its recorded id. */
  lemma RowIsRead(data: IndexData, c: nat, i: nat)
    requires data.Scannable() && data.HasIvfBlocks() && c < data.ivf.clusters && i < data.ListLength(c)
    ensures var row, block := data.ListStart(c) + i, data.BlockStart(c) + i / 8;
            && row < |data.labels| && 112 * block + 112 <= |data.blocks|
            && (forall d :: 0 <= d < 14 ==>
                  data.RowAt(c, i).vec[d] == data.blocks[112 * block + 8 * d + i % 8])
            && (data.RowAt(c, i).fraud <==> data.labels[row] == 1)
            && (|data.ivf.origIDs| == |data.labels| ==> data.RowAt(c, i).id == data.ivf.origIDs[row])
  {
    data.RowInBounds(c, i);
    assert data.ListStart(c + 1) <= data.ListStart(data.ivf.clusters);
    var g := 8 * data.BlockStart(c) + i;
    forall d: nat | d < 14
      ensures SlotIndex(g, d) == 112 * (data.BlockStart(c) + i / 8) + 8 * d + i % 8
    {
      SlotOfLane(data.BlockStart(c) + i / 8, i % 8, d);
      assert g == 8 * (data.BlockStart(c) + i / 8) + i % 8;
    }
  }

  /** Transposed centroids that agree with the centroids give the SIMD selection the centroids. */
  lemma AgreeingLanes(data: IndexData)
    requires data.HasIvf() && data.CentroidBlocksAgree()
    ensures data.Lanes() == Vectors(data.ivf.centroids, data.ivf.clusters / 8 * 8)
  {
  }
}
