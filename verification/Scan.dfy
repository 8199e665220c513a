/** Scanning one list: the SIMD block loops, the scalar block loop and the row loop. */
module Scan {
  import opened Machine
  import opened Metric
  import opened TopFive
  import opened SearchTheory
  import opened Layout
  import opened Kernels
  import opened SearchState

  /** The state after the first n rows of a list. */
  ghost predicate Scanned(k: Kernel, q: Vec, was: seq<Entry>, rows: seq<Row>, n: int, best: seq<Entry>)
    requires |was| == 5
  {
    0 <= n <= |rows| && best == ScanRows(k, q, was, rows[..n])
  }

  lemma NothingScanned(k: Kernel, q: Vec, was: seq<Entry>, rows: seq<Row>)
    requires |was| == 5
    ensures Scanned(k, q, was, rows, 0, was)
  {
  }

  lemma AllScanned(k: Kernel, q: Vec, was: seq<Entry>, rows: seq<Row>, best: seq<Entry>)
    requires |was| == 5 && Scanned(k, q, was, rows, |rows|, best)
    ensures best == ScanRows(k, q, was, rows)
  {
    assert rows[..|rows|] == rows;
  }

  lemma ScannedStep(k: Kernel, q: Vec, was: seq<Entry>, rows: seq<Row>, n: nat, best: seq<Entry>)
    requires |was| == 5 && n < |rows| && Scanned(k, q, was, rows, n, best)
    ensures Scanned(k, q, was, rows, n + 1, OfferRow(k, q, best, rows[n]))
  {
    assert rows[..n + 1][..n] == rows[..n];
  }

  /** Label and id of row i of a list stored from rowStart on. */
  ghost predicate LabelledRow(labels: seq<Byte>, ids: seq<Uint32>, rowStart: nat, rows: seq<Row>, i: int) {
    && 0 <= i < |rows| && rowStart + |rows| <= |labels|
    && rows[i].fraud == (labels[rowStart + i] == 1)
    && rows[i].id == if |ids| >= rowStart + |rows| then ids[rowStart + i] else rowStart + i
  }

  ghost predicate Labelled(labels: seq<Byte>, ids: seq<Uint32>, rowStart: nat, rows: seq<Row>) {
    && rowStart + |rows| <= |labels|
    && forall i :: 0 <= i < |rows| ==> LabelledRow(labels, ids, rowStart, rows, i)
  }

  /** Row i of a list sits in its lane of the blocks from blockStart on. */
  ghost predicate BlockedRow(blocks: seq<Int16>, blockStart: nat, rows: seq<Row>, i: int) {
    && 0 <= i < |rows|
    && InBlock(blocks, 8 * blockStart + i)
    && rows[i].vec == LaneVec(blocks, 8 * blockStart + i)
  }

  ghost predicate Blocked(blocks: seq<Int16>, blockStart: nat, rows: seq<Row>) {
    && (blockStart + BlocksForRows(|rows|)) * 112 <= |blocks|
    && forall i :: 0 <= i < |rows| ==> BlockedRow(blocks, blockStart, rows, i)
  }

  /** Looks up label and id of row i of a list and offers it with a distance already computed. */
  method OfferStored(
      labels: seq<Byte>, ids: seq<Uint32>, rowStart: nat, rowEnd: nat, i: nat, d: int,
      ghost k: Kernel, ghost q: Vec, ghost rows: seq<Row>, state: IvfSearchState)
    requires Labelled(labels, ids, rowStart, rows) && rowEnd == rowStart + |rows| && i < |rows|
    requires state.Valid() && d == RowDist(k, q, rows[i].vec, state.Best()[4].dist)
    modifies state.bestDist, state.bestFraud, state.bestID
    ensures state.Valid() && state.Probed() == old(state.Probed())
    ensures state.Best() == OfferRow(k, q, old(state.Best()), rows[i])
  {
    assert LabelledRow(labels, ids, rowStart, rows, i);
    var row := rowStart + i;
    var origID := row;
    if |ids| >= rowEnd {
      origID := ids[row];
    }
    state.OfferCandidate(d, labels[row] == 1, origID);
  }

  /** The lane loop after a SIMD kernel: offers the rows held by the blocks just measured. */
  method OfferLanes(
      labels: seq<Byte>, ids: seq<Uint32>, rowStart: nat, rowEnd: nat, b: nat, dist: array<int>,
      ghost q: Vec, ghost rows: seq<Row>, ghost was: seq<Entry>, state: IvfSearchState)
    requires Labelled(labels, ids, rowStart, rows) && rowEnd == rowStart + |rows|
    requires state.Valid() && dist !in state.Repr && |was| == 5 && 8 * b <= |rows|
    requires forall l :: 0 <= l < dist.Length && 8 * b + l < |rows| ==> dist[l] == Dist32(q, rows[8 * b + l].vec)
    requires Scanned(Avx2, q, was, rows, 8 * b, state.Best())
    modifies state.bestDist, state.bestFraud, state.bestID
    ensures state.Valid() && state.Probed() == old(state.Probed())
    ensures Scanned(Avx2, q, was, rows, Min(8 * b + dist.Length, |rows|), state.Best())
  {
    hide OfferRow, ScanRows, Scanned;
    var lanes := Min(dist.Length, rowEnd - (rowStart + 8 * b));
    ghost var measured := dist[..];
    for i := 8 * b to 8 * b + lanes
      invariant state.Valid() && state.Probed() == old(state.Probed()) && dist[..] == measured
      invariant Scanned(Avx2, q, was, rows, i, state.Best())
    {
      var lane := i - 8 * b;
      assert dist[lane] == Dist32(q, rows[8 * b + lane].vec);
      ScannedStep(Avx2, q, was, rows, i, state.Best());
      OfferStored(labels, ids, rowStart, rowEnd, i, dist[lane], Avx2, q, rows, state);
    }
  }

  /** Measures four blocks, or one; lanes past the last row carry padding. */
  method MeasureBlocks(q: Vec, blocks: seq<Int16>, blockStart: nat, b: nat, dist: array<int>, ghost rows: seq<Row>)
    requires Blocked(blocks, blockStart, rows)
    requires dist.Length == 32 || dist.Length == 8
    requires b + dist.Length / 8 <= BlocksForRows(|rows|)
    modifies dist
    ensures forall l :: 0 <= l < dist.Length && 8 * b + l < |rows| ==> dist[l] == Dist32(q, rows[8 * b + l].vec)
  {
    if dist.Length == 32 {
      Block32Distances(q, blocks, blockStart + b, dist);
    } else {
      Block8Distances(q, blocks, blockStart + b, dist, 0);
    }
    forall l | 0 <= l < dist.Length && 8 * b + l < |rows|
      ensures dist[l] == Dist32(q, rows[8 * b + l].vec)
    {
      LaneOfRow(blocks, blockStart, b + l / 8, l % 8, rows);
    }
  }

  method ScanIvfBlocksAvx2(
      q: Vec, blocks: seq<Int16>, labels: seq<Byte>, ids: seq<Uint32>,
      rowStart: nat, rowEnd: nat, blockStart: nat, blockEnd: nat, ghost rows: seq<Row>, state: IvfSearchState)
    requires Labelled(labels, ids, rowStart, rows) && rowEnd == rowStart + |rows|
    requires Blocked(blocks, blockStart, rows) && blockEnd == blockStart + BlocksForRows(|rows|)
    requires state.Valid()
    modifies state.bestDist, state.bestFraud, state.bestID
    ensures state.Valid() && state.Probed() == old(state.Probed())
    ensures state.Best() == ScanRows(Avx2, q, old(state.Best()), rows)
  {
    hide OfferRow, ScanRows, Scanned;
    ghost var was := state.Best();
    if rowStart >= rowEnd || blockStart >= blockEnd {
      NothingScanned(Avx2, q, was, rows);
      AllScanned(Avx2, q, was, rows, was);
      return;
    }
    NothingScanned(Avx2, q, was, rows);
    var dist32, dist := new int[32], new int[BLOCK_SIZE];
    var b, n := 0, blockEnd - blockStart;
    while b + 4 <= n
      invariant b <= n && state.Valid() && state.Probed() == old(state.Probed())
      invariant Scanned(Avx2, q, was, rows, Min(8 * b, |rows|), state.Best())
    {
      MeasureBlocks(q, blocks, blockStart, b, dist32, rows);
      OfferLanes(labels, ids, rowStart, rowEnd, b, dist32, q, rows, was, state);
      b := b + 4;
    }
    while b < n
      invariant b <= n && state.Valid() && state.Probed() == old(state.Probed())
      invariant Scanned(Avx2, q, was, rows, Min(8 * b, |rows|), state.Best())
    {
      MeasureBlocks(q, blocks, blockStart, b, dist, rows);
      OfferLanes(labels, ids, rowStart, rowEnd, b, dist, q, rows, was, state);
      b := b + 1;
    }
    AllScanned(Avx2, q, was, rows, state.Best());
  }

  /** One lane of a block, measured against the last slot of the moment and offered. */
  method OfferLaneScalar(
      q: Vec, blocks: seq<Int16>, labels: seq<Byte>, ids: seq<Uint32>,
      rowStart: nat, rowEnd: nat, block: nat, lane: nat, i: nat, ghost rows: seq<Row>, state: IvfSearchState)
    requires Labelled(labels, ids, rowStart, rows) && rowEnd == rowStart + |rows| && i < |rows|
    requires lane < 8 && block * 112 + 112 <= |blocks| && rows[i].vec == LaneVec(blocks, 8 * block + lane)
    requires state.Valid()
    modifies state.bestDist, state.bestFraud, state.bestID
    ensures state.Valid() && state.Probed() == old(state.Probed())
    ensures state.Best() == OfferRow(Scalar, q, old(state.Best()), rows[i])
  {
    var d := BlockLaneDistance(q, blocks, block, lane, state.bestDist[4]);
    OfferStored(labels, ids, rowStart, rowEnd, i, d, Scalar, q, rows, state);
  }

  lemma LaneOfRow(blocks: seq<Int16>, blockStart: nat, b: nat, lane: nat, rows: seq<Row>)
    requires Blocked(blocks, blockStart, rows) && lane < 8 && 8 * b + lane < |rows|
    ensures (blockStart + b) * 112 + 112 <= |blocks|
    ensures rows[8 * b + lane].vec == LaneVec(blocks, 8 * (blockStart + b) + lane)
  {
    assert BlockedRow(blocks, blockStart, rows, 8 * b + lane);
    assert 8 * blockStart + (8 * b + lane) == 8 * (blockStart + b) + lane;
  }

  /** The lanes of one block that hold rows. */
  method OfferLanesScalar(
      q: Vec, blocks: seq<Int16>, labels: seq<Byte>, ids: seq<Uint32>,
      rowStart: nat, rowEnd: nat, blockStart: nat, b: nat, ghost rows: seq<Row>, ghost was: seq<Entry>,
      state: IvfSearchState)
    requires Labelled(labels, ids, rowStart, rows) && rowEnd == rowStart + |rows|
    requires Blocked(blocks, blockStart, rows) && 8 * b < |rows|
    requires state.Valid() && |was| == 5 && Scanned(Scalar, q, was, rows, 8 * b, state.Best())
    modifies state.bestDist, state.bestFraud, state.bestID
    ensures state.Valid() && state.Probed() == old(state.Probed())
    ensures Scanned(Scalar, q, was, rows, Min(8 * b + 8, |rows|), state.Best())
  {
    hide OfferRow, ScanRows, Scanned;
    var lanes := Min(8, rowEnd - (rowStart + 8 * b));
    for i := 8 * b to 8 * b + lanes
      invariant state.Valid() && state.Probed() == old(state.Probed())
      invariant Scanned(Scalar, q, was, rows, i, state.Best())
    {
      LaneOfRow(blocks, blockStart, b, i - 8 * b, rows);
      ScannedStep(Scalar, q, was, rows, i, state.Best());
      OfferLaneScalar(q, blocks, labels, ids, rowStart, rowEnd, blockStart + b, i - 8 * b, i, rows, state);
    }
  }

  method ScanIvfBlocksUnsafe(
      q: Vec, blocks: seq<Int16>, labels: seq<Byte>, ids: seq<Uint32>,
      rowStart: nat, rowEnd: nat, blockStart: nat, blockEnd: nat, ghost rows: seq<Row>, state: IvfSearchState)
    requires Labelled(labels, ids, rowStart, rows) && rowEnd == rowStart + |rows|
    requires Blocked(blocks, blockStart, rows) && blockEnd == blockStart + BlocksForRows(|rows|)
    requires state.Valid()
    modifies state.bestDist, state.bestFraud, state.bestID
    ensures state.Valid() && state.Probed() == old(state.Probed())
    ensures state.Best() == ScanRows(Scalar, q, old(state.Best()), rows)
  {
    hide OfferRow, ScanRows, Scanned;
    ghost var was := state.Best();
    if rowStart >= rowEnd || blockStart >= blockEnd {
      NothingScanned(Scalar, q, was, rows);
      AllScanned(Scalar, q, was, rows, was);
      return;
    }
    NothingScanned(Scalar, q, was, rows);
    for b := 0 to blockEnd - blockStart
      invariant state.Valid() && state.Probed() == old(state.Probed())
      invariant Scanned(Scalar, q, was, rows, Min(8 * b, |rows|), state.Best())
    {
      OfferLanesScalar(q, blocks, labels, ids, rowStart, rowEnd, blockStart, b, rows, was, state);
    }
    AllScanned(Scalar, q, was, rows, state.Best());
  }

  /** The row loop for an index without blocks. */
  method ScanIvfRows(
      q: Vec, vectors: seq<Int16>, labels: seq<Byte>, ids: seq<Uint32>,
      rowStart: nat, rowEnd: nat, ghost rows: seq<Row>, state: IvfSearchState)
    requires rowEnd == rowStart + |rows| <= |labels| && rowEnd * 14 <= |vectors| && rowEnd <= MAX_UINT32
    requires forall i :: 0 <= i < |rows| ==> rows[i] == StoredRow(vectors, labels, ids, rowStart + i)
    requires state.Valid()
    modifies state.bestDist, state.bestFraud, state.bestID
    ensures state.Valid() && state.Probed() == old(state.Probed())
    ensures state.Best() == ScanRows(Scalar, q, old(state.Best()), rows)
  {
    hide OfferRow, ScanRows, Scanned;
    ghost var was := state.Best();
    NothingScanned(Scalar, q, was, rows);
    for i := 0 to rowEnd - rowStart
      invariant state.Valid() && state.Probed() == old(state.Probed())
      invariant Scanned(Scalar, q, was, rows, i, state.Best())
    {
      ScannedStep(Scalar, q, was, rows, i, state.Best());
      OfferIvf(q, vectors, labels, ids, rowStart + i, state);
    }
    AllScanned(Scalar, q, was, rows, state.Best());
  }

  /** The row stored without blocks at a position. */
  ghost function StoredRow(vectors: seq<Int16>, labels: seq<Byte>, ids: seq<Uint32>, row: Uint32): Row
    requires row < |labels| && row * 14 + 14 <= |vectors|
  {
    Row(VecAt(vectors, row), labels[row] == 1, if |ids| > row then ids[row] else row)
  }

  method OfferIvf(q: Vec, vectors: seq<Int16>, labels: seq<Byte>, ids: seq<Uint32>, row: Uint32, state: IvfSearchState)
    requires row < |labels| && row * 14 + 14 <= |vectors| && state.Valid()
    modifies state.bestDist, state.bestFraud, state.bestID
    ensures state.Valid() && state.Probed() == old(state.Probed())
    ensures state.Best() == OfferRow(Scalar, q, old(state.Best()), StoredRow(vectors, labels, ids, row))
  {
    var d := QuantizedDistance(q, VecAt(vectors, row), state.bestDist[4]);
    var origID := row;
    if |ids| > row {
      origID := ids[row];
    }
    state.OfferCandidate(d, labels[row] == 1, origID);
  }

  /** The SIMD scan needs blocks; without them the row loop is used whatever the processor. */
  function ScanKernel(data: IndexData, avx2: bool): Kernel {
    if data.HasIvfBlocks() && avx2 then Avx2 else Scalar
  }

  /** Offers each row of a list once, in row order, and no padding lane. */
  method ScanIvfList(data: IndexData, avx2: bool, q: Vec, c: nat, state: IvfSearchState)
    requires data.Scannable() && c < data.ivf.clusters && state.Valid()
    modifies state.bestDist, state.bestFraud, state.bestID
    ensures state.Valid() && state.Probed() == old(state.Probed())
    ensures state.Best() == ScanRows(ScanKernel(data, avx2), q, old(state.Best()), data.Observed().lists[c])
  {
    ghost var rows := data.ListRows(c);
    var rowStart, rowEnd := data.ListStart(c), data.ListStart(c + 1);
    if data.HasIvfBlocks() {
      ListIsBlocked(data, c);
      var blockStart, blockEnd := data.BlockStart(c), data.BlockStart(c + 1);
      if avx2 {
        ScanIvfBlocksAvx2(q, data.blocks, data.labels, data.ivf.origIDs, rowStart, rowEnd, blockStart, blockEnd,
                          rows, state);
      } else {
        ScanIvfBlocksUnsafe(q, data.blocks, data.labels, data.ivf.origIDs, rowStart, rowEnd, blockStart, blockEnd,
                            rows, state);
      }
    } else {
      ListIsStored(data, c);
      ScanIvfRows(q, data.vectors, data.labels, data.ivf.origIDs, rowStart, rowEnd, rows, state);
    }
  }

  lemma ListIsBlocked(data: IndexData, c: nat)
    requires data.Scannable() && data.HasIvfBlocks() && c < data.ivf.clusters
    ensures Labelled(data.labels, data.ivf.origIDs, data.ListStart(c), data.ListRows(c))
    ensures Blocked(data.blocks, data.BlockStart(c), data.ListRows(c))
    ensures data.BlockStart(c + 1) == data.BlockStart(c) + BlocksForRows(|data.ListRows(c)|)
  {
    assert data.ListStart(c + 1) <= data.ListStart(data.ivf.clusters);
    assert data.BlockStart(c + 1) <= data.BlockStart(data.ivf.clusters);
    var rows := data.ListRows(c);
    forall i | 0 <= i < |rows|
      ensures LabelledRow(data.labels, data.ivf.origIDs, data.ListStart(c), rows, i)
      ensures BlockedRow(data.blocks, data.BlockStart(c), rows, i)
    {
      data.RowInBounds(c, i);
      assert rows[i] == data.RowAt(c, i);
    }
  }

  lemma ListIsStored(data: IndexData, c: nat)
    requires data.Scannable() && !data.HasIvfBlocks() && c < data.ivf.clusters
    ensures data.ListStart(c + 1) <= |data.labels|
    ensures forall i :: 0 <= i < data.ListLength(c) ==>
              data.RowAt(c, i) == StoredRow(data.vectors, data.labels, data.ivf.origIDs, data.ListStart(c) + i)
  {
    assert data.ListStart(c + 1) <= data.ListStart(data.ivf.clusters);
  }
}
