/** Laying out a split dataset: per-cluster statistics and order, offsets, and the reordered rows. */
module Build {
  import opened Machine
  import opened Metric
  import opened SearchTheory
  import opened Layout
  import opened Transpose
  import opened Sorting
  import opened Split
  import opened ClusterStats

  datatype BuildOptions = BuildOptions(clusters: int, nprobe: int, ambiguousNProbe: int, repair: bool)

  // ---- cluster order --------------------------------------------------------------------------

  /** Distance of a reference to a centroid, as a sort key. */
  function CentroidKey(vectors: seq<Int16>, centroid: Vec): nat -> int {
    (id: nat) => if id * 14 + 14 <= |vectors| then Dist(VecAt(vectors, id), centroid) else 0
  }

  function SortClusterByCentroidDistance(vectors: seq<Int16>, ids: seq<nat>, centroid: Vec): seq<nat> {
    SortBy(CentroidKey(vectors, centroid), ids)
  }

  // ---- materialisation ------------------------------------------------------------------------

  /** Positions below pos hold the rows their recorded ids name. */
  ghost predicate RowsPlaced(
      vectors: seq<Int16>, labels: seq<Byte>, ov: seq<Int16>, ol: seq<Byte>, oi: seq<nat>)
    requires |vectors| == 14 * |labels|
  {
    && |ov| == 14 * |oi| && |ol| == |oi|
    && forall p :: 0 <= p < |oi| ==> RowPlaced(vectors, labels, ov, ol, oi, p)
  }

  ghost predicate RowPlaced(
      vectors: seq<Int16>, labels: seq<Byte>, ov: seq<Int16>, ol: seq<Byte>, oi: seq<nat>, p: int)
    requires |vectors| == 14 * |labels| && |ov| == 14 * |oi| && |ol| == |oi|
  {
    && 0 <= p < |oi| && oi[p] < |labels|
    && VecAt(ov, p) == VecAt(vectors, oi[p]) && ol[p] == labels[oi[p]]
  }

  /** Appends the rows named by a cluster's ids, in order. */
  method PlaceRows(
      vectors: seq<Int16>, labels: seq<Byte>, ids: seq<nat>, ov: seq<Int16>, ol: seq<Byte>, oi: seq<nat>)
    returns (ov': seq<Int16>, ol': seq<Byte>)
    requires |vectors| == 14 * |labels| && RowsPlaced(vectors, labels, ov, ol, oi)
    requires forall i :: 0 <= i < |ids| ==> ids[i] < |labels|
    ensures RowsPlaced(vectors, labels, ov', ol', oi + ids)
  {
    hide RowsPlaced;
    ov', ol' := ov, ol;
    assert oi + ids[..0] == oi;
    for i := 0 to |ids|
      invariant RowsPlaced(vectors, labels, ov', ol', oi + ids[..i])
    {
      PlaceStep(vectors, labels, ov', ol', oi + ids[..i], ids[i]);
      assert oi + ids[..i] + [ids[i]] == oi + ids[..i + 1];
      ov' := ov' + VecAt(vectors, ids[i]);
      ol' := ol' + [labels[ids[i]]];
    }
    assert ids[..|ids|] == ids;
  }

  lemma PlaceStep(vectors: seq<Int16>, labels: seq<Byte>, ov: seq<Int16>, ol: seq<Byte>, oi: seq<nat>, id: nat)
    requires |vectors| == 14 * |labels| && RowsPlaced(vectors, labels, ov, ol, oi) && id < |labels|
    ensures RowsPlaced(vectors, labels, ov + VecAt(vectors, id), ol + [labels[id]], oi + [id])
  {
    var ov', ol', oi' := ov + VecAt(vectors, id), ol + [labels[id]], oi + [id];
    forall p | 0 <= p < |oi'|
      ensures RowPlaced(vectors, labels, ov', ol', oi', p)
    {
      if p < |oi| {
        assert RowPlaced(vectors, labels, ov, ol, oi, p);
        assert forall d :: 0 <= d < 14 ==> VecAt(ov', p)[d] == VecAt(ov, p)[d];
      } else {
        assert forall d :: 0 <= d < 14 ==> VecAt(ov', p)[d] == VecAt(vectors, id)[d];
      }
    }
  }

  /** What the materialisation of one cluster leaves in the tables. */
  ghost predicate ClusterDone(
      vectors: seq<Int16>, ids: seq<nat>, r: BuildRange, oi: seq<nat>, centroid: Vec, box: Box)
  {
    && r.start <= r.end <= |ids| && r.end <= |oi|
    && (forall i :: r.start <= i < r.end ==> ids[i] * 14 + 14 <= |vectors|)
    && oi[r.start..r.end] == SortClusterByCentroidDistance(vectors, ids[r.start..r.end], centroid)
    && TightBox(Members(vectors, ids[r.start..r.end]), box)
    && (r.start < r.end ==> RoundedMean(Members(vectors, ids[r.start..r.end]), centroid) && Inside(centroid, box))
  }

  /** Every cluster below c is done, and the offsets record where it went. */
  ghost predicate ClustersDone(
      vectors: seq<Int16>, ids: seq<nat>, ranges: seq<BuildRange>, c: nat, oi: seq<nat>,
      centroids: seq<Int16>, low: seq<Int16>, high: seq<Int16>, listOffsets: seq<nat>, blockOffsets: seq<nat>)
  {
    && c <= |ranges| && |listOffsets| == |blockOffsets| == c + 1
    && |centroids| == |low| == |high| == 14 * |ranges|
    && listOffsets[0] == 0 && blockOffsets[0] == 0 && listOffsets[c] == |oi|
    && (forall e :: 0 <= e < c ==>
          ClusterEntry(vectors, ids, ranges, e, oi, centroids, low, high, listOffsets, blockOffsets))
  }

  ghost predicate ClusterEntry(
      vectors: seq<Int16>, ids: seq<nat>, ranges: seq<BuildRange>, e: int, oi: seq<nat>,
      centroids: seq<Int16>, low: seq<Int16>, high: seq<Int16>, listOffsets: seq<nat>, blockOffsets: seq<nat>)
    requires |centroids| == |low| == |high| == 14 * |ranges| && |listOffsets| == |blockOffsets|
  {
    && 0 <= e < |ranges| && e + 1 < |listOffsets|
    && listOffsets[e] == ranges[e].start && listOffsets[e + 1] == ranges[e].end
    && blockOffsets[e + 1] == blockOffsets[e] + BlocksForRows(ranges[e].end - ranges[e].start)
    && ClusterDone(vectors, ids, ranges[e], oi, VecAt(centroids, e), Box(VecAt(low, e), VecAt(high, e)))
  }

  lemma ClustersStep(
      vectors: seq<Int16>, ids: seq<nat>, ranges: seq<BuildRange>, c: nat,
      oi: seq<nat>, centroids: seq<Int16>, low: seq<Int16>, high: seq<Int16>, lo: seq<nat>, bo: seq<nat>,
      sorted: seq<nat>, centroids': seq<Int16>, low': seq<Int16>, high': seq<Int16>)
    requires Tiles(ranges, 0, |ids|) && c < |ranges|
    requires ClustersDone(vectors, ids, ranges, c, oi, centroids, low, high, lo, bo)
    requires |oi| == ranges[c].start <= ranges[c].end <= |ids|
    requires |centroids'| == |low'| == |high'| == 14 * |ranges|
    requires forall e: nat :: e < c ==> VecAt(centroids', e) == VecAt(centroids, e)
                                        && VecAt(low', e) == VecAt(low, e) && VecAt(high', e) == VecAt(high, e)
    requires |sorted| == ranges[c].end - ranges[c].start
    requires ClusterDone(vectors, ids, ranges[c], oi + sorted, VecAt(centroids', c),
                         Box(VecAt(low', c), VecAt(high', c)))
    ensures ClustersDone(vectors, ids, ranges, c + 1, oi + sorted, centroids', low', high',
                         lo + [|oi| + |sorted|], bo + [bo[c] + BlocksForRows(|sorted|)])
  {
    hide TightBox, RoundedMean, SortClusterByCentroidDistance, VecAt, BlocksForRows, Inside;
    var lo', bo' := lo + [|oi| + |sorted|], bo + [bo[c] + BlocksForRows(|sorted|)];
    forall e | 0 <= e < c + 1
      ensures ClusterEntry(vectors, ids, ranges, e, oi + sorted, centroids', low', high', lo', bo')
    {
      if e < c {
        assert ClusterEntry(vectors, ids, ranges, e, oi, centroids, low, high, lo, bo);
        EarlierRanges(ranges, 0, |ids|, e, c);
        assert (oi + sorted)[ranges[e].start..ranges[e].end] == oi[ranges[e].start..ranges[e].end];
      }
    }
  }

  lemma {:induction false} EarlierRanges(ranges: seq<BuildRange>, start: nat, end: nat, e: nat, c: nat)
    requires Tiles(ranges, start, end) && e < c < |ranges|
    ensures ranges[e].end <= ranges[c].start
    decreases c
  {
    if e + 1 < c {
      EarlierRanges(ranges, start, end, e, c - 1);
      assert ranges[c - 1].end == ranges[c].start;
    }
  }

  lemma {:induction false} RangesFit(ranges: seq<BuildRange>, start: nat, end: nat, c: nat)
    requires Tiles(ranges, start, end) && c < |ranges|
    ensures start <= ranges[c].start <= ranges[c].end <= end
  {
    if c > 0 {
      EarlierRanges(ranges, start, end, 0, c);
    }
    if c + 1 < |ranges| {
      EarlierRanges(ranges, start, end, c, |ranges| - 1);
    }
  }

  /** The finished offsets are monotone, span the blocks their rows need, and fit 32 bits. */
  lemma {:induction false} FinishedOffsets(
      vectors: seq<Int16>, ids: seq<nat>, ranges: seq<BuildRange>, c: nat, oi: seq<nat>,
      centroids: seq<Int16>, low: seq<Int16>, high: seq<Int16>, lo: seq<nat>, bo: seq<nat>)
    requires ClustersDone(vectors, ids, ranges, c, oi, centroids, low, high, lo, bo)
    requires c + 1 == |lo| == |bo|
    ensures Monotone(lo) && Monotone(bo)
    ensures bo[c] <= lo[c]
    decreases c
  {
    forall i, j | 0 <= i <= j < |lo|
      ensures lo[i] <= lo[j] && bo[i] <= bo[j]
    {
      OffsetsGrow(vectors, ids, ranges, c, oi, centroids, low, high, lo, bo, i, j);
    }
    OffsetsGrow(vectors, ids, ranges, c, oi, centroids, low, high, lo, bo, 0, c);
  }

  lemma {:induction false} OffsetsGrow(
      vectors: seq<Int16>, ids: seq<nat>, ranges: seq<BuildRange>, c: nat, oi: seq<nat>,
      centroids: seq<Int16>, low: seq<Int16>, high: seq<Int16>, lo: seq<nat>, bo: seq<nat>, i: nat, j: nat)
    requires ClustersDone(vectors, ids, ranges, c, oi, centroids, low, high, lo, bo)
    requires i <= j <= c
    ensures lo[i] <= lo[j] && bo[i] <= bo[j] && bo[j] - bo[i] <= lo[j] - lo[i]
    decreases j
  {
    if i < j {
      OffsetsGrow(vectors, ids, ranges, c, oi, centroids, low, high, lo, bo, i, j - 1);
      assert ClusterEntry(vectors, ids, ranges, j - 1, oi, centroids, low, high, lo, bo);
    }
  }

  /** One turn of the materialisation loop. */
  method MaterializeCluster(
      vectors: seq<Int16>, labels: seq<Byte>, ids: seq<nat>, ghost ranges: seq<BuildRange>, r: BuildRange, c: nat,
      ov: seq<Int16>, ol: seq<Byte>, oi: seq<nat>, lo: seq<nat>, bo: seq<nat>,
      centroids: array<Int16>, low: array<Int16>, high: array<Int16>)
    returns (ov': seq<Int16>, ol': seq<Byte>, oi': seq<nat>, lo': seq<nat>, bo': seq<nat>)
    requires |vectors| == 14 * |labels| && forall i :: 0 <= i < |ids| ==> ids[i] < |labels|
    requires Tiles(ranges, 0, |ids|) && c < |ranges| && r == ranges[c] && r.start <= r.end <= |ids|
    requires centroids != low && centroids != high && low != high
    requires centroids.Length == low.Length == high.Length
    requires RowsPlaced(vectors, labels, ov, ol, oi) && |oi| == r.start
    requires ClustersDone(vectors, ids, ranges, c, oi, centroids[..], low[..], high[..], lo, bo)
    requires multiset(oi) == multiset(ids[..r.start])
    modifies centroids, low, high
    ensures RowsPlaced(vectors, labels, ov', ol', oi') && |oi'| == r.end
    ensures ClustersDone(vectors, ids, ranges, c + 1, oi', centroids[..], low[..], high[..], lo', bo')
    ensures multiset(oi') == multiset(ids[..r.end])
  {
    hide RowsPlaced, ClusterDone, ClusterEntry, Tiles, TightBox, RoundedMean, SortBy, Inside, VecAt, SortedBy;
    ghost var centroids0, low0, high0 := centroids[..], low[..], high[..];
    var window := ids[r.start..r.end];
    ComputeClusterStats(vectors, window, centroids, low, high, c);
    OtherRowsKept(centroids0, centroids[..], c);
    OtherRowsKept(low0, low[..], c);
    OtherRowsKept(high0, high[..], c);
    var centroid := VecAt(centroids[..], c);
    var sorted := SortClusterByCentroidDistance(vectors, window, centroid);
    SortBySorts(CentroidKey(vectors, centroid), window);
    PermutationKeepsBound(window, sorted, |labels|);
    ov', ol' := PlaceRows(vectors, labels, sorted, ov, ol, oi);
    oi', lo', bo' := oi + sorted, lo + [|oi| + |sorted|], bo + [bo[|bo| - 1] + BlocksForRows(|sorted|)];
    ClusterIsDone(vectors, ids, r, oi, sorted, centroid, Box(VecAt(low[..], c), VecAt(high[..], c)));
    ClustersStep(vectors, ids, ranges, c, oi, centroids0, low0, high0, lo, bo, sorted, centroids[..], low[..],
                 high[..]);
    assert ids[..r.end] == ids[..r.start] + window;
  }

  lemma OtherRowsKept(was: seq<Int16>, now: seq<Int16>, c: nat)
    requires |was| == |now|
    requires forall i :: 0 <= i < |was| && !(c * 14 <= i < c * 14 + 14) ==> now[i] == was[i]
    ensures forall e: nat :: e != c && e * 14 + 14 <= |was| ==> VecAt(now, e) == VecAt(was, e)
  {
  }

  lemma ClusterIsDone(
      vectors: seq<Int16>, ids: seq<nat>, r: BuildRange, oi: seq<nat>, sorted: seq<nat>, centroid: Vec, box: Box)
    requires r.start <= r.end <= |ids| && |oi| == r.start && |sorted| == r.end - r.start
    requires forall i :: 0 <= i < |ids| ==> ids[i] * 14 + 14 <= |vectors|
    requires sorted == SortClusterByCentroidDistance(vectors, ids[r.start..r.end], centroid)
    requires TightBox(Members(vectors, ids[r.start..r.end]), box)
    requires ids[r.start..r.end] != [] ==>
               RoundedMean(Members(vectors, ids[r.start..r.end]), centroid) && Inside(centroid, box)
    ensures ClusterDone(vectors, ids, r, oi + sorted, centroid, box)
  {
    assert (oi + sorted)[r.start..r.end] == sorted;
  }

  method MaterializeIvf(
      vectors: seq<Int16>, labels: seq<Byte>, ids: seq<nat>, ranges: seq<BuildRange>, opts: BuildOptions)
    returns (data: IndexData)
    requires |vectors| == 14 * |labels| && |ids| == |labels| <= MAX_UINT32
    requires forall i :: 0 <= i < |ids| ==> ids[i] < |labels|
    requires Tiles(ranges, 0, |ids|)
    ensures Materialized(vectors, labels, ids, ranges, data)
    ensures data.ivf.centroidBlocks == []
    ensures data.Config() == Settings(opts.nprobe, opts.ambiguousNProbe, opts.repair)
  {
    hide RowsPlaced, ClusterEntry, TransposedTo;
    var k := |ranges|;
    var centroids, low, high := new Int16[k * 14](_ => 0), new Int16[k * 14](_ => 0), new Int16[k * 14](_ => 0);
    var ov, ol, oi, lo, bo := [], [], [], [0], [0];
    NothingPlaced(vectors, labels);
    for c := 0 to k
      invariant RowsPlaced(vectors, labels, ov, ol, oi)
      invariant ClustersDone(vectors, ids, ranges, c, oi, centroids[..], low[..], high[..], lo, bo)
      invariant |oi| == (if c == k then |ids| else ranges[c].start) && |oi| <= |ids|
      invariant multiset(oi) == multiset(ids[..|oi|])
    {
      RangesFit(ranges, 0, |ids|, c);
      ov, ol, oi, lo, bo :=
        MaterializeCluster(vectors, labels, ids, ranges, ranges[c], c, ov, ol, oi, lo, bo, centroids, low, high);
      assert c + 1 < k ==> ranges[c].end == ranges[c + 1].start;
    }
    assert ids[..|oi|] == ids;
    assert multiset(ids) == multiset(oi);
    FinishedOffsets(vectors, ids, ranges, k, oi, centroids[..], low[..], high[..], lo, bo);
    FinishedFit(vectors, labels, ids, ranges, ov, ol, oi, centroids[..], low[..], high[..], lo, bo);
    var blocks := BuildIvfBlocks(ov, lo, bo);
    PermutationKeepsBound(ids, oi, |labels|);
    data := IndexData(ov, blocks[..], ol,
                      IvfMetadata(k, centroids[..], [], lo, bo, low[..], high[..], oi,
                                  opts.nprobe, opts.ambiguousNProbe, opts.repair));
  }

  lemma NothingPlaced(vectors: seq<Int16>, labels: seq<Byte>)
    requires |vectors| == 14 * |labels|
    ensures RowsPlaced(vectors, labels, [], [], [])
  {
  }

  lemma FinishedFit(
      vectors: seq<Int16>, labels: seq<Byte>, ids: seq<nat>, ranges: seq<BuildRange>,
      ov: seq<Int16>, ol: seq<Byte>, oi: seq<nat>,
      centroids: seq<Int16>, low: seq<Int16>, high: seq<Int16>, lo: seq<nat>, bo: seq<nat>)
    requires |vectors| == 14 * |labels| && RowsPlaced(vectors, labels, ov, ol, oi)
    requires ClustersDone(vectors, ids, ranges, |ranges|, oi, centroids, low, high, lo, bo)
    ensures OffsetsFit(ov, lo, bo)
  {
    FinishedOffsets(vectors, ids, ranges, |ranges|, oi, centroids, low, high, lo, bo);
    forall c, e | 0 <= c && e == c + 1 && e < |lo|
      ensures bo[e] - bo[c] == BlocksForRows(lo[e] - lo[c])
    {
      assert ClusterEntry(vectors, ids, ranges, c, oi, centroids, low, high, lo, bo);
    }
  }

  /** Everything materialisation establishes. */
  ghost predicate Materialized(
      vectors: seq<Int16>, labels: seq<Byte>, ids: seq<nat>, ranges: seq<BuildRange>, data: IndexData)
    requires |vectors| == 14 * |labels|
  {
    && data.ivf.clusters == |ranges|
    && RowsPlaced(vectors, labels, data.vectors, data.labels, data.ivf.origIDs)
    && multiset(data.ivf.origIDs) == multiset(ids) && |data.ivf.origIDs| == |ids|
    && ClustersDone(vectors, ids, ranges, |ranges|, data.ivf.origIDs, data.ivf.centroids,
                    data.ivf.bboxMin, data.ivf.bboxMax, data.ivf.listOffsets, data.ivf.blockOffsets)
    && OffsetsFit(data.vectors, data.ivf.listOffsets, data.ivf.blockOffsets)
    && |data.blocks| == data.ivf.blockOffsets[|ranges|] as int * 112
    && TransposedTo(data.blocks, data.vectors, data.ivf.listOffsets, data.ivf.blockOffsets, |ranges|, 0)
  }
}
