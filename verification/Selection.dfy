/**
 Choosing the lists to probe: the insertion loop over centroids and its three variants, each proved
 to return the first clusters in (distance, index) order.
 */
module Selection {
  import opened Machine
  import opened Metric
  import opened ProbeOrder
  import opened SearchTheory
  import opened Layout
  import opened Kernels

  /** Selection slots after the clusters below c: the first n of them, nearest first. */
  ghost predicate Kept(ds: seq<int>, c: nat, n: nat, dist: seq<int>, id: seq<nat>, count: nat) {
    && c <= |ds| && 0 < n <= |dist| && |dist| == |id|
    && count == Min(c, n)
    && IsTop(ds, c, id[..count])
    && (forall i :: 0 <= i < count ==> dist[i] == ds[id[i]])
    && (forall i :: count <= i < n ==> dist[i] == MAX_INT64)
  }

  /** s with x put at p and the items from p up to slot `last` moved one to the right. */
  function Shifted<T>(s: seq<T>, p: nat, x: T, last: nat): (r: seq<T>)
    requires p <= last < |s|
    ensures |r| == |s|
  {
    seq(|s|, k requires 0 <= k < |s| =>
      if k < p || last < k then s[k] else if k == p then x else s[k - 1])
  }

  /** The items of s between i and `last` have been copied one slot to the right. */
  ghost predicate MovedRight<T>(s: seq<T>, r: seq<T>, i: nat, last: nat) {
    && i <= last < |s| == |r|
    && (forall k :: 0 <= k <= i ==> r[k] == s[k])
    && (forall k :: i < k <= last ==> r[k] == s[k - 1])
    && (forall k :: last < k < |s| ==> r[k] == s[k])
  }

  lemma MovedRightIsShifted<T>(s: seq<T>, r: seq<T>, p: nat, x: T, last: nat)
    requires MovedRight(s, r, p, last)
    ensures r[p := x] == Shifted(s, p, x, last)
  {
  }

  /** Shifts farther clusters right from slot `last` and puts the new one in the gap. */
  method InsertCentroid(cluster: nat, dist: int, bestDist: array<int>, bestID: array<nat>, last: nat)
    returns (ghost p: nat)
    requires bestDist.Length == bestID.Length && last < bestDist.Length && (bestDist as object) != bestID
    modifies bestDist, bestID
    ensures p <= last
    ensures p > 0 ==> old(bestDist[..])[p - 1] <= dist
    ensures p < last ==> dist < old(bestDist[..])[p]
    ensures bestDist[..] == Shifted(old(bestDist[..]), p, dist, last)
    ensures bestID[..] == Shifted(old(bestID[..]), p, cluster, last)
  {
    ghost var d0, b0 := bestDist[..], bestID[..];
    var i := last;
    while i > 0 && dist < bestDist[i - 1]
      invariant 0 <= i <= last
      invariant MovedRight(d0, bestDist[..], i, last) && MovedRight(b0, bestID[..], i, last)
      invariant i < last ==> dist < d0[i]
    {
      bestDist[i] := bestDist[i - 1];
      bestID[i] := bestID[i - 1];
      i := i - 1;
    }
    p := i;
    MovedRightIsShifted(d0, bestDist[..], p, dist, last);
    MovedRightIsShifted(b0, bestID[..], p, cluster, last);
    bestDist[i] := dist;
    bestID[i] := cluster;
  }

  lemma SlotOfNeighbours(ds: seq<int>, bound: nat, kept: seq<nat>, d: int, p: nat)
    requires bound <= |ds| && IsTop(ds, bound, kept) && p <= |kept|
    requires p > 0 ==> ds[kept[p - 1]] <= d
    requires p < |kept| ==> d < ds[kept[p]]
    ensures IsSlot(ds, kept, d, p)
  {
    forall i | 0 <= i < |kept|
      ensures if i < p then ds[kept[i]] <= d else d < ds[kept[i]]
    {
      assert i < p - 1 ==> Before(ds, kept[i], kept[p - 1]);
      assert p < i ==> Before(ds, kept[p], kept[i]);
    }
  }

  lemma {:induction false} InsertionStep(
      ds: seq<int>, c: nat, n: nat, dist: seq<int>, id: seq<nat>, count: nat, p: nat, last: nat)
    requires c < |ds| && Kept(ds, c, n, dist, id, count)
    requires last == Min(count, n - 1) && p <= last
    requires count == n ==> ds[c] < dist[n - 1]
    requires p > 0 ==> dist[p - 1] <= ds[c]
    requires p < last ==> ds[c] < dist[p]
    ensures Kept(ds, c + 1, n, Shifted(dist, p, ds[c], last), Shifted(id, p, c, last), last + 1)
  {
    hide IsTop, IsSlot, Before;
    KeptNeighbours(ds, c, n, dist, id, count, p);
    if count == n {
      ShiftedReplacesLast(ds, c, id, n, p);
    } else {
      ShiftedGrows(ds, c, id, count, p);
    }
    var dist', id' := Shifted(dist, p, ds[c], last), Shifted(id, p, c, last);
    forall i | 0 <= i <= last
      ensures dist'[i] == ds[id'[i]]
    {
    }
  }

  lemma KeptNeighbours(ds: seq<int>, c: nat, n: nat, dist: seq<int>, id: seq<nat>, count: nat, p: nat)
    requires c < |ds| && Kept(ds, c, n, dist, id, count)
    requires p <= Min(count, n - 1) && (count == n ==> ds[c] < dist[n - 1])
    requires p > 0 ==> dist[p - 1] <= ds[c]
    requires p < Min(count, n - 1) ==> ds[c] < dist[p]
    ensures IsTop(ds, c, id[..count]) && IsSlot(ds, id[..count], ds[c], p)
  {
    SlotOfNeighbours(ds, c, id[..count], ds[c], p);
  }

  lemma ShiftedGrows(ds: seq<int>, c: nat, id: seq<nat>, count: nat, p: nat)
    requires c < |ds| && p <= count == c < |id| && IsTop(ds, c, id[..count])
    requires IsSlot(ds, id[..count], ds[c], p)
    ensures IsTop(ds, c + 1, Shifted(id, p, c, count)[..count + 1])
  {
    TopGrows(ds, c, id[..count], p);
    assert Shifted(id, p, c, count)[..count + 1] == id[..count][..p] + [c] + id[..count][p..];
  }

  lemma ShiftedReplacesLast(ds: seq<int>, c: nat, id: seq<nat>, n: nat, p: nat)
    requires c < |ds| && p < n <= |id| && IsTop(ds, c, id[..n])
    requires IsSlot(ds, id[..n], ds[c], p)
    ensures IsTop(ds, c + 1, Shifted(id, p, c, n - 1)[..n])
  {
    var grown := id[..n][..p] + [c] + id[..n][p..];
    TopGrows(ds, c, id[..n], p);
    TopDropsLast(ds, c + 1, grown);
    assert Shifted(id, p, c, n - 1)[..n] == grown[..n];
  }

  /**
   One turn of a selection loop. While slots are free d is exact; after that it may be any value no
   smaller than the cutoff when the true distance is no smaller either.
   */
  method ConsiderCentroid(c: nat, d: int, bestDist: array<int>, out: array<nat>, count: nat, n: nat, ghost ds: seq<int>)
    returns (count': nat)
    requires bestDist.Length == out.Length == MAX_PROBE && (bestDist as object) != out
    requires n <= MAX_PROBE && c < |ds| && Kept(ds, c, n, bestDist[..], out[..], count)
    requires d == ds[c] || (count == n && bestDist[n - 1] <= d && bestDist[n - 1] <= ds[c])
    modifies bestDist, out
    ensures Kept(ds, c + 1, n, bestDist[..], out[..], count')
  {
    ghost var dist, id := bestDist[..], out[..];
    count' := count;
    if count < n {
      ghost var p := InsertCentroid(c, d, bestDist, out, count);
      InsertionStep(ds, c, n, dist, id, count, p, count);
      count' := count + 1;
    } else if d < bestDist[n - 1] {
      ghost var p := InsertCentroid(c, d, bestDist, out, n - 1);
      InsertionStep(ds, c, n, dist, id, count, p, n - 1);
    } else {
      TopSkips(ds, c, id[..count]);
    }
  }

  /** A finished selection loop holds the first n clusters in probe order. */
  lemma KeptIsTop(ds: seq<int>, n: nat, dist: seq<int>, id: seq<nat>, count: nat)
    requires Kept(ds, |ds|, n, dist, id, count) && n <= |ds|
    ensures count == n && id[..count] == Top(ds, n)
  {
    TopIsUnique(ds, id[..count], Top(ds, n));
  }

  /** The lane loop: offers the eight clusters from c on. */
  method SelectLanes(
      c: nat, n: nat, dist: array<int>, bestDist: array<int>, out: array<nat>, count: nat, ghost ds: seq<int>)
    returns (count': nat)
    requires dist.Length == 8 && bestDist.Length == out.Length == MAX_PROBE && dist != bestDist
    requires (bestDist as object) != out && (dist as object) != out
    requires n <= MAX_PROBE && c + 8 <= |ds| && Kept(ds, c, n, bestDist[..], out[..], count)
    requires forall lane :: 0 <= lane < 8 ==> dist[lane] == ds[c + lane]
    modifies bestDist, out
    ensures Kept(ds, c + 8, n, bestDist[..], out[..], count')
  {
    count' := count;
    for lane := 0 to 8
      invariant forall l :: 0 <= l < 8 ==> dist[l] == ds[c + l]
      invariant Kept(ds, c + lane, n, bestDist[..], out[..], count')
    {
      count' := ConsiderCentroid(c + lane, dist[lane], bestDist, out, count', n, ds);
    }
  }

  /** The scalar loop over the clusters from `first` on, abandoning each distance at the last slot. */
  method SelectScalar(
      q: Vec, centroids: seq<Int16>, clusters: nat, first: nat, n: nat,
      bestDist: array<int>, out: array<nat>, count: nat, ghost ds: seq<int>)
    returns (count': nat)
    requires bestDist.Length == out.Length == MAX_PROBE && (bestDist as object) != out
    requires n <= MAX_PROBE && n <= clusters == |ds| && clusters * 14 <= |centroids|
    requires Kept(ds, first, n, bestDist[..], out[..], count)
    requires forall c :: first <= c < clusters ==> ds[c] == Dist(q, VecAt(centroids, c))
    modifies bestDist, out
    ensures count' == n && out[..n] == Top(ds, n)
  {
    count' := count;
    for c := first to clusters
      invariant Kept(ds, c, n, bestDist[..], out[..], count')
    {
      ghost var cutoff := bestDist[n - 1];
      var d := QuantizedDistance(q, VecAt(centroids, c), bestDist[n - 1]);
      DistBounds(q, VecAt(centroids, c));
      AbandonedIsTruncation(q, VecAt(centroids, c), cutoff);
      assert count' < n ==> cutoff == MAX_INT64;
      count' := ConsiderCentroid(c, d, bestDist, out, count', n, ds);
    }
    KeptIsTop(ds, n, bestDist[..], out[..], count');
  }

  method TopIvfCentroidsScalar(q: Vec, centroids: seq<Int16>, clusters: nat, nprobe: int, out: array<nat>)
    returns (count: nat)
    requires clusters * 14 <= |centroids| && out.Length == MAX_PROBE
    modifies out
    ensures count == ProbeCount(nprobe, clusters)
    ensures var lanes := WholeBlocks(centroids, clusters);
            out[..count] == Top(CentroidDists(Scalar, q, Vectors(centroids, clusters), lanes), count)
  {
    if nprobe <= 0 || clusters == 0 {
      return 0;
    }
    var n := Min(Min(nprobe, clusters), MAX_PROBE);
    ghost var ds := CentroidDists(Scalar, q, Vectors(centroids, clusters), WholeBlocks(centroids, clusters));
    var bestDist := new int[MAX_PROBE](_ => MAX_INT64);
    count := SelectScalar(q, centroids, clusters, 0, n, bestDist, out, 0, ds);
  }

  /** The centroids that whole blocks of eight cover. */
  ghost function WholeBlocks(centroids: seq<Int16>, clusters: nat): (vs: seq<Vec>)
    requires clusters * 14 <= |centroids|
    ensures |vs| == clusters / 8 * 8
  {
    Vectors(centroids, clusters / 8 * 8)
  }

  /** Only the SIMD kernel reads lanes. */
  lemma LanesDoNotMatter(k: Kernel, q: Vec, centroids: seq<Vec>, a: seq<Vec>, b: seq<Vec>)
    requires |a| == |b| == |centroids| / 8 * 8 && (k == Avx2 ==> a == b)
    ensures CentroidDists(k, q, centroids, a) == CentroidDists(k, q, centroids, b)
  {
  }

  /** One turn of the block loop: eight SIMD distances, then the lane loop. */
  method SelectBlock(
      q: Vec, ghost centroids: seq<Int16>, centroidBlocks: seq<Int16>, ghost clusters: nat, b: nat, n: nat,
      dist: array<int>, bestDist: array<int>, out: array<nat>, count: nat, ghost ds: seq<int>)
    returns (count': nat)
    requires clusters * 14 <= |centroids| && BlocksForRows(clusters) * 112 <= |centroidBlocks|
    requires dist.Length == 8 && bestDist.Length == out.Length == MAX_PROBE && dist != bestDist
    requires (bestDist as object) != out && (dist as object) != out
    requires 8 * b + 8 <= clusters && n <= MAX_PROBE
    requires ds == CentroidDists(Avx2, q, Vectors(centroids, clusters), LaneVectors(centroidBlocks, clusters))
    requires Kept(ds, 8 * b, n, bestDist[..], out[..], count)
    modifies dist, bestDist, out
    ensures Kept(ds, 8 * b + 8, n, bestDist[..], out[..], count')
  {
    ghost var keptDist, keptID := bestDist[..], out[..];
    Block8Distances(q, centroidBlocks, b, dist, 0);
    assert bestDist[..] == keptDist && out[..] == keptID;
    BlockDistancesAreCentroidDists(q, centroids, centroidBlocks, clusters, b, dist[..], ds);
    count' := SelectLanes(8 * b, n, dist, bestDist, out, count, ds);
  }

  /** The block loop: whole blocks of eight; the clusters after them are left to the scalar loop. */
  method SelectBlocks(
      q: Vec, ghost centroids: seq<Int16>, centroidBlocks: seq<Int16>, clusters: nat, n: nat,
      dist: array<int>, bestDist: array<int>, out: array<nat>, ghost ds: seq<int>)
    returns (c: nat, count: nat)
    requires clusters * 14 <= |centroids| && BlocksForRows(clusters) * 112 <= |centroidBlocks|
    requires dist.Length == 8 && bestDist.Length == out.Length == MAX_PROBE && dist != bestDist
    requires (bestDist as object) != out && (dist as object) != out
    requires n <= MAX_PROBE
    requires ds == CentroidDists(Avx2, q, Vectors(centroids, clusters), LaneVectors(centroidBlocks, clusters))
    requires Kept(ds, 0, n, bestDist[..], out[..], 0)
    modifies dist, bestDist, out
    ensures c == clusters / 8 * 8 && Kept(ds, c, n, bestDist[..], out[..], count)
  {
    count := 0;
    var b := 0;
    while 8 * b + 8 <= clusters
      invariant 8 * b <= clusters
      invariant Kept(ds, 8 * b, n, bestDist[..], out[..], count)
    {
      count := SelectBlock(q, centroids, centroidBlocks, clusters, b, n, dist, bestDist, out, count, ds);
      b := b + 1;
    }
    c := 8 * b;
  }

  method TopIvfCentroidsAvx2(
      q: Vec, centroids: seq<Int16>, centroidBlocks: seq<Int16>, clusters: nat, nprobe: int, out: array<nat>)
    returns (count: nat)
    requires clusters * 14 <= |centroids| && out.Length == MAX_PROBE
    modifies out
    ensures count == ProbeCount(nprobe, clusters)
    ensures var lanes := SimdLanes(centroids, centroidBlocks, clusters);
            out[..count] == Top(CentroidDists(Avx2, q, Vectors(centroids, clusters), lanes), count)
  {
    if nprobe <= 0 || clusters == 0 {
      return 0;
    }
    var n := Min(Min(nprobe, clusters), MAX_PROBE);
    if |centroidBlocks| < BlocksForRows(clusters) * BLOCK_STRIDE {
      count := TopIvfCentroidsRowMajorAvx2(q, centroids, clusters, n, out);
      return;
    }
    ghost var ds := CentroidDists(Avx2, q, Vectors(centroids, clusters), LaneVectors(centroidBlocks, clusters));
    var bestDist := new int[MAX_PROBE](_ => MAX_INT64);
    var dist := new int[BLOCK_SIZE];
    var c;
    c, count := SelectBlocks(q, centroids, centroidBlocks, clusters, n, dist, bestDist, out, ds);
    count := SelectScalar(q, centroids, clusters, c, n, bestDist, out, count, ds);
  }

  lemma BlockDistancesAreCentroidDists(
      q: Vec, centroids: seq<Int16>, centroidBlocks: seq<Int16>, clusters: nat, b: nat, dist: seq<int>, ds: seq<int>)
    requires clusters * 14 <= |centroids| && BlocksForRows(clusters) * 112 <= |centroidBlocks|
    requires 8 * b + 8 <= clusters && |dist| == 8
    requires ds == CentroidDists(Avx2, q, Vectors(centroids, clusters), LaneVectors(centroidBlocks, clusters))
    requires forall i :: 0 <= i < 8 ==> dist[i] == Dist32(q, LaneVec(centroidBlocks, 8 * b + i))
    ensures forall lane :: 0 <= lane < 8 ==> dist[lane] == ds[8 * b + lane]
  {
    forall lane | 0 <= lane < 8
      ensures dist[lane] == ds[8 * b + lane]
    {
      assert 8 * b + lane < clusters / 8 * 8;
    }
  }

  /** The form used when the centroids are not transposed; n is already clamped. */
  method TopIvfCentroidsRowMajorAvx2(q: Vec, centroids: seq<Int16>, clusters: nat, n: nat, out: array<nat>)
    returns (count: nat)
    requires clusters * 14 <= |centroids| && out.Length == MAX_PROBE && 0 < n <= Min(clusters, MAX_PROBE)
    modifies out
    ensures count == n
    ensures out[..n] == Top(CentroidDists(Avx2, q, Vectors(centroids, clusters), WholeBlocks(centroids, clusters)), n)
  {
    ghost var ds := CentroidDists(Avx2, q, Vectors(centroids, clusters), WholeBlocks(centroids, clusters));
    var bestDist := new int[MAX_PROBE](_ => MAX_INT64);
    var dist := new int[BLOCK_SIZE];
    count := 0;
    var c := 0;
    while c + 8 <= clusters
      invariant 0 <= c <= clusters && c % 8 == 0
      invariant Kept(ds, c, n, bestDist[..], out[..], count)
    {
      RowMajor8Distances(q, centroids, c, dist);
      assert forall lane :: 0 <= lane < 8 ==> dist[lane] == ds[c + lane];
      count := SelectLanes(c, n, dist, bestDist, out, count, ds);
      c := c + 8;
    }
    count := SelectScalar(q, centroids, clusters, c, n, bestDist, out, count, ds);
  }
}
