/** Bounding box and rounded centroid of one cluster. */
module ClusterStats {
  import opened Machine
  import opened Metric
  import opened Layout

  /** Go's int16 conversion. */
  function ToInt16(x: int): Int16 {
    (x + 0x8000) % 0x1_0000 - 0x8000
  }

  function RoundDivInt64ToInt16(sum: int, count: int): Int16 {
    if count <= 0 then 0
    else if sum >= 0 then ToInt16(TruncDiv(sum + TruncDiv(count, 2), count))
    else ToInt16(TruncDiv(sum - TruncDiv(count, 2), count))
  }

  /** c is sum / count rounded to the nearest integer, halves away from zero. */
  ghost predicate IsRounded(c: int, sum: int, count: int) {
    && -count <= 2 * (c * count - sum) <= count
    && (2 * (c * count - sum) == count ==> sum >= 0)
    && (2 * (c * count - sum) == -count ==> sum < 0)
  }

  /** The rounded quotient of a sum of values from an interval stays in the interval. */
  lemma {:induction false} RoundDivRounds(sum: int, count: int, low: Int16, high: Int16)
    requires count > 0 && low as int * count <= sum <= high as int * count
    ensures IsRounded(RoundDivInt64ToInt16(sum, count), sum, count)
    ensures low <= RoundDivInt64ToInt16(sum, count) <= high
  {
    var m := if sum >= 0 then sum else -sum;
    var c := RoundedMagnitude(m, count);
    var r := if sum >= 0 then c else -c;
    assert (-c) * count == -(c * count);
    NearestStaysInside(r, sum, count, low, high);
    QuotientIsRounded(sum, count, c);
  }

  /** Which quotient the two truncating branches compute. */
  lemma QuotientIsRounded(sum: int, count: int, c: int)
    requires count > 0 && c == ((if sum >= 0 then sum else -sum) + count / 2) / count
    requires -0x8000 <= (if sum >= 0 then c else -c) < 0x8000
    ensures RoundDivInt64ToInt16(sum, count) == if sum >= 0 then c else -c
  {
    assert TruncDiv(count, 2) == count / 2;
    if sum < 0 {
      assert -(sum - count / 2) == -sum + count / 2;
    }
  }

  lemma RoundedMagnitude(m: nat, count: int) returns (c: nat)
    requires count > 0
    ensures c == (m + count / 2) / count
    ensures -count < 2 * (c * count - m) <= count
  {
    c := (m + count / 2) / count;
    var e := count * c;
    assert e <= m + count / 2 < e + count;
    assert c * count == e;
  }

  lemma NearestStaysInside(c: int, sum: int, count: int, low: int, high: int)
    requires count > 0 && low * count <= sum <= high * count
    requires IsRounded(c, sum, count)
    ensures low <= c <= high
  {
    MulGap(c, low, count);
    MulGap(high, c, count);
  }

  lemma MulGap(a: int, b: int, n: int)
    requires n > 0
    ensures a < b ==> a * n + n <= b * n
  {
    if a < b {
      MulKeepsOrder(n, a + 1, b);
      assert n * (a + 1) == n * a + n;
    }
  }

  // ---- the statistics of a set of vectors ------------------------------------------------

  function SumOf(vs: seq<Vec>, d: nat): int
    requires d < 14
  {
    if vs == [] then 0 else SumOf(vs[..|vs| - 1], d) + vs[|vs| - 1][d]
  }

  /** low and high are the tightest bounds of component d over vs. */
  ghost predicate TightBounds(vs: seq<Vec>, d: nat, low: int, high: int)
    requires d < 14
  {
    && (forall i :: 0 <= i < |vs| ==> low <= vs[i][d] <= high)
    && (vs == [] ==> low == 0x7FFF && high == -0x8000)
    && (vs != [] ==> (exists i :: 0 <= i < |vs| && vs[i][d] == low) && exists i :: 0 <= i < |vs| && vs[i][d] == high)
  }

  ghost predicate TightBox(vs: seq<Vec>, b: Box) {
    forall d: nat :: d < 14 ==> TightBounds(vs, d, b.low[d], b.high[d])
  }

  /** The centroid is the component-wise mean, rounded. */
  ghost predicate RoundedMean(vs: seq<Vec>, c: Vec) {
    forall d: nat :: d < 14 ==> IsRounded(c[d], SumOf(vs, d), |vs|)
  }

  /** No box with all the members is smaller in any direction. */
  lemma TightBoxIsSmallest(vs: seq<Vec>, b: Box, other: Box)
    requires vs != [] && TightBox(vs, b)
    requires forall i :: 0 <= i < |vs| ==> Inside(vs[i], other)
    ensures forall d: nat :: d < 14 ==> other.low[d] <= b.low[d] <= b.high[d] <= other.high[d]
  {
    forall d: nat | d < 14
      ensures other.low[d] <= b.low[d] <= b.high[d] <= other.high[d]
    {
      assert TightBounds(vs, d, b.low[d], b.high[d]);
      var i :| 0 <= i < |vs| && vs[i][d] == b.low[d];
      var j :| 0 <= j < |vs| && vs[j][d] == b.high[d];
      assert Inside(vs[i], other) && Inside(vs[j], other);
    }
  }

  lemma {:induction false} SumBounds(vs: seq<Vec>, d: nat, low: int, high: int)
    requires d < 14 && forall i :: 0 <= i < |vs| ==> low <= vs[i][d] <= high
    ensures low * |vs| <= SumOf(vs, d) <= high * |vs|
  {
    if vs != [] {
      var n := |vs| - 1;
      SumBounds(vs[..n], d, low, high);
      assert low * |vs| == low * n + low && high * |vs| == high * n + high;
    }
  }

  lemma TightBoundsStep(vs: seq<Vec>, v: Vec, d: nat, low: int, high: int)
    requires d < 14 && TightBounds(vs, d, low, high)
    ensures TightBounds(vs + [v], d, if v[d] < low then v[d] else low, if v[d] > high then v[d] else high)
  {
    var r := vs + [v];
    assert r[|vs|] == v;
    assert forall i :: 0 <= i < |vs| ==> r[i] == vs[i];
    var low' := if v[d] < low then v[d] else low;
    var high' := if v[d] > high then v[d] else high;
    if vs != [] {
      var i :| 0 <= i < |vs| && vs[i][d] == low;
      var j :| 0 <= j < |vs| && vs[j][d] == high;
      assert r[if v[d] < low then |vs| else i][d] == low';
      assert r[if v[d] > high then |vs| else j][d] == high';
    } else {
      assert r[0][d] == low' == high';
    }
  }

  // ---- the loops --------------------------------------------------------------------------

  /** Adds one vector to the running sums and bounds. */
  method AccumulateVector(v: Vec, sums: array<int>, low: array<Int16>, high: array<Int16>, base: nat)
    requires sums.Length == 14 && base + 14 <= low.Length == high.Length
    requires low != high && (sums as object) != low && (sums as object) != high
    modifies sums, low, high
    ensures forall d :: 0 <= d < 14 ==> sums[d] == old(sums[d]) + v[d]
    ensures forall i :: base <= i < base + 14 ==>
              low[i] == if v[i - base] < old(low[i]) then v[i - base] else old(low[i])
    ensures forall i :: base <= i < base + 14 ==>
              high[i] == if v[i - base] > old(high[i]) then v[i - base] else old(high[i])
    ensures forall i :: 0 <= i < low.Length && !(base <= i < base + 14)
              ==> low[i] == old(low[i]) && high[i] == old(high[i])
  {
    for d := 0 to 14
      invariant forall e :: 0 <= e < 14 ==> sums[e] == old(sums[e]) + if e < d then v[e] else 0
      invariant forall i :: base <= i < base + d ==>
                  low[i] == if v[i - base] < old(low[i]) then v[i - base] else old(low[i])
      invariant forall i :: base <= i < base + d ==>
                  high[i] == if v[i - base] > old(high[i]) then v[i - base] else old(high[i])
      invariant forall i :: 0 <= i < low.Length && !(base <= i < base + d)
                  ==> low[i] == old(low[i]) && high[i] == old(high[i])
    {
      sums[d] := sums[d] + v[d];
      if v[d] < low[base + d] {
        low[base + d] := v[d];
      }
      if v[d] > high[base + d] {
        high[base + d] := v[d];
      }
    }
  }

  /** The same, on row c of the box tables. */
  method AccumulateRow(v: Vec, sums: array<int>, low: array<Int16>, high: array<Int16>, c: nat)
    requires sums.Length == 14 && c * 14 + 14 <= low.Length == high.Length
    requires low != high && (sums as object) != low && (sums as object) != high
    modifies sums, low, high
    ensures forall d :: 0 <= d < 14 ==> sums[d] == old(sums[d]) + v[d]
    ensures forall d: nat :: d < 14 ==>
              VecAt(low[..], c)[d] == if v[d] < old(VecAt(low[..], c))[d] then v[d] else old(VecAt(low[..], c))[d]
    ensures forall d: nat :: d < 14 ==>
              VecAt(high[..], c)[d] == if v[d] > old(VecAt(high[..], c))[d] then v[d] else old(VecAt(high[..], c))[d]
    ensures forall i :: 0 <= i < low.Length && !(c * 14 <= i < c * 14 + 14)
              ==> low[i] == old(low[i]) && high[i] == old(high[i])
  {
    hide VecAt;
    ghost var low0, high0 := low[..], high[..];
    AccumulateVector(v, sums, low, high, c * 14);
    RowOfMinima(low0, low[..], v, c);
    RowOfMaxima(high0, high[..], v, c);
  }

  lemma RowOfMinima(was: seq<Int16>, now: seq<Int16>, v: Vec, c: nat)
    requires c * 14 + 14 <= |was| == |now|
    requires forall i :: c * 14 <= i < c * 14 + 14
               ==> now[i] == if v[i - c * 14] < was[i] then v[i - c * 14] else was[i]
    ensures forall d: nat :: d < 14 ==>
              VecAt(now, c)[d] == if v[d] < VecAt(was, c)[d] then v[d] else VecAt(was, c)[d]
  {
  }

  lemma RowOfMaxima(was: seq<Int16>, now: seq<Int16>, v: Vec, c: nat)
    requires c * 14 + 14 <= |was| == |now|
    requires forall i :: c * 14 <= i < c * 14 + 14
               ==> now[i] == if v[i - c * 14] > was[i] then v[i - c * 14] else was[i]
    ensures forall d: nat :: d < 14 ==>
              VecAt(now, c)[d] == if v[d] > VecAt(was, c)[d] then v[d] else VecAt(was, c)[d]
  {
  }

  /** The ids name rows of the table. */
  ghost predicate IdsFit(vectors: seq<Int16>, ids: seq<nat>) {
    forall i :: 0 <= i < |ids| ==> ids[i] * 14 + 14 <= |vectors|
  }

  /** The vectors of a list of ids. */
  function Members(vectors: seq<Int16>, ids: seq<nat>): (vs: seq<Vec>)
    requires forall i :: 0 <= i < |ids| ==> ids[i] * 14 + 14 <= |vectors|
    ensures |vs| == |ids| && forall i :: 0 <= i < |ids| ==> vs[i] == VecAt(vectors, ids[i])
  {
    seq<Vec>(|ids|, i requires 0 <= i < |ids| => VecAt(vectors, ids[i]))
  }

  /** Fills row c of the centroid and box tables for the members of a cluster. */
  method ComputeClusterStats(
      vectors: seq<Int16>, ids: seq<nat>, centroids: array<Int16>, low: array<Int16>, high: array<Int16>, c: nat)
    requires forall i :: 0 <= i < |ids| ==> ids[i] * 14 + 14 <= |vectors|
    requires c * 14 + 14 <= centroids.Length == low.Length == high.Length
    requires centroids != low && centroids != high && low != high
    modifies centroids, low, high
    ensures TightBox(Members(vectors, ids), Box(VecAt(low[..], c), VecAt(high[..], c)))
    ensures ids != [] ==> RoundedMean(Members(vectors, ids), VecAt(centroids[..], c))
    ensures ids != [] ==> Inside(VecAt(centroids[..], c), Box(VecAt(low[..], c), VecAt(high[..], c)))
    ensures forall i :: 0 <= i < low.Length && !(c * 14 <= i < c * 14 + 14)
              ==> low[i] == old(low[i]) && high[i] == old(high[i]) && centroids[i] == old(centroids[i])
  {
    hide TightBox, SumOf, RoundDivInt64ToInt16, Members;
    ghost var vs := Members(vectors, ids);
    var base := c * 14;
    var sums := AccumulateMembers(vectors, ids, low, high, c);
    var count := |ids|;
    ghost var low', high', sums' := low[..], high[..], sums[..];
    for d := 0 to 14
      invariant low[..] == low' && high[..] == high' && sums[..] == sums'
      invariant forall i :: base <= i < base + d ==> centroids[i] == RoundDivInt64ToInt16(SumOf(vs, i - base), count)
      invariant forall i :: 0 <= i < centroids.Length && !(base <= i < base + d) ==> centroids[i] == old(centroids[i])
    {
      centroids[base + d] := RoundDivInt64ToInt16(sums[d], count);
    }
    assert forall d: nat :: d < 14 ==> VecAt(centroids[..], c)[d] == centroids[base + d];
    if ids != [] {
      CentroidIsInside(vs, VecAt(centroids[..], c), Box(VecAt(low[..], c), VecAt(high[..], c)));
    }
  }

  lemma CentroidIsInside(vs: seq<Vec>, c: Vec, b: Box)
    requires vs != [] && TightBox(vs, b)
    requires forall d: nat :: d < 14 ==> c[d] == RoundDivInt64ToInt16(SumOf(vs, d), |vs|)
    ensures RoundedMean(vs, c) && Inside(c, b)
  {
    forall d: nat | d < 14
      ensures IsRounded(c[d], SumOf(vs, d), |vs|) && b.low[d] <= c[d] <= b.high[d]
    {
      assert TightBounds(vs, d, b.low[d], b.high[d]);
      SumBounds(vs, d, b.low[d], b.high[d]);
      RoundDivRounds(SumOf(vs, d), |vs|, b.low[d], b.high[d]);
    }
  }

  /** The member loop: sums and tight bounds of the vectors seen. */
  method AccumulateMembers(vectors: seq<Int16>, ids: seq<nat>, low: array<Int16>, high: array<Int16>, c: nat)
    returns (sums: array<int>)
    requires forall i :: 0 <= i < |ids| ==> ids[i] * 14 + 14 <= |vectors|
    requires c * 14 + 14 <= low.Length == high.Length && low != high
    modifies low, high
    ensures fresh(sums) && sums.Length == 14
    ensures TightBox(Members(vectors, ids), Box(VecAt(low[..], c), VecAt(high[..], c)))
    ensures forall d: nat :: d < 14 ==> sums[d] == SumOf(Members(vectors, ids), d)
    ensures forall i :: 0 <= i < low.Length && !(c * 14 <= i < c * 14 + 14)
              ==> low[i] == old(low[i]) && high[i] == old(high[i])
  {
    hide TightBox, TightBounds, SumOf, Members;
    ghost var vs := Members(vectors, ids);
    var base := c * 14;
    for d := 0 to 14
      invariant forall i :: base <= i < base + d ==> low[i] == 0x7FFF && high[i] == -0x8000
      invariant forall i :: 0 <= i < low.Length && !(base <= i < base + d)
                  ==> low[i] == old(low[i]) && high[i] == old(high[i])
    {
      low[base + d] := 0x7FFF;
      high[base + d] := -0x8000;
    }
    sums := new int[14](_ => 0);
    NoStats(Box(VecAt(low[..], c), VecAt(high[..], c)));
    assert vs[..0] == [];
    for i := 0 to |ids|
      invariant TightBox(vs[..i], Box(VecAt(low[..], c), VecAt(high[..], c)))
      invariant forall d: nat :: d < 14 ==> sums[d] == SumOf(vs[..i], d)
      invariant forall j :: 0 <= j < low.Length && !(base <= j < base + 14)
                  ==> low[j] == old(low[j]) && high[j] == old(high[j])
    {
      ghost var b := Box(VecAt(low[..], c), VecAt(high[..], c));
      AccumulateRow(VecAt(vectors, ids[i]), sums, low, high, c);
      StatsStep(vs, i, b, Box(VecAt(low[..], c), VecAt(high[..], c)));
    }
    assert vs[..|ids|] == vs;
  }

  lemma NoStats(b: Box)
    requires forall d: nat :: d < 14 ==> b.low[d] == 0x7FFF && b.high[d] == -0x8000
    ensures TightBox([], b) && forall d: nat :: d < 14 ==> SumOf([], d) == 0
  {
  }

  lemma StatsStep(vs: seq<Vec>, i: nat, b: Box, b': Box)
    requires i < |vs| && TightBox(vs[..i], b)
    requires forall d: nat :: d < 14 ==>
               && b'.low[d] == (if vs[i][d] < b.low[d] then vs[i][d] else b.low[d])
               && b'.high[d] == if vs[i][d] > b.high[d] then vs[i][d] else b.high[d]
    ensures TightBox(vs[..i + 1], b')
    ensures forall d: nat :: d < 14 ==> SumOf(vs[..i + 1], d) == SumOf(vs[..i], d) + vs[i][d]
  {
    assert vs[..i + 1] == vs[..i] + [vs[i]];
    assert vs[..i + 1][..i] == vs[..i];
    forall d: nat | d < 14
      ensures TightBounds(vs[..i + 1], d, b'.low[d], b'.high[d])
    {
      assert TightBounds(vs[..i], d, b.low[d], b.high[d]);
      TightBoundsStep(vs[..i], vs[i], d, b.low[d], b.high[d]);
    }
  }
}
