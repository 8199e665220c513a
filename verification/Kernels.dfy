/** The distance kernels as they run: unrolled scalar sums with early return, and SIMD lanes. */
module Kernels {
  import opened Machine
  import opened Metric
  import opened Layout

  /** Row-major scalar kernel. The source writes the fourteen steps out one by one. */
  method QuantizedDistance(q: Vec, v: Vec, cutoff: int) returns (sum: int)
    ensures sum == Abandoned(q, v, cutoff)
  {
    ghost var t := SqDiffs(q, v);
    sum := SqDiff(q[ORDER[0]], v[ORDER[0]]);
    var k := 1;
    assert OrderedSum(t, 0) == 0;
    while k < 14
      invariant 1 <= k <= 14
      invariant sum == OrderedSum(t, k)
      invariant Abandon(t, cutoff, k) == Abandoned(q, v, cutoff)
    {
      if sum >= cutoff {
        return;
      }
      sum := sum + SqDiff(q[ORDER[k]], v[ORDER[k]]);
      k := k + 1;
    }
  }

  /** Block-major scalar kernel: the same steps over one lane of a block. */
  method BlockLaneDistance(q: Vec, blocks: seq<Int16>, block: nat, lane: nat, cutoff: int) returns (sum: int)
    requires lane < 8 && block * 112 + 112 <= |blocks|
    ensures sum == Abandoned(q, LaneVec(blocks, 8 * block + lane), cutoff)
  {
    ghost var v := LaneVec(blocks, 8 * block + lane);
    ghost var t := SqDiffs(q, v);
    sum := LaneSquare(q, blocks, block, lane, ORDER[0]);
    var k := 1;
    assert OrderedSum(t, 0) == 0;
    while k < 14
      invariant 1 <= k <= 14
      invariant sum == OrderedSum(t, k)
      invariant Abandon(t, cutoff, k) == Abandon(t, cutoff, 1)
    {
      if sum >= cutoff {
        return;
      }
      sum := sum + LaneSquare(q, blocks, block, lane, ORDER[k]);
      k := k + 1;
    }
  }

  /** The squared difference in one dimension of one lane. */
  function LaneSquare(q: Vec, blocks: seq<Int16>, block: nat, lane: nat, d: nat): (s: int)
    requires lane < 8 && d < 14 && block * 112 + 112 <= |blocks|
    ensures s == SqDiffs(q, LaneVec(blocks, 8 * block + lane))[d]
  {
    LaneSlots(block, lane);
    SqDiff(q[d], blocks[block * 112 + d * 8 + lane])
  }

  lemma LaneSlots(block: nat, lane: nat)
    requires lane < 8
    ensures forall d: nat :: SlotIndex(8 * block + lane, d) == block * 112 + d * 8 + lane
  {
    assert (8 * block + lane) / 8 == block && (8 * block + lane) % 8 == lane;
  }

  /** One STEP of the SIMD kernels on a register of four 64-bit lanes. */
  function AddSquares(acc: seq<int>, q: Int16, v: seq<Int16>): (r: seq<int>)
    requires |acc| == |v| == 4
    ensures |r| == 4
  {
    seq(4, l requires 0 <= l < 4 => acc[l] + Wrap32(SqDiff(q, v[l])))
  }

  ghost function LaneVecs(blocks: seq<Int16>, block: nat): (vs: seq<Vec>)
    requires block * 112 + 112 <= |blocks|
    ensures |vs| == 8
    ensures forall l :: 0 <= l < 8 ==> vs[l] == LaneVec(blocks, 8 * block + l)
  {
    seq<Vec>(8, l requires 0 <= l < 8 => LaneVec(blocks, 8 * block + l))
  }

  ghost function RowVecs(flat: seq<Int16>, first: nat): (vs: seq<Vec>)
    requires (first + 8) * 14 <= |flat|
    ensures |vs| == 8
    ensures forall l :: 0 <= l < 8 ==> vs[l] == VecAt(flat, first + l)
  {
    seq<Vec>(8, l requires 0 <= l < 8 => VecAt(flat, first + l))
  }

  /** The wrapped squares of each vector. */
  ghost function Terms(q: Vec, vs: seq<Vec>): (t: seq<seq<int>>)
    ensures |t| == |vs|
    ensures forall l :: 0 <= l < |vs| ==> |t[l]| == 14 && t[l] == SqDiffs32(q, vs[l])
  {
    seq(|vs|, l requires 0 <= l < |vs| => SqDiffs32(q, vs[l]))
  }

  /** The two registers hold the k-term partial sums of eight lanes. */
  ghost predicate AccumulatedLanes(y0: seq<int>, y1: seq<int>, t: seq<seq<int>>, k: nat) {
    && |y0| == |y1| == 4 && |t| == 8 && k <= 14
    && (forall l :: 0 <= l < 8 ==> |t[l]| == 14)
    && (forall l :: 0 <= l < 8 ==> (y0 + y1)[l] == OrderedSum(t[l], k))
  }

  /** A STEP on both registers with the components x of the next dimension. */
  lemma StepAccumulates(y0: seq<int>, y1: seq<int>, t: seq<seq<int>>, k: nat, q: Int16, x: seq<Int16>)
    requires k < 14 && AccumulatedLanes(y0, y1, t, k) && |x| == 8
    requires forall l :: 0 <= l < 8 ==> t[l][ORDER[k]] == Wrap32(SqDiff(q, x[l]))
    ensures AccumulatedLanes(AddSquares(y0, q, x[..4]), AddSquares(y1, q, x[4..]), t, k + 1)
  {
    var r0, r1 := AddSquares(y0, q, x[..4]), AddSquares(y1, q, x[4..]);
    forall l | 0 <= l < 8
      ensures (r0 + r1)[l] == OrderedSum(t[l], k + 1)
    {
      assert (y0 + y1)[l] == OrderedSum(t[l], k);
    }
  }

  /** Eight lanes of one transposed block, written to out[at..at + 8]. */
  method Block8Distances(q: Vec, blocks: seq<Int16>, block: nat, out: array<int>, at: nat)
    requires block * 112 + 112 <= |blocks| && at + 8 <= out.Length
    modifies out
    ensures forall i :: at <= i < at + 8 ==> out[i] == Dist32(q, LaneVec(blocks, 8 * block + (i - at)))
    ensures forall i :: 0 <= i < out.Length && !(at <= i < at + 8) ==> out[i] == old(out[i])
  {
    var y0, y1 := [0, 0, 0, 0], [0, 0, 0, 0];
    ghost var t := Terms(q, LaneVecs(blocks, block));
    for k := 0 to 14
      invariant AccumulatedLanes(y0, y1, t, k) && out[..] == old(out[..])
    {
      var d := ORDER[k];
      var x := blocks[block * 112 + d * 8..block * 112 + d * 8 + 8];
      LaneComponents(blocks, block, d, x);
      StepAccumulates(y0, y1, t, k, q[d], x);
      y0, y1 := AddSquares(y0, q[d], x[..4]), AddSquares(y1, q[d], x[4..]);
    }
    LanesAreDistances(q, y0, y1, LaneVecs(blocks, block));
    assert forall i :: 0 <= i < out.Length ==> out[i] == old(out[..])[i];
    StoreLanes(y0, y1, out, at);
  }

  /** One aligned 16-byte load holds component d of all eight lanes. */
  lemma LaneComponents(blocks: seq<Int16>, block: nat, d: nat, x: seq<Int16>)
    requires block * 112 + 112 <= |blocks| && d < 14
    requires x == blocks[block * 112 + d * 8..block * 112 + d * 8 + 8]
    ensures forall l :: 0 <= l < 8 ==> LaneVecs(blocks, block)[l][d] == x[l]
  {
    forall l | 0 <= l < 8
      ensures LaneVecs(blocks, block)[l][d] == x[l]
    {
      LaneSlots(block, l);
    }
  }

  lemma LanesAreDistances(q: Vec, y0: seq<int>, y1: seq<int>, vs: seq<Vec>)
    requires |vs| == 8 && AccumulatedLanes(y0, y1, Terms(q, vs), 14)
    ensures forall l :: 0 <= l < 8 ==> (y0 + y1)[l] == Dist32(q, vs[l])
  {
    forall l | 0 <= l < 8
      ensures (y0 + y1)[l] == Dist32(q, vs[l])
    {
      OrderedSumIsSum(Terms(q, vs)[l]);
    }
  }

  /** The two 256-bit stores at the end of a kernel. */
  method StoreLanes(y0: seq<int>, y1: seq<int>, out: array<int>, at: nat)
    requires |y0| == |y1| == 4 && at + 8 <= out.Length
    modifies out
    ensures forall i :: at <= i < at + 8 ==> out[i] == (y0 + y1)[i - at]
    ensures forall i :: 0 <= i < out.Length && !(at <= i < at + 8) ==> out[i] == old(out[i])
  {
    for l := 0 to 4
      invariant forall i :: at <= i < at + l ==> out[i] == y0[i - at]
      invariant forall i :: at + 4 <= i < at + 4 + l ==> out[i] == y1[i - at - 4]
      invariant forall i :: 0 <= i < out.Length && !(at <= i < at + 8) ==> out[i] == old(out[i])
    {
      out[at + l] := y0[l];
      out[at + 4 + l] := y1[l];
    }
  }

  /** Thirty-two lanes: four consecutive blocks. */
  method Block32Distances(q: Vec, blocks: seq<Int16>, block: nat, out: array<int>)
    requires block * 112 + 448 <= |blocks| && out.Length == 32
    modifies out
    ensures forall l :: 0 <= l < 32 ==> out[l] == Dist32(q, LaneVec(blocks, 8 * block + l))
  {
    Block8Distances(q, blocks, block, out, 0);
    Block8Distances(q, blocks, block + 1, out, 8);
    Block8Distances(q, blocks, block + 2, out, 16);
    Block8Distances(q, blocks, block + 3, out, 24);
    forall l | 0 <= l < 32
      ensures out[l] == Dist32(q, LaneVec(blocks, 8 * block + l))
    {
      var b := l / 8;
      assert 8 * (block + b) + (l - 8 * b) == 8 * block + l;
    }
  }

  /** Eight consecutive row-major vectors, gathered one component at a time. */
  method RowMajor8Distances(q: Vec, flat: seq<Int16>, first: nat, out: array<int>)
    requires (first + 8) * 14 <= |flat| && out.Length == 8
    modifies out
    ensures forall l :: 0 <= l < 8 ==> out[l] == Dist32(q, VecAt(flat, first + l))
  {
    var y0, y1 := [0, 0, 0, 0], [0, 0, 0, 0];
    ghost var t := Terms(q, RowVecs(flat, first));
    for k := 0 to 14
      invariant AccumulatedLanes(y0, y1, t, k)
    {
      var i := first * 14 + ORDER[k];
      var x := [flat[i], flat[i + 14], flat[i + 28], flat[i + 42],
                flat[i + 56], flat[i + 70], flat[i + 84], flat[i + 98]];
      assert forall l :: 0 <= l < 8 ==> RowVecs(flat, first)[l][ORDER[k]] == x[l];
      StepAccumulates(y0, y1, t, k, q[ORDER[k]], x);
      y0, y1 := AddSquares(y0, q[ORDER[k]], x[..4]), AddSquares(y1, q[ORDER[k]], x[4..]);
    }
    LanesAreDistances(q, y0, y1, RowVecs(flat, first));
    StoreLanes(y0, y1, out, 0);
  }

  /** Box distance, abandoned once it exceeds the cutoff: it decides the comparison exactly. */
  method BoxDistance(q: Vec, low: seq<Int16>, high: seq<Int16>, cluster: nat, cutoff: int) returns (sum: int)
    requires cluster * 14 + 14 <= |low| && cluster * 14 + 14 <= |high|
    ensures sum <= cutoff <==> BoxDist(q, Box(VecAt(low, cluster), VecAt(high, cluster))) <= cutoff
  {
    ghost var b := Box(VecAt(low, cluster), VecAt(high, cluster));
    var base := cluster * 14;
    sum := 0;
    for d := 0 to 14
      invariant sum == SumTo(Gaps(q, b), d)
    {
      if q[d] < low[base + d] {
        sum := sum + SqDiff(low[base + d], q[d]);
      } else if q[d] > high[base + d] {
        sum := sum + SqDiff(q[d], high[base + d]);
      }
      if sum > cutoff {
        PartialSumIsLowerBound(Gaps(q, b), d + 1);
        return;
      }
    }
  }

  lemma {:induction false} PartialSumIsLowerBound(t: seq<int>, n: nat)
    requires n <= |t| && forall i :: 0 <= i < |t| ==> 0 <= t[i]
    ensures SumTo(t, n) <= Sum(t)
    decreases |t| - n
  {
    if n < |t| {
      PartialSumIsLowerBound(t, n + 1);
    }
  }
}
