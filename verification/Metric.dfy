/**
 Vectors of fourteen 16-bit components, squared distances, and what each distance kernel
 computes: the full sum, the sum abandoned at a cutoff, and the 32-bit SIMD sum.
 */
module Metric {
  import opened Machine

  type Vec = v: seq<Int16> | |v| == 14 witness [0, 0, 0, 0, 0, 0, 0, 0, 0, 0, 0, 0, 0, 0]

  /** The order in which the kernels visit the dimensions. */
  const ORDER: seq<nat> := [5, 6, 2, 0, 7, 8, 12, 1, 3, 4, 9, 10, 11, 13]

  /** The sum of the first n terms. */
  function SumTo(t: seq<int>, n: nat): int
    requires n <= |t|
  {
    if n == 0 then 0 else SumTo(t, n - 1) + t[n - 1]
  }

  function Sum(t: seq<int>): int {
    SumTo(t, |t|)
  }

  /** The sum of the first n terms in kernel order. */
  function OrderedSum(t: seq<int>, n: nat): int
    requires |t| == 14 && n <= 14
  {
    if n == 0 then 0 else OrderedSum(t, n - 1) + t[ORDER[n - 1]]
  }

  lemma {:induction false} OrderedSumIsSum(t: seq<int>)
    requires |t| == 14
    ensures OrderedSum(t, 14) == Sum(t)
  {
    assert OrderedSum(t, 1) == t[5] && SumTo(t, 1) == t[0];
    assert OrderedSum(t, 2) == t[5] + t[6];
    assert OrderedSum(t, 4) == OrderedSum(t, 2) + t[2] + t[0];
    assert OrderedSum(t, 6) == OrderedSum(t, 4) + t[7] + t[8];
    assert OrderedSum(t, 8) == OrderedSum(t, 6) + t[12] + t[1];
    assert OrderedSum(t, 10) == OrderedSum(t, 8) + t[3] + t[4];
    assert OrderedSum(t, 12) == OrderedSum(t, 10) + t[9] + t[10];
    assert OrderedSum(t, 14) == OrderedSum(t, 12) + t[11] + t[13];
    assert SumTo(t, 2) == t[0] + t[1];
    assert SumTo(t, 4) == SumTo(t, 2) + t[2] + t[3];
    assert SumTo(t, 6) == SumTo(t, 4) + t[4] + t[5];
    assert SumTo(t, 8) == SumTo(t, 6) + t[6] + t[7];
    assert SumTo(t, 10) == SumTo(t, 8) + t[8] + t[9];
    assert SumTo(t, 12) == SumTo(t, 10) + t[10] + t[11];
    assert SumTo(t, 14) == SumTo(t, 12) + t[12] + t[13];
  }

  /** Which dimensions the first k terms are. */
  lemma KernelOrder(t: seq<int>)
    requires |t| == 14
    ensures OrderedSum(t, 1) == t[5]
    ensures OrderedSum(t, 2) == t[5] + t[6]
    ensures OrderedSum(t, 3) == OrderedSum(t, 2) + t[2]
    ensures OrderedSum(t, 4) == OrderedSum(t, 3) + t[0]
    ensures OrderedSum(t, 5) == OrderedSum(t, 4) + t[7]
    ensures OrderedSum(t, 6) == OrderedSum(t, 5) + t[8]
    ensures OrderedSum(t, 7) == OrderedSum(t, 6) + t[12]
    ensures OrderedSum(t, 8) == OrderedSum(t, 7) + t[1]
    ensures OrderedSum(t, 9) == OrderedSum(t, 8) + t[3]
    ensures OrderedSum(t, 10) == OrderedSum(t, 9) + t[4]
    ensures OrderedSum(t, 11) == OrderedSum(t, 10) + t[9]
    ensures OrderedSum(t, 12) == OrderedSum(t, 11) + t[10]
    ensures OrderedSum(t, 13) == OrderedSum(t, 12) + t[11]
    ensures OrderedSum(t, 14) == OrderedSum(t, 13) + t[13]
  {
    assert OrderedSum(t, 0) == 0;
  }

  /** Pointwise smaller terms have a smaller sum, and an equal one only if all terms agree. */
  lemma {:induction false} SumMonotone(a: seq<int>, b: seq<int>, n: nat)
    requires n <= |a| && n <= |b|
    requires forall i :: 0 <= i < n ==> a[i] <= b[i]
    ensures SumTo(a, n) <= SumTo(b, n)
    ensures SumTo(a, n) == SumTo(b, n) <==> forall i :: 0 <= i < n ==> a[i] == b[i]
  {
    if n > 0 {
      SumMonotone(a, b, n - 1);
      assert a[n - 1] <= b[n - 1];
    }
  }

  function Diff(a: Int16, b: Int16): (r: int)
    ensures -0xFFFF <= r <= 0xFFFF
  {
    a as int - b as int
  }

  lemma SquareMonotone(a: int, b: int)
    requires -b <= a <= b
    ensures 0 <= a * a <= b * b
  {
    if a >= 0 {
      MulMonotone(a, b, a);
      MulMonotone(a, b, b);
    } else {
      assert a * a == (-a) * (-a);
      MulMonotone(-a, b, -a);
      MulMonotone(-a, b, b);
    }
  }

  lemma MulMonotone(a: int, b: int, c: int)
    requires 0 <= a <= b && 0 <= c
    ensures 0 <= a * c <= b * c && a * c == c * a && b * c == c * b
  {
    assert 0 <= (b - a) * c;
  }

  function SqDiff(a: Int16, b: Int16): (r: int)
    ensures 0 <= r <= 0xFFFE_0001
  {
    SquareMonotone(Diff(a, b), 0xFFFF);
    Diff(a, b) * Diff(a, b)
  }

  /** Squared component differences. */
  function SqDiffs(q: Vec, v: Vec): (t: seq<int>)
    ensures |t| == 14
    ensures forall d :: 0 <= d < 14 ==> t[d] == SqDiff(q[d], v[d])
  {
    seq(14, d requires 0 <= d < 14 => SqDiff(q[d], v[d]))
  }

  /** The squared Euclidean distance. */
  function Dist(q: Vec, v: Vec): int {
    Sum(SqDiffs(q, v))
  }

  /** No distance reaches the sentinel of an empty slot, so 64-bit sums never overflow. */
  lemma {:induction false} DistBounds(q: Vec, v: Vec)
    ensures 0 <= Dist(q, v) < MAX_INT64
  {
    var t := SqDiffs(q, v);
    var low: seq<int> := seq(14, _ => 0);
    var high: seq<int> := seq(14, _ => 0xFFFE_0001);
    SumConstant(low, 0, 14);
    SumConstant(high, 0xFFFE_0001, 14);
    SumMonotone(low, t, 14);
    SumMonotone(t, high, 14);
  }

  lemma {:induction false} SumConstant(t: seq<int>, c: int, n: nat)
    requires n <= |t| && forall i :: 0 <= i < n ==> t[i] == c
    ensures SumTo(t, n) == n * c
  {
    if n > 0 {
      SumConstant(t, c, n - 1);
      assert n * c == (n - 1) * c + c;
    }
  }

  // ---- early abandonment --------------------------------------------------------------

  /** The first kernel-order partial sum of at least k terms that reaches the cutoff, or the full sum. */
  function Abandon(t: seq<int>, cutoff: int, k: nat): int
    requires |t| == 14 && 1 <= k <= 14
    decreases 14 - k
  {
    var sum := OrderedSum(t, k);
    if k == 14 || sum >= cutoff then sum else Abandon(t, cutoff, k + 1)
  }

  /** What the scalar kernels return. */
  function Abandoned(q: Vec, v: Vec, cutoff: int): int {
    Abandon(SqDiffs(q, v), cutoff, 1)
  }

  /** A kernel returns the first partial sum that reaches the cutoff, checked after every dimension. */
  lemma {:induction false} AbandonsAtFirst(q: Vec, v: Vec, cutoff: int, n: nat)
    requires 1 <= n <= 14 && (n == 14 || OrderedSum(SqDiffs(q, v), n) >= cutoff)
    requires forall k :: 1 <= k < n ==> OrderedSum(SqDiffs(q, v), k) < cutoff
    ensures Abandoned(q, v, cutoff) == OrderedSum(SqDiffs(q, v), n)
  {
    AbandonsAtFirstFrom(SqDiffs(q, v), cutoff, 1, n);
  }

  lemma {:induction false} AbandonsAtFirstFrom(t: seq<int>, cutoff: int, k: nat, n: nat)
    requires |t| == 14 && 1 <= k <= n <= 14 && (n == 14 || OrderedSum(t, n) >= cutoff)
    requires forall i :: k <= i < n ==> OrderedSum(t, i) < cutoff
    ensures Abandon(t, cutoff, k) == OrderedSum(t, n)
    decreases n - k
  {
    if k < n {
      AbandonsAtFirstFrom(t, cutoff, k + 1, n);
    }
  }

  lemma {:induction false} OrderedSumGrows(t: seq<int>, k: nat, n: nat)
    requires |t| == 14 && k <= n <= 14
    requires forall d :: 0 <= d < 14 ==> 0 <= t[d]
    ensures OrderedSum(t, k) <= OrderedSum(t, n)
    decreases n
  {
    if k < n {
      OrderedSumGrows(t, k, n - 1);
      assert 0 <= t[ORDER[n - 1]];
    }
  }

  lemma {:induction false} AbandonIsTruncation(t: seq<int>, cutoff: int, k: nat)
    requires |t| == 14 && 1 <= k <= 14
    requires forall d :: 0 <= d < 14 ==> 0 <= t[d]
    ensures Abandon(t, cutoff, k) <= Sum(t)
    ensures Abandon(t, cutoff, k) < cutoff ==> Abandon(t, cutoff, k) == Sum(t)
    decreases 14 - k
  {
    OrderedSumIsSum(t);
    OrderedSumGrows(t, k, 14);
    if k < 14 && OrderedSum(t, k) < cutoff {
      AbandonIsTruncation(t, cutoff, k + 1);
    }
  }

  /**
   Early abandonment never overstates a distance, and it is exact below the cutoff: a value that
   reaches the cutoff is only returned when the true distance does too.
   */
  lemma {:induction false} AbandonedIsTruncation(q: Vec, v: Vec, cutoff: int)
    ensures Abandoned(q, v, cutoff) <= Dist(q, v)
    ensures Abandoned(q, v, cutoff) < cutoff <==> Dist(q, v) < cutoff
    ensures Dist(q, v) < cutoff ==> Abandoned(q, v, cutoff) == Dist(q, v)
  {
    AbandonIsTruncation(SqDiffs(q, v), cutoff, 1);
  }

  // ---- 32-bit SIMD --------------------------------------------------------------------

  /** Squares as VPMULLD leaves them: the low 32 bits, read as a signed value. */
  function SqDiffs32(q: Vec, v: Vec): (t: seq<int>)
    ensures |t| == 14
    ensures forall d :: 0 <= d < 14 ==> t[d] == Wrap32(SqDiff(q[d], v[d]))
  {
    seq(14, d requires 0 <= d < 14 => Wrap32(SqDiff(q[d], v[d])))
  }

  /** What a lane of the AVX2 kernels accumulates. */
  function Dist32(q: Vec, v: Vec): int {
    Sum(SqDiffs32(q, v))
  }

  /** The largest difference whose square still fits a signed 32-bit lane. */
  const SIMD_SPAN: int := 46340

  ghost predicate WithinSpan(q: Vec, v: Vec) {
    forall d :: 0 <= d < 14 ==> -SIMD_SPAN <= Diff(q[d], v[d]) <= SIMD_SPAN
  }

  lemma WrapIsExactIffSmall(x: int)
    requires -0xFFFF <= x <= 0xFFFF
    ensures Wrap32(x * x) <= x * x
    ensures Wrap32(x * x) == x * x <==> -SIMD_SPAN <= x <= SIMD_SPAN
  {
    SquareMonotone(x, 0xFFFF);
    if -SIMD_SPAN <= x <= SIMD_SPAN {
      SquareMonotone(x, SIMD_SPAN);
    } else {
      SquareMonotone(SIMD_SPAN + 1, if x >= 0 then x else -x);
      assert x * x == (-x) * (-x);
    }
  }

  /** A SIMD lane equals the 64-bit distance exactly when no component differs by more than 46340. */
  lemma {:induction false} Dist32IsDistIffWithinSpan(q: Vec, v: Vec)
    ensures Dist32(q, v) <= Dist(q, v)
    ensures Dist32(q, v) == Dist(q, v) <==> WithinSpan(q, v)
  {
    forall d | 0 <= d < 14
      ensures SqDiffs32(q, v)[d] <= SqDiffs(q, v)[d]
      ensures SqDiffs32(q, v)[d] == SqDiffs(q, v)[d] <==> -SIMD_SPAN <= Diff(q[d], v[d]) <= SIMD_SPAN
    {
      WrapIsExactIffSmall(Diff(q[d], v[d]));
    }
    SumMonotone(SqDiffs32(q, v), SqDiffs(q, v), 14);
  }

  /** Components produced by quantisation. */
  ghost predicate Quantized(v: Vec) {
    forall d :: 0 <= d < 14 ==> -10000 <= v[d] <= 10000
  }

  // ---- bounding boxes -----------------------------------------------------------------

  datatype Box = Box(low: Vec, high: Vec)

  ghost predicate Inside(v: Vec, b: Box) {
    forall d :: 0 <= d < 14 ==> b.low[d] <= v[d] <= b.high[d]
  }

  /** Squared distance from a component to the box's interval in that dimension. */
  function Gap(q: Int16, low: Int16, high: Int16): (g: int)
    ensures 0 <= g
  {
    if q < low then SqDiff(low, q) else if q > high then SqDiff(q, high) else 0
  }

  function Gaps(q: Vec, b: Box): (t: seq<int>)
    ensures |t| == 14
    ensures forall d :: 0 <= d < 14 ==> 0 <= t[d] == Gap(q[d], b.low[d], b.high[d])
  {
    seq(14, d requires 0 <= d < 14 => Gap(q[d], b.low[d], b.high[d]))
  }

  function BoxDist(q: Vec, b: Box): int {
    Sum(Gaps(q, b))
  }

  /** The box distance bounds the distance of every vector in the box from below. */
  lemma {:induction false} BoxDistIsLowerBound(q: Vec, v: Vec, b: Box)
    requires Inside(v, b)
    ensures BoxDist(q, b) <= Dist(q, v)
  {
    forall d | 0 <= d < 14
      ensures Gaps(q, b)[d] <= SqDiffs(q, v)[d]
    {
      if q[d] < b.low[d] {
        SquareMonotone(Diff(b.low[d], q[d]), Diff(v[d], q[d]));
        assert Diff(q[d], v[d]) == -Diff(v[d], q[d]);
      } else if q[d] > b.high[d] {
        SquareMonotone(Diff(q[d], b.high[d]), Diff(q[d], v[d]));
      }
    }
    SumMonotone(Gaps(q, b), SqDiffs(q, v), 14);
  }

  /** The point of a box nearest to q. */
  function Clipped(q: Vec, b: Box): (v: Vec)
    ensures forall d :: 0 <= d < 14 ==>
              v[d] == if q[d] < b.low[d] then b.low[d] else if q[d] > b.high[d] then b.high[d] else q[d]
  {
    seq<Int16>(14, d requires 0 <= d < 14 =>
      if q[d] < b.low[d] then b.low[d] else if q[d] > b.high[d] then b.high[d] else q[d])
  }

  /** The box distance is the distance to that point, so no larger bound holds for every vector in the box. */
  lemma BoxDistIsAttained(q: Vec, b: Box)
    requires forall d :: 0 <= d < 14 ==> b.low[d] <= b.high[d]
    ensures Inside(Clipped(q, b), b) && BoxDist(q, b) == Dist(q, Clipped(q, b))
  {
    hide SqDiff;
    var v := Clipped(q, b);
    forall d | 0 <= d < 14
      ensures Gaps(q, b)[d] == SqDiffs(q, v)[d]
    {
      SqDiffSymmetric(q[d], v[d]);
      SqDiffSame(q[d]);
    }
    assert Gaps(q, b) == SqDiffs(q, v);
  }

  lemma SqDiffSymmetric(a: Int16, b: Int16)
    ensures SqDiff(a, b) == SqDiff(b, a)
  {
    assert Diff(b, a) == -Diff(a, b);
  }

  lemma SqDiffSame(a: Int16)
    ensures SqDiff(a, a) == 0
  {
  }
}
