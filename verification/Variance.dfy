/** The dimension along which a window of references varies most. */
module Variance {
  import opened Machine
  import opened Metric
  import opened Layout
  import opened ClusterStats

  function Square(x: int): int {
    x * x
  }

  function SquaresOf(vs: seq<Vec>, d: nat): int
    requires d < 14
  {
    if vs == [] then 0 else SquaresOf(vs[..|vs| - 1], d) + Square(vs[|vs| - 1][d])
  }

  /** The mean of the squares less the square of the mean. */
  function VarianceOf(vs: seq<Vec>, d: nat): real
    requires d < 14 && vs != []
  {
    var mean := SumOf(vs, d) as real / |vs| as real;
    SquaresOf(vs, d) as real / |vs| as real - mean * mean
  }

  /** d is the first of the dimensions along which the vectors vary most; 0 without vectors. */
  ghost predicate Widest(vs: seq<Vec>, d: nat) {
    && d < 14
    && (vs == [] ==> d == 0)
    && (vs != [] ==> forall e: nat :: e < 14 ==>
          VarianceOf(vs, e) <= VarianceOf(vs, d) && (e < d ==> VarianceOf(vs, e) < VarianceOf(vs, d)))
  }

  // ---- what the variance means ------------------------------------------------------------------

  function Times(x: real, y: real): real {
    x * y
  }

  function SquaredGap(x: int, c: real): real {
    Times(x as real - c, x as real - c)
  }

  /** The sum of the squared distances of component d from c. */
  function Deviations(vs: seq<Vec>, d: nat, c: real): real
    requires d < 14
  {
    if vs == [] then 0.0
    else
      Deviations(vs[..|vs| - 1], d, c) + SquaredGap(vs[|vs| - 1][d], c)
  }

  /** The same sum for n values, read from their sum s and the sum q of their squares. */
  function Spread(n: real, s: real, q: real, c: real): real {
    q - 2.0 * c * s + n * (c * c)
  }

  lemma {:induction false} DeviationsAre(vs: seq<Vec>, d: nat, c: real)
    requires d < 14
    ensures Deviations(vs, d, c) == Spread(|vs| as real, SumOf(vs, d) as real, SquaresOf(vs, d) as real, c)
    ensures Deviations(vs, d, c) >= 0.0
  {
    hide Spread, Square, SquaredGap;
    if vs == [] {
      NoDeviation(c);
    } else {
      var n := |vs| - 1;
      DeviationsAre(vs[..n], d, c);
      OneMoreDeviation(n as real, SumOf(vs[..n], d) as real, SquaresOf(vs[..n], d) as real, vs[n][d], c);
    }
  }

  lemma NoDeviation(c: real)
    ensures Spread(0.0, 0.0, 0.0, c) == 0.0
  {
  }

  lemma OneMoreDeviation(n: real, s: real, q: real, value: int, c: real)
    ensures var x := value as real;
            && Spread(n, s, q, c) + SquaredGap(value, c) == Spread(n + 1.0, s + x, q + Square(value) as real, c)
            && SquaredGap(value, c) >= 0.0
  {
    var x := value as real;
    assert Square(value) as real == x * x;
    assert (x - c) * (x - c) == x * x - 2.0 * c * x + c * c;
    assert (n + 1.0) * (c * c) == n * (c * c) + c * c;
    assert 2.0 * c * (s + x) == 2.0 * c * s + 2.0 * c * x;
  }

  /** The variance is the mean squared distance from the mean. */
  lemma VarianceIsMeanDeviation(vs: seq<Vec>, d: nat)
    requires d < 14 && vs != []
    ensures VarianceOf(vs, d) * |vs| as real == Deviations(vs, d, SumOf(vs, d) as real / |vs| as real)
    ensures VarianceOf(vs, d) >= 0.0
  {
    hide SumOf, SquaresOf, Deviations, Spread;
    var n, s, q := |vs| as real, SumOf(vs, d) as real, SquaresOf(vs, d) as real;
    DeviationsAre(vs, d, s / n);
    MeanOfSquares(n, s, q);
  }

  lemma MeanOfSquares(n: real, s: real, q: real)
    requires n > 0.0
    ensures (q / n - (s / n) * (s / n)) * n == Spread(n, s, q, s / n)
    ensures Spread(n, s, q, s / n) >= 0.0 ==> q / n - (s / n) * (s / n) >= 0.0
  {
    var m, a := s / n, q / n;
    assert m * n == s && a * n == q;
    assert 2.0 * m * s == 2.0 * (n * (m * m));
    assert (a - m * m) * n == a * n - n * (m * m);
    var v := a - m * m;
    if v < 0.0 {
      assert v * n < 0.0;
    }
  }

  lemma {:induction false} SomeDeviation(vs: seq<Vec>, d: nat, c: real, i: nat)
    requires d < 14 && i < |vs|
    ensures vs[i][d] as real == c || Deviations(vs, d, c) > 0.0
  {
    hide Spread, SquaredGap;
    var n := |vs| - 1;
    DeviationsAre(vs[..n], d, c);
    GapIsPositiveIff(vs[n][d], c);
    if i < n {
      SomeDeviation(vs[..n], d, c, i);
    }
  }

  lemma PositiveProduct(x: real, y: real)
    requires x > 0.0 && y > 0.0
    ensures Times(x, y) > 0.0 && Times(-x, -y) == Times(x, y)
  {
  }

  lemma SquaresArePositive(x: real)
    requires x != 0.0
    ensures Times(x, x) > 0.0
  {
    hide Times;
    if x > 0.0 {
      PositiveProduct(x, x);
    } else {
      PositiveProduct(-x, -x);
    }
  }

  lemma GapIsPositiveIff(x: int, c: real)
    ensures SquaredGap(x, c) >= 0.0
    ensures SquaredGap(x, c) == 0.0 <==> x as real == c
  {
    hide Times;
    if x as real == c {
      ZeroProduct();
    } else {
      SquaresArePositive(x as real - c);
    }
  }

  lemma ZeroProduct()
    ensures Times(0.0, 0.0) == 0.0
  {
  }

  /** The deviations vanish if and only if every component is c. */
  lemma {:induction false} NoDeviationIff(vs: seq<Vec>, d: nat, c: real)
    requires d < 14
    ensures Deviations(vs, d, c) == 0.0 <==> forall i :: 0 <= i < |vs| ==> vs[i][d] as real == c
  {
    if Deviations(vs, d, c) == 0.0 {
      forall i | 0 <= i < |vs|
        ensures vs[i][d] as real == c
      {
        SomeDeviation(vs, d, c, i);
      }
    } else {
      NoDeviationIff(vs[..|vs| - 1], d, c);
    }
  }

  /** The variance vanishes if and only if the component is the same in every vector. */
  lemma {:induction false} NoVarianceIff(vs: seq<Vec>, d: nat)
    requires d < 14 && vs != []
    ensures VarianceOf(vs, d) == 0.0 <==> forall i :: 0 <= i < |vs| ==> vs[i][d] == vs[0][d]
  {
    hide SumOf, SquaresOf, Deviations, VarianceOf;
    var mean := SumOf(vs, d) as real / |vs| as real;
    VarianceIsMeanDeviation(vs, d);
    NoDeviationIff(vs, d, mean);
    if forall i :: 0 <= i < |vs| ==> vs[i][d] == vs[0][d] {
      SumBounds(vs, d, vs[0][d], vs[0][d]);
      assert mean == vs[0][d] as real;
    }
  }

  // ---- order does not matter --------------------------------------------------------------------

  lemma {:induction false} RemoveKeepsSums(vs: seq<Vec>, i: nat, d: nat)
    requires i < |vs| && d < 14
    ensures SumOf(vs[..i] + vs[i + 1..], d) == SumOf(vs, d) - vs[i][d]
    ensures SquaresOf(vs[..i] + vs[i + 1..], d) == SquaresOf(vs, d) - Square(vs[i][d])
  {
    var n := |vs| - 1;
    if i == n {
      assert vs[..i] + vs[i + 1..] == vs[..n];
    } else {
      RemoveKeepsSums(vs[..n], i, d);
      var rest := vs[..i] + vs[i + 1..];
      assert rest[..n - 1] == vs[..n][..i] + vs[..n][i + 1..];
    }
  }

  lemma {:induction false} SumsIgnoreOrder(vs: seq<Vec>, ws: seq<Vec>, d: nat)
    requires multiset(vs) == multiset(ws) && d < 14
    ensures |vs| == |ws| && SumOf(vs, d) == SumOf(ws, d) && SquaresOf(vs, d) == SquaresOf(ws, d)
  {
    assert |vs| == |multiset(vs)| == |multiset(ws)| == |ws|;
    if vs != [] {
      var n := |vs| - 1;
      var i := Removed(vs, ws);
      SumsIgnoreOrder(vs[..n], ws[..i] + ws[i + 1..], d);
      RemoveKeepsSums(ws, i, d);
    }
  }

  /** Another order of the same vectors holds the last one somewhere. */
  lemma Removed(vs: seq<Vec>, ws: seq<Vec>) returns (i: nat)
    requires vs != [] && multiset(vs) == multiset(ws)
    ensures i < |ws| && ws[i] == vs[|vs| - 1]
    ensures multiset(vs[..|vs| - 1]) == multiset(ws[..i] + ws[i + 1..])
  {
    var n := |vs| - 1;
    assert vs[n] in multiset(ws);
    i :| 0 <= i < |ws| && ws[i] == vs[n];
    assert vs == vs[..n] + [vs[n]];
    assert ws == ws[..i] + [ws[i]] + ws[i + 1..];
    assert multiset(vs[..n]) == multiset(vs) - multiset{vs[n]};
    assert multiset(ws[..i] + ws[i + 1..]) == multiset(ws) - multiset{ws[i]};
  }

  lemma WidestIgnoresOrder(vs: seq<Vec>, ws: seq<Vec>, d: nat)
    requires multiset(vs) == multiset(ws) && Widest(vs, d)
    ensures Widest(ws, d)
  {
    hide SumOf, SquaresOf;
    SumsIgnoreOrder(vs, ws, 0);
    forall e: nat | e < 14 && vs != []
      ensures VarianceOf(ws, e) == VarianceOf(vs, e)
    {
      SumsIgnoreOrder(vs, ws, e);
    }
  }

  // ---- the loops --------------------------------------------------------------------------------

  /** Adds one vector to the running sums. */
  method AddVector(v: Vec, sums: array<int>, squares: array<int>)
    requires sums.Length == squares.Length == 14 && sums != squares
    modifies sums, squares
    ensures forall d :: 0 <= d < 14 ==> sums[d] == old(sums[d]) + v[d] && squares[d] == old(squares[d]) + Square(v[d])
  {
    for d := 0 to 14
      invariant forall e :: 0 <= e < d ==> sums[e] == old(sums[e]) + v[e] && squares[e] == old(squares[e]) + v[e] * v[e]
      invariant forall e :: d <= e < 14 ==> sums[e] == old(sums[e]) && squares[e] == old(squares[e])
    {
      sums[d] := sums[d] + v[d];
      squares[d] := squares[d] + Square(v[d]);
    }
  }

  /** The sums of ids[start..end] and of their squares, which 64 bits hold. */
  method SumWindow(vectors: seq<Int16>, ids: array<nat>, start: nat, end: nat)
    returns (sums: array<int>, squares: array<int>)
    requires start <= end <= ids.Length && forall i :: start <= i < end ==> ids[i] * 14 + 14 <= |vectors|
    ensures sums.Length == squares.Length == 14
    ensures forall d: nat :: d < 14 ==>
              var vs := Members(vectors, ids[start..end]);
              sums[d] == SumOf(vs, d) && squares[d] == SquaresOf(vs, d)
  {
    hide SumOf, SquaresOf, Members;
    sums, squares := new int[14](_ => 0), new int[14](_ => 0);
    ghost var vs := Members(vectors, ids[start..end]);
    NoSums();
    assert vs[..0] == [];
    for i := start to end
      invariant sums != squares && fresh(sums) && fresh(squares)
      invariant forall d: nat :: d < 14 ==>
                  sums[d] == SumOf(vs[..i - start], d) && squares[d] == SquaresOf(vs[..i - start], d)
    {
      SumsStep(vs, i - start);
      assert vs[i - start] == VecAt(vectors, ids[start..end][i - start]);
      AddVector(VecAt(vectors, ids[i]), sums, squares);
    }
    assert vs[..end - start] == vs;
  }

  lemma NoSums()
    ensures forall d: nat :: d < 14 ==> SumOf([], d) == SquaresOf([], d) == 0
  {
  }

  lemma SumsStep(vs: seq<Vec>, i: nat)
    requires i < |vs|
    ensures forall d: nat :: d < 14 ==>
              && SumOf(vs[..i + 1], d) == SumOf(vs[..i], d) + vs[i][d]
              && SquaresOf(vs[..i + 1], d) == SquaresOf(vs[..i], d) + Square(vs[i][d])
  {
    assert vs[..i + 1][..i] == vs[..i];
  }

  /** The best of the dimensions below n; none before the first. */
  ghost predicate WidestBelow(vs: seq<Vec>, n: nat, d: nat, best: real)
    requires n <= 14 && vs != []
  {
    && (n == 0 ==> d == 0 && best == -1.0)
    && (n > 0 ==> && d < n && best == VarianceOf(vs, d)
                  && forall e: nat :: e < n ==> VarianceOf(vs, e) <= best && (e < d ==> VarianceOf(vs, e) < best))
  }

  /**
   The dimension to split on. An empty window's means are not numbers, which beat nothing: its dimension is the
   initial one.
   */
  method MaxVarianceDimension(vectors: seq<Int16>, ids: array<nat>, start: nat, end: nat) returns (dim: nat)
    requires start <= end <= ids.Length && forall i :: start <= i < end ==> ids[i] * 14 + 14 <= |vectors|
    ensures Widest(Members(vectors, ids[start..end]), dim)
  {
    hide SumOf, SquaresOf, Members, VarianceOf;
    ghost var vs := Members(vectors, ids[start..end]);
    var sums, squares := SumWindow(vectors, ids, start, end);
    dim := 0;
    if start == end {
      return;
    }
    var count := (end - start) as real;
    var best := -1.0;
    for d := 0 to 14
      invariant forall e: nat :: e < 14 ==> sums[e] == SumOf(vs, e) && squares[e] == SquaresOf(vs, e)
      invariant WidestBelow(vs, d, dim, best)
    {
      var mean := sums[d] as real / count;
      var variance := squares[d] as real / count - mean * mean;
      VarianceIs(vs, d, sums[d], squares[d], variance);
      VarianceIsMeanDeviation(vs, d);
      if variance > best {
        best := variance;
        dim := d;
      }
    }
  }

  lemma VarianceIs(vs: seq<Vec>, d: nat, sum: int, squares: int, variance: real)
    requires d < 14 && vs != [] && sum == SumOf(vs, d) && squares == SquaresOf(vs, d)
    requires variance == squares as real / |vs| as real - sum as real / |vs| as real * (sum as real / |vs| as real)
    ensures variance == VarianceOf(vs, d)
  {
  }
}
