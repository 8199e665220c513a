/** Balanced recursive splitting of the reference ids into a power-of-two number of ranges. */
module Split {
  import opened Machine
  import opened Metric
  import opened Layout
  import opened Bits
  import opened Sorting
  import opened ClusterStats
  import opened Variance

  /** A half-open run of positions in the id array. */
  datatype BuildRange = BuildRange(start: nat, end: nat)

  /** The ranges cut [start, end) into consecutive runs. */
  ghost predicate Tiles(ranges: seq<BuildRange>, start: nat, end: nat) {
    && |ranges| > 0
    && ranges[0].start == start && ranges[|ranges| - 1].end == end
    && (forall i :: 0 <= i < |ranges| ==> ranges[i].start <= ranges[i].end)
    && (forall i, j :: 0 <= i && j == i + 1 && j < |ranges| ==> ranges[i].end == ranges[j].start)
  }

  /** Every run's length is n / k rounded down or up. */
  ghost predicate Balanced(ranges: seq<BuildRange>, n: nat, k: nat)
    requires k > 0
  {
    forall i :: 0 <= i < |ranges| ==> n / k <= ranges[i].end - ranges[i].start <= (n + k - 1) / k
  }

  lemma TilesConcat(a: seq<BuildRange>, b: seq<BuildRange>, start: nat, mid: nat, end: nat)
    requires Tiles(a, start, mid) && Tiles(b, mid, end)
    ensures Tiles(a + b, start, end)
  {
    var r := a + b;
    forall i, j | 0 <= i && j == i + 1 && j < |r|
      ensures r[i].end == r[j].start
    {
      if j < |a| {
        assert a[i].end == a[j].start;
      } else if i >= |a| {
        assert b[i - |a|].end == b[j - |a|].start;
      }
    }
  }

  lemma DivTwice(n: nat, h: nat)
    requires h > 0
    ensures n / (2 * h) == n / 2 / h
  {
    var q := n / 2 / h;
    var r := n - 2 * h * q;
    assert 2 * h * q == 2 * (h * q);
    assert 0 <= r < 2 * h;
    DivUnique(n, 2 * h, q, r);
  }

  lemma DivMonotone(a: nat, b: nat, h: nat)
    requires h > 0 && a <= b
    ensures a / h <= b / h
  {
    assert h * (a / h) <= a && b < h * (b / h) + h;
    assert h * (b / h + 1) == h * (b / h) + h;
    MulKeepsOrder(h, b / h + 1, a / h);
  }

  // ---- the runs of a split ----------------------------------------------------------------------

  /** The runs that halving [start, end) down to k runs leaves; k is a power of two. */
  function Halvings(start: nat, end: nat, k: nat): (r: seq<BuildRange>)
    requires start <= end && IsPow2(k)
    ensures |r| == k
    decreases k
  {
    if k == 1 then [BuildRange(start, end)]
    else
      var mid := start + (end - start) / 2;
      Halvings(start, mid, k / 2) + Halvings(mid, end, k / 2)
  }

  lemma {:induction false} HalvingsTile(start: nat, end: nat, k: nat)
    requires start <= end && IsPow2(k)
    ensures Tiles(Halvings(start, end, k), start, end)
    decreases k
  {
    if k > 1 {
      var mid := start + (end - start) / 2;
      HalvingsTile(start, mid, k / 2);
      HalvingsTile(mid, end, k / 2);
      TilesConcat(Halvings(start, mid, k / 2), Halvings(mid, end, k / 2), start, mid, end);
    }
  }

  /** c with its bits below k, a power of two, in reverse order. */
  function Reversed(c: nat, k: nat): (r: nat)
    ensures c < k && IsPow2(k) ==> r < k
    decreases k
  {
    if k <= 1 then 0
    else if c < k / 2 then 2 * Reversed(c, k / 2)
    else 2 * Reversed(c - k / 2, k / 2) + 1
  }

  /** The length of run c when n items are halved down to k runs. */
  function RunLength(n: nat, c: nat, k: nat): int
    requires k > 0
  {
    (n + Reversed(c, k)) / k
  }

  ghost predicate Sized(ranges: seq<BuildRange>, n: nat, k: nat)
    requires k > 0
  {
    forall c :: 0 <= c < |ranges| ==> ranges[c].end - ranges[c].start == RunLength(n, c, k)
  }

  /** Halving a window of n over 2h runs is halving floor(n/2) and ceil(n/2) over h runs each. */
  lemma HalvesDivide(n: nat, r: nat, h: nat)
    requires h > 0
    ensures (n + 2 * r) / (2 * h) == (n / 2 + r) / h
    ensures (n + (2 * r + 1)) / (2 * h) == (n - n / 2 + r) / h
  {
    DivTwice(n + 2 * r, h);
    DivTwice(n + (2 * r + 1), h);
    assert (n + 2 * r) / 2 == n / 2 + r;
    assert (n + (2 * r + 1)) / 2 == n - n / 2 + r;
  }

  lemma HalvesStaySized(a: seq<BuildRange>, b: seq<BuildRange>, n: nat, h: nat)
    requires h > 0 && |a| == |b| == h
    requires Sized(a, n / 2, h) && Sized(b, n - n / 2, h)
    ensures Sized(a + b, n, 2 * h)
  {
    hide RunLength;
    var r := a + b;
    forall c | 0 <= c < 2 * h
      ensures r[c].end - r[c].start == RunLength(n, c, 2 * h)
    {
      RunOfHalf(if c < h then c else c - h, n, h);
      assert r[c] == if c < h then a[c] else b[c - h];
    }
  }

  lemma RunOfHalf(c: nat, n: nat, h: nat)
    requires c < h
    ensures RunLength(n, c, 2 * h) == RunLength(n / 2, c, h)
    ensures RunLength(n, c + h, 2 * h) == RunLength(n - n / 2, c, h)
  {
    hide Reversed;
    ReversedHalf(c, h);
    HalvesDivide(n, Reversed(c, h), h);
  }

  lemma ReversedHalf(c: nat, h: nat)
    requires c < h
    ensures Reversed(c, 2 * h) == 2 * Reversed(c, h)
    ensures Reversed(c + h, 2 * h) == 2 * Reversed(c, h) + 1
  {
    var k := 2 * h;
    assert k / 2 == h && c + h - h == c;
  }

  /** The length of every run in closed form. */
  lemma {:induction false} HalvingsAreSized(start: nat, end: nat, k: nat)
    requires start <= end && IsPow2(k)
    ensures Sized(Halvings(start, end, k), end - start, k)
    decreases k
  {
    if k > 1 {
      var mid := start + (end - start) / 2;
      HalvingsAreSized(start, mid, k / 2);
      HalvingsAreSized(mid, end, k / 2);
      HalvesStaySized(Halvings(start, mid, k / 2), Halvings(mid, end, k / 2), end - start, k / 2);
    }
  }

  lemma SizedIsBalanced(ranges: seq<BuildRange>, n: nat, k: nat)
    requires IsPow2(k) && |ranges| == k && Sized(ranges, n, k)
    ensures Balanced(ranges, n, k)
  {
    hide Reversed, IsPow2;
    forall c | 0 <= c < k
      ensures n / k <= ranges[c].end - ranges[c].start <= (n + k - 1) / k
    {
      DivMonotone(n, n + Reversed(c, k), k);
      DivMonotone(n + Reversed(c, k), n + k - 1, k);
    }
  }

  // ---- what a split separates -------------------------------------------------------------------

  /** Component `dim` of a reference; ids outside the table never occur. */
  function Component(vectors: seq<Int16>, dim: nat, id: nat): int {
    if id * 14 + dim < |vectors| then vectors[id * 14 + dim] else 0
  }

  /** No id of b comes before one of a by (component d, id). */
  ghost predicate Apart(vectors: seq<Int16>, a: seq<nat>, b: seq<nat>, d: nat) {
    forall i, j :: 0 <= i < |a| && 0 <= j < |b| ==>
      var x, y := Component(vectors, d, a[i]), Component(vectors, d, b[j]);
      x < y || (x == y && a[i] <= b[j])
  }

  /**
   Every split over k runs went along the dimension in which the ids it split vary most: its lower half holds the
   lower ids along it.
   */
  ghost predicate Separated(vectors: seq<Int16>, s: seq<nat>, k: nat)
    requires IsPow2(k) && IdsFit(vectors, s)
    decreases k
  {
    k == 1 ||
    var m := |s| / 2;
    && (exists d: nat :: Widest(Members(vectors, s), d) && Apart(vectors, s[..m], s[m..], d))
    && Separated(vectors, s[..m], k / 2) && Separated(vectors, s[m..], k / 2)
  }

  lemma SortedIsApart(vectors: seq<Int16>, key: nat -> int, s: seq<nat>, m: nat, d: nat)
    requires SortedBy(key, s) && m <= |s| && forall id :: key(id) == Component(vectors, d, id)
    ensures Apart(vectors, s[..m], s[m..], d)
  {
    hide Component;
    forall i, j | 0 <= i < m && 0 <= j < |s| - m
      ensures var x, y := Component(vectors, d, s[..m][i]), Component(vectors, d, s[m..][j]);
              x < y || (x == y && s[..m][i] <= s[m..][j])
    {
      assert !Precedes(key, s[m + j], s[i]);
    }
  }

  lemma ApartIgnoresOrder(vectors: seq<Int16>, a: seq<nat>, b: seq<nat>, a': seq<nat>, b': seq<nat>, d: nat)
    requires Apart(vectors, a, b, d) && multiset(a) == multiset(a') && multiset(b) == multiset(b')
    ensures Apart(vectors, a', b', d)
  {
    hide Component;
    forall i, j | 0 <= i < |a'| && 0 <= j < |b'|
      ensures var x, y := Component(vectors, d, a'[i]), Component(vectors, d, b'[j]);
              x < y || (x == y && a'[i] <= b'[j])
    {
      assert a'[i] in multiset(a) && b'[j] in multiset(b);
    }
  }

  /** The members of the same ids in another order. */
  lemma {:induction false} MembersIgnoreOrder(vectors: seq<Int16>, s: seq<nat>, t: seq<nat>)
    requires IdsFit(vectors, s) && multiset(s) == multiset(t)
    ensures IdsFit(vectors, t) && multiset(Members(vectors, s)) == multiset(Members(vectors, t))
  {
    hide VecAt;
    PermutationFits(vectors, s, t);
    assert |s| == |multiset(s)| == |multiset(t)| == |t|;
    if s != [] {
      var n := |s| - 1;
      assert s[n] in multiset(t);
      var i :| 0 <= i < |t| && t[i] == s[n];
      var rest := t[..i] + t[i + 1..];
      RemovedMember(vectors, s, n);
      RemovedMember(vectors, t, i);
      assert s[..n] + s[n + 1..] == s[..n];
      MembersIgnoreOrder(vectors, s[..n], rest);
    }
  }

  lemma RemovedMember(vectors: seq<Int16>, s: seq<nat>, i: nat)
    requires IdsFit(vectors, s) && i < |s|
    ensures var rest := s[..i] + s[i + 1..];
            && multiset(rest) == multiset(s) - multiset{s[i]} && IdsFit(vectors, rest)
            && multiset(Members(vectors, s)) == multiset(Members(vectors, rest)) + multiset{VecAt(vectors, s[i])}
  {
    hide VecAt;
    var rest, vs := s[..i] + s[i + 1..], Members(vectors, s);
    RemovedItem(s, i);
    RemovedItem(vs, i);
    assert forall j :: 0 <= j < |rest| ==> rest[j] == s[if j < i then j else j + 1];
    assert Members(vectors, rest) == vs[..i] + vs[i + 1..];
  }

  lemma RemovedItem<T>(s: seq<T>, i: nat)
    requires i < |s|
    ensures multiset(s[..i] + s[i + 1..]) == multiset(s) - multiset{s[i]}
    ensures multiset(s) == multiset(s[..i] + s[i + 1..]) + multiset{s[i]}
  {
    assert s == s[..i] + [s[i]] + s[i + 1..];
  }

  lemma PermutationFits(vectors: seq<Int16>, s: seq<nat>, t: seq<nat>)
    requires IdsFit(vectors, s) && multiset(s) == multiset(t)
    ensures IdsFit(vectors, t)
  {
    forall i | 0 <= i < |t|
      ensures t[i] * 14 + 14 <= |vectors|
    {
      assert t[i] in multiset(s);
    }
  }

  /** Sorting along the widest dimension and then splitting both halves separates a window. */
  lemma SplitSeparates(vectors: seq<Int16>, was: seq<nat>, sorted: seq<nat>, a: seq<nat>, b: seq<nat>, k: nat, d: nat)
    requires IdsFit(vectors, was) && multiset(sorted) == multiset(was) && Widest(Members(vectors, was), d)
    requires var m := |sorted| / 2;
             && Apart(vectors, sorted[..m], sorted[m..], d)
             && multiset(a) == multiset(sorted[..m]) && multiset(b) == multiset(sorted[m..])
    requires k > 1 && IsPow2(k) && IdsFit(vectors, a) && IdsFit(vectors, b)
    requires Separated(vectors, a, k / 2) && Separated(vectors, b, k / 2)
    ensures IdsFit(vectors, a + b) && Separated(vectors, a + b, k)
  {
    hide Apart, Widest, IsPow2, Component;
    var m, s := |sorted| / 2, a + b;
    assert |a| == |multiset(a)| == |multiset(sorted[..m])| == m;
    assert |b| == |multiset(b)| == |multiset(sorted[m..])| == |sorted| - m;
    assert sorted == sorted[..m] + sorted[m..];
    assert multiset(s) == multiset(was);
    assert s[..m] == a && s[m..] == b && |s| / 2 == m;
    MembersIgnoreOrder(vectors, was, s);
    WidestIgnoresOrder(Members(vectors, was), Members(vectors, s), d);
    ApartIgnoresOrder(vectors, sorted[..m], sorted[m..], a, b, d);
  }

  /** Sorts ids[start..end] along the dimension in which its members vary most. */
  method SortAlongWidest(vectors: seq<Int16>, ids: array<nat>, start: nat, end: nat) returns (dim: nat)
    requires start <= end <= ids.Length && IdsFit(vectors, ids[start..end])
    modifies ids
    ensures multiset(ids[start..end]) == multiset(old(ids[start..end]))
    ensures ids[..start] == old(ids[..start]) && ids[end..] == old(ids[end..])
    ensures Widest(Members(vectors, old(ids[start..end])), dim)
    ensures var mid := start + (end - start) / 2;
            && IdsFit(vectors, ids[start..mid]) && IdsFit(vectors, ids[mid..end])
            && Apart(vectors, ids[start..mid], ids[mid..end], dim)
  {
    hide SortBy, SortedBy, Apart, Widest, Component, IdsFit, Members;
    ghost var was := ids[start..end];
    WindowFits(vectors, ids, start, end);
    dim := MaxVarianceDimension(vectors, ids, start, end);
    var key := (id: nat) => Component(vectors, dim, id);
    SortBySorts(key, ids[start..end]);
    SortWindow(ids, start, end, key);
    HalvesFit(vectors, was, ids[..], start, start + (end - start) / 2, end);
    SortedIsApart(vectors, key, ids[start..end], (end - start) / 2, dim);
  }

  /**
   What splitting [start, end) over k ranges from base on does: the window is permuted into separated runs, the runs
   are written once each, and nothing else changes.
   */
  ghost predicate IsSplitOf(
      vectors: seq<Int16>, was: seq<nat>, ids: seq<nat>, before: seq<BuildRange>, ranges: seq<BuildRange>,
      start: nat, end: nat, base: nat, k: nat)
  {
    && start <= end <= |was| == |ids| && base + k <= |before| == |ranges| && IsPow2(k)
    && multiset(ids[start..end]) == multiset(was[start..end])
    && ids[..start] == was[..start] && ids[end..] == was[end..]
    && IdsFit(vectors, ids[start..end]) && Separated(vectors, ids[start..end], k)
    && ranges[base..base + k] == Halvings(start, end, k)
    && ranges[..base] == before[..base] && ranges[base + k..] == before[base + k..]
  }

  /** Splits ids[start..end] over clusterCount ranges. */
  method BalancedSplit(
      vectors: seq<Int16>, ids: array<nat>, ranges: array<BuildRange>,
      start: nat, end: nat, clusterBase: nat, clusterCount: nat)
    requires IsPow2(clusterCount) && start <= end <= ids.Length && IdsFit(vectors, ids[start..end])
    requires clusterBase + clusterCount <= ranges.Length && (ids as object) != ranges
    modifies ids, ranges
    ensures IsSplitOf(vectors, old(ids[..]), ids[..], old(ranges[..]), ranges[..], start, end, clusterBase,
                      clusterCount)
    decreases clusterCount
  {
    hide IsSplitOf, Apart, Widest, IdsFit, Members, Separated, IsPow2, Halvings;
    ghost var was, before := ids[..], ranges[..];
    assert was[start..end] == ids[start..end];
    if clusterCount == 1 {
      ranges[clusterBase] := BuildRange(start, end);
      OneRangeSplits(vectors, was, before, start, end, clusterBase);
      return;
    }
    HalfOfPower(clusterCount);
    var dim := SortAlongWidest(vectors, ids, start, end);
    ghost var sorted := ids[..];
    var mid, half := start + (end - start) / 2, clusterCount / 2;
    BalancedSplit(vectors, ids, ranges, start, mid, clusterBase, half);
    ghost var ids1, ranges1 := ids[..], ranges[..];
    UpperHalfKept(vectors, sorted, ids1, before, ranges1, start, mid, end, clusterBase, half);
    assert ids[mid..end] == ids1[mid..end];
    BalancedSplit(vectors, ids, ranges, mid, end, clusterBase + half, half);
    BothHalvesSplit(vectors, was, sorted, ids1, ids[..], before, ranges1, ranges[..], start, end, clusterBase,
                    clusterCount, dim);
  }

  lemma OneRangeSplits(
      vectors: seq<Int16>, ids: seq<nat>, ranges: seq<BuildRange>, start: nat, end: nat, base: nat)
    requires start <= end <= |ids| && base < |ranges| && IdsFit(vectors, ids[start..end])
    ensures IsSplitOf(vectors, ids, ids, ranges, ranges[base := BuildRange(start, end)], start, end, base, 1)
  {
    hide IdsFit;
    SeparatedAlone(vectors, ids[start..end]);
    var now := ranges[base := BuildRange(start, end)];
    assert now[base..base + 1] == [BuildRange(start, end)];
  }

  lemma UpperHalfKept(
      vectors: seq<Int16>, ids: seq<nat>, ids1: seq<nat>, before: seq<BuildRange>, ranges: seq<BuildRange>,
      start: nat, mid: nat, end: nat, base: nat, h: nat)
    requires IsSplitOf(vectors, ids, ids1, before, ranges, start, mid, base, h) && mid <= end <= |ids|
    ensures |ids1| == |ids| && ids1[mid..end] == ids[mid..end]
  {
    SlicesKept(ids, ids1, mid, end);
  }

  /** Sorting along the widest dimension and splitting both halves splits the whole. */
  lemma BothHalvesSplit(
      vectors: seq<Int16>, was: seq<nat>, s: seq<nat>, s1: seq<nat>, s2: seq<nat>,
      before: seq<BuildRange>, r1: seq<BuildRange>, r2: seq<BuildRange>, start: nat, end: nat, base: nat, k: nat,
      d: nat)
    requires start <= end <= |was| == |s| && IsPow2(k) && k > 1 && IsPow2(k / 2) && k == 2 * (k / 2)
    requires IdsFit(vectors, was[start..end]) && Widest(Members(vectors, was[start..end]), d)
    requires multiset(s[start..end]) == multiset(was[start..end])
    requires s[..start] == was[..start] && s[end..] == was[end..]
    requires var mid, h := start + (end - start) / 2, k / 2;
             && Apart(vectors, s[start..mid], s[mid..end], d)
             && IsSplitOf(vectors, s, s1, before, r1, start, mid, base, h)
             && IsSplitOf(vectors, s1, s2, r1, r2, mid, end, base + h, h)
    ensures IsSplitOf(vectors, was, s2, before, r2, start, end, base, k)
  {
    hide Apart, Widest, IdsFit, Members, Separated, IsPow2, Halvings;
    var mid, h := start + (end - start) / 2, k / 2;
    assert s2[..start] == was[..start] && s2[end..] == was[end..] by {
      FrameJoins(was, s, s1, s2, start, mid, end);
    }
    assert r2[..base] == before[..base] && r2[base + k..] == before[base + k..] by {
      FrameJoins(before, before, r1, r2, base, base + h, base + k);
    }
    assert r2[base..base + k] == Halvings(start, end, k) by {
      JoinRanges(r1, r2, start, end, base, k);
    }
    HalvesJoin(vectors, was[start..end], s, s1, s2, start, mid, end, k, d);
  }

  lemma HalfOfPower(k: nat)
    requires IsPow2(k) && k != 1
    ensures k > 1 && k == 2 * (k / 2) && IsPow2(k / 2)
  {
  }

  lemma HalvingsStep(start: nat, end: nat, k: nat)
    requires start <= end && IsPow2(k)
    ensures k == 1 ==> Halvings(start, end, k) == [BuildRange(start, end)]
    ensures k != 1 ==>
              && k > 1 && k == 2 * (k / 2) && IsPow2(k / 2)
              && var mid := start + (end - start) / 2;
                 Halvings(start, end, k) == Halvings(start, mid, k / 2) + Halvings(mid, end, k / 2)
  {
  }

  lemma FrameJoins<T>(was: seq<T>, s0: seq<T>, s1: seq<T>, s2: seq<T>, start: nat, mid: nat, end: nat)
    requires start <= mid <= end <= |was| == |s0| == |s1| == |s2|
    requires s0[..start] == was[..start] && s0[end..] == was[end..]
    requires s1[..start] == s0[..start] && s1[mid..] == s0[mid..]
    requires s2[..mid] == s1[..mid] && s2[end..] == s1[end..]
    ensures s2[..start] == was[..start] && s2[end..] == was[end..]
  {
    assert s2[..start] == s2[..mid][..start];
    assert s1[..mid][..start] == s1[..start];
    assert s1[end..] == s1[mid..][end - mid..];
    assert s0[end..] == s0[mid..][end - mid..];
  }

  /** Both halves in place make a separated permutation of the window. */
  lemma HalvesJoin(
      vectors: seq<Int16>, was: seq<nat>, s: seq<nat>, s1: seq<nat>, s2: seq<nat>, start: nat, mid: nat, end: nat,
      k: nat, d: nat)
    requires start <= end <= |s| == |s1| == |s2| && mid == start + (end - start) / 2
    requires IdsFit(vectors, was) && Widest(Members(vectors, was), d) && multiset(s[start..end]) == multiset(was)
    requires Apart(vectors, s[start..mid], s[mid..end], d)
    requires multiset(s1[start..mid]) == multiset(s[start..mid]) && s1[mid..] == s[mid..]
    requires multiset(s2[mid..end]) == multiset(s1[mid..end]) && s2[..mid] == s1[..mid]
    requires IsPow2(k) && k > 1 && IsPow2(k / 2)
    requires IdsFit(vectors, s1[start..mid]) && Separated(vectors, s1[start..mid], k / 2)
    requires IdsFit(vectors, s2[mid..end]) && Separated(vectors, s2[mid..end], k / 2)
    ensures multiset(s2[start..end]) == multiset(was)
    ensures IdsFit(vectors, s2[start..end]) && Separated(vectors, s2[start..end], k)
  {
    hide Apart, Widest, IdsFit, Members, Separated, IsPow2;
    HalvesArePermuted(s, s1, s2, start, mid, end);
    SlicesOfWindow(s, start, mid, end);
    SlicesOfWindow(s2, start, mid, end);
    SplitSeparates(vectors, was, s[start..end], s2[start..mid], s2[mid..end], k, d);
  }

  lemma SlicesOfWindow(s: seq<nat>, start: nat, mid: nat, end: nat)
    requires start <= mid <= end <= |s|
    ensures s[start..end] == s[start..mid] + s[mid..end]
    ensures s[start..end][..mid - start] == s[start..mid] && s[start..end][mid - start..] == s[mid..end]
  {
  }

  lemma SeparatedAlone(vectors: seq<Int16>, s: seq<nat>)
    requires IdsFit(vectors, s)
    ensures Separated(vectors, s, 1)
  {
  }

  lemma WindowFits(vectors: seq<Int16>, ids: array<nat>, start: nat, end: nat)
    requires start <= end <= ids.Length && IdsFit(vectors, ids[start..end])
    ensures forall i :: start <= i < end ==> ids[i] * 14 + 14 <= |vectors|
  {
    assert forall i :: start <= i < end ==> ids[i] == ids[start..end][i - start];
  }

  /** Both halves of a permuted window fit. */
  lemma HalvesFit(vectors: seq<Int16>, was: seq<nat>, s: seq<nat>, start: nat, mid: nat, end: nat)
    requires start <= mid <= end <= |s| && IdsFit(vectors, was) && multiset(was) == multiset(s[start..end])
    ensures IdsFit(vectors, s[start..mid]) && IdsFit(vectors, s[mid..end])
    ensures IdsFit(vectors, s[start..end])
    ensures s[start..end][..mid - start] == s[start..mid] && s[start..end][mid - start..] == s[mid..end]
  {
    hide IdsFit;
    PermutationFits(vectors, was, s[start..end]);
    SlicesOfWindow(s, start, mid, end);
    SlicesFit(vectors, s[start..end], mid - start);
  }

  lemma SlicesFit(vectors: seq<Int16>, s: seq<nat>, m: nat)
    requires IdsFit(vectors, s) && m <= |s|
    ensures IdsFit(vectors, s[..m]) && IdsFit(vectors, s[m..])
  {
  }

  lemma SlicesKept(s: seq<nat>, s1: seq<nat>, mid: nat, end: nat)
    requires mid <= end <= |s| == |s1| && s1[mid..] == s[mid..]
    ensures s1[mid..end] == s[mid..end]
  {
    assert s1[mid..end] == s1[mid..][..end - mid];
  }

  lemma HalvesArePermuted(s: seq<nat>, s1: seq<nat>, s2: seq<nat>, start: nat, mid: nat, end: nat)
    requires start <= mid <= end <= |s| == |s1| == |s2|
    requires multiset(s1[start..mid]) == multiset(s[start..mid]) && s1[mid..] == s[mid..]
    requires multiset(s2[mid..end]) == multiset(s1[mid..end]) && s2[..mid] == s1[..mid]
    ensures multiset(s2[start..end]) == multiset(s[start..end])
    ensures s2[start..mid] == s1[start..mid] && multiset(s2[mid..end]) == multiset(s[mid..end])
  {
    assert s2[start..end] == s2[..mid][start..] + s2[mid..end];
    assert s2[start..mid] == s2[..mid][start..];
    assert s1[start..mid] == s1[..mid][start..];
    assert s1[mid..end] == s1[mid..][..end - mid] == s[mid..end];
    assert s[start..end] == s[start..mid] + s[mid..end];
  }

  lemma JoinRanges(r1: seq<BuildRange>, r2: seq<BuildRange>, start: nat, end: nat, base: nat, k: nat)
    requires start <= end && IsPow2(k) && k != 1 && IsPow2(k / 2) && base + k <= |r1| == |r2|
    requires var mid, h := start + (end - start) / 2, k / 2;
             && base + h <= |r1| && base + h + h <= |r2| && r2[..base + h] == r1[..base + h]
             && r1[base..base + h] == Halvings(start, mid, h)
             && r2[base + h..base + h + h] == Halvings(mid, end, h)
    ensures r2[base..base + k] == Halvings(start, end, k)
  {
    hide Halvings, IsPow2;
    HalvingsStep(start, end, k);
    var h := k / 2;
    assert r1[base..base + h] == r1[..base + h][base..] == r2[base..base + h];
    assert r2[base..base + k] == r2[base..base + h] + r2[base + h..base + h + h];
  }

  method IsPowerOfTwo(v: int) returns (b: bool)
    ensures b <==> IsPow2(v)
  {
    if v > 0 {
      PowerTrick(v);
    }
    b := v > 0 && And(v, v - 1) == 0;
  }

  /** The largest power of two that is at most v. */
  method HighestPowerOfTwoLE(v: int) returns (p: nat)
    ensures v <= 0 ==> p == 0
    ensures v > 0 ==> IsPow2(p) && p <= v < 2 * p
  {
    if v <= 0 {
      return 0;
    }
    p := 1;
    while p <= v / 2
      invariant IsPow2(p) && p <= v
    {
      assert IsPow2(2 * p);
      p := p * 2;
    }
  }
}
