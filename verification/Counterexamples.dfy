/**
 Inputs on which the programs do less than they promise, one on which a late stage makes up for it, and one that
 shows what a split goes by. Every view searched here is well built from its references, as a build leaves them.
 */
module Counterexamples {
  import opened Machine
  import opened Metric
  import opened TopFive
  import opened ProbeOrder
  import opened SearchTheory
  import opened Exactness
  import opened Runs
  import opened SearchResults
  import opened WhenExact
  import opened Abandonment
  import opened ClusterStats
  import opened Variance
  import opened Separation
  import opened BuildResults
  import opened Layout
  import opened IndexFile
  import opened IndexReaders
  import Bits
  import Split
  import Balancer
  import CivilDate
  import KnownMerchant

  // ---- vectors on a line ------------------------------------------------------------------------

  /** v with its first component replaced. */
  function At(v: Vec, x: Int16): Vec {
    v[0 := x]
  }

  lemma {:induction false} OneTerm(t: seq<int>, n: nat)
    requires 1 <= n <= |t| && forall i :: 1 <= i < n ==> t[i] == 0
    ensures SumTo(t, n) == t[0]
  {
    if n > 1 {
      OneTerm(t, n - 1);
    } else {
      assert SumTo(t, 0) == 0;
    }
  }

  lemma DistAlong(v: Vec, x: Int16, y: Int16)
    ensures Dist(At(v, x), At(v, y)) == SqDiff(x, y)
  {
    OneTerm(SqDiffs(At(v, x), At(v, y)), 14);
  }

  /** Rows along a line through v, at these positions. */
  ghost predicate RowsAlong(rows: seq<Row>, v: Vec, xs: seq<Int16>) {
    |rows| == |xs| && forall i :: 0 <= i < |rows| ==> rows[i].vec == At(v, xs[i])
  }

  lemma {:induction false} SumsAlong(vs: seq<Vec>, v: Vec, xs: seq<Int16>, d: nat)
    requires |vs| == |xs| && d < 14 && forall i :: 0 <= i < |vs| ==> vs[i] == At(v, xs[i])
    ensures SumOf(vs, d) == if d == 0 then SumTo(xs, |xs|) else |xs| * v[d]
  {
    if vs != [] {
      var n := |vs| - 1;
      SumsAlong(vs[..n], v, xs[..n], d);
      SumOfPrefix(xs, n);
      assert |xs| * v[d] == n * v[d] + v[d];
    }
  }

  lemma {:induction false} SumOfPrefix(xs: seq<int>, n: nat)
    requires n < |xs|
    ensures SumTo(xs[..n], n) == SumTo(xs, n)
  {
    PrefixSum(xs, xs[..n], n);
  }

  lemma {:induction false} PrefixSum(a: seq<int>, b: seq<int>, n: nat)
    requires n <= |a| && n <= |b| && forall i :: 0 <= i < n ==> a[i] == b[i]
    ensures SumTo(a, n) == SumTo(b, n)
  {
    if n > 0 {
      PrefixSum(a, b, n - 1);
    }
  }

  /** A list along a line, in order around its rounded mean and within its extremes, is well built. */
  lemma ListAlong(rows: seq<Row>, v: Vec, xs: seq<Int16>, c: Int16, low: Int16, high: Int16, n: nat, k: nat)
    requires RowsAlong(rows, v, xs) && rows != [] && k > 0 && n / k <= |rows| <= (n + k - 1) / k
    requires low in xs && high in xs && forall i :: 0 <= i < |xs| ==> low <= xs[i] <= high
    requires low <= c <= high && IsRounded(c, SumTo(xs, |xs|), |xs|)
    requires forall i, j :: 0 <= i < j < |rows| ==>
               SqDiff(xs[i], c) < SqDiff(xs[j], c) || (SqDiff(xs[i], c) == SqDiff(xs[j], c) && rows[i].id < rows[j].id)
    ensures WellBuiltList(rows, At(v, c), Box(At(v, low), At(v, high)), n, k)
    ensures forall i :: 0 <= i < |rows| ==> Inside(rows[i].vec, Box(At(v, low), At(v, high)))
  {
    hide SqDiff, SumTo, IsRounded, TightBox, RowsInOrder, RoundedMean, At, Inside;
    TightAlong(VecsOf(rows), v, xs, low, high);
    OrderAlong(rows, v, xs, c);
    MeanAlong(VecsOf(rows), v, xs, c);
    InsideAlong(v, c, low, high);
    WellBuiltListIsCovered(rows, At(v, c), Box(At(v, low), At(v, high)), n, k);
  }

  lemma InsideAlong(v: Vec, c: Int16, low: Int16, high: Int16)
    requires low <= c <= high
    ensures Inside(At(v, c), Box(At(v, low), At(v, high)))
  {
  }

  lemma OrderAlong(rows: seq<Row>, v: Vec, xs: seq<Int16>, c: Int16)
    requires RowsAlong(rows, v, xs)
    requires forall i, j :: 0 <= i < j < |rows| ==>
               SqDiff(xs[i], c) < SqDiff(xs[j], c) || (SqDiff(xs[i], c) == SqDiff(xs[j], c) && rows[i].id < rows[j].id)
    ensures RowsInOrder(rows, At(v, c))
  {
    hide Dist, SqDiff, At;
    forall i, j | 0 <= i < j < |rows|
      ensures var a, b := Dist(rows[i].vec, At(v, c)), Dist(rows[j].vec, At(v, c));
              a < b || (a == b && rows[i].id < rows[j].id)
    {
      DistAlong(v, xs[i], c);
      DistAlong(v, xs[j], c);
    }
  }

  lemma TightAlong(vs: seq<Vec>, v: Vec, xs: seq<Int16>, low: Int16, high: Int16)
    requires |vs| == |xs| > 0 && forall i :: 0 <= i < |vs| ==> vs[i] == At(v, xs[i])
    requires low in xs && high in xs && forall i :: 0 <= i < |xs| ==> low <= xs[i] <= high
    ensures TightBox(vs, Box(At(v, low), At(v, high)))
  {
    var b := Box(At(v, low), At(v, high));
    var i :| 0 <= i < |xs| && xs[i] == low;
    var j :| 0 <= j < |xs| && xs[j] == high;
    forall d: nat | d < 14
      ensures TightBounds(vs, d, b.low[d], b.high[d])
    {
      assert vs[i][d] == b.low[d] && vs[j][d] == b.high[d];
    }
  }

  lemma MeanAlong(vs: seq<Vec>, v: Vec, xs: seq<Int16>, c: Int16)
    requires |vs| == |xs| > 0 && forall i :: 0 <= i < |vs| ==> vs[i] == At(v, xs[i])
    requires IsRounded(c, SumTo(xs, |xs|), |xs|)
    ensures RoundedMean(vs, At(v, c))
  {
    hide SumTo, SumOf;
    forall d: nat | d < 14
      ensures IsRounded(At(v, c)[d], SumOf(vs, d), |vs|)
    {
      SumsAlong(vs, v, xs, d);
      assert d > 0 ==> v[d] * |xs| - |xs| * v[d] == 0;
    }
  }

  /** Rows along a line vary along it alone. */
  lemma WidestAlong(rows: seq<Row>, v: Vec, xs: seq<Int16>, i: nat)
    requires RowsAlong(rows, v, xs) && i < |xs| && xs[i] != xs[0]
    ensures Widest(VecsOf(rows), 0)
  {
    hide VarianceOf;
    var vs := VecsOf(rows);
    assert vs[i] == At(v, xs[i]) && vs[0] == At(v, xs[0]);
    forall e: nat | 0 < e < 14
      ensures VarianceOf(vs, e) == 0.0
    {
      NoVarianceIff(vs, e);
    }
    NoVarianceIff(vs, 0);
    VarianceIsMeanDeviation(vs, 0);
  }

  /** Two lists along a line, the lower positions in the first. */
  lemma PartedAlong(a: seq<Row>, b: seq<Row>, v: Vec, xs: seq<Int16>, ys: seq<Int16>)
    requires RowsAlong(a, v, xs) && RowsAlong(b, v, ys) && a != [] && b != []
    requires forall i, j :: 0 <= i < |xs| && 0 <= j < |ys| ==> xs[i] < ys[j]
    ensures Parted([a, b])
  {
    hide Widest, At, RowsApart, RowsAlong;
    FlatPair(a, b);
    BothAlong(a, b, v, xs, ys);
    WidestAlong(a + b, v, xs + ys, |xs|);
    ApartAlong(a, b, v, xs, ys);
    assert [a, b][..1] == [a] && [a, b][1..] == [b];
  }

  lemma FlatPair(a: seq<Row>, b: seq<Row>)
    ensures Flat([a]) == a && Flat([b]) == b && Flat([a, b]) == a + b
  {
    assert [a, b][..1] == [a] && [a][..0] == [] && [b][..0] == [];
  }

  lemma BothAlong(a: seq<Row>, b: seq<Row>, v: Vec, xs: seq<Int16>, ys: seq<Int16>)
    requires RowsAlong(a, v, xs) && RowsAlong(b, v, ys) && a != [] && b != []
    requires forall i, j :: 0 <= i < |xs| && 0 <= j < |ys| ==> xs[i] < ys[j]
    ensures RowsAlong(a + b, v, xs + ys) && |xs| < |xs + ys| && (xs + ys)[|xs|] != (xs + ys)[0]
  {
    hide At;
    assert (xs + ys)[0] == xs[0] && (xs + ys)[|xs|] == ys[0];
  }

  lemma ApartAlong(a: seq<Row>, b: seq<Row>, v: Vec, xs: seq<Int16>, ys: seq<Int16>)
    requires RowsAlong(a, v, xs) && RowsAlong(b, v, ys)
    requires forall i, j :: 0 <= i < |xs| && 0 <= j < |ys| ==> xs[i] < ys[j]
    ensures RowsApart(a, b, 0)
  {
  }

  /** Two lists of the same length. */
  lemma HalvedOnce(lists: seq<seq<Row>>, n: nat)
    requires |lists| == 2 && |lists[0]| == |lists[1]| == n
    ensures RunSized(lists, 2 * n)
  {
    assert Split.Reversed(0, 2) == 0 && Split.Reversed(1, 2) == 1;
    assert Bits.IsPow2(1);
  }

  // ---- five slots -------------------------------------------------------------------------------

  /** The best five of some entries are what offering them leaves. */
  lemma {:induction false} OffersEndIn(es: seq<Entry>, s: seq<Entry>)
    requires Offerable({}, es) && IsBest5(s, TopFive.Members(es))
    ensures OfferAll(NO_ENTRIES, es) == s
  {
    hide OfferAll;
    NoEntriesIsBest5();
    OffersKeepBest5(NO_ENTRIES, {}, es);
    assert {} + TopFive.Members(es) == TopFive.Members(es);
    forall a, b | a in TopFive.Members(es) && b in TopFive.Members(es) && a.id == b.id
      ensures a == b
    {
      var i :| 0 <= i < |es| && es[i] == a;
      var j :| 0 <= j < |es| && es[j] == b;
    }
    Best5IsUnique(OfferAll(NO_ENTRIES, es), s, TopFive.Members(es));
  }

  function One(e: Entry): nat {
    if e.dist != MAX_INT64 && e.fraud then 1 else 0
  }

  lemma CountOfFive(a: Entry, b: Entry, c: Entry, d: Entry, e: Entry)
    ensures CountFrauds([a, b, c, d, e]) == One(a) + One(b) + One(c) + One(d) + One(e)
  {
    CountSnoc([], a);
    CountSnoc([a], b);
    CountSnoc([a, b], c);
    CountSnoc([a, b, c], d);
    CountSnoc([a, b, c, d], e);
    assert [] + [a] == [a] && [a] + [b] == [a, b] && [a, b] + [c] == [a, b, c];
    assert [a, b, c] + [d] == [a, b, c, d] && [a, b, c, d] + [e] == [a, b, c, d, e];
  }

  lemma CountSnoc(s: seq<Entry>, e: Entry)
    ensures CountFrauds(s + [e]) == CountFrauds(s) + One(e)
  {
    assert (s + [e])[..|s|] == s;
  }

  /** The nearer of two lists is probed first. */
  lemma TwoLists(q: Vec, view: View)
    requires WellFormed(view) && |view.lists| == 2
    requires Dist(q, view.centroids[0]) < Dist(q, view.centroids[1])
    ensures TopLists(Exact, q, view, 1) == [0] && TopLists(Exact, q, view, MAX_PROBE) == [0, 1]
  {
    hide Dist;
    TopOfTwo(CentroidDists(Exact, q, view.centroids, view.lanes));
  }

  lemma TopOfTwo(ds: seq<int>)
    requires |ds| == 2 && ds[0] < ds[1]
    ensures Top(ds, 1) == [0] && Top(ds, 2) == [0, 1]
  {
    hide Top;
    assert IsTop(ds, 2, [0]);
    TopIsUnique(ds, [0], Top(ds, 1));
    assert IsTop(ds, 2, [0, 1]);
    TopIsUnique(ds, [0, 1], Top(ds, 2));
  }

  lemma RowsOfOne(lists: seq<seq<Row>>)
    requires lists != []
    ensures ValidOrder(lists, [0]) && RowsOf(lists, [0]) == lists[0] && Elements([0]) == {0}
  {
    assert [0][..0] == [];
    assert RowsOf(lists, []) == [];
  }

  // ---- a tied partial sum -----------------------------------------------------------------------

  const ORIGIN: Vec := [0, 0, 0, 0, 0, 0, 0, 0, 0, 0, 0, 0, 0, 0]

  /** A far fraud at position 0 followed by five references equal to the query. */
  const TIED: seq<Reference> := [Reference(At(ORIGIN, 10000), true), Reference(ORIGIN, false), Reference(ORIGIN, false),
                                 Reference(ORIGIN, false), Reference(ORIGIN, false), Reference(ORIGIN, false)]

  /** One list of them in the builder's order: their mean is at 1667, nearer to the five. */
  const TIED_ROWS: seq<Row> := [Row(ORIGIN, false, 1), Row(ORIGIN, false, 2), Row(ORIGIN, false, 3),
                                Row(ORIGIN, false, 4), Row(ORIGIN, false, 5), Row(At(ORIGIN, 10000), true, 0)]

  const TIED_VIEW: View := View([TIED_ROWS], [At(ORIGIN, 1667)], [], [Box(At(ORIGIN, 0), At(ORIGIN, 10000))])

  const FIVE_ORIGINS: seq<Entry> := [Entry(0, false, 1), Entry(0, false, 2), Entry(0, false, 3),
                                     Entry(0, false, 4), Entry(0, false, 5)]

  /** The far fraud is stored at distance 0. */
  const MISTAKEN: seq<Entry> := [Entry(0, true, 0), Entry(0, false, 1), Entry(0, false, 2), Entry(0, false, 3),
                                 Entry(0, false, 4)]

  lemma TiedIsWellBuilt()
    ensures WellBuilt(TIED_VIEW, TIED)
  {
    hide WellBuiltList, Inside, SqDiff;
    assert Split.Reversed(0, 1) == 0 && Bits.IsPow2(1);
    forall id: nat | id < |TIED|
      ensures IsListed([TIED_ROWS], id)
    {
      assert [TIED_ROWS][0][if id == 0 then 5 else id - 1].id == id;
    }
    TiedListIsWellBuilt();
  }

  lemma TiedListIsWellBuilt()
    ensures WellBuiltList(TIED_ROWS, At(ORIGIN, 1667), Box(At(ORIGIN, 0), At(ORIGIN, 10000)), 6, 1)
    ensures forall i :: 0 <= i < 6 ==> Inside(TIED_ROWS[i].vec, Box(At(ORIGIN, 0), At(ORIGIN, 10000)))
  {
    var xs: seq<Int16> := [0, 0, 0, 0, 0, 10000];
    assert ORIGIN == At(ORIGIN, 0);
    assert SumTo(xs, 2) == 0 && SumTo(xs, 4) == 0 && SumTo(xs, 6) == 10000;
    assert xs[5] == 10000 && xs[0] == 0;
    ListAlong(TIED_ROWS, ORIGIN, xs, 1667, 0, 10000, 6, 1);
  }

  lemma OriginDistances()
    ensures Dist(ORIGIN, ORIGIN) == 0 && Dist(ORIGIN, At(ORIGIN, 10000)) == 100000000
  {
    assert ORIGIN == At(ORIGIN, 0);
    DistAlong(ORIGIN, 0, 0);
    DistAlong(ORIGIN, 0, 10000);
  }

  lemma TiedExact()
    ensures Nearest5(ORIGIN, TIED) == FIVE_ORIGINS
  {
    hide Dist, OfferAll;
    OriginDistances();
    var es := ReferenceEntries(ORIGIN, TIED);
    assert es == [Entry(100000000, true, 0)] + FIVE_ORIGINS;
    OffersEndIn(es, FIVE_ORIGINS);
  }

  lemma TiedScanned()
    ensures ScanRows(Scalar, ORIGIN, NO_ENTRIES, TIED_ROWS[..5]) == FIVE_ORIGINS
  {
    hide Dist, OfferAll, ScanRows, AbandonedEntries;
    OriginDistances();
    var rows := TIED_ROWS[..5];
    var es := AbandonedEntries(ORIGIN, NO_ENTRIES, rows);
    AbandonedScanOffersEntries(ORIGIN, NO_ENTRIES, rows);
    forall i | 0 <= i < 5
      ensures es[i] == FIVE_ORIGINS[i]
    {
      assert Understates(es[i], ORIGIN, rows[i]);
    }
    assert es == FIVE_ORIGINS;
    OffersEndIn(es, FIVE_ORIGINS);
  }

  /** The far row agrees with the query in the first dimension measured. */
  lemma TiedLastRow()
    ensures Abandoned(ORIGIN, At(ORIGIN, 10000), 0) == 0
  {
    var t := SqDiffs(ORIGIN, At(ORIGIN, 10000));
    assert OrderedSum(t, 1) == t[5] == 0;
  }

  lemma TiedProbed()
    ensures Probed(KernelPair(Scalar, Scalar), ORIGIN, TIED_VIEW, 1) == Progress(MISTAKEN, {0})
  {
    hide Abandoned, ScanRows, Dist, Offer, RowsOf, Expand;
    TiedScanned();
    TiedLastRow();
    var ds := CentroidDists(Scalar, ORIGIN, TIED_VIEW.centroids, TIED_VIEW.lanes);
    TopIsUnique(ds, [0], Top(ds, 1));
    ProbeScansEachOnce(Scalar, ORIGIN, TIED_VIEW, 1);
    RowsOfOne(TIED_VIEW.lists);
    TiedLastOffer();
  }

  lemma TiedLastOffer()
    requires ScanRows(Scalar, ORIGIN, NO_ENTRIES, TIED_ROWS[..5]) == FIVE_ORIGINS
    requires Abandoned(ORIGIN, At(ORIGIN, 10000), 0) == 0
    ensures ScanRows(Scalar, ORIGIN, NO_ENTRIES, TIED_ROWS) == MISTAKEN
  {
    hide Abandoned;
    assert ScanRows(Scalar, ORIGIN, NO_ENTRIES, TIED_ROWS) == Offer(FIVE_ORIGINS, Entry(0, true, 0));
  }

  /**
   Without AVX2 a search can miscount: the far row's first partial sum ties the cutoff, and its smaller id
   lets it in. The list is the only one, so repair and expansion change nothing.
   */
  lemma AbandonmentCanMiscount(repair: bool)
    ensures WellBuilt(TIED_VIEW, TIED)
    ensures ExactFrauds(ORIGIN, TIED) == 0
    ensures Search(KernelPair(Scalar, Scalar), ORIGIN, TIED_VIEW, Settings(1, 1, repair)) == 1
  {
    hide CountFrauds, Nearest5, Probed, ScanRows, TopLists, WellBuilt, Dist;
    TiedIsWellBuilt();
    TiedExact();
    TiedProbed();
    CountOfFive(MISTAKEN[0], MISTAKEN[1], MISTAKEN[2], MISTAKEN[3], MISTAKEN[4]);
    CountOfFive(FIVE_ORIGINS[0], FIVE_ORIGINS[1], FIVE_ORIGINS[2], FIVE_ORIGINS[3], FIVE_ORIGINS[4]);
    NothingToRepair(Scalar, ORIGIN, MISTAKEN);
  }

  lemma NothingToRepair(k: Kernel, q: Vec, best: seq<Entry>)
    requires |best| == 5
    ensures Repair(k, q, Progress(best, {0}), TIED_VIEW) == best
  {
    var cutoff := best[4].dist;
    assert RepairTargets(q, {0}, TIED_VIEW.boxes, cutoff, 0) == [];
    assert RepairTargets(q, {0}, TIED_VIEW.boxes, cutoff, 1) == [];
  }

  // ---- a repair over a vacant slot ----------------------------------------------------------------

  /** Two frauds equal to the query and two far ones, split into two lists of two. */
  const FEW: seq<Reference> := [Reference(ORIGIN, true), Reference(ORIGIN, true),
                                Reference(At(ORIGIN, 10000), true), Reference(At(ORIGIN, 10000), true)]

  const NEAR_TWO: seq<Row> := [Row(ORIGIN, true, 0), Row(ORIGIN, true, 1)]
  const FAR_TWO: seq<Row> := [Row(At(ORIGIN, 10000), true, 2), Row(At(ORIGIN, 10000), true, 3)]

  const FEW_VIEW: View := View([NEAR_TWO, FAR_TWO], [At(ORIGIN, 0), At(ORIGIN, 10000)], [],
                               [Box(At(ORIGIN, 0), At(ORIGIN, 0)), Box(At(ORIGIN, 10000), At(ORIGIN, 10000))])

  lemma FewIsWellBuilt()
    ensures WellBuilt(FEW_VIEW, FEW)
  {
    hide WellBuiltList, Inside, SqDiff, Parted, RunSized;
    forall id: nat | id < |FEW|
      ensures IsListed(FEW_VIEW.lists, id)
    {
      assert FEW_VIEW.lists[id / 2][id % 2].id == id;
    }
    assert ORIGIN == At(ORIGIN, 0);
    TwoAlike(NEAR_TWO, ORIGIN, 0);
    TwoAlike(FAR_TWO, ORIGIN, 10000);
    HalvedOnce(FEW_VIEW.lists, 2);
    PartedAlong(NEAR_TWO, FAR_TWO, ORIGIN, [0, 0], [10000, 10000]);
  }

  lemma TwoAlike(rows: seq<Row>, v: Vec, x: Int16)
    requires |rows| == 2 && rows[0].vec == rows[1].vec == At(v, x) && rows[0].id < rows[1].id
    ensures WellBuiltList(rows, At(v, x), Box(At(v, x), At(v, x)), 4, 2)
    ensures forall i :: 0 <= i < 2 ==> Inside(rows[i].vec, Box(At(v, x), At(v, x)))
  {
    var xs: seq<Int16> := [x, x];
    SumConstant(xs, x, 2);
    assert xs[0] == x;
    ListAlong(rows, v, xs, x, x, x, 4, 2);
  }

  lemma FewProbed()
    ensures TopLists(Exact, ORIGIN, FEW_VIEW, 1) == [0]
    ensures Probed(EXACT, ORIGIN, FEW_VIEW, 1)
            == Progress([Entry(0, true, 0), Entry(0, true, 1), VACANT, VACANT, VACANT], {0})
  {
    hide ScanRows, Dist, OfferAll, RowsOf, Expand;
    OriginDistances();
    assert ORIGIN == At(ORIGIN, 0);
    TwoLists(ORIGIN, FEW_VIEW);
    ProbeScansEachOnce(Exact, ORIGIN, FEW_VIEW, 1);
    RowsOfOne(FEW_VIEW.lists);
    ExactScanOffersEntries(ORIGIN, NO_ENTRIES, NEAR_TWO);
    assert RowEntries(ORIGIN, NEAR_TWO) == [Entry(0, true, 0), Entry(0, true, 1)];
    OffersEndIn(RowEntries(ORIGIN, NEAR_TWO), [Entry(0, true, 0), Entry(0, true, 1), VACANT, VACANT, VACANT]);
  }

  lemma FewExact()
    ensures Nearest5(ORIGIN, FEW) == [Entry(0, true, 0), Entry(0, true, 1), Entry(100000000, true, 2),
                                      Entry(100000000, true, 3), VACANT]
  {
    hide Dist, OfferAll;
    OriginDistances();
    var es := ReferenceEntries(ORIGIN, FEW);
    assert es == [Entry(0, true, 0), Entry(0, true, 1), Entry(100000000, true, 2), Entry(100000000, true, 3)];
    OffersEndIn(es, es + [VACANT]);
  }

  /** A first probe that finds two rows leaves a slot vacant, so the repair does nothing and two frauds are missed. */
  lemma RepairCanDoNothing()
    ensures WellBuilt(FEW_VIEW, FEW)
    ensures InDoubt(ORIGIN, FEW_VIEW, Settings(1, 1, true)) && !Repairs(ORIGIN, FEW_VIEW, Settings(1, 1, true))
    ensures Search(EXACT, ORIGIN, FEW_VIEW, Settings(1, 1, true)) == 2
    ensures ExactFrauds(ORIGIN, FEW) == 4
  {
    hide CountFrauds, Nearest5, Probed, RowsOf, TopLists, Dist, WellBuiltList, Widened, Represents, Covered, Parted,
         RunSized;
    FewIsWellBuilt();
    FewProbed();
    FewExact();
    RowsOfOne(FEW_VIEW.lists);
    RepresentsDistinct(FEW_VIEW.lists, FEW);
    WidenedIs(ORIGIN, FEW_VIEW, Settings(1, 1, true));
    CountOfFive(Entry(0, true, 0), Entry(0, true, 1), VACANT, VACANT, VACANT);
    CountOfFive(Entry(0, true, 0), Entry(0, true, 1), Entry(100000000, true, 2), Entry(100000000, true, 3), VACANT);
  }

  // ---- two lists, the nearest reference in the farther one ----------------------------------------

  /** Five references at 4000, two of them frauds if f holds, four at 9000 and a fraud at 5500. */
  function LineRefs(v: Vec, f: bool): seq<Reference> {
    [Reference(At(v, 4000), f), Reference(At(v, 4000), false), Reference(At(v, 4000), false),
     Reference(At(v, 4000), false), Reference(At(v, 4000), f),
     Reference(At(v, 9000), false), Reference(At(v, 9000), false), Reference(At(v, 9000), false),
     Reference(At(v, 9000), false), Reference(At(v, 5500), true)]
  }

  /** The list nearer to 5000, whose mean is at 4000. */
  function NearFive(v: Vec, f: bool): seq<Row> {
    [Row(At(v, 4000), f, 0), Row(At(v, 4000), false, 1), Row(At(v, 4000), false, 2),
     Row(At(v, 4000), false, 3), Row(At(v, 4000), f, 4)]
  }

  /** The other list, whose mean is at 8300; its box reaches down to 5500. */
  function FarFive(v: Vec): seq<Row> {
    [Row(At(v, 9000), false, 5), Row(At(v, 9000), false, 6), Row(At(v, 9000), false, 7),
     Row(At(v, 9000), false, 8), Row(At(v, 5500), true, 9)]
  }

  function LineView(v: Vec, f: bool): View {
    View([NearFive(v, f), FarFive(v)], [At(v, 4000), At(v, 8300)], [],
         [Box(At(v, 4000), At(v, 4000)), Box(At(v, 5500), At(v, 9000))])
  }

  const LINE_CONFIG: Settings := Settings(1, 1, true)

  function FirstFive(f: bool): seq<Entry> {
    [Entry(1000000, f, 0), Entry(1000000, false, 1), Entry(1000000, false, 2), Entry(1000000, false, 3),
     Entry(1000000, f, 4)]
  }

  function NearestFive(f: bool): seq<Entry> {
    [Entry(250000, true, 9), Entry(1000000, f, 0), Entry(1000000, false, 1), Entry(1000000, false, 2),
     Entry(1000000, false, 3)]
  }

  lemma LineDistances(v: Vec)
    requires v[0] == 5000
    ensures Dist(v, At(v, 4000)) == 1000000 && Dist(v, At(v, 5500)) == 250000
    ensures Dist(v, At(v, 9000)) == 16000000 && Dist(v, At(v, 8300)) == 10890000
  {
    assert v == At(v, 5000);
    DistAlong(v, 5000, 4000);
    DistAlong(v, 5000, 5500);
    DistAlong(v, 5000, 9000);
    DistAlong(v, 5000, 8300);
  }

  lemma LineIsWellBuilt(v: Vec, f: bool)
    ensures WellBuilt(LineView(v, f), LineRefs(v, f))
  {
    hide WellBuiltList, Inside, At, Represents, NearFive, FarFive, Parted, RunSized;
    LineRepresents(v, f);
    NearFiveIsWellBuilt(v, f);
    FarFiveIsWellBuilt(v);
    assert |NearFive(v, f)| == |FarFive(v)| == 5;
    HalvedOnce(LineView(v, f).lists, 5);
    LineParted(v, f);
  }

  lemma LineParted(v: Vec, f: bool)
    ensures Parted([NearFive(v, f), FarFive(v)])
  {
    hide At, Parted;
    PartedAlong(NearFive(v, f), FarFive(v), v, [4000, 4000, 4000, 4000, 4000], [9000, 9000, 9000, 9000, 5500]);
  }

  lemma LineRepresents(v: Vec, f: bool)
    ensures Represents(LineView(v, f).lists, LineRefs(v, f))
    ensures |NearFive(v, f)| == |FarFive(v)| == 5 && |LineRefs(v, f)| == 10
  {
    hide At;
    var lists := LineView(v, f).lists;
    forall id: nat | id < 10
      ensures IsListed(lists, id)
    {
      assert lists[id / 5][id % 5].id == id;
    }
    forall c, i | 0 <= c < 2 && 0 <= i < 5
      ensures lists[c][i].id == 5 * c + i && RowIsReference(lists[c][i], LineRefs(v, f))
    {
      assert c == 0 || c == 1;
    }
  }

  lemma NearFiveIsWellBuilt(v: Vec, f: bool)
    ensures WellBuiltList(NearFive(v, f), At(v, 4000), Box(At(v, 4000), At(v, 4000)), 10, 2)
    ensures forall i :: 0 <= i < 5 ==> Inside(NearFive(v, f)[i].vec, Box(At(v, 4000), At(v, 4000)))
  {
    var xs: seq<Int16> := [4000, 4000, 4000, 4000, 4000];
    assert SumTo(xs, 2) == 8000 && SumTo(xs, 4) == 16000 && SumTo(xs, 5) == 20000 && xs[0] == 4000;
    ListAlong(NearFive(v, f), v, xs, 4000, 4000, 4000, 10, 2);
  }

  lemma FarFiveIsWellBuilt(v: Vec)
    ensures WellBuiltList(FarFive(v), At(v, 8300), Box(At(v, 5500), At(v, 9000)), 10, 2)
    ensures forall i :: 0 <= i < 5 ==> Inside(FarFive(v)[i].vec, Box(At(v, 5500), At(v, 9000)))
  {
    var xs: seq<Int16> := [9000, 9000, 9000, 9000, 5500];
    assert SumTo(xs, 2) == 18000 && SumTo(xs, 4) == 36000 && SumTo(xs, 5) == 41500;
    assert xs[0] == 9000 && xs[4] == 5500;
    ListAlong(FarFive(v), v, xs, 8300, 5500, 9000, 10, 2);
  }

  lemma LineExact(v: Vec, f: bool)
    requires v[0] == 5000
    ensures Nearest5(v, LineRefs(v, f)) == NearestFive(f)
  {
    hide Dist, OfferAll, At;
    LineDistances(v);
    var es := ReferenceEntries(v, LineRefs(v, f));
    assert es == FirstFive(f) + [Entry(16000000, false, 5), Entry(16000000, false, 6), Entry(16000000, false, 7),
                                 Entry(16000000, false, 8), Entry(250000, true, 9)];
    OffersEndIn(es, NearestFive(f));
  }

  /** The first probe scans the nearer list alone. */
  lemma LineProbed(v: Vec, f: bool)
    requires v[0] == 5000
    ensures var view := LineView(v, f);
            && TopLists(Exact, v, view, 1) == [0] && TopLists(Exact, v, view, MAX_PROBE) == [0, 1]
            && Probed(EXACT, v, view, 1) == Progress(FirstFive(f), {0})
  {
    hide ScanRows, Dist, OfferAll, RowsOf, Expand, TopLists, At;
    var view := LineView(v, f);
    LineDistances(v);
    TwoLists(v, view);
    ProbeScansEachOnce(Exact, v, view, 1);
    RowsOfOne(view.lists);
    ExactScanOffersEntries(v, NO_ENTRIES, NearFive(v, f));
    assert RowEntries(v, NearFive(v, f)) == FirstFive(f);
    OffersEndIn(FirstFive(f), FirstFive(f));
  }

  lemma LineKernels(ks: KernelPair, v: Vec, f: bool)
    requires ks.scan != Scalar && Quantized(v)
    ensures FullDistances(ks, v, LineView(v, f))
  {
    hide WithinSpan;
    var view := LineView(v, f);
    assert forall c, i :: 0 <= c < 2 && 0 <= i < 5 ==> Quantized(view.lists[c][i].vec);
    QuantizedIsSpanSafe(v, view);
  }

  lemma LineDistinct(v: Vec, f: bool)
    requires WellBuilt(LineView(v, f), LineRefs(v, f))
    ensures DistinctIds(LineView(v, f).lists) && |LineRefs(v, f)| == 10
    ensures WellFormed(LineView(v, f)) && Covered(LineView(v, f)) && Represents(LineView(v, f).lists, LineRefs(v, f))
  {
  }

  // ---- an unambiguous first count -----------------------------------------------------------------

  const PLAIN: Vec := [5000, 0, 0, 0, 0, 0, 0, 0, 0, 0, 0, 0, 0, 0]

  /** A first count of 0 is not looked into, though the nearest reference of all is a fraud in the other list. */
  lemma UnambiguousCountCanBeWrong(ks: KernelPair)
    requires ks.scan != Scalar
    ensures WellBuilt(LineView(PLAIN, false), LineRefs(PLAIN, false))
    ensures ExactFrauds(PLAIN, LineRefs(PLAIN, false)) == 1
    ensures Search(ks, PLAIN, LineView(PLAIN, false), LINE_CONFIG) == 0
  {
    hide CountFrauds, Nearest5, Probed, RowsOf, TopLists, Dist, WellBuilt, FullDistances, LineView, LineRefs, Repair;
    var five, nearest := FirstFive(false), NearestFive(false);
    LineIsWellBuilt(PLAIN, false);
    LineDistinct(PLAIN, false);
    LineExact(PLAIN, false);
    LineProbed(PLAIN, false);
    LineKernels(ks, PLAIN, false);
    FullDistanceSearchIsExact(ks, PLAIN, LineView(PLAIN, false), LINE_CONFIG);
    CountOfFive(five[0], five[1], five[2], five[3], five[4]);
    CountOfFive(nearest[0], nearest[1], nearest[2], nearest[3], nearest[4]);
  }

  // ---- an expansion after a repair --------------------------------------------------------------

  /** A query that calls for a late expansion when its count is below three. */
  const QUERY: Vec := [5000, 0, 5000, 0, 0, 0, 0, 3000, 0, 10000, 0, 0, 3000, 0]

  /** The fraud at 5500 stored twice. */
  const DOUBLED_FIVE: seq<Entry> := [Entry(250000, true, 9), Entry(250000, true, 9), Entry(1000000, true, 0),
                                     Entry(1000000, false, 1), Entry(1000000, false, 2)]

  /** The repair finds the five nearest, but does not mark the list it scanned. */
  lemma LateWidened()
    requires WellBuilt(LineView(QUERY, true), LineRefs(QUERY, true))
    ensures Widened(EXACT, QUERY, LineView(QUERY, true), LINE_CONFIG) == Progress(NearestFive(true), {0})
  {
    hide CountFrauds, Nearest5, Probed, RowsOf, TopLists, Dist, WellBuilt, Widened, Represents, Covered, Repair,
         LineRefs, At, LineView;
    var view, refs, five := LineView(QUERY, true), LineRefs(QUERY, true), FirstFive(true);
    LineProbed(QUERY, true);
    LineExact(QUERY, true);
    LineDistinct(QUERY, true);
    FirstListOfLine();
    CountOfFive(five[0], five[1], five[2], five[3], five[4]);
    WidenedIs(QUERY, view, LINE_CONFIG);
    WidenedIsExactIff(EXACT, QUERY, view, refs, LINE_CONFIG);
  }

  lemma FirstListOfLine()
    ensures var view := LineView(QUERY, true);
            ValidOrder(view.lists, [0]) && |RowsOf(view.lists, [0])| == 5 && view.boxes != []
  {
    hide RowsOf, At;
    RowsOfOne(LineView(QUERY, true).lists);
  }

  /** Scanning the other list again stores its fraud again. */
  lemma LateScanned()
    ensures ScanRows(Exact, QUERY, NearestFive(true), FarFive(QUERY)) == DOUBLED_FIVE
  {
    hide Dist, Offer, ScanRows, At;
    var rows := FarFive(QUERY);
    ScanRowsConcat(Exact, QUERY, NearestFive(true), rows[..4], rows[4..]);
    assert rows[..4] + rows[4..] == rows;
    FourAreFar();
    LastRowAgain();
  }

  lemma FourAreFar()
    ensures ScanRows(Exact, QUERY, NearestFive(true), FarFive(QUERY)[..4]) == NearestFive(true)
  {
    hide Dist, At;
    LineDistances(QUERY);
    var es := RowEntries(QUERY, FarFive(QUERY)[..4]);
    ExactScanOffersEntries(QUERY, NearestFive(true), FarFive(QUERY)[..4]);
    assert forall e :: e in es ==> e.dist == 16000000;
    OffersChangeNothingIff(NearestFive(true), es);
  }

  lemma LastRowAgain()
    ensures ScanRows(Exact, QUERY, NearestFive(true), FarFive(QUERY)[4..]) == DOUBLED_FIVE
  {
    hide Dist, At;
    LineDistances(QUERY);
    var rows := FarFive(QUERY)[4..];
    assert rows[..0] == [] && rows[0] == Row(At(QUERY, 5500), true, 9);
    assert ScanRows(Exact, QUERY, NearestFive(true), []) == NearestFive(true);
    assert Offer(NearestFive(true), Entry(250000, true, 9)) == DOUBLED_FIVE;
  }

  lemma LateExpandedAgain()
    requires TopLists(Exact, QUERY, LineView(QUERY, true), MAX_PROBE) == [0, 1]
    ensures LateExpanded(EXACT, QUERY, LineView(QUERY, true), Progress(NearestFive(true), {0})).best == DOUBLED_FIVE
  {
    hide ScanRows, TopLists, Dist, At;
    LateScanned();
    var p, lists := Progress(NearestFive(true), {0}), LineView(QUERY, true).lists;
    assert [0, 1][..1] == [0] && [0][..0] == [];
    assert Expand(Exact, QUERY, p, lists, []) == p;
    assert Expand(Exact, QUERY, p, lists, [0]) == p;
  }

  /**
   A late expansion can count a reference twice, and turn an approval into a denial: the repair finds the fraud
   in the second list, and the expansion, which does not know of it, stores it again.
   */
  lemma LateExpansionCanCountTwice(ks: KernelPair)
    requires ks.scan != Scalar
    ensures WellBuilt(LineView(QUERY, true), LineRefs(QUERY, true))
    ensures ExactFrauds(QUERY, LineRefs(QUERY, true)) == 2
    ensures Widened(ks, QUERY, LineView(QUERY, true), LINE_CONFIG).best == Nearest5(QUERY, LineRefs(QUERY, true))
    ensures Search(ks, QUERY, LineView(QUERY, true), LINE_CONFIG) == 3
  {
    hide CountFrauds, Nearest5, Probed, RowsOf, TopLists, Dist, WellBuilt, Widened, LateExpanded, FullDistances,
         LineView, LineRefs;
    var nearest := NearestFive(true);
    LineIsWellBuilt(QUERY, true);
    LineDistinct(QUERY, true);
    LineExact(QUERY, true);
    LineProbed(QUERY, true);
    LateWidened();
    LateExpandedAgain();
    LineKernels(ks, QUERY, true);
    FullDistanceSearchIsExact(ks, QUERY, LineView(QUERY, true), LINE_CONFIG);
    CountOfFive(nearest[0], nearest[1], nearest[2], nearest[3], nearest[4]);
    CountOfFive(DOUBLED_FIVE[0], DOUBLED_FIVE[1], DOUBLED_FIVE[2], DOUBLED_FIVE[3], DOUBLED_FIVE[4]);
  }

  // ---- a late expansion that corrects -----------------------------------------------------------

  /** A query that calls for a late expansion when its count is at least three. */
  const DENIED: Vec := [5000, 0, 5000, 0, 0, -10000, -10000, 0, 0, 0, 10000, 0, 2500, 0]

  /** Five frauds at 1500, one legitimate reference at 7000 and four at 10000. */
  const APART: seq<Reference> :=
    [Reference(At(DENIED, 1500), true), Reference(At(DENIED, 1500), true), Reference(At(DENIED, 1500), true),
     Reference(At(DENIED, 1500), true), Reference(At(DENIED, 1500), true), Reference(At(DENIED, 7000), false),
     Reference(At(DENIED, 10000), false), Reference(At(DENIED, 10000), false), Reference(At(DENIED, 10000), false),
     Reference(At(DENIED, 10000), false)]

  const FIVE_FRAUDS: seq<Row> :=
    [Row(At(DENIED, 1500), true, 0), Row(At(DENIED, 1500), true, 1), Row(At(DENIED, 1500), true, 2),
     Row(At(DENIED, 1500), true, 3), Row(At(DENIED, 1500), true, 4)]

  /** The other list, whose mean is at 9400. */
  const FIVE_LEGITIMATE: seq<Row> :=
    [Row(At(DENIED, 10000), false, 6), Row(At(DENIED, 10000), false, 7), Row(At(DENIED, 10000), false, 8),
     Row(At(DENIED, 10000), false, 9), Row(At(DENIED, 7000), false, 5)]

  const APART_VIEW: View :=
    View([FIVE_FRAUDS, FIVE_LEGITIMATE], [At(DENIED, 1500), At(DENIED, 9400)], [],
         [Box(At(DENIED, 1500), At(DENIED, 1500)), Box(At(DENIED, 7000), At(DENIED, 10000))])

  const FRAUDS_ONLY: seq<Entry> := [Entry(12250000, true, 0), Entry(12250000, true, 1), Entry(12250000, true, 2),
                                    Entry(12250000, true, 3), Entry(12250000, true, 4)]

  const LEGITIMATE_FIRST: seq<Entry> := [Entry(4000000, false, 5), Entry(12250000, true, 0), Entry(12250000, true, 1),
                                         Entry(12250000, true, 2), Entry(12250000, true, 3)]

  lemma ApartDistances()
    ensures Dist(DENIED, At(DENIED, 1500)) == 12250000 && Dist(DENIED, At(DENIED, 7000)) == 4000000
    ensures Dist(DENIED, At(DENIED, 10000)) == 25000000 && Dist(DENIED, At(DENIED, 9400)) == 19360000
  {
    assert DENIED == At(DENIED, 5000);
    DistAlong(DENIED, 5000, 1500);
    DistAlong(DENIED, 5000, 7000);
    DistAlong(DENIED, 5000, 10000);
    DistAlong(DENIED, 5000, 9400);
  }

  lemma ApartIsWellBuilt()
    ensures WellBuilt(APART_VIEW, APART)
  {
    hide WellBuiltList, Inside, At, Represents, Parted, RunSized;
    ApartRepresents();
    FiveFraudsAreWellBuilt();
    FiveLegitimateAreWellBuilt();
    HalvedOnce(APART_VIEW.lists, 5);
    PartedAlong(FIVE_FRAUDS, FIVE_LEGITIMATE, DENIED, [1500, 1500, 1500, 1500, 1500],
                [10000, 10000, 10000, 10000, 7000]);
  }

  lemma ApartRepresents()
    ensures Represents(APART_VIEW.lists, APART)
  {
    hide At;
    var lists := APART_VIEW.lists;
    forall id: nat | id < 10
      ensures IsListed(lists, id)
    {
      assert lists[if id < 5 then 0 else 1][if id < 5 then id else if id == 5 then 4 else id - 6].id == id;
    }
    forall c, i | 0 <= c < 2 && 0 <= i < 5
      ensures lists[c][i].id == if c == 0 then i else if i == 4 then 5 else i + 6
      ensures RowIsReference(lists[c][i], APART)
    {
      assert c == 0 || c == 1;
    }
  }

  lemma FiveFraudsAreWellBuilt()
    ensures WellBuiltList(FIVE_FRAUDS, At(DENIED, 1500), Box(At(DENIED, 1500), At(DENIED, 1500)), 10, 2)
    ensures forall i :: 0 <= i < 5 ==> Inside(FIVE_FRAUDS[i].vec, Box(At(DENIED, 1500), At(DENIED, 1500)))
  {
    var xs: seq<Int16> := [1500, 1500, 1500, 1500, 1500];
    assert SumTo(xs, 2) == 3000 && SumTo(xs, 4) == 6000 && SumTo(xs, 5) == 7500 && xs[0] == 1500;
    ListAlong(FIVE_FRAUDS, DENIED, xs, 1500, 1500, 1500, 10, 2);
  }

  lemma FiveLegitimateAreWellBuilt()
    ensures WellBuiltList(FIVE_LEGITIMATE, At(DENIED, 9400), Box(At(DENIED, 7000), At(DENIED, 10000)), 10, 2)
    ensures forall i :: 0 <= i < 5 ==> Inside(FIVE_LEGITIMATE[i].vec, Box(At(DENIED, 7000), At(DENIED, 10000)))
  {
    var xs: seq<Int16> := [10000, 10000, 10000, 10000, 7000];
    assert SumTo(xs, 2) == 20000 && SumTo(xs, 4) == 40000 && SumTo(xs, 5) == 47000;
    assert xs[0] == 10000 && xs[4] == 7000;
    ListAlong(FIVE_LEGITIMATE, DENIED, xs, 9400, 7000, 10000, 10, 2);
  }

  lemma ApartExact()
    ensures Nearest5(DENIED, APART) == LEGITIMATE_FIRST
  {
    hide Dist, OfferAll, At;
    ApartDistances();
    var es := ReferenceEntries(DENIED, APART);
    assert es == FRAUDS_ONLY + [Entry(4000000, false, 5), Entry(25000000, false, 6), Entry(25000000, false, 7),
                                Entry(25000000, false, 8), Entry(25000000, false, 9)];
    OffersEndIn(es, LEGITIMATE_FIRST);
  }

  lemma ApartProbed()
    ensures TopLists(Exact, DENIED, APART_VIEW, 1) == [0] && TopLists(Exact, DENIED, APART_VIEW, MAX_PROBE) == [0, 1]
    ensures Probed(EXACT, DENIED, APART_VIEW, 1) == Progress(FRAUDS_ONLY, {0})
  {
    hide ScanRows, Dist, OfferAll, RowsOf, Expand, TopLists, At;
    ApartDistances();
    TwoLists(DENIED, APART_VIEW);
    ProbeScansEachOnce(Exact, DENIED, APART_VIEW, 1);
    RowsOfOne(APART_VIEW.lists);
    ExactScanOffersEntries(DENIED, NO_ENTRIES, FIVE_FRAUDS);
    assert RowEntries(DENIED, FIVE_FRAUDS) == FRAUDS_ONLY;
    OffersEndIn(FRAUDS_ONLY, FRAUDS_ONLY);
  }

  lemma ApartKernels(ks: KernelPair)
    requires ks.scan != Scalar
    ensures FullDistances(ks, DENIED, APART_VIEW)
  {
    hide WithinSpan;
    assert forall c, i :: 0 <= c < 2 && 0 <= i < 5 ==> Quantized(APART_VIEW.lists[c][i].vec);
    QuantizedIsSpanSafe(DENIED, APART_VIEW);
  }

  /** Both lists store every reference. */
  lemma ApartHeld()
    requires Represents(APART_VIEW.lists, APART)
    ensures ValidOrder(APART_VIEW.lists, [0, 1]) && HoldNearest(DENIED, APART_VIEW.lists, APART, [0, 1])
  {
    hide At, Nearest5;
    var lists := APART_VIEW.lists;
    ApartExact();
    forall i | 0 <= i < 5
      ensures IsHeld(lists, [0, 1], LEGITIMATE_FIRST[i].id)
    {
      assert lists[1][4].id == 5 && [0, 1][1] == 1 && [0, 1][0] == 0;
      assert i > 0 ==> lists[0][i - 1].id == LEGITIMATE_FIRST[i].id;
    }
  }

  /**
   A first count of 5 is not in doubt, and wrong: the nearest reference of all is in the other list. The late
   expansion of a denial finds it, and the answer is the exact 4.
   */
  lemma LateExpansionCanCorrect(ks: KernelPair)
    requires ks.scan != Scalar
    ensures WellBuilt(APART_VIEW, APART)
    ensures CountFrauds(Widened(ks, DENIED, APART_VIEW, LINE_CONFIG).best) == 5
    ensures ExactFrauds(DENIED, APART) == 4
    ensures Search(ks, DENIED, APART_VIEW, LINE_CONFIG) == 4
  {
    hide CountFrauds, Nearest5, Probed, RowsOf, TopLists, Dist, Represents, Covered, WellBuiltList, Widened,
         FullDistances, Search, At, HoldNearest, DistinctIds, Parted, RunSized;
    var five, nearest := FRAUDS_ONLY, LEGITIMATE_FIRST;
    ApartIsWellBuilt();
    RepresentsDistinct(APART_VIEW.lists, APART);
    ApartExact();
    ApartProbed();
    ApartHeld();
    ApartKernels(ks);
    CountOfFive(five[0], five[1], five[2], five[3], five[4]);
    CountOfFive(nearest[0], nearest[1], nearest[2], nearest[3], nearest[4]);
    WidenedIs(DENIED, APART_VIEW, LINE_CONFIG);
    FullDistanceSearchIsExact(ks, DENIED, APART_VIEW, LINE_CONFIG);
    ExactAnswer(ks, DENIED, APART_VIEW, APART, LINE_CONFIG);
  }

  // ---- a split along the values, not along the ids -----------------------------------------------

  /** Two frauds near the origin and two legitimate references far from it, in turn. */
  const IN_TURN: seq<Reference> := [Reference(At(ORIGIN, 0), true), Reference(At(ORIGIN, 8000), false),
                                    Reference(At(ORIGIN, 100), true), Reference(At(ORIGIN, 8100), false)]

  /** Whatever index is built from them, with two lists the first holds the two frauds. */
  lemma SplitFollowsValues(view: View)
    requires WellBuilt(view, IN_TURN) && |view.lists| == 2
    ensures |view.lists[0]| == |view.lists[1]| == 2
    ensures forall i :: 0 <= i < 2 ==> view.lists[0][i].id in {0, 2} && view.lists[1][i].id in {1, 3}
  {
    hide Represents, Parted, Covered, WellBuiltList, RunSized, RowsApart;
    var a, b := view.lists[0], view.lists[1];
    TwoInTurn(view);
    RepresentsDistinct(view.lists, IN_TURN);
    var d := PartedPair(view.lists);
    assert forall i :: 0 <= i < 4 ==> RowIsReference((a + b)[i], IN_TURN);
    assert a[0].id != a[1].id;
    InTurnVaries(a + b, d);
    ValuesApart(a, b);
  }

  lemma TwoInTurn(view: View)
    requires WellBuilt(view, IN_TURN) && |view.lists| == 2
    ensures |view.lists[0]| == |view.lists[1]| == 2
    ensures forall c, i :: 0 <= c < 2 && 0 <= i < 2 ==> RowIsReference(view.lists[c][i], IN_TURN)
  {
    hide Parted, Covered, WellBuiltList;
    assert Split.Reversed(0, 2) == 0 && Split.Reversed(1, 2) == 1;
  }

  lemma PartedPair(lists: seq<seq<Row>>) returns (d: nat)
    requires Parted(lists) && |lists| == 2
    ensures Widest(VecsOf(lists[0] + lists[1]), d) && RowsApart(lists[0], lists[1], d)
  {
    hide Widest, RowsApart;
    var a, b := lists[0], lists[1];
    FlatPair(a, b);
    assert lists == [a, b] && lists[..1] == [a] && lists[1..] == [b];
    d :| Widest(VecsOf(Flat(lists)), d) && RowsApart(Flat(lists[..1]), Flat(lists[1..]), d);
  }

  lemma InTurnVaries(rows: seq<Row>, d: nat)
    requires |rows| == 4 && rows[0].id != rows[1].id && Widest(VecsOf(rows), d)
    requires forall i :: 0 <= i < 4 ==> RowIsReference(rows[i], IN_TURN)
    ensures d == 0
  {
    hide VarianceOf;
    var vs := VecsOf(rows);
    NoVarianceIff(vs, 0);
    VarianceIsMeanDeviation(vs, 0);
    assert vs[1][0] != vs[0][0];
    forall e: nat | 0 < e < 14
      ensures VarianceOf(vs, e) == 0.0
    {
      assert forall i :: 0 <= i < 4 ==> vs[i][e] == 0;
      NoVarianceIff(vs, e);
    }
  }

  lemma ValuesApart(a: seq<Row>, b: seq<Row>)
    requires |a| == |b| == 2 && RowsApart(a, b, 0)
    requires forall i :: 0 <= i < 2 ==> RowIsReference(a[i], IN_TURN) && RowIsReference(b[i], IN_TURN)
    requires a[0].id != a[1].id && b[0].id != b[1].id
    ensures forall i :: 0 <= i < 2 ==> a[i].id in {0, 2} && b[i].id in {1, 3}
  {
    assert a[0].vec[0] <= b[0].vec[0] && a[0].vec[0] <= b[1].vec[0];
    assert a[1].vec[0] <= b[0].vec[0] && a[1].vec[0] <= b[1].vec[0];
  }

  // ---- a file without rows ------------------------------------------------------------------------

  function Zeros(n: nat): (s: seq<Int16>)
    ensures |s| == n
  {
    seq<Int16>(n, _ => 0)
  }

  /** One empty list and its centroid. */
  const ROWLESS: IndexData :=
    IndexData([], [], [], IvfMetadata(1, Zeros(14), Zeros(112), [0, 0], [0, 0], Zeros(14), Zeros(14), [], 1, 1, false))

  lemma RowlessFile()
    ensures Storable(ROWLESS) && Readable(FileBytes(ROWLESS))
    ensures ShapeOf(FileBytes(ROWLESS)).count == 0
    ensures |FileBytes(ROWLESS)| == ShapeOf(FileBytes(ROWLESS)).BlocksAt()
  {
    hide FileBytes, Readable, HasSection;
    assert Storable(ROWLESS);
    WrittenSections(ROWLESS);
    WrittenIsReadableIff(ROWLESS);
  }

  /** The stream reader accepts the file of an index without rows; the mapped reader runs off its end. */
  method ReadersDisagree() returns (file: seq<Byte>, streamed: LoadResult, mapped: LoadResult)
    ensures file == FileBytes(ROWLESS)
    ensures streamed.Accepted? && mapped.Panicked?
  {
    hide FileBytes, Readable, ShapeOf;
    RowlessFile();
    file := FileBytes(ROWLESS);
    streamed := LoadBinaryIndexHeap(file);
    mapped := LoadBinaryIndexMmap(file);
  }

  // ---- before 1970 ----------------------------------------------------------------------------------

  /** 1969-12-28, a Sunday. */
  const EARLY_SUNDAY: CivilDate.Moment := CivilDate.Moment(CivilDate.Date(1969, 12, 28), 0, 0)

  /** A Sunday before 1970 is weekday -1. */
  lemma EarlySundayIsNegative(rest: seq<Byte>)
    ensures CivilDate.ValidMoment(EARLY_SUNDAY)
    ensures CivilDate.TrueWeekday(EARLY_SUNDAY.date.Days()) == 6
    ensures CivilDate.WeekdayMonday0(CivilDate.Printed(EARLY_SUNDAY) + rest) == -1
  {
    assert EARLY_SUNDAY.date.Days() == -4;
    CivilDate.WeekdayIsTrueIff(EARLY_SUNDAY, rest);
  }

  // ---- an empty merchant id ---------------------------------------------------------------------------

  /** A section with no two quotes in a row: the search for an empty id runs off its end. */
  lemma EmptyIdRunsOff()
    ensures KnownMerchant.Known(KnownMerchant.KEY + [KnownMerchant.CLOSE], [], 0, 18) == None
  {
    var key, data := KnownMerchant.KEY, KnownMerchant.KEY + [KnownMerchant.CLOSE];
    assert |key| == 17 && |data| == 18;
    assert [] + key + [KnownMerchant.CLOSE] + [] == data == KnownMerchant.Window(data, 0, 18);
    KnownMerchant.SectionFound(data, 0, 18, [], key, []);
    assert forall p :: 0 < p < 17 ==> !(key[p - 1] == KnownMerchant.QUOTE && key[p] == KnownMerchant.QUOTE);
  }

  // ---- text that is found but not listed ----------------------------------------------------------------

  /** An empty list: the key, a colon and two brackets. */
  const EMPTY_LIST: seq<Byte> := KnownMerchant.KEY + [58, 91, KnownMerchant.CLOSE]

  /** The scan of an empty list finds the key's own name. */
  lemma KeyNameIsFound()
    ensures EMPTY_LIST == KnownMerchant.PrintedSection([[58, 91]], []) + [KnownMerchant.CLOSE]
    ensures KnownMerchant.Known(EMPTY_LIST, KnownMerchant.KEY_NAME, 0, |EMPTY_LIST|) == Some(true)
  {
    hide KnownMerchant.SectionOf, KnownMerchant.QuotedAt, KnownMerchant.PrintedSection;
    PrintedEmptyList();
    EmptyListSection();
    QuotedKeyName();
  }

  lemma EmptyListSection()
    ensures KnownMerchant.SectionOf(EMPTY_LIST, 0, |EMPTY_LIST|) == Some(KnownMerchant.KEY + [58, 91])
  {
    hide KnownMerchant.SectionOf;
    var section := KnownMerchant.KEY + [58, 91];
    assert section[..17] == KnownMerchant.KEY;
    assert [] + section + [KnownMerchant.CLOSE] + [] == EMPTY_LIST;
    assert EMPTY_LIST == KnownMerchant.Window(EMPTY_LIST, 0, |EMPTY_LIST|);
    KnownMerchant.SectionFound(EMPTY_LIST, 0, |EMPTY_LIST|, [], section, []);
  }

  lemma QuotedKeyName()
    ensures KnownMerchant.QuotedIn(KnownMerchant.KEY + [58, 91], KnownMerchant.KEY_NAME)
  {
    var section := KnownMerchant.KEY + [58, 91];
    assert section[1..16] == KnownMerchant.KEY_NAME;
    assert KnownMerchant.QuotedAt(section, KnownMerchant.KEY_NAME, 1);
  }

  lemma PrintedEmptyList()
    ensures KnownMerchant.PrintedSection([[58, 91]], []) == KnownMerchant.KEY + [58, 91]
  {
    var tokens := KnownMerchant.SectionTokens([[58, 91]], []);
    assert tokens == [[], KnownMerchant.KEY_NAME, [58, 91]];
    assert tokens[1..] == [KnownMerchant.KEY_NAME, [58, 91]] && tokens[1..][1..] == [[58, 91]];
  }

  // ---- the wrapping ticket counter --------------------------------------------------------------------

  /** With three upstreams the last ticket before the wrap-around and the first after it choose the same one. */
  lemma WrapRepeatsAnUpstream()
    ensures Balancer.Pick(Bits.WORD - 1, 3) == Balancer.Pick(0, 3) == 0
    ensures Bits.WORD % 3 != 0
  {
  }
}
