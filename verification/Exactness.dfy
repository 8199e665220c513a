/**
 Exactness of the clustered search: the best five slots against the five nearest references, for
 the full-distance kernels, and the five distances alone for the abandoning ones.
 */
module Exactness {
  import opened Machine
  import opened Metric
  import opened TopFive
  import opened ProbeOrder
  import opened SearchTheory

  // ---- exactness --------------------------------------------------------------------------

  function RowEntry(q: Vec, row: Row): (e: Entry)
    ensures Real(e)
  {
    DistBounds(q, row.vec);
    Entry(Dist(q, row.vec), row.fraud, row.id)
  }

  /** Ids are unique over all lists. */
  ghost predicate DistinctIds(lists: seq<seq<Row>>) {
    forall c, i, d, j ::
      && 0 <= c < |lists| && 0 <= i < |lists[c]|
      && 0 <= d < |lists| && 0 <= j < |lists[d]|
      && lists[c][i].id == lists[d][j].id
      ==> c == d && i == j
  }

  /** The candidates stored in the lists of c. */
  ghost function Candidates(q: Vec, lists: seq<seq<Row>>, c: set<nat>): set<Entry> {
    set n, i | n in c && 0 <= n < |lists| && 0 <= i < |lists[n]| :: RowEntry(q, lists[n][i])
  }

  ghost function AllLists(lists: seq<seq<Row>>): set<nat> {
    Below(|lists|)
  }

  function RowEntries(q: Vec, rows: seq<Row>): (es: seq<Entry>)
    ensures |es| == |rows| && forall i :: 0 <= i < |rows| ==> es[i] == RowEntry(q, rows[i])
  {
    seq(|rows|, i requires 0 <= i < |rows| => RowEntry(q, rows[i]))
  }

  lemma {:induction false} ExactScanOffersEntries(q: Vec, s: seq<Entry>, rows: seq<Row>)
    requires |s| == 5
    ensures ScanRows(Exact, q, s, rows) == OfferAll(s, RowEntries(q, rows))
  {
    if rows != [] {
      ExactScanOffersEntries(q, s, rows[..|rows| - 1]);
      assert RowEntries(q, rows)[..|rows| - 1] == RowEntries(q, rows[..|rows| - 1]);
    }
  }

  /** Scanning one more list adds its rows to the candidates. */
  lemma OneMoreList(q: Vec, lists: seq<seq<Row>>, done: set<nat>, c: nat)
    requires DistinctIds(lists) && c < |lists| && c !in done
    ensures Candidates(q, lists, done + {c}) == Candidates(q, lists, done) + Members(RowEntries(q, lists[c]))
    ensures Candidates(q, lists, done) !! Members(RowEntries(q, lists[c]))
  {
    var before, es := Candidates(q, lists, done), RowEntries(q, lists[c]);
    forall e | e in Candidates(q, lists, done + {c})
      ensures e in before + Members(es)
    {
      var n, i :| n in done + {c} && 0 <= n < |lists| && 0 <= i < |lists[n]| && e == RowEntry(q, lists[n][i]);
      assert n == c ==> es[i] == e;
    }
    forall e | e in Members(es)
      ensures e in Candidates(q, lists, done + {c}) && e !in before
    {
      var i :| 0 <= i < |es| && es[i] == e;
      assert e == RowEntry(q, lists[c][i]);
    }
  }

  /** Scanning a list not scanned before keeps the best five of everything scanned. */
  lemma {:induction false} ScanKeepsBest5(q: Vec, s: seq<Entry>, lists: seq<seq<Row>>, done: set<nat>, c: nat)
    requires DistinctIds(lists) && c < |lists| && c !in done
    requires IsBest5(s, Candidates(q, lists, done))
    ensures IsBest5(ScanRows(Exact, q, s, lists[c]), Candidates(q, lists, done + {c}))
  {
    var es := RowEntries(q, lists[c]);
    ExactScanOffersEntries(q, s, lists[c]);
    assert Offerable(Candidates(q, lists, done), es);
    OffersKeepBest5(s, Candidates(q, lists, done), es);
    OneMoreList(q, lists, done, c);
  }

  lemma {:induction false} ScanListsKeepsBest5(
      q: Vec, s: seq<Entry>, lists: seq<seq<Row>>, done: set<nat>, order: seq<nat>)
    requires DistinctIds(lists) && ValidOrder(lists, order) && Distinct(order) && Elements(order) !! done
    requires IsBest5(s, Candidates(q, lists, done))
    ensures IsBest5(ScanLists(Exact, q, s, lists, order), Candidates(q, lists, done + Elements(order)))
  {
    if order == [] {
      assert done + Elements(order) == done;
    } else {
      var n := |order| - 1;
      assert Elements(order) == Elements(order[..n]) + {order[n]};
      ScanListsKeepsBest5(q, s, lists, done, order[..n]);
      assert order[n] !in order[..n];
      assert (done + Elements(order[..n])) + {order[n]} == done + Elements(order);
      ScanKeepsBest5(q, ScanLists(Exact, q, s, lists, order[..n]), lists, done + Elements(order[..n]), order[n]);
    }
  }

  /** Probing and expanding keep the best five of the probed lists. */
  lemma {:induction false} ExpandKeepsBest5(q: Vec, p: Progress, lists: seq<seq<Row>>, order: seq<nat>)
    requires DistinctIds(lists) && ValidOrder(lists, order)
    requires IsBest5(p.best, Candidates(q, lists, p.probed))
    ensures var r := Expand(Exact, q, p, lists, order);
            IsBest5(r.best, Candidates(q, lists, r.probed)) && r.probed == p.probed + Elements(order)
  {
    if order == [] {
      assert p.probed + Elements(order) == p.probed;
    } else {
      var n := |order| - 1;
      assert Elements(order) == Elements(order[..n]) + {order[n]};
      ExpandKeepsBest5(q, p, lists, order[..n]);
      var m := Expand(Exact, q, p, lists, order[..n]);
      if order[n] !in m.probed {
        ScanKeepsBest5(q, m.best, lists, m.probed, order[n]);
      }
    }
  }

  lemma StartIsBest5(q: Vec, lists: seq<seq<Row>>)
    ensures IsBest5(START.best, Candidates(q, lists, START.probed))
  {
    assert Candidates(q, lists, {}) == {};
  }

  /** The last slot is filled exactly when at least five candidates have been offered. */
  lemma {:induction false} LastSlotFilledIff(s: seq<Entry>, c: set<Entry>)
    requires IsBest5(s, c)
    ensures s[4] != VACANT <==> |c| >= 5
    ensures s[4] != VACANT <==> s[4].dist != MAX_INT64
  {
    if s[4] != VACANT {
      var five := {s[0], s[1], s[2], s[3], s[4]};
      assert |five| == 5;
      CardinalityMonotone(five, c);
    } else {
      var four := {s[0], s[1], s[2], s[3]};
      assert c <= four;
      CardinalityMonotone(c, four);
    }
  }

  /** Lists of at least m rows each offer at least m candidates each. */
  lemma {:induction false} CandidateCount(q: Vec, lists: seq<seq<Row>>, order: seq<nat>, m: nat)
    requires DistinctIds(lists) && ValidOrder(lists, order) && Distinct(order)
    requires forall c :: 0 <= c < |lists| ==> |lists[c]| >= m
    ensures |Candidates(q, lists, Elements(order))| >= |order| * m
  {
    hide Candidates, DistinctIds, RowEntries;
    if order != [] {
      var n := |order| - 1;
      var head, c := order[..n], order[n];
      CandidateCount(q, lists, head, m);
      assert Elements(order) == Elements(head) + {c};
      assert c !in head;
      ListEntryCount(q, lists, c);
      OneMoreList(q, lists, Elements(head), c);
      UnionCount(Candidates(q, lists, Elements(head)), Members(RowEntries(q, lists[c])));
      assert |order| * m == n * m + m;
    } else {
      assert |order| * m == 0;
    }
  }

  lemma ListEntryCount(q: Vec, lists: seq<seq<Row>>, c: nat)
    requires DistinctIds(lists) && c < |lists|
    ensures |Members(RowEntries(q, lists[c]))| == |lists[c]|
  {
    DistinctEntries(RowEntries(q, lists[c]));
  }

  lemma UnionCount<T>(a: set<T>, b: set<T>)
    requires a !! b
    ensures |a + b| == |a| + |b|
  {
  }

  // ---- repair -------------------------------------------------------------------------------

  /** Every row lies in its list's box. */
  ghost predicate Covered(view: View)
    requires WellFormed(view)
  {
    && |view.boxes| == |view.lists|
    && forall c, i :: 0 <= c < |view.lists| && 0 <= i < |view.lists[c]|
                      ==> Inside(view.lists[c][i].vec, view.boxes[c])
  }

  /** Scanning never worsens the last slot. */
  lemma ScanNeverWorsens(q: Vec, s: seq<Entry>, rows: seq<Row>)
    requires Sorted(s)
    ensures NoWorse(ScanRows(Exact, q, s, rows), s)
  {
    ExactScanOffersEntries(q, s, rows);
    OffersChangeNothingIff(s, RowEntries(q, rows));
  }

  /** A state that is best over some lists is best over all when every other row is farther. */
  lemma FartherRowsDoNotMatter(q: Vec, r: seq<Entry>, lists: seq<seq<Row>>, done: set<nat>)
    requires done <= AllLists(lists) && IsBest5(r, Candidates(q, lists, done))
    requires forall n, i :: 0 <= n < |lists| && n !in done && 0 <= i < |lists[n]|
                            ==> r[4].dist < Dist(q, lists[n][i].vec)
    ensures IsBest5(r, Candidates(q, lists, AllLists(lists)))
  {
    forall e | e in Candidates(q, lists, AllLists(lists))
      ensures Real(e) && (e in r || Less(r[4], e))
    {
      var n, i :| n in AllLists(lists) && 0 <= n < |lists| && 0 <= i < |lists[n]| && e == RowEntry(q, lists[n][i]);
      if n in done {
        assert e in Candidates(q, lists, done);
      }
    }
    assert Candidates(q, lists, done) <= Candidates(q, lists, AllLists(lists));
  }

  /** What a repair that runs returns: the best five of the probed and the visited lists. */
  lemma {:induction false} RepairKeepsBest5(q: Vec, p: Progress, view: View, targets: seq<nat>)
    requires WellFormed(view) && view.boxes != [] && DistinctIds(view.lists)
    requires IsBest5(p.best, Candidates(q, view.lists, p.probed)) && p.best[4].dist != MAX_INT64
    requires targets == RepairTargets(q, p.probed, view.boxes, p.best[4].dist, |view.boxes|)
    ensures IsBest5(Repair(Exact, q, p, view), Candidates(q, view.lists, p.probed + Elements(targets)))
    ensures Repair(Exact, q, p, view)[4].dist <= p.best[4].dist
  {
    RepairTargetsAreDistinct(q, p.probed, view.boxes, p.best[4].dist, |view.boxes|);
    RepairTargetsMembers(q, p.probed, view.boxes, p.best[4].dist, |view.boxes|);
    ScanListsKeepsBest5(q, p.best, view.lists, p.probed, targets);
    ScanListsIsOneScan(Exact, q, p.best, view.lists, targets);
    ScanNeverWorsens(q, p.best, RowsOf(view.lists, targets));
  }

  /** With five slots filled, the lists a repair skips cannot improve on what it returns. */
  lemma {:induction false} RepairIsExact(q: Vec, p: Progress, view: View)
    requires WellFormed(view) && Covered(view) && DistinctIds(view.lists)
    requires p.probed <= AllLists(view.lists) && IsBest5(p.best, Candidates(q, view.lists, p.probed))
    requires p.best[4].dist != MAX_INT64
    ensures IsBest5(Repair(Exact, q, p, view), Candidates(q, view.lists, AllLists(view.lists)))
  {
    assert p.best[4] in Candidates(q, view.lists, p.probed);
    var cutoff := p.best[4].dist;
    var targets := RepairTargets(q, p.probed, view.boxes, cutoff, |view.boxes|);
    RepairKeepsBest5(q, p, view, targets);
    var done, r := p.probed + Elements(targets), Repair(Exact, q, p, view);
    forall n, i | 0 <= n < |view.lists| && n !in done && 0 <= i < |view.lists[n]|
      ensures r[4].dist < Dist(q, view.lists[n][i].vec)
    {
      RepairTargetsMembers(q, p.probed, view.boxes, cutoff, |view.boxes|);
      BoxDistIsLowerBound(q, view.lists[n][i].vec, view.boxes[n]);
    }
    FartherRowsDoNotMatter(q, r, view.lists, done);
  }

  /**
   A repair pass makes the answer exact if and only if the last slot was filled before it or there
   was nothing left to scan.
   */
  lemma {:induction false} RepairIsExactIff(q: Vec, p: Progress, view: View)
    requires WellFormed(view) && Covered(view) && DistinctIds(view.lists)
    requires p.probed <= AllLists(view.lists) && IsBest5(p.best, Candidates(q, view.lists, p.probed))
    ensures IsBest5(Repair(Exact, q, p, view), Candidates(q, view.lists, AllLists(view.lists)))
            <==> p.best[4].dist != MAX_INT64
                 || forall c: nat :: c < |view.lists| && c !in p.probed ==> view.lists[c] == []
  {
    var lists := view.lists;
    var before, all := Candidates(q, lists, p.probed), Candidates(q, lists, AllLists(lists));
    LastSlotFilledIff(p.best, before);
    if p.best[4] != VACANT {
      RepairIsExact(q, p, view);
    } else if c: nat :| c < |lists| && c !in p.probed && lists[c] != [] {
      var e := RowEntry(q, lists[c][0]);
      assert e in all;
      assert e !in before;
    } else {
      assert before == all;
    }
  }

  // ---- the kernels ----------------------------------------------------------------------------

  /** No component difference overflows a 32-bit lane. */
  ghost predicate SpanSafe(q: Vec, view: View) {
    && (forall c, i :: 0 <= c < |view.lists| && 0 <= i < |view.lists[c]| ==> WithinSpan(q, view.lists[c][i].vec))
    && (forall c :: 0 <= c < |view.centroids| ==> WithinSpan(q, view.centroids[c]))
  }

  /** The SIMD selection reads the centroids themselves. */
  ghost predicate LanesAgree(view: View)
    requires WellFormed(view)
  {
    view.lanes == view.centroids[..|view.lanes|]
  }

  lemma {:induction false} Avx2ScanIsExact(q: Vec, s: seq<Entry>, rows: seq<Row>)
    requires |s| == 5 && forall i :: 0 <= i < |rows| ==> WithinSpan(q, rows[i].vec)
    ensures ScanRows(Avx2, q, s, rows) == ScanRows(Exact, q, s, rows)
  {
    if rows != [] {
      var n := |rows| - 1;
      Avx2ScanIsExact(q, s, rows[..n]);
      Dist32IsDistIffWithinSpan(q, rows[n].vec);
    }
  }

  lemma {:induction false} Avx2ScanListsIsExact(q: Vec, s: seq<Entry>, view: View, order: seq<nat>)
    requires |s| == 5 && SpanSafe(q, view) && ValidOrder(view.lists, order)
    ensures ScanLists(Avx2, q, s, view.lists, order) == ScanLists(Exact, q, s, view.lists, order)
  {
    if order != [] {
      var n := |order| - 1;
      Avx2ScanListsIsExact(q, s, view, order[..n]);
      Avx2ScanIsExact(q, ScanLists(Exact, q, s, view.lists, order[..n]), view.lists[order[n]]);
    }
  }

  lemma {:induction false} Avx2ExpandIsExact(q: Vec, p: Progress, view: View, order: seq<nat>)
    requires |p.best| == 5 && SpanSafe(q, view) && ValidOrder(view.lists, order)
    ensures Expand(Avx2, q, p, view.lists, order) == Expand(Exact, q, p, view.lists, order)
  {
    if order != [] {
      var n := |order| - 1;
      Avx2ExpandIsExact(q, p, view, order[..n]);
      Avx2ScanIsExact(q, Expand(Exact, q, p, view.lists, order[..n]).best, view.lists[order[n]]);
    }
  }

  /** All kernels select the same lists; the SIMD one needs the differences to fit. */
  lemma CentroidDistsAgree(k: Kernel, q: Vec, view: View)
    requires WellFormed(view) && (k == Avx2 ==> SpanSafe(q, view) && LanesAgree(view))
    ensures CentroidDists(k, q, view.centroids, view.lanes) == CentroidDists(Exact, q, view.centroids, view.lanes)
  {
    forall c | 0 <= c < |view.centroids| && k == Avx2
      ensures Dist32(q, view.centroids[c]) == Dist(q, view.centroids[c])
    {
      Dist32IsDistIffWithinSpan(q, view.centroids[c]);
    }
  }

  /** The kernels measure full distances, and no SIMD lane overflows or differs from its centroid. */
  ghost predicate FullDistances(ks: KernelPair, q: Vec, view: View)
    requires WellFormed(view)
  {
    && ks.scan != Scalar
    && (ks.select == Avx2 || ks.scan == Avx2 ==> SpanSafe(q, view))
    && (ks.select == Avx2 ==> LanesAgree(view))
  }

  /** A search whose kernels measure full distances is the mathematical one. */
  lemma FullDistanceSearchIsExact(ks: KernelPair, q: Vec, view: View, cfg: Settings)
    requires WellFormed(view) && FullDistances(ks, q, view)
    ensures Probed(ks, q, view, cfg.nprobe) == Probed(EXACT, q, view, cfg.nprobe)
    ensures Widened(ks, q, view, cfg) == Widened(EXACT, q, view, cfg)
    ensures Search(ks, q, view, cfg) == Search(EXACT, q, view, cfg)
  {
    CentroidDistsAgree(ks.select, q, view);
    if ks.scan == Avx2 {
      var near := TopLists(Exact, q, view, cfg.nprobe);
      var wide := TopLists(Exact, q, view, cfg.ambiguousNProbe);
      Avx2ExpandIsExact(q, START, view, near);
      var first := Expand(Exact, q, START, view.lists, near);
      Avx2ExpandIsExact(q, first, view, wide);
      Avx2RepairIsExact(q, first, view);
      Avx2RepairIsExact(q, Expand(Exact, q, first, view.lists, wide), view);
      Avx2ExpandIsExact(q, Widened(EXACT, q, view, cfg), view, TopLists(Exact, q, view, MAX_PROBE));
    }
  }

  lemma Avx2RepairIsExact(q: Vec, p: Progress, view: View)
    requires WellFormed(view) && SpanSafe(q, view) && |p.best| == 5
    ensures Repair(Avx2, q, p, view) == Repair(Exact, q, p, view)
  {
    var cutoff := p.best[4].dist;
    if view.boxes != [] {
      Avx2ScanListsIsExact(q, p.best, view, RepairTargets(q, p.probed, view.boxes, cutoff, |view.boxes|));
    }
  }

  /** Quantised data never overflows a lane. */
  lemma QuantizedIsSpanSafe(q: Vec, view: View)
    requires Quantized(q)
    requires forall c, i :: 0 <= c < |view.lists| && 0 <= i < |view.lists[c]| ==> Quantized(view.lists[c][i].vec)
    requires forall c :: 0 <= c < |view.centroids| ==> Quantized(view.centroids[c])
    ensures SpanSafe(q, view)
  {
  }

  // ---- early abandonment ------------------------------------------------------------------------

  /** Two states that may differ in ids and labels but hold the same distances. */
  ghost predicate SameDists(s: seq<Entry>, t: seq<Entry>) {
    |s| == |t| == 5 && Dists(s) == Dists(t) && Ascending(Dists(s))
  }

  lemma {:induction false} AbandoningScanKeepsDists(q: Vec, s: seq<Entry>, t: seq<Entry>, rows: seq<Row>)
    requires SameDists(s, t)
    ensures SameDists(ScanRows(Scalar, q, s, rows), ScanRows(Exact, q, t, rows))
  {
    if rows != [] {
      var n := |rows| - 1;
      AbandoningScanKeepsDists(q, s, t, rows[..n]);
      var s', t', row := ScanRows(Scalar, q, s, rows[..n]), ScanRows(Exact, q, t, rows[..n]), rows[n];
      var d, a := Dist(q, row.vec), Abandoned(q, row.vec, s'[4].dist);
      AbandonedIsTruncation(q, row.vec, s'[4].dist);
      InsertDistIgnoresTruncation(Dists(s'), d, a);
      OfferActsOnDists(s', Entry(a, row.fraud, row.id));
      OfferActsOnDists(t', Entry(d, row.fraud, row.id));
    }
  }

  lemma {:induction false} AbandoningScanListsKeepsDists(
      q: Vec, s: seq<Entry>, t: seq<Entry>, lists: seq<seq<Row>>, order: seq<nat>)
    requires SameDists(s, t) && ValidOrder(lists, order)
    ensures SameDists(ScanLists(Scalar, q, s, lists, order), ScanLists(Exact, q, t, lists, order))
  {
    ScanListsIsOneScan(Scalar, q, s, lists, order);
    ScanListsIsOneScan(Exact, q, t, lists, order);
    AbandoningScanKeepsDists(q, s, t, RowsOf(lists, order));
  }

  lemma {:induction false} AbandoningExpandKeepsDists(
      q: Vec, p: Progress, r: Progress, lists: seq<seq<Row>>, order: seq<nat>)
    requires SameDists(p.best, r.best) && p.probed == r.probed && ValidOrder(lists, order)
    ensures var p' := Expand(Scalar, q, p, lists, order);
            var r' := Expand(Exact, q, r, lists, order);
            SameDists(p'.best, r'.best) && p'.probed == r'.probed
  {
    if order != [] {
      var n := |order| - 1;
      AbandoningExpandKeepsDists(q, p, r, lists, order[..n]);
      AbandoningScanKeepsDists(q, Expand(Scalar, q, p, lists, order[..n]).best,
                               Expand(Exact, q, r, lists, order[..n]).best, lists[order[n]]);
    }
  }

  /** Probing, expanding and repairing with abandoned distances leave the same five distances. */
  lemma AbandoningRefinesFullDistance(select: Kernel, q: Vec, view: View, n: int, m: int)
    requires WellFormed(view) && (select == Avx2 ==> SpanSafe(q, view) && LanesAgree(view))
    ensures var ks := KernelPair(select, Scalar);
            var p := Expand(Scalar, q, Probed(ks, q, view, n), view.lists, TopLists(select, q, view, m));
            var r := Expand(Exact, q, Probed(EXACT, q, view, n), view.lists, TopLists(Exact, q, view, m));
            && p.probed == r.probed
            && SameDists(p.best, r.best)
            && SameDists(Repair(Scalar, q, p, view), Repair(Exact, q, r, view))
  {
    CentroidDistsAgree(select, q, view);
    var near, far := TopLists(Exact, q, view, n), TopLists(Exact, q, view, m);
    AbandoningExpandKeepsDists(q, START, START, view.lists, near);
    var p0, r0 := Probed(KernelPair(select, Scalar), q, view, n), Probed(EXACT, q, view, n);
    AbandoningExpandKeepsDists(q, p0, r0, view.lists, far);
    var p := Expand(Scalar, q, p0, view.lists, far);
    var r := Expand(Exact, q, r0, view.lists, far);
    assert Dists(p.best)[4] == Dists(r.best)[4];
    if view.boxes != [] {
      AbandoningScanListsKeepsDists(q, p.best, r.best, view.lists,
                                    RepairTargets(q, p.probed, view.boxes, p.best[4].dist, |view.boxes|));
    }
  }

  /**
   One abandoned offer leaves the same state as the full one, except when the partial sum ties the
   cutoff, the true distance exceeds it, and the id is smaller than the last slot's.
   */
  lemma {:induction false} AbandonedOfferIsExactIff(q: Vec, s: seq<Entry>, row: Row)
    requires |s| == 5
    ensures var cutoff := s[4].dist;
            OfferRow(Scalar, q, s, row) == OfferRow(Exact, q, s, row)
            <==> !(Abandoned(q, row.vec, cutoff) == cutoff < Dist(q, row.vec) && row.id < s[4].id)
  {
    var cutoff := s[4].dist;
    AbandonedIsTruncation(q, row.vec, cutoff);
    var a := Entry(Abandoned(q, row.vec, cutoff), row.fraud, row.id);
    if a.dist == cutoff < Dist(q, row.vec) && row.id < s[4].id {
      var p := InsertPosition(s, a, 0);
    }
  }

  // ---- the reference answer ---------------------------------------------------------------------

  datatype Reference = Reference(vec: Vec, fraud: bool)

  function ReferenceEntries(q: Vec, refs: seq<Reference>): (es: seq<Entry>)
    ensures |es| == |refs|
    ensures forall i :: 0 <= i < |refs| ==> es[i] == Entry(Dist(q, refs[i].vec), refs[i].fraud, i)
  {
    seq(|refs|, i requires 0 <= i < |refs| => Entry(Dist(q, refs[i].vec), refs[i].fraud, i))
  }

  /** The five nearest references, ties broken by position. */
  function Nearest5(q: Vec, refs: seq<Reference>): (r: seq<Entry>)
    ensures |r| == 5
  {
    OfferAll(NO_ENTRIES, ReferenceEntries(q, refs))
  }

  lemma Nearest5IsBest5(q: Vec, refs: seq<Reference>)
    requires |refs| <= 0x1_0000_0000
    ensures IsBest5(Nearest5(q, refs), Members(ReferenceEntries(q, refs)))
    ensures UniqueIds(Members(ReferenceEntries(q, refs)))
  {
    var es := ReferenceEntries(q, refs);
    forall i | 0 <= i < |es|
      ensures Real(es[i])
    {
      DistBounds(q, refs[i].vec);
    }
    OffersKeepBest5(NO_ENTRIES, {}, es);
    assert {} + Members(es) == Members(es);
  }

  /** The lists hold the references, each once, in some arrangement. */
  ghost predicate Represents(lists: seq<seq<Row>>, refs: seq<Reference>) {
    && DistinctIds(lists)
    && (forall c, i :: 0 <= c < |lists| && 0 <= i < |lists[c]| ==> RowIsReference(lists[c][i], refs))
    && (forall id: nat :: id < |refs| ==> IsListed(lists, id))
  }

  ghost predicate RowIsReference(row: Row, refs: seq<Reference>) {
    row.id < |refs| && row.vec == refs[row.id].vec && row.fraud == refs[row.id].fraud
  }

  ghost predicate IsListed(lists: seq<seq<Row>>, id: nat) {
    exists c, i :: 0 <= c < |lists| && 0 <= i < |lists[c]| && lists[c][i].id == id
  }

  lemma CandidatesAreReferences(q: Vec, lists: seq<seq<Row>>, refs: seq<Reference>)
    requires Represents(lists, refs)
    ensures Candidates(q, lists, AllLists(lists)) == Members(ReferenceEntries(q, refs))
  {
    var all, es := Candidates(q, lists, AllLists(lists)), ReferenceEntries(q, refs);
    forall e | e in all
      ensures e in Members(es)
    {
      var c, i :| c in AllLists(lists) && 0 <= c < |lists| && 0 <= i < |lists[c]| && e == RowEntry(q, lists[c][i]);
      assert RowIsReference(lists[c][i], refs);
      assert es[lists[c][i].id] == e;
    }
    forall e | e in Members(es)
      ensures e in all
    {
      var id: nat :| id < |es| && es[id] == e;
      assert IsListed(lists, id);
      var c, i :| 0 <= c < |lists| && 0 <= i < |lists[c]| && lists[c][i].id == id;
      assert RowIsReference(lists[c][i], refs);
      assert e == RowEntry(q, lists[c][i]);
    }
  }

  /** A state that is exact over all lists is the brute-force answer. */
  lemma ExactStateIsNearest5(q: Vec, lists: seq<seq<Row>>, refs: seq<Reference>, s: seq<Entry>)
    requires |refs| <= 0x1_0000_0000 && Represents(lists, refs)
    requires IsBest5(s, Candidates(q, lists, AllLists(lists)))
    ensures s == Nearest5(q, refs)
  {
    CandidatesAreReferences(q, lists, refs);
    Nearest5IsBest5(q, refs);
    Best5IsUnique(s, Nearest5(q, refs), Members(ReferenceEntries(q, refs)));
  }
}
