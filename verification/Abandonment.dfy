/**
 Abandoned distances: exactly when a scalar scan, and a repaired scalar search, are exact, read from the
 rows, their true distances and their partial sums.
 */
module Abandonment {
  import opened Machine
  import opened Metric
  import opened TopFive
  import opened ProbeOrder
  import opened SearchTheory
  import opened Exactness
  import opened Runs
  import opened SearchResults
  import opened WhenExact

  /** What the scalar kernels offer for a run of rows, each measured against the cutoff of its turn. */
  function AbandonedEntries(q: Vec, s: seq<Entry>, rows: seq<Row>): (es: seq<Entry>)
    requires |s| == 5
    ensures |es| == |rows|
  {
    if rows == [] then []
    else
      var n := |rows| - 1;
      var head := AbandonedEntries(q, s, rows[..n]);
      head + [Entry(Abandoned(q, rows[n].vec, OfferAll(s, head)[4].dist), rows[n].fraud, rows[n].id)]
  }

  /** No offered distance overstates the row's. */
  ghost predicate Understates(e: Entry, q: Vec, row: Row) {
    Real(e) && e.id == row.id && e.fraud == row.fraud && e.dist <= Dist(q, row.vec)
  }

  lemma AbandonedUnderstates(q: Vec, row: Row, cutoff: int)
    ensures Understates(Entry(Abandoned(q, row.vec, cutoff), row.fraud, row.id), q, row)
  {
    AbandonedIsTruncation(q, row.vec, cutoff);
    AbandonedIsReal(q, row.vec, cutoff);
  }

  lemma {:induction false} AbandonedScanOffersEntries(q: Vec, s: seq<Entry>, rows: seq<Row>)
    requires |s| == 5
    ensures ScanRows(Scalar, q, s, rows) == OfferAll(s, AbandonedEntries(q, s, rows))
    ensures forall i :: 0 <= i < |rows| ==> Understates(AbandonedEntries(q, s, rows)[i], q, rows[i])
  {
    hide Abandoned, Dist, Offer;
    if rows != [] {
      var n := |rows| - 1;
      var es, head := AbandonedEntries(q, s, rows), AbandonedEntries(q, s, rows[..n]);
      AbandonedScanOffersEntries(q, s, rows[..n]);
      assert es[..n] == head;
      var cutoff := OfferAll(s, head)[4].dist;
      AbandonedUnderstates(q, rows[n], cutoff);
      forall i | 0 <= i < |rows|
        ensures Understates(es[i], q, rows[i])
      {
        assert i < n ==> Understates(head[i], q, rows[..n][i]);
      }
    }
  }

  lemma {:induction false} AbandonIsNotNegative(t: seq<int>, cutoff: int, k: nat)
    requires |t| == 14 && 1 <= k <= 14 && forall d :: 0 <= d < 14 ==> 0 <= t[d]
    ensures Abandon(t, cutoff, k) >= 0
    decreases 14 - k
  {
    OrderedSumGrows(t, 0, k);
    if k < 14 {
      AbandonIsNotNegative(t, cutoff, k + 1);
    }
  }

  lemma AbandonedIsReal(q: Vec, v: Vec, cutoff: int)
    ensures 0 <= Abandoned(q, v, cutoff) < MAX_INT64
  {
    AbandonIsNotNegative(SqDiffs(q, v), cutoff, 1);
    AbandonedIsTruncation(q, v, cutoff);
    DistBounds(q, v);
  }

  /** A scan with abandoned distances leaves the best five of what it offered. */
  lemma {:induction false} AbandoningScanIsBestOffered(q: Vec, rows: seq<Row>)
    requires UniqueRowIds(rows)
    ensures IsBest5(ScanRows(Scalar, q, NO_ENTRIES, rows), Members(AbandonedEntries(q, NO_ENTRIES, rows)))
    ensures IsBest5(ScanRows(Exact, q, NO_ENTRIES, rows), Members(RowEntries(q, rows)))
  {
    hide AbandonedEntries, ScanRows, OfferAll, IsBest5;
    var es := AbandonedEntries(q, NO_ENTRIES, rows);
    AbandonedScanOffersEntries(q, NO_ENTRIES, rows);
    ExactScanOffersEntries(q, NO_ENTRIES, rows);
    NoEntriesIsBest5();
    forall i | 0 <= i < |es|
      ensures Real(es[i]) && es[i].id == rows[i].id
    {
      assert Understates(es[i], q, rows[i]);
    }
    OffersKeepBest5(NO_ENTRIES, {}, es);
    OffersKeepBest5(NO_ENTRIES, {}, RowEntries(q, rows));
    assert {} + Members(es) == Members(es);
    assert {} + Members(RowEntries(q, rows)) == Members(RowEntries(q, rows));
  }

  // ---- what a tie looks like --------------------------------------------------------------------

  /** A partial sum of the first dimensions measured, short of all fourteen, is exactly d. */
  ghost predicate HitsPartially(q: Vec, v: Vec, d: int) {
    exists k: nat :: 1 <= k < 14 && OrderedSum(SqDiffs(q, v), k) == d
  }

  /** How many of the rows are no farther than d. */
  function CountWithin(q: Vec, rows: seq<Row>, d: int): nat {
    if rows == [] then 0
    else CountWithin(q, rows[..|rows| - 1], d) + if Dist(q, rows[|rows| - 1].vec) <= d then 1 else 0
  }

  /**
   Row j is farther than the fifth of the best five and has a smaller id than it; one of its partial sums is
   exactly the fifth distance; and five rows before it are no farther than that.
   */
  ghost predicate TieBreaks(q: Vec, rows: seq<Row>, best: seq<Entry>, j: int)
    requires |best| == 5
  {
    && 0 <= j < |rows| && rows[j].id < best[4].id && best[4].dist < Dist(q, rows[j].vec)
    && HitsPartially(q, rows[j].vec, best[4].dist)
    && CountWithin(q, rows[..j], best[4].dist) >= 5
  }

  ghost predicate SomeTieBreaks(q: Vec, rows: seq<Row>, best: seq<Entry>)
    requires |best| == 5
  {
    exists j :: TieBreaks(q, rows, best, j)
  }

  lemma {:induction false} AbandonFinds(t: seq<int>, d: int, from: nat, k: nat)
    requires |t| == 14 && 1 <= from <= k < 14 && OrderedSum(t, k) == d
    requires forall i :: 0 <= i < 14 ==> 0 <= t[i]
    ensures Abandon(t, d, from) == d
    decreases k - from
  {
    OrderedSumGrows(t, from, k);
    if OrderedSum(t, from) < d {
      AbandonFinds(t, d, from + 1, k);
    }
  }

  lemma {:induction false} AbandonIsPartial(t: seq<int>, d: int, from: nat) returns (k: nat)
    requires |t| == 14 && 1 <= from <= 14
    ensures from <= k <= 14 && Abandon(t, d, from) == OrderedSum(t, k)
    decreases 14 - from
  {
    if from == 14 || OrderedSum(t, from) >= d {
      k := from;
    } else {
      k := AbandonIsPartial(t, d, from + 1);
    }
  }

  /** An abandoned distance ties a cutoff below the true distance exactly when a partial sum hits the cutoff. */
  lemma {:induction false} TiesCutoffIff(q: Vec, v: Vec, cutoff: int)
    requires cutoff < Dist(q, v)
    ensures Abandoned(q, v, cutoff) == cutoff <==> HitsPartially(q, v, cutoff)
  {
    var t := SqDiffs(q, v);
    if HitsPartially(q, v, cutoff) {
      var k: nat :| 1 <= k < 14 && OrderedSum(t, k) == cutoff;
      AbandonFinds(t, cutoff, 1, k);
    }
    if Abandoned(q, v, cutoff) == cutoff {
      var k := AbandonIsPartial(t, cutoff, 1);
      OrderedSumIsSum(t);
    }
  }

  /** Slot k of an exact scan is no farther than d exactly when more than k rows are. */
  lemma {:induction false} SlotWithinIff(q: Vec, rows: seq<Row>, d: int)
    requires d < MAX_INT64
    ensures var best := ScanRows(Exact, q, NO_ENTRIES, rows);
            && Ascending(Dists(best))
            && forall k :: 0 <= k < 5 ==> (Dists(best)[k] <= d <==> CountWithin(q, rows, d) > k)
  {
    hide Dist, Offer;
    if rows != [] {
      var n := |rows| - 1;
      var was := ScanRows(Exact, q, NO_ENTRIES, rows[..n]);
      SlotWithinIff(q, rows[..n], d);
      var e := Entry(Dist(q, rows[n].vec), rows[n].fraud, rows[n].id);
      OfferActsOnDists(was, e);
      InsertCounts(Dists(was), e.dist, d, CountWithin(q, rows[..n], d));
    }
  }

  lemma InsertCounts(ds: seq<int>, x: int, d: int, n: nat)
    requires |ds| == 5 && forall k :: 0 <= k < 5 ==> (ds[k] <= d <==> n > k)
    requires Ascending(ds)
    ensures forall k :: 0 <= k < 5 ==> (InsertDist(ds, x)[k] <= d <==> n + (if x <= d then 1 else 0) > k)
  {
    forall k | 0 <= k < 5
      ensures InsertDist(ds, x)[k] <= d <==> n + (if x <= d then 1 else 0) > k
    {
      assert k > 0 ==> (ds[k - 1] <= d <==> n > k - 1);
    }
  }

  // ---- what is offered --------------------------------------------------------------------------

  /** The cutoff that row j of a run is measured against: the fifth true distance before it. */
  function CutoffAt(q: Vec, rows: seq<Row>, j: nat): int
    requires j <= |rows|
  {
    ScanRows(Exact, q, NO_ENTRIES, rows[..j])[4].dist
  }

  lemma {:induction false} OfferedAt(q: Vec, rows: seq<Row>, j: nat)
    requires j < |rows|
    ensures AbandonedEntries(q, NO_ENTRIES, rows)[j]
            == Entry(Abandoned(q, rows[j].vec, CutoffAt(q, rows, j)), rows[j].fraud, rows[j].id)
  {
    hide Abandoned, ScanRows, OfferAll;
    var n := |rows| - 1;
    if j < n {
      OfferedAt(q, rows[..n], j);
      assert rows[..n][..j] == rows[..j];
    } else {
      AbandonedScanOffersEntries(q, NO_ENTRIES, rows[..n]);
      assert SameDists(NO_ENTRIES, NO_ENTRIES);
      AbandoningScanKeepsDists(q, NO_ENTRIES, NO_ENTRIES, rows[..n]);
      SameLastDist(ScanRows(Scalar, q, NO_ENTRIES, rows[..n]), ScanRows(Exact, q, NO_ENTRIES, rows[..n]));
    }
  }

  lemma SameLastDist(s: seq<Entry>, t: seq<Entry>)
    requires SameDists(s, t)
    ensures s[4].dist == t[4].dist
  {
    assert Dists(s)[4] == Dists(t)[4];
  }

  /** The cutoff only falls. */
  lemma CutoffFalls(q: Vec, rows: seq<Row>, j: nat)
    requires j <= |rows|
    ensures ScanRows(Exact, q, NO_ENTRIES, rows)[4].dist <= CutoffAt(q, rows, j)
  {
    hide ScanRows, OfferAll;
    assert rows == rows[..j] + rows[j..];
    ScanRowsConcat(Exact, q, NO_ENTRIES, rows[..j], rows[j..]);
    ExactScanOffersEntries(q, NO_ENTRIES, rows[..j]);
    OffersChangeNothingIff(NO_ENTRIES, RowEntries(q, rows[..j]));
    ScanNeverWorsens(q, ScanRows(Exact, q, NO_ENTRIES, rows[..j]), rows[j..]);
  }

  /** A row is offered at less than its distance only when that reaches the final cutoff. */
  lemma UnderstatedAt(q: Vec, rows: seq<Row>, j: nat)
    requires j < |rows|
    ensures var a, d := AbandonedEntries(q, NO_ENTRIES, rows)[j].dist, Dist(q, rows[j].vec);
            a == d || ScanRows(Exact, q, NO_ENTRIES, rows)[4].dist <= CutoffAt(q, rows, j) <= a < d
  {
    hide ScanRows, Dist;
    OfferedAt(q, rows, j);
    CutoffFalls(q, rows, j);
    AbandonedIsTruncation(q, rows[j].vec, CutoffAt(q, rows, j));
  }

  /** A row that breaks a tie is offered at the fifth distance. */
  lemma TieIsOffered(q: Vec, rows: seq<Row>, j: nat)
    requires TieBreaks(q, rows, ScanRows(Exact, q, NO_ENTRIES, rows), j)
    ensures AbandonedEntries(q, NO_ENTRIES, rows)[j].dist == ScanRows(Exact, q, NO_ENTRIES, rows)[4].dist
  {
    hide ScanRows, Dist, Abandoned, HitsPartially, CountWithin;
    var d := ScanRows(Exact, q, NO_ENTRIES, rows)[4].dist;
    DistBounds(q, rows[j].vec);
    SlotWithinIff(q, rows[..j], d);
    CutoffFalls(q, rows, j);
    assert Dists(ScanRows(Exact, q, NO_ENTRIES, rows[..j]))[4] <= d;
    OfferedAt(q, rows, j);
    TiesCutoffIff(q, rows[j].vec, d);
  }

  // ---- exactly when a scan is exact -------------------------------------------------------------

  lemma RowIdsDiffer(q: Vec, rows: seq<Row>, i: nat, j: nat)
    requires UniqueRowIds(rows) && i < |rows| && j < |rows| && rows[i].id == rows[j].id
    ensures i == j
  {
  }

  /** A row that breaks a tie displaces one of the best five. */
  lemma TieDisplaces(q: Vec, rows: seq<Row>, j: nat)
    requires UniqueRowIds(rows) && TieBreaks(q, rows, ScanRows(Exact, q, NO_ENTRIES, rows), j)
    ensures ScanRows(Scalar, q, NO_ENTRIES, rows) != ScanRows(Exact, q, NO_ENTRIES, rows)
  {
    hide ScanRows, AbandonedEntries, Dist, HitsPartially, CountWithin;
    var s, best := ScanRows(Scalar, q, NO_ENTRIES, rows), ScanRows(Exact, q, NO_ENTRIES, rows);
    var f := AbandonedEntries(q, NO_ENTRIES, rows)[j];
    AbandoningScanIsBestOffered(q, rows);
    AbandonedScanOffersEntries(q, NO_ENTRIES, rows);
    TieIsOffered(q, rows, j);
    assert Understates(f, q, rows[j]) && f in Members(AbandonedEntries(q, NO_ENTRIES, rows));
    EntriesOfId(q, rows, j);
    assert f !in Members(RowEntries(q, rows)) && f !in best;
  }

  /** One candidate of a run has the id of row j: its own. */
  lemma EntriesOfId(q: Vec, rows: seq<Row>, j: nat)
    requires UniqueRowIds(rows) && j < |rows|
    ensures forall e :: e in Members(RowEntries(q, rows)) && e.id == rows[j].id ==> e == RowEntry(q, rows[j])
  {
    forall e | e in Members(RowEntries(q, rows)) && e.id == rows[j].id
      ensures e == RowEntry(q, rows[j])
    {
      var m: nat :| m < |rows| && RowEntries(q, rows)[m] == e;
      RowIdsDiffer(q, rows, m, j);
    }
  }

  /** Every slot of a scalar scan that is not one of the best five has broken a tie. */
  lemma DisplacedByTie(q: Vec, rows: seq<Row>, j: nat)
    requires UniqueRowIds(rows) && j < |rows|
    requires var f := AbandonedEntries(q, NO_ENTRIES, rows)[j];
             f in ScanRows(Scalar, q, NO_ENTRIES, rows) && f.dist != Dist(q, rows[j].vec)
    ensures TieBreaks(q, rows, ScanRows(Exact, q, NO_ENTRIES, rows), j)
  {
    hide ScanRows, AbandonedEntries, Dist, HitsPartially, CountWithin, IsBest5, Abandoned;
    var s, best := ScanRows(Scalar, q, NO_ENTRIES, rows), ScanRows(Exact, q, NO_ENTRIES, rows);
    var f, d := AbandonedEntries(q, NO_ENTRIES, rows)[j], ScanRows(Exact, q, NO_ENTRIES, rows)[4].dist;
    assert SameDists(NO_ENTRIES, NO_ENTRIES);
    AbandoningScanKeepsDists(q, NO_ENTRIES, NO_ENTRIES, rows);
    SlotsWithin(s, best, f);
    UnderstatedAt(q, rows, j);
    assert f.dist == d == CutoffAt(q, rows, j) < Dist(q, rows[j].vec);
    OfferedAt(q, rows, j);
    TiesCutoffIff(q, rows[j].vec, d);
    DistBounds(q, rows[j].vec);
    SlotWithinIff(q, rows[..j], d);
    assert Dists(ScanRows(Exact, q, NO_ENTRIES, rows[..j]))[4] <= d;
    BestIsOffered(q, rows);
    SmallerId(q, rows, j, s, best);
  }

  lemma SlotsWithin(s: seq<Entry>, best: seq<Entry>, f: Entry)
    requires SameDists(s, best) && f in s
    ensures f.dist <= best[4].dist
  {
    var i :| 0 <= i < 5 && s[i] == f;
    assert Dists(s)[i] == f.dist && Dists(best)[4] == best[4].dist;
  }

  /** The best five are offered at their distances. */
  lemma BestIsOffered(q: Vec, rows: seq<Row>)
    requires UniqueRowIds(rows)
    ensures forall e :: e in ScanRows(Exact, q, NO_ENTRIES, rows) && e != VACANT
                        ==> e in AbandonedEntries(q, NO_ENTRIES, rows)
  {
    hide ScanRows, AbandonedEntries, Dist, Abandoned;
    var best := ScanRows(Exact, q, NO_ENTRIES, rows);
    AbandoningScanIsBestOffered(q, rows);
    AbandonedScanOffersEntries(q, NO_ENTRIES, rows);
    forall e | e in best && e != VACANT
      ensures e in AbandonedEntries(q, NO_ENTRIES, rows)
    {
      var m :| 0 <= m < |rows| && RowEntries(q, rows)[m] == e;
      UnderstatedAt(q, rows, m);
      LastIsFarthest(best, e);
      assert Understates(AbandonedEntries(q, NO_ENTRIES, rows)[m], q, rows[m]);
      assert AbandonedEntries(q, NO_ENTRIES, rows)[m] == e;
    }
  }

  lemma LastIsFarthest(s: seq<Entry>, e: Entry)
    requires |s| == 5 && Ordered(s) && e in s && e != VACANT
    ensures s[4] == VACANT || e == s[4] || Less(e, s[4])
  {
    var i :| 0 <= i < 5 && s[i] == e;
    assert i < 4 ==> Less(s[i], s[4]) || s[4] == VACANT;
  }

  /** Six offers cannot share five slots: a row tied with the fifth gets in only by a smaller id. */
  lemma SmallerId(q: Vec, rows: seq<Row>, j: nat, s: seq<Entry>, best: seq<Entry>)
    requires UniqueRowIds(rows) && j < |rows|
    requires s == ScanRows(Scalar, q, NO_ENTRIES, rows) && best == ScanRows(Exact, q, NO_ENTRIES, rows)
    requires var f := AbandonedEntries(q, NO_ENTRIES, rows)[j];
             f in s && f.dist == best[4].dist < Dist(q, rows[j].vec)
    requires forall e :: e in best && e != VACANT ==> e in AbandonedEntries(q, NO_ENTRIES, rows)
    ensures rows[j].id < best[4].id
  {
    hide ScanRows, AbandonedEntries, Dist;
    var es, f := AbandonedEntries(q, NO_ENTRIES, rows), AbandonedEntries(q, NO_ENTRIES, rows)[j];
    AbandoningScanIsBestOffered(q, rows);
    AbandonedScanOffersEntries(q, NO_ENTRIES, rows);
    assert Understates(f, q, rows[j]);
    assert best[4] != VACANT;
    var m :| 0 <= m < |rows| && RowEntries(q, rows)[m] == best[4];
    assert f.id != best[4].id;
    SixInFive(s, best, f, Members(es));
  }

  /** One of the best five has no five candidates before it. */
  lemma SixInFive(s: seq<Entry>, best: seq<Entry>, f: Entry, c: set<Entry>)
    requires IsBest5(s, c) && f in s && |best| == 5 && Ordered(best) && best[4] != VACANT
    requires forall e :: e in best && e != VACANT ==> e in c
    ensures !Less(best[4], f)
  {
    var i :| 0 <= i < 5 && s[i] == f;
    assert best[4] in c;
    AllOccupied(best);
    AheadAt(s, best, c, i);
    assert i < 4 ==> Less(best[i], best[4]);
  }

  lemma AllOccupied(best: seq<Entry>)
    requires |best| == 5 && Ordered(best) && Real(best[4])
    ensures forall k :: 0 <= k < 5 ==> best[k] != VACANT
  {
    assert forall k :: 0 <= k < 4 ==> Less(best[k], best[4]);
  }

  /** Each of the best five candidates comes no later than the same slot of any other five in order. */
  lemma AheadAt(s: seq<Entry>, best: seq<Entry>, c: set<Entry>, k: nat)
    requires IsBest5(s, c) && |best| == 5 && Ordered(best) && k < 5
    requires forall i :: 0 <= i < 5 ==> best[i] != VACANT && best[i] in c
    ensures !Less(best[k], s[k])
  {
    assert forall p :: k < p < 5 ==> Less(s[k], s[p]) || s[p] == VACANT;
    forall i | 0 <= i <= k && Less(best[k], s[k])
      ensures best[i] in s[..k]
    {
      assert i < k ==> Less(best[i], best[k]);
      var p :| 0 <= p < 5 && s[p] == best[i];
      assert p < k;
      assert s[..k][p] == best[i];
    }
    EntryCount(best, k + 1);
    SlotCount(s[..k]);
    if Less(best[k], s[k]) {
      assert Members(best[..k + 1]) <= Members(s[..k]);
      CardinalityMonotone(Members(best[..k + 1]), Members(s[..k]));
    }
  }

  lemma {:induction false} EntryCount(best: seq<Entry>, n: nat)
    requires |best| == 5 && Ordered(best) && n <= 5 && forall i :: 0 <= i < 5 ==> best[i] != VACANT
    ensures |Members(best[..n])| == n
  {
    if n > 0 {
      EntryCount(best, n - 1);
      assert Members(best[..n]) == Members(best[..n - 1]) + {best[n - 1]};
      assert forall i :: 0 <= i < n - 1 ==> Less(best[i], best[n - 1]);
      assert best[n - 1] !in best[..n - 1];
    }
  }

  lemma {:induction false} SlotCount(s: seq<Entry>)
    ensures |Members(s)| <= |s|
  {
    if s != [] {
      var n := |s| - 1;
      SlotCount(s[..n]);
      assert Members(s) == Members(s[..n]) + {s[n]};
    }
  }

  /** When every slot holds a true distance the scan is exact. */
  lemma GenuineIsExact(q: Vec, rows: seq<Row>)
    requires UniqueRowIds(rows)
    requires forall j ::
               0 <= j < |rows| && AbandonedEntries(q, NO_ENTRIES, rows)[j] in ScanRows(Scalar, q, NO_ENTRIES, rows)
               ==> AbandonedEntries(q, NO_ENTRIES, rows)[j].dist == Dist(q, rows[j].vec)
    ensures ScanRows(Scalar, q, NO_ENTRIES, rows) == ScanRows(Exact, q, NO_ENTRIES, rows)
  {
    hide ScanRows, AbandonedEntries, Dist;
    var s, es, gs := ScanRows(Scalar, q, NO_ENTRIES, rows), AbandonedEntries(q, NO_ENTRIES, rows), RowEntries(q, rows);
    AbandoningScanIsBestOffered(q, rows);
    AbandonedScanOffersEntries(q, NO_ENTRIES, rows);
    forall i | 0 <= i < 5 && s[i] != VACANT
      ensures s[i] in Members(gs)
    {
      var j :| 0 <= j < |es| && es[j] == s[i];
      assert Understates(es[j], q, rows[j]) && gs[j] == es[j];
    }
    forall e | e in Members(gs)
      ensures Real(e) && (e in s || Less(s[4], e))
    {
      var j :| 0 <= j < |gs| && gs[j] == e;
      assert Understates(es[j], q, rows[j]) && es[j] in Members(es);
      assert es[j] in s ==> es[j] == e;
    }
    forall a, b | a in Members(gs) && b in Members(gs) && a.id == b.id
      ensures a == b
    {
      var i :| 0 <= i < |gs| && gs[i] == a;
      var j :| 0 <= j < |gs| && gs[j] == b;
      RowIdsDiffer(q, rows, i, j);
    }
    Best5IsUnique(s, ScanRows(Exact, q, NO_ENTRIES, rows), Members(gs));
  }

  /**
   A scan with abandoned distances is exact if and only if no row breaks a tie: the condition speaks of true
   distances and partial sums alone.
   */
  lemma {:induction false} AbandoningScanIsExactIff(q: Vec, rows: seq<Row>)
    requires UniqueRowIds(rows)
    ensures var best := ScanRows(Exact, q, NO_ENTRIES, rows);
            ScanRows(Scalar, q, NO_ENTRIES, rows) == best <==> !SomeTieBreaks(q, rows, best)
  {
    hide ScanRows, AbandonedEntries, TieBreaks, Dist;
    var best := ScanRows(Exact, q, NO_ENTRIES, rows);
    if SomeTieBreaks(q, rows, best) {
      var j :| TieBreaks(q, rows, best, j);
      TieIndex(q, rows, best, j);
      TieDisplaces(q, rows, j);
    } else {
      forall j | 0 <= j < |rows| && AbandonedEntries(q, NO_ENTRIES, rows)[j] in ScanRows(Scalar, q, NO_ENTRIES, rows)
        ensures AbandonedEntries(q, NO_ENTRIES, rows)[j].dist == Dist(q, rows[j].vec)
      {
        if AbandonedEntries(q, NO_ENTRIES, rows)[j].dist != Dist(q, rows[j].vec) {
          DisplacedByTie(q, rows, j);
        }
      }
      GenuineIsExact(q, rows);
    }
  }

  lemma TieIndex(q: Vec, rows: seq<Row>, best: seq<Entry>, j: int)
    requires |best| == 5 && TieBreaks(q, rows, best, j)
    ensures 0 <= j < |rows|
  {
  }

  // ---- a whole search -----------------------------------------------------------------------------

  /** Probe n lists and expand to m with abandoned distances. */
  ghost function ScalarProgress(select: Kernel, q: Vec, view: View, n: int, m: int): (p: Progress)
    requires WellFormed(view)
    ensures |p.best| == 5
  {
    Expand(Scalar, q, Probed(KernelPair(select, Scalar), q, view, n), view.lists, TopLists(select, q, view, m))
  }

  /** The lists that probing m lists and repairing scan, in order; exact distances settle them. */
  ghost function RepairOrder(q: Vec, view: View, m: int): (order: seq<nat>)
    requires WellFormed(view) && view.boxes != []
    ensures ValidOrder(view.lists, order)
  {
    var near := TopLists(Exact, q, view, m);
    near + RepairTargets(q, Elements(near), view.boxes, Probed(EXACT, q, view, m).best[4].dist, |view.boxes|)
  }

  lemma RepairOrderIsDistinct(q: Vec, view: View, m: int)
    requires WellFormed(view) && view.boxes != []
    ensures Distinct(RepairOrder(q, view, m)) && Elements(RepairOrder(q, view, m)) <= AllLists(view.lists)
    ensures forall c: nat :: c < |view.lists| && c !in Elements(RepairOrder(q, view, m))
                             ==> BoxDist(q, view.boxes[c]) > Probed(EXACT, q, view, m).best[4].dist
  {
    hide Top, Expand, BoxDist, RepairTargets;
    var near, cutoff := TopLists(Exact, q, view, m), Probed(EXACT, q, view, m).best[4].dist;
    var probed := Elements(near);
    ProbeScansEachOnce(Exact, q, view, m);
    RepairTargetsAreDistinct(q, probed, view.boxes, cutoff, |view.boxes|);
    RepairTargetsMembers(q, probed, view.boxes, cutoff, |view.boxes|);
    NewTargets(near, RepairTargets(q, probed, view.boxes, cutoff, |view.boxes|), probed, |view.lists|);
  }

  lemma NewTargets(near: seq<nat>, targets: seq<nat>, probed: set<nat>, n: nat)
    requires Distinct(near) && Distinct(targets) && probed == Elements(near) <= Below(n)
    requires forall c :: c in targets ==> c < n && c !in probed
    ensures Distinct(near + targets) && probed <= Elements(near + targets) <= Below(n)
    ensures forall c: nat :: c in Elements(near + targets) <==> c in probed || c in targets
  {
    var order := near + targets;
    forall i, j | 0 <= i < j < |order|
      ensures order[i] != order[j]
    {
      if i < |near| <= j {
        assert order[i] in probed && order[j] in targets;
      }
    }
  }

  /** Probing, expanding and repairing, as one run over distinct lists. */
  lemma RepairedIsOneScan(k: Kernel, q: Vec, view: View, m: int, p: Progress)
    requires WellFormed(view) && view.boxes != []
    requires var near := TopLists(Exact, q, view, m);
             p == Progress(ScanRows(k, q, NO_ENTRIES, RowsOf(view.lists, near)), Elements(near))
    requires p.best[4].dist == Probed(EXACT, q, view, m).best[4].dist != MAX_INT64
    ensures Repair(k, q, p, view) == ScanRows(k, q, NO_ENTRIES, RowsOf(view.lists, RepairOrder(q, view, m)))
  {
    hide Top, Expand, ScanRows, ScanLists, RepairTargets, BoxDist, RowsOf;
    var near := TopLists(Exact, q, view, m);
    var targets := RepairTargets(q, p.probed, view.boxes, p.best[4].dist, |view.boxes|);
    ScanListsIsOneScan(k, q, NO_ENTRIES, view.lists, near);
    ScanListsConcat(k, q, NO_ENTRIES, view.lists, near, targets);
    ScanListsIsOneScan(k, q, NO_ENTRIES, view.lists, near + targets);
  }

  /** The kernel that ranks centroids gives the exact ranking. */
  ghost predicate RanksExactly(select: Kernel, q: Vec, view: View)
    requires WellFormed(view)
  {
    select == Avx2 ==> SpanSafe(q, view) && LanesAgree(view)
  }

  /** A scalar search has probed the same lists as an exact one, and its slots hold the same distances. */
  lemma ScalarProgressIs(select: Kernel, q: Vec, view: View, n: int, m: int)
    requires WellFormed(view) && n <= m && RanksExactly(select, q, view)
    ensures var p, order := ScalarProgress(select, q, view, n, m), TopLists(Exact, q, view, m);
            && p == Progress(ScanRows(Scalar, q, NO_ENTRIES, RowsOf(view.lists, order)), Elements(order))
            && p.best[4].dist == Probed(EXACT, q, view, m).best[4].dist
  {
    hide Top, Expand, ScanRows, RowsOf, CentroidDists;
    CentroidDistsAgree(select, q, view);
    ExpandAfterProbe(Scalar, q, view, n, m);
    AbandoningRefinesFullDistance(select, q, view, n, m);
    CentroidDistsAgree(Scalar, q, view);
    ProbeThenExpand(q, view, n, m);
    SameLastDist(ScalarProgress(select, q, view, n, m).best, Probed(EXACT, q, view, m).best);
  }

  /** The five distances of a repaired scalar search are the true ones, and no farther than the frozen cutoff. */
  lemma ScalarDistancesAreNearest(select: Kernel, q: Vec, view: View, refs: seq<Reference>, n: int, m: int)
    requires WellFormed(view) && Covered(view) && Represents(view.lists, refs) && |refs| <= 0x1_0000_0000 && n <= m
    requires RanksExactly(select, q, view) && |RowsOf(view.lists, TopLists(Exact, q, view, m))| >= 5
    ensures var p := ScalarProgress(select, q, view, n, m);
            && p.best[4].dist != MAX_INT64
            && SameDists(Repair(Scalar, q, p, view), Nearest5(q, refs))
            && Nearest5(q, refs)[4].dist <= p.best[4].dist
  {
    hide Top, Represents, Repair, Nearest5, Candidates, Expand, SameDists, Covered, RowsOf, CentroidDists;
    RepairedExactly(q, view, refs, m);
    AbandoningRefinesFullDistance(select, q, view, n, m);
    ProbeThenExpand(q, view, n, m);
    SameLastDist(ScalarProgress(select, q, view, n, m).best, Probed(EXACT, q, view, m).best);
  }

  lemma SomeList(lists: seq<seq<Row>>, order: seq<nat>)
    requires ValidOrder(lists, order) && RowsOf(lists, order) != []
    ensures lists != []
  {
    assert order != [];
  }

  /** The exact search over the same lists. */
  lemma RepairedExactly(q: Vec, view: View, refs: seq<Reference>, m: int)
    requires WellFormed(view) && Covered(view) && Represents(view.lists, refs) && |refs| <= 0x1_0000_0000
    requires |RowsOf(view.lists, TopLists(Exact, q, view, m))| >= 5
    ensures var p := Probed(EXACT, q, view, m);
            && view.boxes != [] && p.best[4].dist < MAX_INT64
            && Repair(Exact, q, p, view) == Nearest5(q, refs)
            && Nearest5(q, refs)[4].dist <= p.best[4].dist
  {
    hide Top, Repair, Nearest5, Candidates, Expand;
    var p := Probed(EXACT, q, view, m);
    EnoughRowsIff(q, view, m);
    ProbedIsBest5(q, view, m);
    RepairIsExact(q, p, view);
    ExactStateIsNearest5(q, view.lists, refs, Repair(Exact, q, p, view));
    SomeList(view.lists, TopLists(Exact, q, view, m));
    RepairKeepsBest5(q, p, view, RepairTargets(q, p.probed, view.boxes, p.best[4].dist, |view.boxes|));
  }

  /** A repaired scalar search, and the exact one, as scans of the same run. */
  lemma ScalarRun(select: Kernel, q: Vec, view: View, refs: seq<Reference>, n: int, m: int)
    requires WellFormed(view) && Covered(view) && Represents(view.lists, refs) && |refs| <= 0x1_0000_0000 && n <= m
    requires RanksExactly(select, q, view) && |RowsOf(view.lists, TopLists(Exact, q, view, m))| >= 5
    ensures view.boxes != []
    ensures var rows := RowsOf(view.lists, RepairOrder(q, view, m));
            && UniqueRowIds(rows)
            && Repair(Scalar, q, ScalarProgress(select, q, view, n, m), view) == ScanRows(Scalar, q, NO_ENTRIES, rows)
            && Nearest5(q, refs) == ScanRows(Exact, q, NO_ENTRIES, rows)
            && Nearest5(q, refs)[4] != VACANT
  {
    hide Top, Covered, Repair, Nearest5, ScalarProgress, Probed, RowsOf, ScanRows, CentroidDists, RepairOrder,
         Represents;
    RepairedExactly(q, view, refs, m);
    ScalarProgressIs(select, q, view, n, m);
    ProbedRun(q, view, m);
    RepairedIsOneScan(Exact, q, view, m, Probed(EXACT, q, view, m));
    RepairedIsOneScan(Scalar, q, view, m, ScalarProgress(select, q, view, n, m));
    RepairOrderIsDistinct(q, view, m);
    RepresentsDistinct(view.lists, refs);
    RowsHaveDistinctIds(view.lists, RepairOrder(q, view, m));
  }

  /**
   With abandoned distances, probing, expanding and repairing over at least five rows returns the five
   nearest references if and only if no row of the lists it scans breaks a tie with the fifth of them.
   */
  lemma {:induction false} ScalarAnswerIsExactIff(
      select: Kernel, q: Vec, view: View, refs: seq<Reference>, n: int, m: int)
    requires WellFormed(view) && Covered(view) && Represents(view.lists, refs) && |refs| <= 0x1_0000_0000 && n <= m
    requires RanksExactly(select, q, view) && |RowsOf(view.lists, TopLists(Exact, q, view, m))| >= 5
    ensures view.boxes != []
    ensures Repair(Scalar, q, ScalarProgress(select, q, view, n, m), view) == Nearest5(q, refs)
            <==> !SomeTieBreaks(q, RowsOf(view.lists, RepairOrder(q, view, m)), Nearest5(q, refs))
  {
    hide Top, Covered, Repair, Nearest5, ScalarProgress, RowsOf, ScanRows, SomeTieBreaks, RepairOrder, Represents;
    ScalarRun(select, q, view, refs, n, m);
    AbandoningScanIsExactIff(q, RowsOf(view.lists, RepairOrder(q, view, m)));
  }

  lemma ProbedRun(q: Vec, view: View, m: int)
    requires WellFormed(view)
    ensures var order := TopLists(Exact, q, view, m);
            Probed(EXACT, q, view, m)
            == Progress(ScanRows(Exact, q, NO_ENTRIES, RowsOf(view.lists, order)), Elements(order))
  {
    ProbeScansEachOnce(Exact, q, view, m);
  }

  /**
   Without a repair, a scalar search over m lists holds the five nearest references if and only if the lists
   store them and no row breaks a tie.
   */
  lemma {:induction false} ScalarProbeIsExactIff(
      select: Kernel, q: Vec, view: View, refs: seq<Reference>, n: int, m: int)
    requires WellFormed(view) && Represents(view.lists, refs) && |refs| <= 0x1_0000_0000 && n <= m
    requires RanksExactly(select, q, view)
    ensures var order := TopLists(Exact, q, view, m);
            ScalarProgress(select, q, view, n, m).best == Nearest5(q, refs)
            <==> HoldNearest(q, view.lists, refs, order)
                 && !SomeTieBreaks(q, RowsOf(view.lists, order), Nearest5(q, refs))
  {
    hide Top, Nearest5, ScalarProgress, Probed, RowsOf, ScanRows, SomeTieBreaks, CentroidDists, TopLists,
         Represents, HoldNearest;
    var order := TopLists(Exact, q, view, m);
    var rows := RowsOf(view.lists, order);
    ScalarProgressIs(select, q, view, n, m);
    ProbedRun(q, view, m);
    ProbeScansEachOnce(Exact, q, view, m);
    RepresentsDistinct(view.lists, refs);
    RowsHaveDistinctIds(view.lists, order);
    AbandoningScanIsExactIff(q, rows);
    ProbedIsExactIff(q, view, refs, m);
    RunOfReferences(view.lists, refs, order);
    if ScanRows(Scalar, q, NO_ENTRIES, rows) == Nearest5(q, refs) {
      TrueSlotsAreExact(q, rows, refs);
    }
  }

  lemma RunOfReferences(lists: seq<seq<Row>>, refs: seq<Reference>, order: seq<nat>)
    requires Represents(lists, refs) && ValidOrder(lists, order)
    ensures forall j :: 0 <= j < |RowsOf(lists, order)| ==> RowIsReference(RowsOf(lists, order)[j], refs)
  {
    forall j | 0 <= j < |RowsOf(lists, order)|
      ensures RowIsReference(RowsOf(lists, order)[j], refs)
    {
      var c, i := RowOfLists(lists, order, j);
    }
  }

  /** A scalar scan that ends in true entries is exact over its own rows. */
  lemma TrueSlotsAreExact(q: Vec, rows: seq<Row>, refs: seq<Reference>)
    requires UniqueRowIds(rows) && |refs| <= 0x1_0000_0000
    requires forall j :: 0 <= j < |rows| ==> RowIsReference(rows[j], refs)
    requires ScanRows(Scalar, q, NO_ENTRIES, rows) == Nearest5(q, refs)
    ensures ScanRows(Scalar, q, NO_ENTRIES, rows) == ScanRows(Exact, q, NO_ENTRIES, rows)
  {
    hide ScanRows, AbandonedEntries, Nearest5, Dist;
    var es := AbandonedEntries(q, NO_ENTRIES, rows);
    Nearest5IsBest5(q, refs);
    AbandonedScanOffersEntries(q, NO_ENTRIES, rows);
    forall j | 0 <= j < |rows| && es[j] in Nearest5(q, refs)
      ensures es[j].dist == Dist(q, rows[j].vec)
    {
      assert Understates(es[j], q, rows[j]) && es[j] != VACANT;
      assert RowIsReference(rows[j], refs);
      var id :| 0 <= id < |refs| && ReferenceEntries(q, refs)[id] == es[j];
    }
    GenuineIsExact(q, rows);
  }
}
