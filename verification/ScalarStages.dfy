/** The stages of a search with abandoned distances: exactly when each holds the five nearest references. */
module ScalarStages {
  import opened Machine
  import opened Metric
  import opened TopFive
  import opened ProbeOrder
  import opened SearchTheory
  import opened Exactness
  import opened Runs
  import opened SearchResults
  import opened WhenExact
  import opened Abandonment

  // ---- both stages --------------------------------------------------------------------------------

  /** The first count of a scalar search leaves it in doubt. */
  ghost predicate ScalarDoubt(select: Kernel, q: Vec, view: View, cfg: Settings)
    requires WellFormed(view)
  {
    IsAmbiguousFraudCount(q, CountFrauds(Probed(KernelPair(select, Scalar), q, view, cfg.nprobe).best))
  }

  ghost function ScalarReach(select: Kernel, q: Vec, view: View, cfg: Settings): (n: int)
    requires WellFormed(view)
    ensures n >= cfg.nprobe
  {
    if ScalarDoubt(select, q, view, cfg) && cfg.ambiguousNProbe > cfg.nprobe then cfg.ambiguousNProbe else cfg.nprobe
  }

  /** A scalar search in doubt runs its repair pass over five rows or more. */
  ghost predicate ScalarRepairs(select: Kernel, q: Vec, view: View, cfg: Settings)
    requires WellFormed(view)
  {
    && cfg.repair && view.boxes != [] && ScalarDoubt(select, q, view, cfg)
    && |RowsOf(view.lists, TopLists(Exact, q, view, ScalarReach(select, q, view, cfg)))| >= 5
  }

  lemma ScalarProgressTwice(select: Kernel, q: Vec, view: View, n: int)
    requires WellFormed(view) && RanksExactly(select, q, view)
    ensures ScalarProgress(select, q, view, n, n) == Probed(KernelPair(select, Scalar), q, view, n)
  {
    hide Top, Expand, ScanRows, RowsOf, CentroidDists;
    ScalarProgressIs(select, q, view, n, n);
    CentroidDistsAgree(select, q, view);
    CentroidDistsAgree(Scalar, q, view);
    ProbeScansEachOnce(Scalar, q, view, n);
  }

  /** The first stage of a scalar search is the exact one if and only if no row it scans breaks a tie. */
  lemma {:induction false} ScalarFirstStageIff(select: Kernel, q: Vec, view: View, n: int)
    requires WellFormed(view) && DistinctIds(view.lists) && RanksExactly(select, q, view)
    ensures var exact := Probed(EXACT, q, view, n);
            Probed(KernelPair(select, Scalar), q, view, n) == exact
            <==> !SomeTieBreaks(q, RowsOf(view.lists, TopLists(Exact, q, view, n)), exact.best)
  {
    hide Top, ScanRows, RowsOf, CentroidDists, Probed, ScalarProgress, DistinctIds, SomeTieBreaks, TopLists;
    var order := TopLists(Exact, q, view, n);
    ScalarProgressTwice(select, q, view, n);
    ScalarProgressIs(select, q, view, n, n);
    ProbedRun(q, view, n);
    ProbeScansEachOnce(Exact, q, view, n);
    RowsHaveDistinctIds(view.lists, order);
    AbandoningScanIsExactIff(q, RowsOf(view.lists, order));
  }

  lemma ScalarWidenedIs(select: Kernel, q: Vec, view: View, cfg: Settings)
    requires WellFormed(view) && RanksExactly(select, q, view) && DistinctIds(view.lists)
    ensures var p := ScalarProgress(select, q, view, cfg.nprobe, ScalarReach(select, q, view, cfg));
            Widened(KernelPair(select, Scalar), q, view, cfg)
            == if ScalarRepairs(select, q, view, cfg) then Progress(Repair(Scalar, q, p, view), p.probed) else p
  {
    hide TopLists, CountFrauds, Probed, IsAmbiguousFraudCount, DistinctIds, RowsOf, ScanLists, RepairTargets,
         RanksExactly, Expand;
    var n := ScalarReach(select, q, view, cfg);
    ScalarProgressTwice(select, q, view, cfg.nprobe);
    ScalarProgressIs(select, q, view, cfg.nprobe, n);
    EnoughRowsIff(q, view, n);
  }

  /**
   What a scalar search holds after its second stage are the five nearest references if and only if no row it
   scans breaks a tie with the fifth of them and, unless it repaired, the lists within its reach store them.
   */
  lemma {:induction false} ScalarWidenedIsExactIff(
      select: Kernel, q: Vec, view: View, refs: seq<Reference>, cfg: Settings)
    requires WellFormed(view) && (view.boxes != [] ==> Covered(view))
    requires Represents(view.lists, refs) && |refs| <= 0x1_0000_0000 && RanksExactly(select, q, view)
    ensures var n, nearest := ScalarReach(select, q, view, cfg), Nearest5(q, refs);
            var order := TopLists(Exact, q, view, n);
            Widened(KernelPair(select, Scalar), q, view, cfg).best == nearest
            <==> if ScalarRepairs(select, q, view, cfg)
                 then !SomeTieBreaks(q, RowsOf(view.lists, RepairOrder(q, view, n)), nearest)
                 else HoldNearest(q, view.lists, refs, order)
                      && !SomeTieBreaks(q, RowsOf(view.lists, order), nearest)
  {
    hide TopLists, Probed, HoldNearest, Nearest5, Widened, RowsOf, ScalarDoubt, RanksExactly, SomeTieBreaks, Repair,
         ScalarProgress, RepairOrder, Represents, Covered;
    RepresentsDistinct(view.lists, refs);
    ScalarWidenedIs(select, q, view, cfg);
    var n := ScalarReach(select, q, view, cfg);
    if ScalarRepairs(select, q, view, cfg) {
      ScalarAnswerIsExactIff(select, q, view, refs, cfg.nprobe, n);
    } else {
      ScalarProbeIsExactIff(select, q, view, refs, cfg.nprobe, n);
    }
  }

  // ---- the late stage -----------------------------------------------------------------------------

  /** Row beats the last slot by its distance, or by a partial sum that ties it. */
  ghost predicate Beats(q: Vec, s: seq<Entry>, row: Row)
    requires |s| == 5
  {
    || Less(RowEntry(q, row), s[4])
    || (row.id < s[4].id && s[4].dist < Dist(q, row.vec) && HitsPartially(q, row.vec, s[4].dist))
  }

  lemma OfferBeatsIff(q: Vec, s: seq<Entry>, row: Row)
    requires |s| == 5
    ensures Less(Entry(Abandoned(q, row.vec, s[4].dist), row.fraud, row.id), s[4]) <==> Beats(q, s, row)
  {
    hide HitsPartially, Abandoned, Dist;
    AbandonedIsTruncation(q, row.vec, s[4].dist);
    if s[4].dist < Dist(q, row.vec) {
      TiesCutoffIff(q, row.vec, s[4].dist);
    }
  }

  /** A further scalar scan leaves a sorted state alone if and only if no row beats its last slot. */
  lemma {:induction false} RescanChangesNothingIff(q: Vec, s: seq<Entry>, rows: seq<Row>)
    requires Sorted(s)
    ensures ScanRows(Scalar, q, s, rows) == s <==> forall j :: 0 <= j < |rows| ==> !Beats(q, s, rows[j])
    ensures NoWorse(ScanRows(Scalar, q, s, rows), s)
  {
    hide Beats, AbandonedEntries, Abandoned, OfferAll;
    AbandonedScanOffersEntries(q, s, rows);
    OffersChangeNothingIff(s, AbandonedEntries(q, s, rows));
    if rows != [] {
      var n := |rows| - 1;
      var was := ScanRows(Scalar, q, s, rows[..n]);
      RescanChangesNothingIff(q, s, rows[..n]);
      AbandonedScanOffersEntries(q, s, rows[..n]);
      OffersChangeNothingIff(s, AbandonedEntries(q, s, rows[..n]));
      LastOffer(q, s, rows);
      OfferBeatsIff(q, s, rows[n]);
    }
  }

  /** The last row of a run is offered against the state before it; an improved state stays improved. */
  lemma LastOffer(q: Vec, s: seq<Entry>, rows: seq<Row>)
    requires Sorted(s) && rows != []
    ensures var n := |rows| - 1;
            var was, now := ScanRows(Scalar, q, s, rows[..n]), ScanRows(Scalar, q, s, rows);
            var e := Entry(Abandoned(q, rows[n].vec, s[4].dist), rows[n].fraud, rows[n].id);
            && (was == s ==> (now == s <==> !Less(e, s[4])))
            && (was != s ==> now != s)
  {
    hide Abandoned, OfferAll;
    var n := |rows| - 1;
    var was := ScanRows(Scalar, q, s, rows[..n]);
    AbandonedScanOffersEntries(q, s, rows[..n]);
    OffersChangeNothingIff(s, AbandonedEntries(q, s, rows[..n]));
    OfferImproves(was, Entry(Abandoned(q, rows[n].vec, was[4].dist), rows[n].fraud, rows[n].id));
    StaysImproved(ScanRows(Scalar, q, s, rows), was, s);
  }

  lemma StaysImproved(now: seq<Entry>, was: seq<Entry>, s: seq<Entry>)
    requires NoWorse(now, was) && |s| == 5
    ensures Improved(was, s) ==> now != s
  {
  }

  /** Every slot of a scalar scan comes no later than the same slot of the exact one. */
  lemma ScalarIsAhead(q: Vec, rows: seq<Row>)
    requires UniqueRowIds(rows) && ScanRows(Exact, q, NO_ENTRIES, rows)[4] != VACANT
    ensures NoWorse(ScanRows(Scalar, q, NO_ENTRIES, rows), ScanRows(Exact, q, NO_ENTRIES, rows))
  {
    hide ScanRows, AbandonedEntries, Dist;
    var s, best := ScanRows(Scalar, q, NO_ENTRIES, rows), ScanRows(Exact, q, NO_ENTRIES, rows);
    var es := AbandonedEntries(q, NO_ENTRIES, rows);
    AbandoningScanIsBestOffered(q, rows);
    BestIsOffered(q, rows);
    assert best[4] in Members(es);
    AllOccupied(best);
    forall k | 0 <= k < 5
      ensures !Less(best[k], s[k])
    {
      AheadAt(s, best, Members(es), k);
    }
  }

  /** A scalar scan whose slots rank as the exact ones is exact. */
  lemma SameRanks(q: Vec, rows: seq<Row>)
    requires UniqueRowIds(rows)
    requires var s, best := ScanRows(Scalar, q, NO_ENTRIES, rows), ScanRows(Exact, q, NO_ENTRIES, rows);
             NoWorse(s, best) && NoWorse(best, s) && best[4] != VACANT
    ensures ScanRows(Scalar, q, NO_ENTRIES, rows) == ScanRows(Exact, q, NO_ENTRIES, rows)
  {
    hide ScanRows, AbandonedEntries, Dist;
    var s, best := ScanRows(Scalar, q, NO_ENTRIES, rows), ScanRows(Exact, q, NO_ENTRIES, rows);
    AbandoningScanIsBestOffered(q, rows);
    AbandonedScanOffersEntries(q, NO_ENTRIES, rows);
    assert best[4] in Members(RowEntries(q, rows));
    AllOccupied(best);
    forall k | 0 <= k < 5
      ensures s[k] == best[k]
    {
      assert s[k].dist == best[k].dist && s[k].id == best[k].id && s[k] != VACANT by {
        assert best[k] in Members(RowEntries(q, rows));
      }
      var j: nat :| j < |rows| && AbandonedEntries(q, NO_ENTRIES, rows)[j] == s[k];
      assert Understates(AbandonedEntries(q, NO_ENTRIES, rows)[j], q, rows[j]);
      EntriesOfId(q, rows, j);
      assert best[k] == RowEntry(q, rows[j]);
    }
  }

  /** Some row of the lists would beat the fifth nearest reference by a tied partial sum. */
  ghost predicate SomeRowTies(q: Vec, rows: seq<Row>, best: seq<Entry>)
    requires |best| == 5
  {
    exists j :: 0 <= j < |rows| && rows[j].id < best[4].id && best[4].dist < Dist(q, rows[j].vec)
                && HitsPartially(q, rows[j].vec, best[4].dist)
  }

  /** The lists a late expansion scans after a scalar second stage. */
  ghost function ScalarLateLists(select: Kernel, q: Vec, view: View, cfg: Settings): (order: seq<nat>)
    requires WellFormed(view)
    ensures ValidOrder(view.lists, order)
  {
    var probed := Elements(TopLists(Exact, q, view, ScalarReach(select, q, view, cfg)));
    UnmarkedIsValid(view.lists, TopLists(Exact, q, view, MAX_PROBE), probed);
    Unmarked(TopLists(Exact, q, view, MAX_PROBE), probed)
  }

  /** What a late expansion scans on top of a scalar state, as one run. */
  lemma ScalarLateIs(select: Kernel, q: Vec, view: View, cfg: Settings, w: Progress)
    requires WellFormed(view) && RanksExactly(select, q, view) && |w.best| == 5
    requires w.probed == Elements(TopLists(Exact, q, view, ScalarReach(select, q, view, cfg)))
    ensures LateExpanded(KernelPair(select, Scalar), q, view, w).best
            == ScanRows(Scalar, q, w.best, RowsOf(view.lists, ScalarLateLists(select, q, view, cfg)))
  {
    hide Top, Expand, ScanRows, ScanLists, RowsOf, CentroidDists, ScalarReach;
    CentroidDistsAgree(select, q, view);
    TopListsDistinct(q, view, MAX_PROBE);
    ExpandScansUnmarked(Scalar, q, w, view.lists, TopLists(Exact, q, view, MAX_PROBE));
    ScanListsIsOneScan(Scalar, q, w.best, view.lists, ScalarLateLists(select, q, view, cfg));
  }

  lemma TopListsDistinct(q: Vec, view: View, n: int)
    requires WellFormed(view)
    ensures Distinct(TopLists(Exact, q, view, n))
  {
    ProbeScansEachOnce(Exact, q, view, n);
  }

  /** Over rows of the references, beating the exact five is being one of the first four or tying the fifth. */
  lemma NoneBeatsIff(q: Vec, lists: seq<seq<Row>>, refs: seq<Reference>, order: seq<nat>)
    requires Represents(lists, refs) && ValidOrder(lists, order) && |refs| <= 0x1_0000_0000
    ensures var rows, nearest := RowsOf(lists, order), Nearest5(q, refs);
            (forall j :: 0 <= j < |rows| ==> !Beats(q, nearest, rows[j]))
            <==> HoldNoneOfFour(q, lists, refs, order) && !SomeRowTies(q, rows, nearest)
  {
    hide Nearest5, Dist, HitsPartially, Represents, RowsOf, ReferenceEntries, IsBest5;
    var rows, nearest, all := RowsOf(lists, order), Nearest5(q, refs), Members(ReferenceEntries(q, refs));
    Nearest5IsBest5(q, refs);
    SomeAreReferences(q, lists, refs, order);
    CandidatesOfRun(q, lists, order);
    forall j | 0 <= j < |rows|
      ensures Less(RowEntry(q, rows[j]), nearest[4]) <==> RowEntry(q, rows[j]) in nearest[..4]
    {
      assert RowEntries(q, rows)[j] == RowEntry(q, rows[j]);
      BeatsLastIff(nearest, all, RowEntry(q, rows[j]));
    }
    forall i | 0 <= i < 4 && nearest[i] != VACANT
      ensures IsHeld(lists, order, nearest[i].id) <==> nearest[i] in RowEntries(q, rows)
    {
      MemberOfBest(nearest, all, i);
      HeldIsCandidate(q, lists, refs, order, nearest[i]);
    }
    FirstFour(q, rows, nearest);
  }

  lemma FirstFour(q: Vec, rows: seq<Row>, nearest: seq<Entry>)
    requires |nearest| == 5
    ensures (forall j :: 0 <= j < |rows| ==> RowEntry(q, rows[j]) !in nearest[..4])
            <==> forall i :: 0 <= i < 4 && nearest[i] != VACANT ==> nearest[i] !in RowEntries(q, rows)
  {
    hide Dist;
    if i :| 0 <= i < 4 && nearest[i] != VACANT && nearest[i] in RowEntries(q, rows) {
      var j :| 0 <= j < |rows| && RowEntries(q, rows)[j] == nearest[i];
      assert RowEntry(q, rows[j]) in nearest[..4];
    }
    if j :| 0 <= j < |rows| && RowEntry(q, rows[j]) in nearest[..4] {
      var i :| 0 <= i < 4 && nearest[i] == RowEntry(q, rows[j]);
      assert RowEntries(q, rows)[j] == nearest[i];
    }
  }

  lemma OrderedIsSorted(s: seq<Entry>)
    requires |s| == 5 && Ordered(s) && forall i :: 0 <= i < 5 ==> s[i] == VACANT || Real(s[i])
    ensures Sorted(s)
  {
    forall i, j | 0 <= i < j < 5
      ensures !Less(s[j], s[i])
    {
      assert Less(s[i], s[j]) || s[j] == VACANT;
    }
  }

  lemma BestIsSorted(s: seq<Entry>, c: set<Entry>)
    requires IsBest5(s, c)
    ensures Sorted(s)
  {
    OrderedIsSorted(s);
  }

  /** A further scan of a repaired scalar state is exact if and only if the state was and no row beats its fifth. */
  lemma RescanIsExactIff(q: Vec, run: seq<Row>, again: seq<Row>)
    requires UniqueRowIds(run) && ScanRows(Exact, q, NO_ENTRIES, run)[4] != VACANT
    ensures var s, best := ScanRows(Scalar, q, NO_ENTRIES, run), ScanRows(Exact, q, NO_ENTRIES, run);
            ScanRows(Scalar, q, s, again) == best
            <==> s == best && forall j :: 0 <= j < |again| ==> !Beats(q, best, again[j])
  {
    hide ScanRows, Beats, IsBest5, AbandonedEntries;
    var s, best := ScanRows(Scalar, q, NO_ENTRIES, run), ScanRows(Exact, q, NO_ENTRIES, run);
    AbandoningScanIsBestOffered(q, run);
    BestIsSorted(s, Members(AbandonedEntries(q, NO_ENTRIES, run)));
    RescanChangesNothingIff(q, s, again);
    ScalarIsAhead(q, run);
    if ScanRows(Scalar, q, s, again) == best {
      SameRanks(q, run);
    }
  }

  /**
   After a late expansion a scalar search holds the five nearest references if and only if: following a repair,
   it held them before, and the lists it scans store none of the first four and no row that ties the fifth;
   without a repair, the largest selection stores them and none of its rows breaks a tie.
   */
  lemma {:induction false} ScalarLateIsExactIff(
      select: Kernel, q: Vec, view: View, refs: seq<Reference>, cfg: Settings)
    requires WellFormed(view) && (view.boxes != [] ==> Covered(view))
    requires Represents(view.lists, refs) && |refs| <= 0x1_0000_0000 && RanksExactly(select, q, view)
    ensures var ks, n, nearest := KernelPair(select, Scalar), ScalarReach(select, q, view, cfg), Nearest5(q, refs);
            var late, all := ScalarLateLists(select, q, view, cfg), TopLists(Exact, q, view, MAX_PROBE);
            LateExpanded(ks, q, view, Widened(ks, q, view, cfg)).best == nearest
            <==> if ScalarRepairs(select, q, view, cfg)
                 then && !SomeTieBreaks(q, RowsOf(view.lists, RepairOrder(q, view, n)), nearest)
                      && HoldNoneOfFour(q, view.lists, refs, late)
                      && !SomeRowTies(q, RowsOf(view.lists, late), nearest)
                 else && HoldNearest(q, view.lists, refs, all)
                      && !SomeTieBreaks(q, RowsOf(view.lists, all), nearest)
  {
    hide TopLists, HoldNearest, HoldNoneOfFour, Nearest5, Widened, LateExpanded, RowsOf, ScalarDoubt, RanksExactly,
         SomeTieBreaks, SomeRowTies, Repair, ScalarProgress, RepairOrder, Represents, Covered, ScalarReach,
         ScalarLateLists;
    RepresentsDistinct(view.lists, refs);
    ScalarWidenedIs(select, q, view, cfg);
    var n := ScalarReach(select, q, view, cfg);
    if ScalarRepairs(select, q, view, cfg) {
      RepairedScalarLate(select, q, view, refs, cfg, n);
    } else {
      ScalarLateAfterProbe(select, q, view, cfg.nprobe, n);
      ScalarProbeIsExactIff(select, q, view, refs, MAX_PROBE, MAX_PROBE);
    }
  }

  /** Without a repair a late expansion probes the largest selection. */
  lemma ScalarLateAfterProbe(select: Kernel, q: Vec, view: View, n: int, m: int)
    requires WellFormed(view) && n <= m && RanksExactly(select, q, view)
    ensures LateExpanded(KernelPair(select, Scalar), q, view, ScalarProgress(select, q, view, n, m))
            == ScalarProgress(select, q, view, MAX_PROBE, MAX_PROBE)
  {
    hide Expand, Top, ScanRows, RowsOf, CentroidDists, ScalarProgress;
    CentroidDistsAgree(select, q, view);
    CentroidDistsAgree(Scalar, q, view);
    ScalarProgressIs(select, q, view, n, m);
    ScalarProgressIs(select, q, view, MAX_PROBE, MAX_PROBE);
    ProbeScansEachOnce(Scalar, q, view, m);
    ExpandAfterProbe(Scalar, q, view, if m <= MAX_PROBE then m else MAX_PROBE, MAX_PROBE);
  }

  lemma RepairedScalarLate(select: Kernel, q: Vec, view: View, refs: seq<Reference>, cfg: Settings, n: int)
    requires WellFormed(view) && Covered(view) && Represents(view.lists, refs) && |refs| <= 0x1_0000_0000
    requires RanksExactly(select, q, view) && n == ScalarReach(select, q, view, cfg)
    requires view.boxes != [] && |RowsOf(view.lists, TopLists(Exact, q, view, n))| >= 5
    requires ScalarRepairs(select, q, view, cfg)
    ensures var ks, nearest := KernelPair(select, Scalar), Nearest5(q, refs);
            var late := ScalarLateLists(select, q, view, cfg);
            LateExpanded(ks, q, view, Widened(ks, q, view, cfg)).best == nearest
            <==> && !SomeTieBreaks(q, RowsOf(view.lists, RepairOrder(q, view, n)), nearest)
                 && HoldNoneOfFour(q, view.lists, refs, late)
                 && !SomeRowTies(q, RowsOf(view.lists, late), nearest)
  {
    hide TopLists, HoldNoneOfFour, Nearest5, Widened, LateExpanded, RowsOf, ScalarDoubt, RanksExactly, SomeTieBreaks,
         SomeRowTies, Repair, ScalarProgress, RepairOrder, Represents, Covered, ScalarReach, ScalarLateLists, Probed,
         ScanRows, Beats;
    var late := ScalarLateLists(select, q, view, cfg);
    var run, again := RowsOf(view.lists, RepairOrder(q, view, n)), RowsOf(view.lists, late);
    RepresentsDistinct(view.lists, refs);
    ScalarWidenedIs(select, q, view, cfg);
    ScalarRun(select, q, view, refs, cfg.nprobe, n);
    ScalarProgressIs(select, q, view, cfg.nprobe, n);
    ScalarLateIs(select, q, view, cfg, Widened(KernelPair(select, Scalar), q, view, cfg));
    AbandoningScanIsExactIff(q, run);
    RescanIsExactIff(q, run, again);
    NoneBeatsIff(q, view.lists, refs, late);
  }

  /** The last state of a scalar search is exact: see ScalarWidenedIsExactIff and ScalarLateIsExactIff. */
  ghost predicate ScalarEndsExact(select: Kernel, q: Vec, view: View, refs: seq<Reference>, cfg: Settings)
    requires WellFormed(view)
  {
    var n, nearest := ScalarReach(select, q, view, cfg), Nearest5(q, refs);
    var order, all := TopLists(Exact, q, view, n), TopLists(Exact, q, view, MAX_PROBE);
    var late := ScalarLateLists(select, q, view, cfg);
    if GoesLate(q, cfg.repair, CountFrauds(Widened(KernelPair(select, Scalar), q, view, cfg).best)) then
      if ScalarRepairs(select, q, view, cfg) then
        && !SomeTieBreaks(q, RowsOf(view.lists, RepairOrder(q, view, n)), nearest)
        && HoldNoneOfFour(q, view.lists, refs, late) && !SomeRowTies(q, RowsOf(view.lists, late), nearest)
      else
        HoldNearest(q, view.lists, refs, all) && !SomeTieBreaks(q, RowsOf(view.lists, all), nearest)
    else if ScalarRepairs(select, q, view, cfg) then
      !SomeTieBreaks(q, RowsOf(view.lists, RepairOrder(q, view, n)), nearest)
    else
      HoldNearest(q, view.lists, refs, order) && !SomeTieBreaks(q, RowsOf(view.lists, order), nearest)
  }

  /** A scalar search that ends exact answers what brute force does. */
  lemma {:induction false} ScalarAnswer(select: Kernel, q: Vec, view: View, refs: seq<Reference>, cfg: Settings)
    requires WellFormed(view) && (view.boxes != [] ==> Covered(view))
    requires Represents(view.lists, refs) && |refs| <= 0x1_0000_0000 && RanksExactly(select, q, view)
    requires ScalarEndsExact(select, q, view, refs, cfg)
    ensures Search(KernelPair(select, Scalar), q, view, cfg) == BruteForce(q, refs, cfg.repair)
  {
    hide TopLists, HoldNearest, HoldNoneOfFour, Nearest5, Widened, LateExpanded, RowsOf, RanksExactly, SomeTieBreaks,
         SomeRowTies, RepairOrder, Represents, Covered, ScalarReach, ScalarLateLists, ScalarRepairs, GoesLate,
         BruteForce, Search, CountFrauds;
    ScalarWidenedIsExactIff(select, q, view, refs, cfg);
    ScalarLateIsExactIff(select, q, view, refs, cfg);
    LastStateAnswers(KernelPair(select, Scalar), q, view, refs, cfg);
  }
}
