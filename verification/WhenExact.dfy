/**
 Exactly when each stage of a search holds the five nearest references, read from the lists it selects
 before any row is scanned.
 */
module WhenExact {
  import opened Machine
  import opened Metric
  import opened TopFive
  import opened ProbeOrder
  import opened SearchTheory
  import opened Exactness
  import opened Runs
  import opened SearchResults

  /** Some list of the order stores the row with this id. */
  ghost predicate IsHeld(lists: seq<seq<Row>>, order: seq<nat>, id: int) {
    exists c, j :: c in order && 0 <= c < |lists| && 0 <= j < |lists[c]| && lists[c][j].id == id
  }

  /** The lists of the order store all the nearest references. */
  ghost predicate HoldNearest(q: Vec, lists: seq<seq<Row>>, refs: seq<Reference>, order: seq<nat>) {
    forall i :: 0 <= i < 5 && Nearest5(q, refs)[i] != VACANT ==> IsHeld(lists, order, Nearest5(q, refs)[i].id)
  }

  /** The entry of a reference whose row is stored in the order is a candidate of the order. */
  lemma HeldIsCandidate(q: Vec, lists: seq<seq<Row>>, refs: seq<Reference>, order: seq<nat>, e: Entry)
    requires Represents(lists, refs) && ValidOrder(lists, order)
    requires e in Members(ReferenceEntries(q, refs))
    ensures IsHeld(lists, order, e.id) <==> e in Candidates(q, lists, Elements(order))
  {
    assert ReferenceEntries(q, refs)[e.id] == e;
    if IsHeld(lists, order, e.id) {
      var c, j :| c in order && 0 <= c < |lists| && 0 <= j < |lists[c]| && lists[c][j].id == e.id;
      assert RowIsReference(lists[c][j], refs) && c in Elements(order);
      assert e == RowEntry(q, lists[c][j]);
    }
  }

  /** The best five of some lists are the five nearest references if and only if the lists store these. */
  lemma {:induction false} BestOfSomeIsExactIff(
      q: Vec, lists: seq<seq<Row>>, refs: seq<Reference>, order: seq<nat>, s: seq<Entry>)
    requires ValidOrder(lists, order) && Represents(lists, refs) && |refs| <= 0x1_0000_0000
    requires IsBest5(s, Candidates(q, lists, Elements(order)))
    ensures s == Nearest5(q, refs) <==> HoldNearest(q, lists, refs, order)
  {
    hide Candidates, Nearest5, Represents, IsHeld;
    var some, nearest := Candidates(q, lists, Elements(order)), Nearest5(q, refs);
    Nearest5IsBest5(q, refs);
    SomeAreReferences(q, lists, refs, order);
    forall i | 0 <= i < 5 && nearest[i] != VACANT
      ensures IsHeld(lists, order, nearest[i].id) <==> nearest[i] in some
    {
      HeldIsCandidate(q, lists, refs, order, nearest[i]);
    }
    if HoldNearest(q, lists, refs, order) {
      assert IsBest5(nearest, some);
      Best5IsUnique(s, nearest, some);
    }
  }

  lemma SomeAreReferences(q: Vec, lists: seq<seq<Row>>, refs: seq<Reference>, order: seq<nat>)
    requires ValidOrder(lists, order) && Represents(lists, refs)
    ensures Candidates(q, lists, Elements(order)) <= Members(ReferenceEntries(q, refs))
  {
    CandidatesAreReferences(q, lists, refs);
    assert Elements(order) <= AllLists(lists);
  }

  // ---- the stages of a search -----------------------------------------------------------------

  /** The first count leaves a search in doubt. */
  ghost predicate InDoubt(q: Vec, view: View, cfg: Settings)
    requires WellFormed(view)
  {
    IsAmbiguousFraudCount(q, CountFrauds(Probed(EXACT, q, view, cfg.nprobe).best))
  }

  /** How many lists a search asks for before any repair. */
  ghost function Reach(q: Vec, view: View, cfg: Settings): int
    requires WellFormed(view)
  {
    if InDoubt(q, view, cfg) && cfg.ambiguousNProbe > cfg.nprobe then cfg.ambiguousNProbe else cfg.nprobe
  }

  /** The lists a search scans before any repair. */
  ghost function Reached(q: Vec, view: View, cfg: Settings): (order: seq<nat>)
    requires WellFormed(view)
    ensures ValidOrder(view.lists, order)
  {
    TopLists(Exact, q, view, Reach(q, view, cfg))
  }

  /** A search in doubt runs its repair pass over five rows or more. */
  ghost predicate Repairs(q: Vec, view: View, cfg: Settings)
    requires WellFormed(view)
  {
    && cfg.repair && view.boxes != [] && InDoubt(q, view, cfg)
    && |RowsOf(view.lists, Reached(q, view, cfg))| >= 5
  }

  /** Probing n lists and then expanding to m >= n is probing m lists. */
  lemma ProbeThenExpand(q: Vec, view: View, n: int, m: int)
    requires WellFormed(view) && n <= m
    ensures Expand(Exact, q, Probed(EXACT, q, view, n), view.lists, TopLists(Exact, q, view, m))
            == Probed(EXACT, q, view, m)
  {
    hide Expand, TopLists;
    ExpandAfterProbe(Exact, q, view, n, m);
    ProbeScansEachOnce(Exact, q, view, m);
  }

  /** What a search holds after its second stage: all lists within its reach, then the repair pass if it runs. */
  lemma WidenedIs(q: Vec, view: View, cfg: Settings)
    requires WellFormed(view) && DistinctIds(view.lists)
    ensures var p := Probed(EXACT, q, view, Reach(q, view, cfg));
            Widened(EXACT, q, view, cfg)
            == if Repairs(q, view, cfg) then Progress(Repair(Exact, q, p, view), p.probed) else p
  {
    hide Expand, TopLists, CountFrauds, Probed, IsAmbiguousFraudCount, DistinctIds, RowsOf, ScanLists, RepairTargets;
    var p := Probed(EXACT, q, view, Reach(q, view, cfg));
    if cfg.ambiguousNProbe > cfg.nprobe {
      ProbeThenExpand(q, view, cfg.nprobe, cfg.ambiguousNProbe);
    }
    EnoughRowsIff(q, view, Reach(q, view, cfg));
  }

  /** The repair pass starts if and only if the probed lists hold five rows. */
  lemma EnoughRowsIff(q: Vec, view: View, n: int)
    requires WellFormed(view) && DistinctIds(view.lists)
    ensures var order := TopLists(Exact, q, view, n);
            Probed(EXACT, q, view, n).best[4].dist != MAX_INT64 <==> |RowsOf(view.lists, order)| >= 5
  {
    hide Top, Expand, RowsOf, Candidates, DistinctIds;
    ProbedIsBest5(q, view, n);
    ProbeScansEachOnce(Exact, q, view, n);
    LastSlotFilledIff(Probed(EXACT, q, view, n).best, Candidates(q, view.lists, Elements(TopLists(Exact, q, view, n))));
    CandidateCountOfRun(q, view.lists, TopLists(Exact, q, view, n));
  }

  /**
   A first stage is exact if and only if the lists it selects store the nearest references; so is a second
   stage without repair, over the wider selection.
   */
  lemma {:induction false} ProbedIsExactIff(q: Vec, view: View, refs: seq<Reference>, n: int)
    requires WellFormed(view) && Represents(view.lists, refs) && |refs| <= 0x1_0000_0000
    ensures Probed(EXACT, q, view, n).best == Nearest5(q, refs)
            <==> HoldNearest(q, view.lists, refs, TopLists(Exact, q, view, n))
  {
    hide TopLists, Probed, HoldNearest, Nearest5;
    ProbedIsBest5(q, view, n);
    BestOfSomeIsExactIff(q, view.lists, refs, TopLists(Exact, q, view, n), Probed(EXACT, q, view, n).best);
  }

  /**
   After its second stage a search holds the five nearest references if and only if it repaired, or the lists
   within its reach store these.
   */
  lemma {:induction false} WidenedIsExactIff(ks: KernelPair, q: Vec, view: View, refs: seq<Reference>, cfg: Settings)
    requires WellFormed(view) && (view.boxes != [] ==> Covered(view))
    requires Represents(view.lists, refs) && |refs| <= 0x1_0000_0000 && FullDistances(ks, q, view)
    ensures Widened(ks, q, view, cfg).best == Nearest5(q, refs)
            <==> Repairs(q, view, cfg) || HoldNearest(q, view.lists, refs, Reached(q, view, cfg))
  {
    hide TopLists, Probed, HoldNearest, Nearest5, Widened, RowsOf, InDoubt, Candidates, FullDistances;
    FullDistanceSearchIsExact(ks, q, view, cfg);
    WidenedIs(q, view, cfg);
    var n := Reach(q, view, cfg);
    ProbedIsExactIff(q, view, refs, n);
    if Repairs(q, view, cfg) {
      EnoughRowsIff(q, view, n);
      ProbedIsBest5(q, view, n);
      RepairIsExact(q, Probed(EXACT, q, view, n), view);
      ExactStateIsNearest5(q, view.lists, refs, Repair(Exact, q, Probed(EXACT, q, view, n), view));
    }
  }

  // ---- the late stage -------------------------------------------------------------------------

  /** The lists a late expansion scans: within reach of the largest selection, but not before. */
  ghost function LateLists(q: Vec, view: View, cfg: Settings): (order: seq<nat>)
    requires WellFormed(view)
    ensures ValidOrder(view.lists, order)
  {
    UnmarkedIsValid(view.lists, TopLists(Exact, q, view, MAX_PROBE), Elements(Reached(q, view, cfg)));
    Unmarked(TopLists(Exact, q, view, MAX_PROBE), Elements(Reached(q, view, cfg)))
  }

  /** The lists of the order store none of the first four of the nearest references. */
  ghost predicate HoldNoneOfFour(q: Vec, lists: seq<seq<Row>>, refs: seq<Reference>, order: seq<nat>) {
    forall i :: 0 <= i < 4 && Nearest5(q, refs)[i] != VACANT ==> !IsHeld(lists, order, Nearest5(q, refs)[i].id)
  }

  /** Without a repair a late expansion probes the largest selection. */
  lemma LateAfterProbe(q: Vec, view: View, n: int)
    requires WellFormed(view)
    ensures LateExpanded(EXACT, q, view, Probed(EXACT, q, view, n)) == Probed(EXACT, q, view, MAX_PROBE)
  {
    hide Expand, Top;
    if n <= MAX_PROBE {
      ProbeThenExpand(q, view, n, MAX_PROBE);
    } else {
      ProbeThenExpand(q, view, MAX_PROBE, MAX_PROBE);
    }
  }

  /**
   After a repair the late expansion scans again what the repair scanned, so it keeps the five nearest
   references if and only if none of its lists stores one of the first four. Without a repair it holds
   them if and only if the largest selection stores them.
   */
  lemma {:induction false} LateIsExactIff(ks: KernelPair, q: Vec, view: View, refs: seq<Reference>, cfg: Settings)
    requires WellFormed(view) && (view.boxes != [] ==> Covered(view))
    requires Represents(view.lists, refs) && |refs| <= 0x1_0000_0000 && FullDistances(ks, q, view)
    ensures LateExpanded(ks, q, view, Widened(ks, q, view, cfg)).best == Nearest5(q, refs)
            <==> if Repairs(q, view, cfg) then HoldNoneOfFour(q, view.lists, refs, LateLists(q, view, cfg))
                 else HoldNearest(q, view.lists, refs, TopLists(Exact, q, view, MAX_PROBE))
  {
    hide TopLists, Probed, HoldNearest, HoldNoneOfFour, Nearest5, Widened, Repairs, Repair, LateExpanded, LateLists,
         SpanSafe, LanesAgree, Represents;
    RepresentsDistinct(view.lists, refs);
    FullDistanceSearchIsExact(ks, q, view, cfg);
    WidenedIs(q, view, cfg);
    LateDoesNotDepend(ks, q, view, Widened(EXACT, q, view, cfg));
    var n := Reach(q, view, cfg);
    if Repairs(q, view, cfg) {
      WidenedIsExactIff(EXACT, q, view, refs, cfg);
      ProbedIsBest5(q, view, n);
      RepairedThenExpanded(q, view, refs, cfg, Widened(EXACT, q, view, cfg));
    } else {
      LateAfterProbe(q, view, n);
      ProbedIsExactIff(q, view, refs, MAX_PROBE);
    }
  }

  lemma LateDoesNotDepend(ks: KernelPair, q: Vec, view: View, p: Progress)
    requires WellFormed(view) && FullDistances(ks, q, view) && |p.best| == 5
    ensures LateExpanded(ks, q, view, p) == LateExpanded(EXACT, q, view, p)
  {
    hide SpanSafe, LanesAgree, CentroidDists, Top, Expand;
    CentroidDistsAgree(ks.select, q, view);
    if ks.scan == Avx2 {
      Avx2ExpandIsExact(q, p, view, TopLists(Exact, q, view, MAX_PROBE));
    }
  }

  lemma RepairedThenExpanded(q: Vec, view: View, refs: seq<Reference>, cfg: Settings, w: Progress)
    requires WellFormed(view) && Represents(view.lists, refs) && |refs| <= 0x1_0000_0000
    requires w == Progress(Nearest5(q, refs), Elements(Reached(q, view, cfg)))
    ensures LateExpanded(EXACT, q, view, w).best == Nearest5(q, refs)
            <==> HoldNoneOfFour(q, view.lists, refs, LateLists(q, view, cfg))
  {
    hide Top, Nearest5, Expand, IsBest5, Candidates, IsHeld, Reached, Represents, ReferenceEntries;
    var lists, order := view.lists, TopLists(Exact, q, view, MAX_PROBE);
    var nearest, all := Nearest5(q, refs), Members(ReferenceEntries(q, refs));
    var again, r := LateLists(q, view, cfg), LateExpanded(EXACT, q, view, w).best;
    Nearest5IsBest5(q, refs);
    CandidatesAreReferences(q, lists, refs);
    RepresentsDistinct(lists, refs);
    LateExpansionIsExactIff(q, lists, w, order);
    if IsBest5(r, all) {
      Best5IsUnique(r, nearest, all);
    }
    forall i | 0 <= i < 4 && nearest[i] != VACANT
      ensures IsHeld(lists, again, nearest[i].id) <==> Rescans(q, lists, order, w.probed, nearest[i])
    {
      MemberOfBest(nearest, all, i);
      HeldIsCandidate(q, lists, refs, again, nearest[i]);
      RescannedIsCandidate(q, lists, order, w.probed, nearest[i]);
    }
    NoneRescanned(q, lists, order, w.probed, nearest);
  }

  lemma RepresentsDistinct(lists: seq<seq<Row>>, refs: seq<Reference>)
    requires Represents(lists, refs)
    ensures DistinctIds(lists)
  {
  }

  lemma MemberOfBest(s: seq<Entry>, c: set<Entry>, i: nat)
    requires IsBest5(s, c) && i < 5 && s[i] != VACANT
    ensures s[i] in c
  {
  }

  /** The expansion offers this entry again. */
  ghost predicate Rescans(q: Vec, lists: seq<seq<Row>>, order: seq<nat>, probed: set<nat>, e: Entry) {
    exists c, i :: IsRescanned(lists, order, probed, c, i) && RowEntry(q, lists[c][i]) == e
  }

  lemma RescannedIsCandidate(q: Vec, lists: seq<seq<Row>>, order: seq<nat>, probed: set<nat>, e: Entry)
    ensures Rescans(q, lists, order, probed, e) <==> e in Candidates(q, lists, Elements(Unmarked(order, probed)))
  {
    var again := Unmarked(order, probed);
    UnmarkedMembers(order, probed);
    if e in Candidates(q, lists, Elements(again)) {
      var n, i :| n in Elements(again) && 0 <= n < |lists| && 0 <= i < |lists[n]| && e == RowEntry(q, lists[n][i]);
      assert IsRescanned(lists, order, probed, n, i);
    }
    if Rescans(q, lists, order, probed, e) {
      var c, i :| IsRescanned(lists, order, probed, c, i) && RowEntry(q, lists[c][i]) == e;
      assert c in Elements(again);
    }
  }

  lemma NoneRescanned(q: Vec, lists: seq<seq<Row>>, order: seq<nat>, probed: set<nat>, s: seq<Entry>)
    requires |s| == 5
    ensures (forall c, i :: IsRescanned(lists, order, probed, c, i) ==> RowEntry(q, lists[c][i]) !in s[..4])
            <==> forall i :: 0 <= i < 4 && s[i] != VACANT ==> !Rescans(q, lists, order, probed, s[i])
  {
    if c, i :| IsRescanned(lists, order, probed, c, i) && RowEntry(q, lists[c][i]) in s[..4] {
      var k :| 0 <= k < 4 && s[k] == RowEntry(q, lists[c][i]);
      assert Rescans(q, lists, order, probed, s[k]);
    }
    if k :| 0 <= k < 4 && s[k] != VACANT && Rescans(q, lists, order, probed, s[k]) {
      assert s[k] in s[..4];
    }
  }

  // ---- the answer -----------------------------------------------------------------------------

  /** The late stage that a count calls for. */
  predicate GoesLate(q: Vec, repair: bool, frauds: int) {
    repair && ((frauds < 3 && NeedsApprovalRepair(q)) || (frauds >= 3 && NeedsDenialRepair(q)))
  }

  /** The fraud count among the five nearest references, with the denial that is forced to 3. */
  function BruteForce(q: Vec, refs: seq<Reference>, repair: bool): int {
    var exact := ExactFrauds(q, refs);
    if repair && exact < 3 && NeedsApprovalRepair(q) && NeedsKnownLateDenialRepair(q) then 3 else exact
  }

  /**
   The last state of a search is exact: the late one where the count after the second stage calls for it,
   whatever the second stage held, and the second one elsewhere. See WidenedIsExactIff and LateIsExactIff.
   */
  ghost predicate EndsExact(q: Vec, view: View, refs: seq<Reference>, cfg: Settings)
    requires WellFormed(view)
  {
    if GoesLate(q, cfg.repair, CountFrauds(Widened(EXACT, q, view, cfg).best)) then
      if Repairs(q, view, cfg) then HoldNoneOfFour(q, view.lists, refs, LateLists(q, view, cfg))
      else HoldNearest(q, view.lists, refs, TopLists(Exact, q, view, MAX_PROBE))
    else
      Repairs(q, view, cfg) || HoldNearest(q, view.lists, refs, Reached(q, view, cfg))
  }

  /** No query calls for both late stages, and the forced denial belongs to queries that call for the first. */
  lemma RepairsAreApart(q: Vec)
    ensures !(NeedsApprovalRepair(q) && NeedsDenialRepair(q))
    ensures NeedsKnownLateDenialRepair(q) ==> NeedsApprovalRepair(q)
  {
  }

  /** Whatever the kernels: a search whose last state is exact answers what brute force does. */
  lemma {:induction false} LastStateAnswers(ks: KernelPair, q: Vec, view: View, refs: seq<Reference>, cfg: Settings)
    requires WellFormed(view)
    requires var w := Widened(ks, q, view, cfg);
             if GoesLate(q, cfg.repair, CountFrauds(w.best)) then LateExpanded(ks, q, view, w).best == Nearest5(q, refs)
             else w.best == Nearest5(q, refs)
    ensures Search(ks, q, view, cfg) == BruteForce(q, refs, cfg.repair)
  {
    hide Nearest5, Widened, LateExpanded, NeedsApprovalRepair, NeedsDenialRepair, NeedsKnownLateDenialRepair,
         CountFrauds;
    RepairsAreApart(q);
  }

  /** A search that ends exact answers what brute force does. */
  lemma {:induction false} ExactAnswer(ks: KernelPair, q: Vec, view: View, refs: seq<Reference>, cfg: Settings)
    requires WellFormed(view) && (view.boxes != [] ==> Covered(view))
    requires Represents(view.lists, refs) && |refs| <= 0x1_0000_0000 && FullDistances(ks, q, view)
    requires EndsExact(q, view, refs, cfg)
    ensures Search(ks, q, view, cfg) == BruteForce(q, refs, cfg.repair)
  {
    hide TopLists, HoldNearest, HoldNoneOfFour, Nearest5, Widened, Repairs, LateExpanded, LateLists, FullDistances,
         Represents, GoesLate, BruteForce, Search, CountFrauds;
    FullDistanceSearchIsExact(ks, q, view, cfg);
    WidenedIsExactIff(ks, q, view, refs, cfg);
    LateIsExactIff(ks, q, view, refs, cfg);
    LastStateAnswers(ks, q, view, refs, cfg);
  }
}
