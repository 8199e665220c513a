/** What a whole search returns, compared with brute force over the references. */
module SearchResults {
  import opened Machine
  import opened Metric
  import opened TopFive
  import opened ProbeOrder
  import opened SearchTheory
  import opened Exactness
  import opened Runs

  /** The fraud count among the five nearest references. */
  function ExactFrauds(q: Vec, refs: seq<Reference>): nat {
    CountFrauds(Nearest5(q, refs))
  }

  /** After probing, the state is the best five of the probed lists. */
  lemma ProbedIsBest5(q: Vec, view: View, n: int)
    requires WellFormed(view) && DistinctIds(view.lists)
    ensures var p := Probed(EXACT, q, view, n);
            && IsBest5(p.best, Candidates(q, view.lists, p.probed))
            && p.probed == Elements(TopLists(Exact, q, view, n)) <= AllLists(view.lists)
  {
    StartIsBest5(q, view.lists);
    ExpandKeepsBest5(q, START, view.lists, TopLists(Exact, q, view, n));
    assert {} + Elements(TopLists(Exact, q, view, n)) == Elements(TopLists(Exact, q, view, n));
  }

  /**
   Repair gives exact search: probing n lists, expanding to m and repairing leaves exactly the five
   nearest references when the probed lists hold at least five rows.
   */
  lemma ProbeExpandRepairIsExact(q: Vec, view: View, refs: seq<Reference>, n: int, m: int)
    requires WellFormed(view) && Covered(view) && Represents(view.lists, refs) && |refs| <= 0x1_0000_0000
    requires |Candidates(q, view.lists, Elements(TopLists(Exact, q, view, n)))| >= 5
    ensures var p := Expand(Exact, q, Probed(EXACT, q, view, n), view.lists, TopLists(Exact, q, view, m));
            Repair(Exact, q, p, view) == Nearest5(q, refs)
  {
    ProbedIsBest5(q, view, n);
    var first := Probed(EXACT, q, view, n);
    var order := TopLists(Exact, q, view, m);
    ExpandKeepsBest5(q, first, view.lists, order);
    var p := Expand(Exact, q, first, view.lists, order);
    var before, after := Candidates(q, view.lists, first.probed), Candidates(q, view.lists, p.probed);
    assert before <= after;
    CardinalityMonotone(before, after);
    LastSlotFilledIff(p.best, after);
    RepairIsExact(q, p, view);
    ExactStateIsNearest5(q, view.lists, refs, Repair(Exact, q, p, view));
  }

  lemma ProbeRepairIsExact(q: Vec, view: View, refs: seq<Reference>, n: int)
    requires WellFormed(view) && Covered(view) && Represents(view.lists, refs) && |refs| <= 0x1_0000_0000
    requires |Candidates(q, view.lists, Elements(TopLists(Exact, q, view, n)))| >= 5
    ensures Repair(Exact, q, Probed(EXACT, q, view, n), view) == Nearest5(q, refs)
  {
    ProbeExpandRepairIsExact(q, view, refs, n, n);
    ProbedIsBest5(q, view, n);
    ExpandSkipsProbed(Exact, q, Probed(EXACT, q, view, n), view.lists, TopLists(Exact, q, view, n));
  }

  /**
   A search that runs its repair pass and neither late stage returns the brute-force count, provided
   the first probes offered five rows.
   */
  lemma RepairedSearchIsExact(ks: KernelPair, q: Vec, view: View, refs: seq<Reference>, cfg: Settings)
    requires WellFormed(view) && Covered(view) && Represents(view.lists, refs) && |refs| <= 0x1_0000_0000
    requires FullDistances(ks, q, view)
    requires cfg.repair && IsAmbiguousFraudCount(q, CountFrauds(Probed(ks, q, view, cfg.nprobe).best))
    requires |Candidates(q, view.lists, Elements(TopLists(ks.select, q, view, cfg.nprobe)))| >= 5
    ensures Widened(ks, q, view, cfg).best == Nearest5(q, refs)
    ensures !(ExactFrauds(q, refs) < 3 && NeedsApprovalRepair(q))
            && !(ExactFrauds(q, refs) >= 3 && NeedsDenialRepair(q))
            ==> Search(ks, q, view, cfg) == ExactFrauds(q, refs)
  {
    FullDistanceSearchIsExact(ks, q, view, cfg);
    CentroidDistsAgree(ks.select, q, view);
    ProbeRepairIsExact(q, view, refs, cfg.nprobe);
    ProbeExpandRepairIsExact(q, view, refs, cfg.nprobe, cfg.ambiguousNProbe);
  }

  /** Once every list is probed, later stages change nothing and the state is the brute-force one. */
  lemma AllProbedIsExact(q: Vec, view: View, refs: seq<Reference>, n: int)
    requires WellFormed(view) && Represents(view.lists, refs) && |refs| <= 0x1_0000_0000
    requires |view.lists| <= n && |view.lists| <= MAX_PROBE
    ensures var p := Probed(EXACT, q, view, n);
            p.best == Nearest5(q, refs) && p.probed == AllLists(view.lists)
            && Repair(Exact, q, p, view) == p.best
            && forall m: int :: Expand(Exact, q, p, view.lists, TopLists(Exact, q, view, m)) == p
  {
    var p := Probed(EXACT, q, view, n);
    ProbedIsBest5(q, view, n);
    assert ProbeCount(n, |view.lists|) == |view.lists|;
    TopOfAllIsAll(CentroidDists(Exact, q, view.centroids, view.lanes));
    ExactStateIsNearest5(q, view.lists, refs, p.best);
    if view.boxes != [] {
      var targets := RepairTargets(q, p.probed, view.boxes, p.best[4].dist, |view.boxes|);
      RepairTargetsMembers(q, p.probed, view.boxes, p.best[4].dist, |view.boxes|);
      assert forall i :: 0 <= i < |targets| ==> targets[i] in targets && targets[i] in p.probed;
    }
    forall m: int
      ensures Expand(Exact, q, p, view.lists, TopLists(Exact, q, view, m)) == p
    {
      assert Elements(TopLists(Exact, q, view, m)) <= AllLists(view.lists);
      ExpandSkipsProbed(Exact, q, p, view.lists, TopLists(Exact, q, view, m));
    }
  }

  /**
   Full probing equals the baseline: with every list within reach of the first probe, a search
   returns the brute-force count, except for the queries whose denial is forced to 3.
   */
  lemma FullProbingEqualsBaseline(ks: KernelPair, q: Vec, view: View, refs: seq<Reference>, cfg: Settings)
    requires WellFormed(view) && Represents(view.lists, refs) && |refs| <= 0x1_0000_0000
    requires FullDistances(ks, q, view)
    requires |view.lists| <= cfg.nprobe && |view.lists| <= MAX_PROBE
    ensures var exact := ExactFrauds(q, refs);
            Search(ks, q, view, cfg)
            == if cfg.repair && exact < 3 && NeedsApprovalRepair(q) && NeedsKnownLateDenialRepair(q) then 3
               else exact
  {
    hide Expand, TopLists, Repair, Nearest5, CountFrauds, Probed, Search, Widened, Represents, FullDistances,
         NeedsApprovalRepair, NeedsKnownLateDenialRepair;
    FullDistanceSearchIsExact(ks, q, view, cfg);
    AllProbedIsExact(q, view, refs, cfg.nprobe);
    var p := Probed(EXACT, q, view, cfg.nprobe);
    assert Expand(Exact, q, p, view.lists, TopLists(Exact, q, view, cfg.ambiguousNProbe)) == p;
    assert Expand(Exact, q, p, view.lists, TopLists(Exact, q, view, MAX_PROBE)) == p;
    SettledSearch(q, view, cfg);
  }

  /** A search whose later stages change nothing counts the frauds of its first. */
  lemma SettledSearch(q: Vec, view: View, cfg: Settings)
    requires WellFormed(view)
    requires var p := Probed(EXACT, q, view, cfg.nprobe);
             && Repair(Exact, q, p, view) == p.best
             && Expand(Exact, q, p, view.lists, TopLists(Exact, q, view, cfg.ambiguousNProbe)) == p
             && Expand(Exact, q, p, view.lists, TopLists(Exact, q, view, MAX_PROBE)) == p
    ensures var frauds := CountFrauds(Probed(EXACT, q, view, cfg.nprobe).best);
            Search(EXACT, q, view, cfg)
            == if cfg.repair && frauds < 3 && NeedsApprovalRepair(q) && NeedsKnownLateDenialRepair(q) then 3
               else frauds
  {
    hide Expand, TopLists, Repair, CountFrauds, Probed, NeedsApprovalRepair, NeedsDenialRepair,
         NeedsKnownLateDenialRepair, IsAmbiguousFraudCount;
  }

  // ---- where exactness stops ------------------------------------------------------------------

  /** The rows a late expansion offers: those of selected lists not marked as probed. */
  function Unmarked(order: seq<nat>, probed: set<nat>): seq<nat> {
    if order == [] then []
    else
      var head := Unmarked(order[..|order| - 1], probed);
      if order[|order| - 1] in probed then head else head + [order[|order| - 1]]
  }

  lemma {:induction false} UnmarkedMembers(order: seq<nat>, probed: set<nat>)
    ensures forall c :: c in Unmarked(order, probed) <==> c in order && c !in probed
  {
    if order != [] {
      UnmarkedMembers(order[..|order| - 1], probed);
      assert order == order[..|order| - 1] + [order[|order| - 1]];
    }
  }

  lemma {:induction false} ExpandScansUnmarked(k: Kernel, q: Vec, p: Progress, lists: seq<seq<Row>>, order: seq<nat>)
    requires |p.best| == 5 && ValidOrder(lists, order) && Distinct(order)
    ensures ValidOrder(lists, Unmarked(order, p.probed))
    ensures var r := Expand(k, q, p, lists, order);
            && r.best == ScanLists(k, q, p.best, lists, Unmarked(order, p.probed))
            && r.probed == p.probed + Elements(order)
  {
    UnmarkedIsValid(lists, order, p.probed);
    if order == [] {
      assert p.probed + Elements(order) == p.probed;
    } else {
      var n := |order| - 1;
      var head, before := order[..n], Unmarked(order[..n], p.probed);
      ExpandScansUnmarked(k, q, p, lists, head);
      assert Elements(order) == Elements(head) + {order[n]};
      var m, c := Expand(k, q, p, lists, head), order[n];
      assert c !in head;
      if c in p.probed {
        assert Expand(k, q, p, lists, order) == m;
        assert Unmarked(order, p.probed) == before;
      } else {
        assert Expand(k, q, p, lists, order) == Progress(ScanRows(k, q, m.best, lists[c]), m.probed + {c});
        ScanListsSnoc(k, q, p.best, lists, before, c);
        assert Unmarked(order, p.probed) == before + [c];
      }
    }
  }

  lemma UnmarkedIsValid(lists: seq<seq<Row>>, order: seq<nat>, probed: set<nat>)
    requires ValidOrder(lists, order)
    ensures ValidOrder(lists, Unmarked(order, probed))
  {
    var u := Unmarked(order, probed);
    UnmarkedMembers(order, probed);
    assert forall i :: 0 <= i < |u| ==> u[i] in order;
  }

  /**
   A repair does not mark the lists it scans, so a later expansion offers their rows again. From an
   exact state that stays exact if and only if none of the rescanned lists holds one of the four
   nearest rows.
   */
  lemma {:induction false} LateExpansionIsExactIff(q: Vec, lists: seq<seq<Row>>, p: Progress, order: seq<nat>)
    requires DistinctIds(lists) && ValidOrder(lists, order) && Distinct(order)
    requires IsBest5(p.best, Candidates(q, lists, AllLists(lists)))
    ensures IsBest5(Expand(Exact, q, p, lists, order).best, Candidates(q, lists, AllLists(lists)))
            <==> forall c, i :: IsRescanned(lists, order, p.probed, c, i)
                                ==> RowEntry(q, lists[c][i]) !in p.best[..4]
  {
    var all, again := Candidates(q, lists, AllLists(lists)), Unmarked(order, p.probed);
    var r := Expand(Exact, q, p, lists, order).best;
    ExpandScansUnmarked(Exact, q, p, lists, order);
    var es := RowEntries(q, RowsOf(lists, again));
    assert r == OfferAll(p.best, es) by {
      ScanListsIsOneScan(Exact, q, p.best, lists, again);
      ExactScanOffersEntries(q, p.best, RowsOf(lists, again));
    }
    assert IsBest5(r, all) <==> r == p.best by {
      if IsBest5(r, all) {
        IdsAreUnique(q, lists);
        Best5IsUnique(r, p.best, all);
      }
    }
    assert r == p.best <==> !exists e :: e in es && Less(e, p.best[4]) by {
      OffersChangeNothingIff(p.best, es);
      assert !Improved(p.best, p.best);
    }
    RescannedEntries(q, lists, order, p.probed, again);
    forall e | e in es
      ensures e in all && (Less(e, p.best[4]) <==> e in p.best[..4])
    {
      var c, i :| IsRescanned(lists, order, p.probed, c, i) && RowEntry(q, lists[c][i]) == e;
      BeatsLastIff(p.best, all, e);
    }
  }

  ghost predicate IsRescanned(lists: seq<seq<Row>>, order: seq<nat>, probed: set<nat>, c: int, i: int) {
    c in order && c !in probed && 0 <= c < |lists| && 0 <= i < |lists[c]|
  }

  lemma RescannedEntries(q: Vec, lists: seq<seq<Row>>, order: seq<nat>, probed: set<nat>, again: seq<nat>)
    requires ValidOrder(lists, order) && ValidOrder(lists, again) && again == Unmarked(order, probed)
    ensures forall e :: e in RowEntries(q, RowsOf(lists, again))
                        <==> exists c, i :: IsRescanned(lists, order, probed, c, i) && RowEntry(q, lists[c][i]) == e
  {
    UnmarkedMembers(order, probed);
    forall e | e in RowEntries(q, RowsOf(lists, again))
      ensures exists c, i :: IsRescanned(lists, order, probed, c, i) && RowEntry(q, lists[c][i]) == e
    {
      var k :| 0 <= k < |RowsOf(lists, again)| && RowEntries(q, RowsOf(lists, again))[k] == e;
      var c, i := RowOfLists(lists, again, k);
      assert IsRescanned(lists, order, probed, c, i);
    }
    forall c, i | IsRescanned(lists, order, probed, c, i)
      ensures RowEntry(q, lists[c][i]) in RowEntries(q, RowsOf(lists, again))
    {
      var k := PositionOfRow(lists, again, c, i);
      assert RowEntries(q, RowsOf(lists, again))[k] == RowEntry(q, lists[c][i]);
    }
  }

  /** Among the candidates, exactly the first four of the best five beat the last slot. */
  lemma BeatsLastIff(s: seq<Entry>, c: set<Entry>, e: Entry)
    requires IsBest5(s, c) && e in c
    ensures Less(e, s[4]) <==> e in s[..4]
  {
    assert s == s[..4] + [s[4]];
    assert forall i :: 0 <= i < 4 ==> Less(s[i], s[4]) || s[4] == VACANT;
    assert e != s[4] ==> (e in s <==> e in s[..4]);
  }

  lemma IdsAreUnique(q: Vec, lists: seq<seq<Row>>)
    requires DistinctIds(lists)
    ensures UniqueIds(Candidates(q, lists, AllLists(lists)))
  {
  }
}
