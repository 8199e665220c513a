/** The index object and its search methods, each proved against the logical search. */
module QuantizedIndex {
  import opened Machine
  import opened Metric
  import opened TopFive
  import opened ProbeOrder
  import opened SearchTheory
  import opened Exactness
  import opened Layout
  import opened Transpose
  import opened Kernels
  import opened SearchState
  import opened Selection
  import opened Scan

  /** The kernels in use: the processor decides, and the row scan needs blocks for SIMD. */
  function SelectKernel(avx2: bool): Kernel {
    if avx2 then Avx2 else Scalar
  }

  function KernelsOf(data: IndexData, avx2: bool): KernelPair {
    KernelPair(SelectKernel(avx2), ScanKernel(data, avx2))
  }

  /** Probe counts brought into range: 1 <= nprobe <= ambiguousNProbe <= clusters. */
  ghost predicate Normalized(ivf: IvfMetadata) {
    1 <= ivf.nprobe <= ivf.ambiguousNProbe <= ivf.clusters
  }

  function Clamp(x: int, low: int, high: int): int {
    if x < low then low else if x > high then high else x
  }

  /** The normalised probe counts over unbounded integers. */
  function InRange(cfg: Settings, clusters: int): Settings {
    var n := if cfg.nprobe <= 0 then 8 else cfg.nprobe;
    var a := if cfg.ambiguousNProbe <= 0 then 5 * n else cfg.ambiguousNProbe;
    Settings(Min(n, clusters), Clamp(a, Min(n, clusters), clusters), cfg.repair)
  }

  function Normalize(ivf: IvfMetadata): IvfMetadata {
    var cfg := InRange(Settings(ivf.nprobe, ivf.ambiguousNProbe, ivf.repair), ivf.clusters);
    ivf.(nprobe := cfg.nprobe, ambiguousNProbe := cfg.ambiguousNProbe)
  }

  /** New settings before normalisation: non-positive counts keep the current ones. */
  function Reconfigured(ivf: IvfMetadata, nprobe: int, ambiguousNProbe: int, repair: bool): IvfMetadata {
    ivf.(nprobe := if nprobe > 0 then nprobe else ivf.nprobe,
         ambiguousNProbe := if ambiguousNProbe > 0 then ambiguousNProbe else ivf.ambiguousNProbe,
         repair := repair)
  }

  /**
   The probe counts in force when n and a are asked for over k lists: n defaults to 8 and a to five times that;
   then n is at most k, and a lies between the result and k.
   */
  ghost predicate CountsFor(n: int, a: int, k: int, nprobe: int, ambiguousNProbe: int) {
    && (n <= 0 ==> nprobe == if 8 <= k then 8 else k)
    && (0 < n <= k ==> nprobe == n)
    && (n > 0 && n > k ==> nprobe == k)
    && (0 < a < nprobe ==> ambiguousNProbe == nprobe)
    && (0 < a && nprobe <= a <= k ==> ambiguousNProbe == a)
    && (0 < a && a > k ==> ambiguousNProbe == k)
    && (a <= 0 && n <= 0 ==> ambiguousNProbe == if 40 <= k then 40 else k)
    && (a <= 0 && n > 0 ==> ambiguousNProbe == if 5 * n <= k then 5 * n else k)
  }

  /** What normalising does, case by case; the server's defaults of 8 and 24, for one, become 8 and 16 over 16 lists. */
  lemma InRangeIs(cfg: Settings, clusters: int)
    requires clusters > 0
    ensures var r := InRange(cfg, clusters);
            && CountsFor(cfg.nprobe, cfg.ambiguousNProbe, clusters, r.nprobe, r.ambiguousNProbe)
            && r.repair == cfg.repair
    ensures InRange(Settings(8, 24, cfg.repair), 16) == Settings(8, 16, cfg.repair)
    ensures InRange(Settings(0, 0, cfg.repair), 16) == Settings(8, 16, cfg.repair)
    ensures InRange(Settings(0, 0, cfg.repair), 8192) == Settings(8, 40, cfg.repair)
  {
  }

  /** Normalising is idempotent, and its fixed points are exactly the counts in range. */
  lemma NormalizeFixes(ivf: IvfMetadata)
    requires ivf.clusters > 0
    ensures Normalized(Normalize(ivf))
    ensures Normalize(ivf) == ivf <==> Normalized(ivf)
    ensures Normalize(Normalize(ivf)) == Normalize(ivf)
  {
  }

  class QuantizedIndex {
    var vectors: seq<Int16>
    var blocks: seq<Int16>
    var labels: seq<Byte>
    var ivf: IvfMetadata

    function Data(): IndexData
      reads this
    {
      IndexData(vectors, blocks, labels, ivf)
    }

    /** Wraps the tables, transposing the centroids unless that was done, and fixes the probe counts. */
    constructor NewIvfQuantizedIndex(vectors: seq<Int16>, labels: seq<Byte>, ivf: IvfMetadata)
      requires IsInt64(ivf.nprobe) && IsInt64(ivf.ambiguousNProbe) && |ivf.centroids| <= MAX_INT64
      ensures this.vectors == vectors && this.labels == labels && this.blocks == []
      ensures Data().HasIvf() ==> Normalized(this.ivf)
      ensures Data().HasIvf() ==>
                CountsFor(ivf.nprobe, ivf.ambiguousNProbe, ivf.clusters, this.ivf.nprobe, this.ivf.ambiguousNProbe)
      ensures this.ivf == (if Data().HasIvf() then Normalize(ivf) else ivf).(centroidBlocks := this.ivf.centroidBlocks)
      ensures !(ivf.clusters > 0 && |ivf.centroids| >= ivf.clusters * 14 && ivf.centroidBlocks == [])
              ==> this.ivf.centroidBlocks == ivf.centroidBlocks
      ensures ivf.clusters > 0 && |ivf.centroids| >= ivf.clusters * 14 && ivf.centroidBlocks == []
              ==> this.ivf.centroidBlocks == TransposeTable(ivf.centroids, ivf.clusters)
    {
      hide CountsFor, InRange, TransposeTable;
      this.vectors, this.blocks, this.labels, this.ivf := vectors, [], labels, ivf;
      new;
      if ivf.clusters > 0 && |ivf.centroids| >= ivf.clusters * 14 && |ivf.centroidBlocks| == 0 {
        var table := BuildCentroidBlocks(ivf.centroids, ivf.clusters);
        this.ivf := ivf.(centroidBlocks := table[..]);
      }
      ghost var before := this.ivf;
      NormalizeIvfDefaults();
      if this.ivf.clusters > 0 {
        NormalizeFixes(before);
      }
    }

    /** Brings the probe counts into range; the 64-bit product never changes the outcome. */
    method NormalizeIvfDefaults()
      requires IsInt64(ivf.nprobe) && IsInt64(ivf.ambiguousNProbe) && |ivf.centroids| <= MAX_INT64
      modifies `ivf
      ensures ivf == if old(Data().HasIvf()) then Normalize(old(ivf)) else old(ivf)
      ensures old(Data().HasIvf()) ==>
                CountsFor(old(ivf.nprobe), old(ivf.ambiguousNProbe), ivf.clusters, ivf.nprobe, ivf.ambiguousNProbe)
    {
      hide CountsFor;
      if !Data().HasIvf() {
        return;
      }
      InRangeIs(Settings(ivf.nprobe, ivf.ambiguousNProbe, ivf.repair), ivf.clusters);
      if ivf.nprobe <= 0 {
        ivf := ivf.(nprobe := 8);
      }
      if ivf.ambiguousNProbe <= 0 {
        ivf := ivf.(ambiguousNProbe := Wrap64(ivf.nprobe * 5));
      }
      if ivf.nprobe > ivf.clusters {
        ivf := ivf.(nprobe := ivf.clusters);
      }
      if ivf.ambiguousNProbe < ivf.nprobe {
        ivf := ivf.(ambiguousNProbe := ivf.nprobe);
      }
      if ivf.ambiguousNProbe > ivf.clusters {
        ivf := ivf.(ambiguousNProbe := ivf.clusters);
      }
    }

    /** Non-positive counts leave the current ones; the view of the rows does not change. */
    method SetIvfSearch(nprobe: int, ambiguousNProbe: int, repair: bool)
      requires IsInt64(ivf.nprobe) && IsInt64(ivf.ambiguousNProbe) && |ivf.centroids| <= MAX_INT64
      requires IsInt64(nprobe) && IsInt64(ambiguousNProbe)
      modifies `ivf
      ensures !old(Data().HasIvf()) ==> ivf == old(ivf)
      ensures old(Data().HasIvf()) ==>
                Normalized(ivf) && ivf == Normalize(Reconfigured(old(ivf), nprobe, ambiguousNProbe, repair))
      ensures old(Data().HasIvf()) ==>
                CountsFor(if nprobe > 0 then nprobe else old(ivf.nprobe),
                          if ambiguousNProbe > 0 then ambiguousNProbe else old(ivf.ambiguousNProbe),
                          ivf.clusters, ivf.nprobe, ivf.ambiguousNProbe)
                && ivf.repair == repair
      ensures old(Data().Scannable()) ==> Data().Scannable() && Observed() == old(Observed())
    {
      hide CountsFor, InRange, SameTables;
      if !Data().HasIvf() {
        return;
      }
      if nprobe > 0 {
        ivf := ivf.(nprobe := nprobe);
      }
      if ambiguousNProbe > 0 {
        ivf := ivf.(ambiguousNProbe := ambiguousNProbe);
      }
      ivf := ivf.(repair := repair);
      NormalizeFixes(ivf);
      NormalizeIvfDefaults();
      if old(Data()).Scannable() {
        OnlySettingsChanged(old(Data()), Data());
        SameView(old(Data()), Data());
      }
    }

    /** The logical index, once its lists are known to be in bounds. */
    ghost function Observed(): View
      requires Data().Scannable()
      reads this
    {
      Data().Observed()
    }

    method TopIvfCentroids(avx2: bool, q: Vec, nprobe: int, out: array<nat>) returns (count: nat)
      requires Data().Searchable() && out.Length == MAX_PROBE
      modifies out
      ensures count <= MAX_PROBE
      ensures out[..count] == TopLists(SelectKernel(avx2), q, Observed(), nprobe)
    {
      ghost var view := Observed();
      assert view.centroids == Vectors(ivf.centroids, ivf.clusters);
      if avx2 {
        count := TopIvfCentroidsAvx2(q, ivf.centroids, ivf.centroidBlocks, ivf.clusters, nprobe, out);
      } else {
        count := TopIvfCentroidsScalar(q, ivf.centroids, ivf.clusters, nprobe, out);
        LanesDoNotMatter(Scalar, q, view.centroids, view.lanes, WholeBlocks(ivf.centroids, ivf.clusters));
      }
    }

    // ---- the stages of a search -----------------------------------------------------------

    /** Marks a list and scans it. */
    method VisitList(avx2: bool, q: Vec, c: nat, state: IvfSearchState)
      requires Data().Searchable() && state.Valid() && c < ivf.clusters
      modifies state.Repr
      ensures state.Valid()
      ensures Progress(state.Best(), state.Probed())
              == Visited(ScanKernel(Data(), avx2), q, old(Progress(state.Best(), state.Probed())), Observed().lists, c)
    {
      hide ScanRows;
      state.AddProbe(c);
      ScanIvfList(Data(), avx2, q, c, state);
    }

    /** The probe loop: scans the nearest lists in order, marking each. */
    method ProbeLists(avx2: bool, q: Vec, nprobe: int) returns (state: IvfSearchState)
      requires Data().Searchable()
      ensures state.Valid() && fresh(state.Repr)
      ensures Progress(state.Best(), state.Probed()) == Probed(KernelsOf(Data(), avx2), q, Observed(), nprobe)
    {
      hide Expand, TopLists, Visited, ExpandedTo, IndexData.Scannable;
      ghost var data, view := Data(), Observed();
      var probeIDs := new nat[MAX_PROBE];
      var probeCount := TopIvfCentroids(avx2, q, nprobe, probeIDs);
      ghost var order := probeIDs[..probeCount];
      state := new IvfSearchState();
      ExpandNothing(ScanKernel(data, avx2), q, START, view.lists, order);
      for i := 0 to probeCount
        invariant state.Valid() && fresh(state.Repr) && probeIDs[..probeCount] == order
        invariant ExpandedTo(ScanKernel(data, avx2), q, START, view.lists, order, i,
                             Progress(state.Best(), state.Probed()))
      {
        ghost var before := Progress(state.Best(), state.Probed());
        TopIsFresh(SelectKernel(avx2), ScanKernel(data, avx2), q, view, nprobe, order, i, before);
        ExpandStep(ScanKernel(data, avx2), q, START, view.lists, order, i, before);
        assert probeIDs[i] == order[i];
        VisitList(avx2, q, probeIDs[i], state);
      }
      AllExpanded(ScanKernel(data, avx2), q, START, view.lists, order, Progress(state.Best(), state.Probed()));
    }

    /** Probes, repairs if asked to, and counts. */
    method SearchIvfProbes(avx2: bool, q: Vec, nprobe: int, repair: bool) returns (frauds: nat, state: IvfSearchState)
      requires Data().Searchable()
      ensures state.Valid() && fresh(state.Repr)
      ensures var p := Probed(KernelsOf(Data(), avx2), q, Observed(), nprobe);
              && state.Probed() == p.probed
              && state.Best() == if repair then Repair(ScanKernel(Data(), avx2), q, p, Observed()) else p.best
      ensures frauds == CountFrauds(state.Best())
    {
      hide Probed, CountFrauds, Repair;
      state := ProbeLists(avx2, q, nprobe);
      if repair {
        RepairIvf(avx2, q, state);
      }
      frauds := state.CountFraudSlots();
    }

    /** One turn of the expansion loop. */
    method VisitUnmarkedList(avx2: bool, q: Vec, c: nat, state: IvfSearchState)
      requires Data().Searchable() && state.Valid() && c < ivf.clusters
      modifies state.Repr
      ensures state.Valid()
      ensures Progress(state.Best(), state.Probed())
              == if c in old(state.Probed()) then old(Progress(state.Best(), state.Probed()))
                 else Visited(ScanKernel(Data(), avx2), q, old(Progress(state.Best(), state.Probed())),
                              Observed().lists, c)
    {
      hide Visited;
      var marked := state.HasProbe(c);
      if marked {
        return;
      }
      VisitList(avx2, q, c, state);
    }

    /** Scans the selected lists that are not marked yet. */
    method ExpandIvfProbes(avx2: bool, q: Vec, state: IvfSearchState, nprobe: int)
      requires Data().Searchable() && state.Valid()
      modifies state.Repr
      ensures state.Valid()
      ensures Progress(state.Best(), state.Probed())
              == Expand(ScanKernel(Data(), avx2), q, old(Progress(state.Best(), state.Probed())),
                        Observed().lists, TopLists(SelectKernel(avx2), q, Observed(), nprobe))
    {
      hide Expand, TopLists, Visited, ExpandedTo, IndexData.Scannable;
      ghost var data, view := Data(), Observed();
      ghost var was := Progress(state.Best(), state.Probed());
      var probeIDs := new nat[MAX_PROBE];
      var probeCount := TopIvfCentroids(avx2, q, nprobe, probeIDs);
      ghost var order := probeIDs[..probeCount];
      ExpandNothing(ScanKernel(data, avx2), q, was, view.lists, order);
      for i := 0 to probeCount
        invariant state.Valid() && probeIDs[..probeCount] == order && Data() == data
        invariant ExpandedTo(ScanKernel(data, avx2), q, was, view.lists, order, i,
                             Progress(state.Best(), state.Probed()))
      {
        ExpandStep(ScanKernel(data, avx2), q, was, view.lists, order, i, Progress(state.Best(), state.Probed()));
        assert probeIDs[i] == order[i];
        VisitUnmarkedList(avx2, q, probeIDs[i], state);
      }
      AllExpanded(ScanKernel(data, avx2), q, was, view.lists, order, Progress(state.Best(), state.Probed()));
    }

    /** Scans every unmarked list whose box reaches the cutoff frozen at the start, marking none. */
    method RepairIvf(avx2: bool, q: Vec, state: IvfSearchState)
      requires Data().Searchable() && state.Valid()
      modifies state.bestDist, state.bestFraud, state.bestID
      ensures state.Valid() && state.Probed() == old(state.Probed())
      ensures state.Best()
              == Repair(ScanKernel(Data(), avx2), q, old(Progress(state.Best(), state.Probed())), Observed())
    {
      if |ivf.bboxMin| < ivf.clusters * 14 || |ivf.bboxMax| < ivf.clusters * 14 {
        return;
      }
      var cutoff := state.bestDist[4];
      if cutoff == MAX_INT64 {
        return;
      }
      RepairLists(avx2, q, cutoff, state);
    }

    method RepairLists(avx2: bool, q: Vec, cutoff: int, state: IvfSearchState)
      requires Data().Searchable() && Data().HasBoxes() && state.Valid()
      modifies state.bestDist, state.bestFraud, state.bestID
      ensures state.Valid() && state.Probed() == old(state.Probed())
      ensures state.Best()
              == ScanLists(ScanKernel(Data(), avx2), q, old(state.Best()), Observed().lists,
                           RepairTargets(q, state.Probed(), Observed().boxes, cutoff, |Observed().boxes|))
    {
      hide RepairTargets, ScanLists, ScanRows, RepairedTo, BoxDist;
      ghost var data, view := Data(), Observed();
      ghost var was, probed, k := state.Best(), state.Probed(), ScanKernel(Data(), avx2);
      NothingRepaired(k, q, was, view, probed, cutoff);
      for c := 0 to ivf.clusters
        invariant state.Valid() && state.Probed() == probed
        invariant RepairedTo(k, q, was, view, probed, cutoff, c, state.Best())
      {
        RepairStep(k, q, was, view, probed, cutoff, c, state.Best());
        RepairList(avx2, q, c, cutoff, state);
      }
      AllRepaired(k, q, was, view, probed, cutoff, state.Best());
    }

    /** One turn of the repair loop. */
    method RepairList(avx2: bool, q: Vec, c: nat, cutoff: int, state: IvfSearchState)
      requires Data().Searchable() && Data().HasBoxes() && c < ivf.clusters && state.Valid()
      modifies state.bestDist, state.bestFraud, state.bestID
      ensures state.Valid() && state.Probed() == old(state.Probed())
      ensures state.Best() == if c !in state.Probed() && BoxDist(q, Observed().boxes[c]) <= cutoff
                              then ScanRows(ScanKernel(Data(), avx2), q, old(state.Best()), Observed().lists[c])
                              else old(state.Best())
    {
      hide ScanRows, BoxDist;
      var marked := state.HasProbe(c);
      if marked {
        return;
      }
      var d := BoxDistance(q, ivf.bboxMin, ivf.bboxMax, c, cutoff);
      if d <= cutoff {
        ScanIvfList(Data(), avx2, q, c, state);
      }
    }

    method SearchIvf(avx2: bool, q: Vec) returns (frauds: int)
      requires Data().Searchable()
      ensures frauds == Search(KernelsOf(Data(), avx2), q, Observed(), Data().Config())
    {
      hide Expand, TopLists, Repair, CountFrauds, Probed, NeedsApprovalRepair, NeedsDenialRepair,
           NeedsKnownLateDenialRepair, IsAmbiguousFraudCount;
      var state: IvfSearchState;
      frauds, state := WidenedSearch(avx2, q);
      if ivf.repair && frauds < 3 && NeedsApprovalRepair(q) {
        ExpandIvfProbes(avx2, q, state, MAX_PROBE);
        frauds := state.CountFraudSlots();
        if frauds < 3 && NeedsKnownLateDenialRepair(q) {
          return 3;
        }
        return;
      }
      if ivf.repair && frauds >= 3 && NeedsDenialRepair(q) {
        ExpandIvfProbes(avx2, q, state, MAX_PROBE);
        frauds := state.CountFraudSlots();
      }
    }

    /** The first two stages: probe, then widen and repair ambiguous counts. */
    method WidenedSearch(avx2: bool, q: Vec) returns (frauds: int, state: IvfSearchState)
      requires Data().Searchable()
      ensures state.Valid() && fresh(state.Repr)
      ensures Progress(state.Best(), state.Probed()) == Widened(KernelsOf(Data(), avx2), q, Observed(), Data().Config())
      ensures frauds == CountFrauds(state.Best())
    {
      hide Expand, TopLists, Repair, CountFrauds, Probed, IsAmbiguousFraudCount;
      frauds, state := SearchIvfProbes(avx2, q, ivf.nprobe, false);
      if IsAmbiguousFraudCount(q, frauds) && ivf.ambiguousNProbe > ivf.nprobe {
        ExpandIvfProbes(avx2, q, state, ivf.ambiguousNProbe);
        if ivf.repair {
          RepairIvf(avx2, q, state);
        }
        frauds := state.CountFraudSlots();
      } else if ivf.repair && IsAmbiguousFraudCount(q, frauds) {
        RepairIvf(avx2, q, state);
        frauds := state.CountFraudSlots();
      }
    }

    /** An index without a usable clustering answers 0. */
    method Search5Quantized(avx2: bool, q: Vec) returns (frauds: int)
      requires Data().HasIvf() ==> Data().Searchable()
      ensures frauds == if Data().HasIvf() then Search(KernelsOf(Data(), avx2), q, Observed(), Data().Config()) else 0
    {
      if !Data().HasIvf() {
        return 0;
      }
      frauds := SearchIvf(avx2, q);
    }
  }

  /**
   The view does not depend on the probe counts, on unused row-major vectors, or on how the lanes that
   the SIMD selection reads are stored.
   */
  ghost predicate SameTables(a: IndexData, b: IndexData) {
    && a.HasIvf() && b.HasIvf() && a.Lanes() == b.Lanes()
    && a.blocks == b.blocks && a.labels == b.labels && (a.HasIvfBlocks() || a.vectors == b.vectors)
    && a.ivf == b.ivf.(nprobe := a.ivf.nprobe, ambiguousNProbe := a.ivf.ambiguousNProbe, repair := a.ivf.repair,
                       centroidBlocks := a.ivf.centroidBlocks)
  }

  lemma OnlySettingsChanged(a: IndexData, b: IndexData)
    requires a.HasIvf() && b == a.(ivf := b.ivf)
    requires b.ivf == a.ivf.(nprobe := b.ivf.nprobe, ambiguousNProbe := b.ivf.ambiguousNProbe, repair := b.ivf.repair)
    ensures SameTables(a, b)
  {
    assert a.Lanes() == b.Lanes();
  }

  lemma SameView(a: IndexData, b: IndexData)
    requires SameTables(a, b) && a.Scannable()
    ensures b.Scannable() && b.Observed() == a.Observed()
  {
    assert b.Scannable();
    var v, w := a.Observed(), b.Observed();
    forall c | 0 <= c < a.ivf.clusters
      ensures v.lists[c] == w.lists[c]
    {
      SameRows(a, b, c);
    }
    assert v.lists == w.lists;
    forall c | 0 <= c < |v.boxes|
      ensures v.boxes[c] == w.boxes[c]
    {
      assert a.BoxAt(c) == b.BoxAt(c);
    }
  }

  lemma SameRows(a: IndexData, b: IndexData, c: nat)
    requires SameTables(a, b) && a.Scannable() && b.Scannable() && c < a.ivf.clusters
    ensures a.ListRows(c) == b.ListRows(c)
  {
    hide LaneVec, VecAt;
    var r, s := a.ListRows(c), b.ListRows(c);
    forall i | 0 <= i < |r|
      ensures r[i] == s[i]
    {
      assert a.RowAt(c, i) == b.RowAt(c, i);
    }
  }

  /** Progress after the first i lists of an order. */
  ghost predicate ExpandedTo(
      k: Kernel, q: Vec, p: Progress, lists: seq<seq<Row>>, order: seq<nat>, i: nat, r: Progress)
  {
    && |p.best| == |r.best| == 5 && ValidOrder(lists, order) && i <= |order|
    && r == Expand(k, q, p, lists, order[..i])
  }

  lemma ExpandNothing(k: Kernel, q: Vec, p: Progress, lists: seq<seq<Row>>, order: seq<nat>)
    requires |p.best| == 5 && ValidOrder(lists, order)
    ensures ExpandedTo(k, q, p, lists, order, 0, p)
  {
  }

  lemma AllExpanded(k: Kernel, q: Vec, p: Progress, lists: seq<seq<Row>>, order: seq<nat>, r: Progress)
    requires ExpandedTo(k, q, p, lists, order, |order|, r)
    ensures ValidOrder(lists, order) && |p.best| == 5 && r == Expand(k, q, p, lists, order)
  {
    assert order[..|order|] == order;
  }

  /** Progress after marking list c and scanning it. */
  function Visited(k: Kernel, q: Vec, p: Progress, lists: seq<seq<Row>>, c: nat): (r: Progress)
    requires |p.best| == 5 && c < |lists|
    ensures |r.best| == 5
  {
    Progress(ScanRows(k, q, p.best, lists[c]), p.probed + {c})
  }

  /** The next list: skipped when marked, otherwise scanned and marked. */
  lemma ExpandStep(k: Kernel, q: Vec, p: Progress, lists: seq<seq<Row>>, order: seq<nat>, i: nat, r: Progress)
    requires ExpandedTo(k, q, p, lists, order, i, r) && i < |order|
    ensures order[i] < |lists| && |r.best| == 5
    ensures ExpandedTo(k, q, p, lists, order, i + 1,
                       if order[i] in r.probed then r else Visited(k, q, r, lists, order[i]))
  {
    hide ScanRows;
    assert order[..i + 1][..i] == order[..i];
  }

  /** A selection never names a list twice, so the first stage needs no test of the mask. */
  lemma TopIsFresh(
      select: Kernel, k: Kernel, q: Vec, view: View, nprobe: int, order: seq<nat>, i: nat, r: Progress)
    requires WellFormed(view) && order == TopLists(select, q, view, nprobe)
    requires i < |order| && ExpandedTo(k, q, START, view.lists, order, i, r)
    ensures order[i] !in r.probed
  {
    ExpandScansEachOnce(k, q, START, view.lists, order[..i]);
    assert START.probed + Elements(order[..i]) == Elements(order[..i]);
    assert Distinct(order);
  }

  /** The repair pass after the clusters below c. */
  ghost predicate RepairedTo(
      k: Kernel, q: Vec, was: seq<Entry>, view: View, probed: set<nat>, cutoff: int, c: nat, best: seq<Entry>) {
    && |was| == 5 && WellFormed(view) && c <= |view.boxes| && |view.boxes| == |view.lists|
    && best == ScanLists(k, q, was, view.lists, RepairTargets(q, probed, view.boxes, cutoff, c))
  }

  lemma NothingRepaired(k: Kernel, q: Vec, was: seq<Entry>, view: View, probed: set<nat>, cutoff: int)
    requires |was| == 5 && WellFormed(view) && |view.boxes| == |view.lists|
    ensures RepairedTo(k, q, was, view, probed, cutoff, 0, was)
  {
  }

  lemma AllRepaired(k: Kernel, q: Vec, was: seq<Entry>, view: View, probed: set<nat>, cutoff: int, best: seq<Entry>)
    requires RepairedTo(k, q, was, view, probed, cutoff, |view.boxes|, best)
    ensures best == ScanLists(k, q, was, view.lists, RepairTargets(q, probed, view.boxes, cutoff, |view.boxes|))
  {
  }

  lemma RepairStep(
      k: Kernel, q: Vec, was: seq<Entry>, view: View, probed: set<nat>, cutoff: int, c: nat, best: seq<Entry>)
    requires c < |view.boxes| && RepairedTo(k, q, was, view, probed, cutoff, c, best)
    ensures RepairedTo(k, q, was, view, probed, cutoff, c + 1,
                       if c !in probed && BoxDist(q, view.boxes[c]) <= cutoff then ScanRows(k, q, best, view.lists[c])
                       else best)
  {
    var head := RepairTargets(q, probed, view.boxes, cutoff, c);
    assert (head + [c])[..|head|] == head;
  }
}
