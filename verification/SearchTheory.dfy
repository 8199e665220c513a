/**
 The search over a clustered index, read as a function of the logical rows: what probing,
 expanding and repairing leave in the five best slots, and when that is the exact answer.
 */
module SearchTheory {
  import opened Machine
  import opened Metric
  import opened TopFive
  import opened ProbeOrder

  /** A stored reference as a scan sees it. */
  datatype Row = Row(vec: Vec, fraud: bool, id: Uint32)

  /**
   What a search can observe of an index: its lists, their centroids, the vectors that the SIMD selection
   reads in place of the centroids of whole blocks of eight, and the boxes. No boxes means no repair.
   */
  datatype View = View(lists: seq<seq<Row>>, centroids: seq<Vec>, lanes: seq<Vec>, boxes: seq<Box>)

  ghost predicate WellFormed(view: View) {
    && |view.centroids| == |view.lists| && |view.lanes| == |view.centroids| / 8 * 8
    && (view.boxes == [] || |view.boxes| == |view.lists|)
  }

  /** Exact is the 64-bit distance; the other two are what the machine kernels return. */
  datatype Kernel = Exact | Avx2 | Scalar

  function RowDist(k: Kernel, q: Vec, v: Vec, cutoff: int): int {
    match k
    case Exact => Dist(q, v)
    case Avx2 => Dist32(q, v)
    case Scalar => Abandoned(q, v, cutoff)
  }

  function OfferRow(k: Kernel, q: Vec, s: seq<Entry>, row: Row): (r: seq<Entry>)
    requires |s| == 5
    ensures |r| == 5
  {
    Offer(s, Entry(RowDist(k, q, row.vec, s[4].dist), row.fraud, row.id))
  }

  /** Offers the rows of one list in order. */
  function ScanRows(k: Kernel, q: Vec, s: seq<Entry>, rows: seq<Row>): (r: seq<Entry>)
    requires |s| == 5
    ensures |r| == 5
  {
    if rows == [] then s
    else OfferRow(k, q, ScanRows(k, q, s, rows[..|rows| - 1]), rows[|rows| - 1])
  }

  ghost predicate ValidOrder(lists: seq<seq<Row>>, order: seq<nat>) {
    forall i :: 0 <= i < |order| ==> order[i] < |lists|
  }

  /** Scans the named lists in order. */
  function ScanLists(k: Kernel, q: Vec, s: seq<Entry>, lists: seq<seq<Row>>, order: seq<nat>): (r: seq<Entry>)
    requires |s| == 5 && ValidOrder(lists, order)
    ensures |r| == 5
  {
    if order == [] then s
    else ScanRows(k, q, ScanLists(k, q, s, lists, order[..|order| - 1]), lists[order[|order| - 1]])
  }

  datatype Progress = Progress(best: seq<Entry>, probed: set<nat>)

  const START: Progress := Progress(NO_ENTRIES, {})

  /** Scans the named lists that have not been probed yet, marking each. */
  function Expand(k: Kernel, q: Vec, p: Progress, lists: seq<seq<Row>>, order: seq<nat>): (r: Progress)
    requires |p.best| == 5 && ValidOrder(lists, order)
    ensures |r.best| == 5
  {
    if order == [] then p
    else
      var m := Expand(k, q, p, lists, order[..|order| - 1]);
      var c := order[|order| - 1];
      if c in m.probed then m
      else Progress(ScanRows(k, q, m.best, lists[c]), m.probed + {c})
  }

  /** The unprobed lists below n whose box may hold a row as near as the cutoff, in index order. */
  function RepairTargets(q: Vec, probed: set<nat>, boxes: seq<Box>, cutoff: int, n: nat): (r: seq<nat>)
    requires n <= |boxes|
    ensures forall i :: 0 <= i < |r| ==> r[i] < n
  {
    if n == 0 then []
    else
      var head := RepairTargets(q, probed, boxes, cutoff, n - 1);
      if n - 1 !in probed && BoxDist(q, boxes[n - 1]) <= cutoff then head + [n - 1] else head
  }

  /** The repair pass: a no-op without boxes or while a slot is vacant. */
  function Repair(k: Kernel, q: Vec, p: Progress, view: View): (r: seq<Entry>)
    requires |p.best| == 5 && WellFormed(view)
    ensures |r| == 5
  {
    var cutoff := p.best[4].dist;
    if view.boxes == [] || cutoff == MAX_INT64 then p.best
    else ScanLists(k, q, p.best, view.lists, RepairTargets(q, p.probed, view.boxes, cutoff, |view.boxes|))
  }

  // ---- which lists are probed -----------------------------------------------------------

  /** The distances the selection loop compares: the SIMD kernel measures the lanes of whole blocks. */
  function CentroidDists(k: Kernel, q: Vec, centroids: seq<Vec>, lanes: seq<Vec>): (ds: seq<int>)
    requires |lanes| == |centroids| / 8 * 8
    ensures |ds| == |centroids|
  {
    seq(|centroids|, c requires 0 <= c < |centroids| =>
      if k == Avx2 && c < |lanes| then Dist32(q, lanes[c]) else Dist(q, centroids[c]))
  }

  function Min(a: int, b: int): int {
    if a < b then a else b
  }

  /** How many lists a probe count selects. */
  function ProbeCount(nprobe: int, clusters: nat): nat {
    if nprobe <= 0 then 0 else Min(Min(nprobe, clusters), MAX_PROBE)
  }

  ghost function TopLists(k: Kernel, q: Vec, view: View, nprobe: int): (r: seq<nat>)
    requires WellFormed(view)
    ensures |r| == ProbeCount(nprobe, |view.lists|) && ValidOrder(view.lists, r)
  {
    Top(CentroidDists(k, q, view.centroids, view.lanes), ProbeCount(nprobe, |view.centroids|))
  }

  /** A probe count selects at most 128 lists, and none when it is not positive. */
  lemma SelectedCount(k: Kernel, q: Vec, view: View, nprobe: int)
    requires WellFormed(view)
    ensures var n, lists := |TopLists(k, q, view, nprobe)|, |view.lists|;
            && (nprobe <= 0 ==> n == 0)
            && (0 < nprobe <= lists && nprobe <= 128 ==> n == nprobe)
            && (nprobe > lists && lists <= 128 ==> nprobe <= 0 || n == lists)
            && (nprobe > 128 && lists > 128 ==> n == 128)
  {
  }

  // ---- probing and expanding scan each list once ------------------------------------------

  function RowsOf(lists: seq<seq<Row>>, order: seq<nat>): seq<Row>
    requires ValidOrder(lists, order)
  {
    if order == [] then [] else RowsOf(lists, order[..|order| - 1]) + lists[order[|order| - 1]]
  }

  lemma {:induction false} ScanRowsConcat(k: Kernel, q: Vec, s: seq<Entry>, a: seq<Row>, b: seq<Row>)
    requires |s| == 5
    ensures ScanRows(k, q, s, a + b) == ScanRows(k, q, ScanRows(k, q, s, a), b)
  {
    if b == [] {
      assert a + b == a;
    } else {
      ScanRowsConcat(k, q, s, a, b[..|b| - 1]);
      assert (a + b)[..|a + b| - 1] == a + b[..|b| - 1];
    }
  }

  /** Scanning lists one after the other offers the concatenation of their rows. */
  lemma {:induction false} ScanListsIsOneScan(k: Kernel, q: Vec, s: seq<Entry>, lists: seq<seq<Row>>, order: seq<nat>)
    requires |s| == 5 && ValidOrder(lists, order)
    ensures ScanLists(k, q, s, lists, order) == ScanRows(k, q, s, RowsOf(lists, order))
  {
    if order != [] {
      var n := |order| - 1;
      ScanListsIsOneScan(k, q, s, lists, order[..n]);
      ScanRowsConcat(k, q, s, RowsOf(lists, order[..n]), lists[order[n]]);
    }
  }

  /** With none of the lists probed before and none named twice, expansion scans each exactly once. */
  lemma {:induction false} ExpandScansEachOnce(k: Kernel, q: Vec, p: Progress, lists: seq<seq<Row>>, order: seq<nat>)
    requires |p.best| == 5 && ValidOrder(lists, order) && Distinct(order)
    requires Elements(order) !! p.probed
    ensures Expand(k, q, p, lists, order)
            == Progress(ScanLists(k, q, p.best, lists, order), p.probed + Elements(order))
  {
    if order == [] {
      assert p.probed + Elements(order) == p.probed;
    } else {
      var n := |order| - 1;
      assert Elements(order) == Elements(order[..n]) + {order[n]};
      ExpandScansEachOnce(k, q, p, lists, order[..n]);
      assert order[n] !in order[..n];
    }
  }

  lemma {:induction false} ExpandConcat(k: Kernel, q: Vec, p: Progress, lists: seq<seq<Row>>, a: seq<nat>, b: seq<nat>)
    requires |p.best| == 5 && ValidOrder(lists, a) && ValidOrder(lists, b)
    ensures ValidOrder(lists, a + b)
    ensures Expand(k, q, p, lists, a + b) == Expand(k, q, Expand(k, q, p, lists, a), lists, b)
  {
    if b == [] {
      assert a + b == a;
    } else {
      ExpandConcat(k, q, p, lists, a, b[..|b| - 1]);
      assert (a + b)[..|a + b| - 1] == a + b[..|b| - 1];
    }
  }

  /** Expanding over probed lists does nothing. */
  lemma {:induction false} ExpandSkipsProbed(k: Kernel, q: Vec, p: Progress, lists: seq<seq<Row>>, order: seq<nat>)
    requires |p.best| == 5 && ValidOrder(lists, order) && Elements(order) <= p.probed
    ensures Expand(k, q, p, lists, order) == p
  {
    if order != [] {
      var n := |order| - 1;
      assert Elements(order[..n]) <= p.probed;
      ExpandSkipsProbed(k, q, p, lists, order[..n]);
      assert order[n] in Elements(order);
    }
  }

  /**
   Probing n lists and then expanding to m >= n scans exactly the m nearest lists, each once and
   nearest first: the same as probing m at once.
   */
  lemma {:induction false} ExpandAfterProbe(k: Kernel, q: Vec, view: View, n: int, m: int)
    requires WellFormed(view) && n <= m
    ensures var probed := Expand(k, q, START, view.lists, TopLists(k, q, view, n));
            var order := TopLists(k, q, view, m);
            Expand(k, q, probed, view.lists, order)
            == Progress(ScanRows(k, q, NO_ENTRIES, RowsOf(view.lists, order)), Elements(order))
  {
    var ds := CentroidDists(k, q, view.centroids, view.lanes);
    var near, order := TopLists(k, q, view, n), TopLists(k, q, view, m);
    TopIsPrefix(ds, |near|, |order|);
    var rest := order[|near|..];
    assert order == near + rest;
    ProbeScansEachOnce(k, q, view, n);
    ProbeScansEachOnce(k, q, view, m);
    var p := Expand(k, q, START, view.lists, near);
    ExpandConcat(k, q, START, view.lists, near, rest);
    ExpandConcat(k, q, p, view.lists, near, rest);
    ExpandSkipsProbed(k, q, p, view.lists, near);
  }

  lemma ProbeScansEachOnce(k: Kernel, q: Vec, view: View, n: int)
    requires WellFormed(view)
    ensures var order := TopLists(k, q, view, n);
            && Distinct(order)
            && Expand(k, q, START, view.lists, order)
               == Progress(ScanRows(k, q, NO_ENTRIES, RowsOf(view.lists, order)), Elements(order))
  {
    var order := TopLists(k, q, view, n);
    ExpandScansEachOnce(k, q, START, view.lists, order);
    ScanListsIsOneScan(k, q, NO_ENTRIES, view.lists, order);
    assert START.probed + Elements(order) == Elements(order);
  }

  /** A repair visits each list at most once. */
  lemma {:induction false} RepairTargetsAreDistinct(q: Vec, probed: set<nat>, boxes: seq<Box>, cutoff: int, n: nat)
    requires n <= |boxes|
    ensures Distinct(RepairTargets(q, probed, boxes, cutoff, n))
  {
    if n > 0 {
      RepairTargetsAreDistinct(q, probed, boxes, cutoff, n - 1);
    }
  }

  /** It visits exactly the unprobed lists whose box does not rule them out. */
  lemma {:induction false} RepairTargetsMembers(q: Vec, probed: set<nat>, boxes: seq<Box>, cutoff: int, n: nat)
    requires n <= |boxes|
    ensures forall c: nat :: c in RepairTargets(q, probed, boxes, cutoff, n)
                             <==> c < n && c !in probed && BoxDist(q, boxes[c]) <= cutoff
  {
    if n > 0 {
      RepairTargetsMembers(q, probed, boxes, cutoff, n - 1);
    }
  }

  // ---- the query predicates -----------------------------------------------------------------

  const QUANT_SCALE: int := 10000

  predicate IsAmbiguousFraudCount(q: Vec, frauds: int) {
    1 < frauds < 5 || (frauds == 1 && q[9] == 0)
  }

  predicate NeedsKnownBoundaryApprovalRepair(q: Vec) {
    && q[5] == -QUANT_SCALE && q[6] == -QUANT_SCALE
    && (|| (q[9] == QUANT_SCALE && q[10] == 0 && 800 <= q[7] <= 900 && 1000 <= q[2] <= 2000 && q[12] == 2000)
        || (q[9] == 0 && q[10] == QUANT_SCALE && 3500 <= q[7] <= 4000 && q[2] == QUANT_SCALE
            && q[12] == 8000 && q[8] <= 4000))
  }

  predicate NeedsApprovalRepair(q: Vec) {
    || NeedsKnownBoundaryApprovalRepair(q)
    || (&& q[9] >= QUANT_SCALE && q[10] == 0 && q[2] >= 5000
        && 3000 <= q[7] <= 3600 && (q[12] == 3000 || q[12] >= 8500))
  }

  predicate NeedsKnownLateDenialRepair(q: Vec) {
    && q[9] == QUANT_SCALE && q[10] == 0 && q[11] == 0 && q[12] == 3000 && q[2] == QUANT_SCALE
    && 250 <= q[5] <= 350 && 300 <= q[6] <= 450 && 3300 <= q[7] <= 3500 && q[8] == 2000
    && 1400 <= q[0] <= 1550
  }

  predicate NeedsDenialRepair(q: Vec) {
    && q[5] == -QUANT_SCALE && q[6] == -QUANT_SCALE && q[9] == 0 && q[10] == QUANT_SCALE
    && q[7] <= 1000 && 5000 <= q[2] <= 10000 && q[12] == 2500
  }

  /** Which counts leave a search in doubt. */
  lemma AmbiguousCounts(q: Vec)
    ensures (set frauds | 0 <= frauds <= 5 && IsAmbiguousFraudCount(q, frauds))
            == if q[9] == 0 then {1, 2, 3, 4} else {2, 3, 4}
  {
  }

  /** Component d of q lies between low and high. */
  predicate Between(q: Vec, d: nat, low: int, high: int) {
    d < 14 && low <= q[d] <= high
  }

  /**
   The queries of the late stages in numbers: those whose denial is looked into again, and those whose denial is
   then forced.
   */
  lemma DenialFamilies(q: Vec)
    ensures NeedsDenialRepair(q) <==>
              && Between(q, 5, -10000, -10000) && Between(q, 6, -10000, -10000) && Between(q, 9, 0, 0)
              && Between(q, 10, 10000, 10000) && Between(q, 7, -32768, 1000) && Between(q, 2, 5000, 10000)
              && Between(q, 12, 2500, 2500)
    ensures NeedsKnownLateDenialRepair(q) <==>
              && Between(q, 9, 10000, 10000) && Between(q, 10, 0, 0) && Between(q, 11, 0, 0)
              && Between(q, 12, 3000, 3000) && Between(q, 2, 10000, 10000) && Between(q, 5, 250, 350)
              && Between(q, 6, 300, 450) && Between(q, 7, 3300, 3500) && Between(q, 8, 2000, 2000)
              && Between(q, 0, 1400, 1550)
  {
  }

  /** The queries whose approval is looked into again form four families. */
  lemma ApprovalFamilies(q: Vec)
    ensures NeedsApprovalRepair(q) <==>
              || (&& Between(q, 5, -10000, -10000) && Between(q, 6, -10000, -10000) && Between(q, 9, 10000, 10000)
                  && Between(q, 10, 0, 0) && Between(q, 7, 800, 900) && Between(q, 2, 1000, 2000)
                  && Between(q, 12, 2000, 2000))
              || (&& Between(q, 5, -10000, -10000) && Between(q, 6, -10000, -10000) && Between(q, 9, 0, 0)
                  && Between(q, 10, 10000, 10000) && Between(q, 7, 3500, 4000) && Between(q, 2, 10000, 10000)
                  && Between(q, 12, 8000, 8000) && Between(q, 8, -32768, 4000))
              || (&& Between(q, 9, 10000, 32767) && Between(q, 10, 0, 0) && Between(q, 2, 5000, 32767)
                  && Between(q, 7, 3000, 3600) && Between(q, 12, 3000, 3000))
              || (&& Between(q, 9, 10000, 32767) && Between(q, 10, 0, 0) && Between(q, 2, 5000, 32767)
                  && Between(q, 7, 3000, 3600) && Between(q, 12, 8500, 32767))
  {
  }

  // ---- the whole search -----------------------------------------------------------------------

  /** The kernel that ranks centroids and the one that measures rows: they differ when an index has no blocks. */
  datatype KernelPair = KernelPair(select: Kernel, scan: Kernel)

  const EXACT: KernelPair := KernelPair(Exact, Exact)

  datatype Settings = Settings(nprobe: int, ambiguousNProbe: int, repair: bool)

  /** What the state holds once the first, second and late stages of a search are done. */
  ghost function Probed(ks: KernelPair, q: Vec, view: View, nprobe: int): (p: Progress)
    requires WellFormed(view)
    ensures |p.best| == 5
  {
    Expand(ks.scan, q, START, view.lists, TopLists(ks.select, q, view, nprobe))
  }

  ghost function Widened(ks: KernelPair, q: Vec, view: View, cfg: Settings): (p: Progress)
    requires WellFormed(view)
    ensures |p.best| == 5
  {
    var first := Probed(ks, q, view, cfg.nprobe);
    if !IsAmbiguousFraudCount(q, CountFrauds(first.best)) then first
    else
      var wide := if cfg.ambiguousNProbe > cfg.nprobe
                  then Expand(ks.scan, q, first, view.lists, TopLists(ks.select, q, view, cfg.ambiguousNProbe))
                  else first;
      if cfg.repair then Progress(Repair(ks.scan, q, wide, view), wide.probed) else wide
  }

  ghost function LateExpanded(ks: KernelPair, q: Vec, view: View, p: Progress): (r: Progress)
    requires WellFormed(view) && |p.best| == 5
    ensures |r.best| == 5
  {
    Expand(ks.scan, q, p, view.lists, TopLists(ks.select, q, view, MAX_PROBE))
  }

  ghost function Search(ks: KernelPair, q: Vec, view: View, cfg: Settings): int
    requires WellFormed(view)
  {
    var p := Widened(ks, q, view, cfg);
    var frauds := CountFrauds(p.best);
    if cfg.repair && frauds < 3 && NeedsApprovalRepair(q) then
      var late := CountFrauds(LateExpanded(ks, q, view, p).best);
      if late < 3 && NeedsKnownLateDenialRepair(q) then 3 else late
    else if cfg.repair && frauds >= 3 && NeedsDenialRepair(q) then
      CountFrauds(LateExpanded(ks, q, view, p).best)
    else frauds
  }
}
