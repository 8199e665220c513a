/**
 From references to answers: what a built index, and one loaded back from its file, returns compared
 with brute force over the references.
 */
module EndToEnd {
  import opened Machine
  import opened Metric
  import opened TopFive
  import opened ProbeOrder
  import opened SearchTheory
  import opened Exactness
  import opened Runs
  import opened SearchResults
  import opened WhenExact
  import opened Abandonment
  import opened ScalarStages
  import opened Layout
  import opened Transpose
  import opened Build
  import opened ClusterStats
  import opened Separation
  import opened BuildResults
  import opened IndexFile
  import opened IndexReaders
  import opened QuantizedIndex
  import opened Builder

  ghost predicate QuantizedRefs(refs: seq<Reference>) {
    forall id :: 0 <= id < |refs| ==> Quantized(refs[id].vec)
  }

  /** An index in memory whose lists, boxes and centroids are those built from the references. */
  ghost predicate Serves(data: IndexData, refs: seq<Reference>) {
    && data.Searchable() && data.HasIvfBlocks() && data.HasBoxes() && data.CentroidBlocksAgree()
    && data.ivf.clusters <= |refs| <= MAX_UINT32
    && WellBuilt(data.Observed(), refs)
  }

  // ---- every index a search can meet is safe to search ------------------------------------------

  /** Every position a scan of row i of list c reads lies in its table. */
  ghost predicate RowIsSafe(data: IndexData, c: nat, i: nat)
    requires data.Searchable() && c < data.ivf.clusters
  {
    && data.ListStart(c) + i < |data.labels|
    && if data.HasIvfBlocks() then InBlock(data.blocks, 8 * data.BlockStart(c) + i)
       else (data.ListStart(c) + i) * 14 + 14 <= |data.vectors|
  }

  /** The validator is sound: over accepted offsets every row, block and lane a scan forms is in bounds. */
  lemma AcceptedOffsetsAreSafe(data: IndexData)
    requires data.HasIvf()
    requires AcceptableOffsets(|data.labels|, data.ivf.clusters, data.ivf.listOffsets,
                               if data.HasIvfBlocks() then Some(data.ivf.blockOffsets) else None)
    requires data.HasIvfBlocks() || |data.vectors| >= |data.labels| * 14
    ensures data.Searchable()
    ensures forall c: nat, i: nat :: c < data.ivf.clusters && i < data.ListLength(c) ==> RowIsSafe(data, c, i)
  {
    assert data.Searchable();
    forall c: nat, i: nat | c < data.ivf.clusters && i < data.ListLength(c)
      ensures RowIsSafe(data, c, i)
    {
      data.RowInBounds(c, i);
    }
  }

  /** The stored rows of a readable file have the sizes its offsets call for. */
  lemma StoredRowsFit(file: seq<Byte>)
    requires Readable(file)
    ensures var t, sh := StoredTables(file), ShapeOf(file);
            && t.HasIvf() && (t.HasIvfBlocks() <==> sh.version >= 3)
            && AcceptableOffsets(|t.labels|, t.ivf.clusters, t.ivf.listOffsets,
                                 if t.HasIvfBlocks() then Some(t.ivf.blockOffsets) else None)
            && (sh.version == 2 ==> |t.vectors| >= |t.labels| * 14)
            && (sh.version < 4 ==> t.ivf.centroidBlocks == [])
  {
    hide DecodeI16s, DecodeU32s, ValidHeader, Monotone, BlockSpans, U32At, Slice;
    StoredHasIvf(file);
    var sh := ShapeOf(file);
    var offsets := BlockOffsetsOf(file, sh);
    if offsets.Some? {
      BlockBytesAreWhole(offsets, |DecodeI16s(Slice(file, sh.BlocksAt(), BlockBytes(offsets)))|);
    }
    KnownVersions(file);
  }

  lemma KnownVersions(file: seq<Byte>)
    requires ValidHeader(file)
    ensures U32At(file, 8) == 2 || U32At(file, 8) == 3 || U32At(file, 8) == 4
  {
  }

  lemma BlockBytesAreWhole(offsets: Option<seq<Uint32>>, n: nat)
    requires offsets.Some? && offsets.value != [] && n == BlockBytes(offsets) / 2
    ensures n == offsets.value[|offsets.value| - 1] as int * 112
  {
  }

  /** Whatever file a reader accepts, every search over the result stays in bounds. */
  lemma ReadableIsSearchable(file: seq<Byte>)
    requires Readable(file)
    ensures LoadedData(file).Searchable()
    ensures ShapeOf(file).version < 4 ==> LoadedData(file).CentroidBlocksAgree()
  {
    hide Readable, StoredTables, AcceptableOffsets, ShapeOf;
    StoredHasIvf(file);
    StoredRowsFit(file);
    KnownShape(file);
    var t := StoredTables(file);
    AcceptedOffsetsAreSafe(t);
    FilledInIsSearchable(t);
  }

  lemma FilledInIsSearchable(t: IndexData)
    requires t.HasIvf()
    ensures t.Searchable() ==> FilledIn(t).Searchable()
    ensures t.ivf.centroidBlocks == [] ==> FilledIn(t).CentroidBlocksAgree()
  {
    hide VecAt, LaneVec, TransposeTable, Monotone, BlockSpans;
    TransposeTableTransposes(t.ivf.centroids, t.ivf.clusters);
  }

  lemma KnownShape(file: seq<Byte>)
    requires Readable(file)
    ensures 2 <= ShapeOf(file).version <= 4
  {
    hide U32At, AcceptableOffsets;
  }

  /** The validator accepts a built index exactly when it has no more lists than the probe mask covers. */
  lemma BuiltOffsetsAreAcceptedIff(data: IndexData, refs: seq<Reference>)
    requires IsBuilt(data, refs)
    ensures AcceptableOffsets(|refs|, data.ivf.clusters, data.ivf.listOffsets, Some(data.ivf.blockOffsets))
            <==> data.ivf.clusters <= 8192
  {
    PermutationIsBijective(data.ivf.origIDs, |refs|);
  }

  lemma BuiltServes(data: IndexData, refs: seq<Reference>)
    requires IsBuilt(data, refs) && data.ivf.clusters <= 8192
    ensures Serves(data, refs)
  {
    hide WellBuilt, IsPermutation, Storable;
  }

  /** A built index comes back from its file with the same view and settings. */
  lemma LoadedServes(data: IndexData, refs: seq<Reference>)
    requires IsBuilt(data, refs) && data.ivf.clusters <= 8192
    ensures Readable(FileBytes(Stored(data)))
    ensures var loaded := LoadedData(FileBytes(Stored(data)));
            && Serves(loaded, refs) && loaded.Observed() == data.Observed()
            && loaded.Config() == data.Config()
            && forall avx2: bool :: KernelsOf(loaded, avx2) == KernelsOf(data, avx2)
  {
    hide WellBuilt, IsPermutation, Storable, FileBytes, Readable, LoadedData;
    BuiltServes(data, refs);
    WriteThenLoadRestores(data);
    SameView(data, data.(vectors := []));
  }

  // ---- 32-bit lanes never overflow on quantised data --------------------------------------------

  lemma {:induction false} ServedIsSpanSafe(data: IndexData, refs: seq<Reference>, q: Vec)
    requires Serves(data, refs) && QuantizedRefs(refs) && Quantized(q)
    ensures SpanSafe(q, data.Observed())
  {
    hide Represents, DistinctIds;
    var view := data.Observed();
    ServedRowsAreQuantized(view, refs);
    forall c | 0 <= c < |view.centroids|
      ensures Quantized(view.centroids[c])
    {
      EnoughRows(|refs|, |view.lists|);
      QuantizedCentroid(view.lists[c], view.centroids[c], view.boxes[c], |refs|, |view.lists|);
    }
    QuantizedIsSpanSafe(q, view);
  }

  lemma ServedRowsAreQuantized(view: View, refs: seq<Reference>)
    requires Represents(view.lists, refs) && QuantizedRefs(refs)
    ensures forall c, i :: 0 <= c < |view.lists| && 0 <= i < |view.lists[c]| ==> Quantized(view.lists[c][i].vec)
  {
    forall c, i | 0 <= c < |view.lists| && 0 <= i < |view.lists[c]|
      ensures Quantized(view.lists[c][i].vec)
    {
      assert RowIsReference(view.lists[c][i], refs);
    }
  }

  lemma EnoughRows(n: nat, k: nat)
    requires 0 < k <= n
    ensures n / k >= 1
  {
  }

  /** The centroid of a nonempty list of quantised rows is quantised: it lies in their tight box. */
  lemma QuantizedCentroid(rows: seq<Row>, centroid: Vec, box: Box, n: nat, k: nat)
    requires WellBuiltList(rows, centroid, box, n, k) && n / k >= 1
    requires forall i :: 0 <= i < |rows| ==> Quantized(rows[i].vec)
    ensures Quantized(centroid)
  {
    var cube := Box(seq(14, _ => -10000), seq(14, _ => 10000));
    assert forall i :: 0 <= i < |rows| ==> VecsOf(rows)[i] == rows[i].vec && Inside(rows[i].vec, cube);
    TightBoxIsSmallest(VecsOf(rows), box, cube);
  }

  /** On quantised data every kernel in use measures full distances when the processor has AVX2. */
  lemma ServedKernels(data: IndexData, refs: seq<Reference>, q: Vec)
    requires Serves(data, refs) && QuantizedRefs(refs) && Quantized(q)
    ensures FullDistances(KernelsOf(data, true), q, data.Observed())
  {
    hide WellBuilt, SpanSafe, VecAt;
    ServedIsSpanSafe(data, refs, q);
    AgreeingLanes(data);
    LanesOfServed(data);
  }

  lemma LanesOfServed(data: IndexData)
    requires data.Scannable() && data.Lanes() == Vectors(data.ivf.centroids, data.ivf.clusters / 8 * 8)
    ensures LanesAgree(data.Observed())
  {
    hide VecAt;
  }

  lemma ServedView(data: IndexData, refs: seq<Reference>)
    requires Serves(data, refs)
    ensures WellFormed(data.Observed()) && Covered(data.Observed()) && data.Observed().boxes != []
    ensures Represents(data.Observed().lists, refs) && |refs| <= 0x1_0000_0000
  {
    hide Covered, Represents, WellBuiltList;
  }

  // ---- how many rows the first probes offer -----------------------------------------------------

  /** The lists a probe count selects hold at least floor(n / k) rows each. */
  lemma ProbesOfferEnough(data: IndexData, refs: seq<Reference>, k: Kernel, q: Vec, nprobe: int)
    requires Serves(data, refs)
    ensures |RowsOf(data.Observed().lists, TopLists(k, q, data.Observed(), nprobe))|
            >= ProbeCount(nprobe, data.ivf.clusters) * (|refs| / data.ivf.clusters)
  {
    hide Top, TopLists, RowsOf, Serves, Candidates, Represents, IndexData.Scannable;
    ServedHasLists(data, refs);
    var view := data.Observed();
    var order := TopLists(k, q, view, nprobe);
    ServedView(data, refs);
    RepresentsDistinct(view.lists, refs);
    TopListsAreDistinct(k, q, view, nprobe);
    ServedListSizes(data, refs);
    CandidateCount(q, view.lists, order, |refs| / data.ivf.clusters);
    CandidateCountOfRun(q, view.lists, order);
  }

  lemma TopListsAreDistinct(k: Kernel, q: Vec, view: View, nprobe: int)
    requires WellFormed(view)
    ensures Distinct(TopLists(k, q, view, nprobe))
  {
    ProbeScansEachOnce(k, q, view, nprobe);
  }

  lemma ServedListSizes(data: IndexData, refs: seq<Reference>)
    requires Serves(data, refs)
    ensures var lists := data.Observed().lists;
            |lists| == data.ivf.clusters && forall c :: 0 <= c < |lists| ==> |lists[c]| >= |refs| / data.ivf.clusters
  {
    hide Covered, Represents, TightBox, RowsInOrder, RoundedMean;
    var view := data.Observed();
    forall c | 0 <= c < |view.lists|
      ensures |view.lists[c]| >= |refs| / |view.lists|
    {
      assert WellBuiltList(view.lists[c], view.centroids[c], view.boxes[c], |refs|, |view.lists|);
    }
  }

  /** Enough lists times rows per list make a repair in doubt run. */
  lemma DoubtIsRepaired(data: IndexData, refs: seq<Reference>, q: Vec)
    requires Serves(data, refs) && data.ivf.repair && InDoubt(q, data.Observed(), data.Config())
    requires ProbeCount(data.ivf.nprobe, data.ivf.clusters) * (|refs| / data.ivf.clusters) >= 5
    ensures Repairs(q, data.Observed(), data.Config())
  {
    hide InDoubt, TopLists, RowsOf, Serves, ProbeCount, IndexData.Scannable, Reach, Represents, Covered;
    ServedHasLists(data, refs);
    var n, m := data.ivf.nprobe, Reach(q, data.Observed(), data.Config());
    ServedView(data, refs);
    ReachGrows(q, data.Observed(), data.Config());
    ProbesOfferEnough(data, refs, Exact, q, m);
    ProbeCountGrows(n, m, data.ivf.clusters, |refs| / data.ivf.clusters);
  }

  lemma ReachGrows(q: Vec, view: View, cfg: Settings)
    requires WellFormed(view)
    ensures cfg.nprobe <= Reach(q, view, cfg)
  {
    hide InDoubt;
  }

  lemma ServedHasLists(data: IndexData, refs: seq<Reference>)
    requires Serves(data, refs)
    ensures data.Searchable() && data.ivf.clusters > 0 && |refs| / data.ivf.clusters >= 0
  {
    hide WellBuilt;
  }

  lemma ProbeCountGrows(n: int, m: int, clusters: nat, rows: nat)
    requires n <= m
    ensures ProbeCount(n, clusters) * rows <= ProbeCount(m, clusters) * rows
  {
    MulMonotone(ProbeCount(n, clusters), ProbeCount(m, clusters), rows);
  }

  // ---- answers --------------------------------------------------------------------------------

  /**
   With AVX2: exactly when a search over a served index holds the five nearest references after its second
   stage and after a late one. Where the stage it counts last is exact it answers what brute force does.
   */
  lemma ServedStagesAreExactIff(data: IndexData, refs: seq<Reference>, q: Vec)
    requires Serves(data, refs) && QuantizedRefs(refs) && Quantized(q)
    ensures var view, cfg, ks := data.Observed(), data.Config(), KernelsOf(data, true);
            var w := Widened(ks, q, view, cfg);
            && (w.best == Nearest5(q, refs)
                <==> Repairs(q, view, cfg) || HoldNearest(q, view.lists, refs, Reached(q, view, cfg)))
            && (LateExpanded(ks, q, view, w).best == Nearest5(q, refs)
                <==> if Repairs(q, view, cfg) then HoldNoneOfFour(q, view.lists, refs, LateLists(q, view, cfg))
                     else HoldNearest(q, view.lists, refs, TopLists(Exact, q, view, MAX_PROBE)))
            && (EndsExact(q, view, refs, cfg) ==> Search(ks, q, view, cfg) == BruteForce(q, refs, cfg.repair))
  {
    hide Serves, Widened, Search, LateExpanded, Repairs, HoldNearest, HoldNoneOfFour, Reached, LateLists, TopLists,
         EndsExact, BruteForce, FullDistances, Covered, Represents, Nearest5;
    ServedHasLists(data, refs);
    var view, cfg, ks := data.Observed(), data.Config(), KernelsOf(data, true);
    ServedView(data, refs);
    ServedKernels(data, refs, q);
    WidenedIsExactIff(ks, q, view, refs, cfg);
    LateIsExactIff(ks, q, view, refs, cfg);
    if EndsExact(q, view, refs, cfg) {
      ExactAnswer(ks, q, view, refs, cfg);
    }
  }

  /** Full probing equals the baseline, up to the forced denial. */
  lemma ServedFullProbingIsExact(data: IndexData, refs: seq<Reference>, q: Vec)
    requires Serves(data, refs) && QuantizedRefs(refs) && Quantized(q)
    requires data.ivf.clusters <= data.ivf.nprobe && data.ivf.clusters <= MAX_PROBE
    ensures Search(KernelsOf(data, true), q, data.Observed(), data.Config()) == BruteForce(q, refs, data.ivf.repair)
  {
    hide Search, NeedsApprovalRepair, NeedsKnownLateDenialRepair, FullDistances, Serves, Represents, Covered;
    ServedHasLists(data, refs);
    ServedView(data, refs);
    ServedKernels(data, refs, q);
    FullProbingEqualsBaseline(KernelsOf(data, true), q, data.Observed(), refs, data.Config());
  }

  /**
   Without AVX2: exactly when a search over a served index holds the five nearest references after its second
   stage, and after a late one; whenever it repaired, its five distances are theirs. Where the stage it counts
   last is exact it answers what brute force does.
   */
  lemma ServedScalarIsExactIff(data: IndexData, refs: seq<Reference>, q: Vec)
    requires Serves(data, refs)
    ensures var view, cfg, ks, nearest := data.Observed(), data.Config(), KernelsOf(data, false), Nearest5(q, refs);
            var n, w := ScalarReach(Scalar, q, view, cfg), Widened(ks, q, view, cfg);
            var order, all := TopLists(Exact, q, view, n), TopLists(Exact, q, view, MAX_PROBE);
            var late := ScalarLateLists(Scalar, q, view, cfg);
            && (w.best == nearest
                <==> if ScalarRepairs(Scalar, q, view, cfg)
                     then !SomeTieBreaks(q, RowsOf(view.lists, RepairOrder(q, view, n)), nearest)
                     else && HoldNearest(q, view.lists, refs, order)
                          && !SomeTieBreaks(q, RowsOf(view.lists, order), nearest))
            && (ScalarRepairs(Scalar, q, view, cfg) ==> SameDists(w.best, nearest))
            && (LateExpanded(ks, q, view, w).best == nearest
                <==> if ScalarRepairs(Scalar, q, view, cfg)
                     then && !SomeTieBreaks(q, RowsOf(view.lists, RepairOrder(q, view, n)), nearest)
                          && HoldNoneOfFour(q, view.lists, refs, late)
                          && !SomeRowTies(q, RowsOf(view.lists, late), nearest)
                     else && HoldNearest(q, view.lists, refs, all)
                          && !SomeTieBreaks(q, RowsOf(view.lists, all), nearest))
            && (ScalarEndsExact(Scalar, q, view, refs, cfg)
                ==> Search(ks, q, view, cfg) == BruteForce(q, refs, cfg.repair))
  {
    hide ScalarEndsExact, Search, BruteForce, Serves, TopLists, HoldNearest, HoldNoneOfFour, Nearest5, Widened,
         LateExpanded, RowsOf, ScalarDoubt, SomeTieBreaks, SomeRowTies, Repair, ScalarProgress, RepairOrder,
         Represents, Covered, ScalarReach, ScalarLateLists, SameDists;
    ServedHasLists(data, refs);
    var view, cfg := data.Observed(), data.Config();
    ServedView(data, refs);
    RepresentsDistinct(view.lists, refs);
    ScalarWidenedIsExactIff(Scalar, q, view, refs, cfg);
    ScalarLateIsExactIff(Scalar, q, view, refs, cfg);
    if ScalarRepairs(Scalar, q, view, cfg) {
      ScalarWidenedIs(Scalar, q, view, cfg);
      ScalarDistancesAreNearest(Scalar, q, view, refs, cfg.nprobe, ScalarReach(Scalar, q, view, cfg));
    }
    if ScalarEndsExact(Scalar, q, view, refs, cfg) {
      ScalarAnswer(Scalar, q, view, refs, cfg);
    }
  }

  // ---- the programs -----------------------------------------------------------------------------

  /** Builds an index and writes its file; None where the builder refuses. */
  method WriteIvfBinaryIndex(refs: seq<Reference>, opts: BuildOptions) returns (file: Option<seq<Byte>>)
    requires |refs| <= MAX_UINT32 && IsInt64(opts.nprobe) && IsInt64(opts.ambiguousNProbe)
    ensures file.None? <==> |refs| == 0 || (0 < opts.clusters <= |refs| && !Bits.IsPow2(opts.clusters))
    ensures file.Some? ==> exists clusters: nat ::
              && AcceptsClusters(opts.clusters, |refs|, clusters)
              && (Readable(file.value) <==> clusters <= 8192)
              && (clusters <= 8192 ==> LoadedIndex(file.value, refs, opts, clusters))
  {
    hide IsBuilt, FileBytes, Readable, LoadedIndex, Stored;
    var built := BuildIvfIndex(refs, opts);
    if built.None? {
      return None;
    }
    ghost var data := built.value.Data();
    BuiltIsComplete(data, refs);
    var bytes := WriteIvfQuantizedIndex(built.value);
    FileOfBuilt(data, refs, opts);
    assert built.value.Data() == data;
    file := Some(bytes);
  }

  /** A readable file whose index answers for the references, with the requested settings in range. */
  ghost predicate LoadedIndex(file: seq<Byte>, refs: seq<Reference>, opts: BuildOptions, clusters: nat) {
    && Readable(file) && Serves(LoadedData(file), refs) && LoadedData(file).ivf.clusters == clusters
    && LoadedData(file).Config() == InRange(Settings(opts.nprobe, opts.ambiguousNProbe, opts.repair), clusters)
  }

  /** A built index is stored as it is: its centroids are transposed in full. */
  lemma BuiltIsComplete(data: IndexData, refs: seq<Reference>)
    requires IsBuilt(data, refs)
    ensures Stored(data) == data && |data.labels| <= MAX_UINT32
    ensures |data.ivf.centroidBlocks| == BlocksForRows(data.ivf.clusters) * 112
  {
  }

  lemma FileOfBuilt(data: IndexData, refs: seq<Reference>, opts: BuildOptions)
    requires IsBuilt(data, refs) && data.ivf.clusters >= 0
    requires data.Config() == InRange(Settings(opts.nprobe, opts.ambiguousNProbe, opts.repair), data.ivf.clusters)
    ensures |Stored(data).labels| <= MAX_UINT32
    ensures Readable(FileBytes(Stored(data))) <==> data.ivf.clusters <= 8192
    ensures data.ivf.clusters <= 8192 ==> LoadedIndex(FileBytes(Stored(data)), refs, opts, data.ivf.clusters)
  {
    hide FileBytes, Readable, Storable, LoadedData, Serves;
    BuiltIsComplete(data, refs);
    WrittenIsReadableIff(data);
    if data.ivf.clusters <= 8192 {
      LoadedServes(data, refs);
    }
  }

  /** Loads a file as the server does, then applies the configured probe counts. */
  method LoadSearcher(file: seq<Byte>, nprobe: int, ambiguousNProbe: int, repair: bool) returns (r: LoadResult)
    requires IsInt64(nprobe) && IsInt64(ambiguousNProbe)
    ensures r.Rejected? <==> !Readable(file)
    ensures r.Panicked? <==> Readable(file) && ShapeOf(file).count == 0 && |file| == ShapeOf(file).BlocksAt()
    ensures r.Accepted? ==> Configured(LoadedData(file), r.idx.Data(), nprobe, ambiguousNProbe, repair)
  {
    hide Readable, LoadedData, ShapeOf;
    r := LoadBinaryIndexMmap(file);
    if r.Accepted? {
      ReadableIsSearchable(file);
      LoadedCounts(file);
      r.idx.SetIvfSearch(nprobe, ambiguousNProbe, repair);
    }
  }

  /** The index a server answers from: a readable file's, with the configured probe counts. */
  ghost function ConfiguredData(file: seq<Byte>, nprobe: int, ambiguousNProbe: int, repair: bool): IndexData
    requires Readable(file)
  {
    var loaded := LoadedData(file);
    loaded.(ivf := Normalize(Reconfigured(loaded.ivf, nprobe, ambiguousNProbe, repair)))
  }

  /** The loaded index with new probe counts: the view is the same. */
  ghost predicate Configured(loaded: IndexData, data: IndexData, nprobe: int, ambiguousNProbe: int, repair: bool) {
    && data == loaded.(ivf := Normalize(Reconfigured(loaded.ivf, nprobe, ambiguousNProbe, repair)))
    && Normalized(data.ivf)
    && loaded.Searchable() && data.Searchable() && data.Observed() == loaded.Observed()
  }

  /** New probe counts keep everything an answer rests on. */
  lemma ConfiguredServes(
      loaded: IndexData, data: IndexData, refs: seq<Reference>, nprobe: int, ambiguousNProbe: int, repair: bool)
    requires Serves(loaded, refs) && Configured(loaded, data, nprobe, ambiguousNProbe, repair)
    ensures Serves(data, refs) && data.ivf.repair == repair && data.ivf.nprobe <= data.ivf.ambiguousNProbe
    ensures nprobe > 0 ==> data.ivf.nprobe == Min(nprobe, data.ivf.clusters)
  {
    hide WellBuilt;
  }

  lemma LoadedCounts(file: seq<Byte>)
    requires Readable(file)
    ensures var ivf := LoadedData(file).ivf;
            IsInt64(ivf.nprobe) && IsInt64(ivf.ambiguousNProbe) && |ivf.centroids| <= MAX_INT64
    ensures LoadedData(file).HasIvf()
  {
    hide DecodeI16s, DecodeU32s, AcceptableOffsets, U32At, ValidHeader;
    StoredHasIvf(file);
    NormalizeFixes(StoredTables(file).ivf);
  }

  // ---- from references to an answer ---------------------------------------------------------------

  lemma {:induction false} PowersAreApart(a: nat, b: nat)
    requires Bits.IsPow2(a) && Bits.IsPow2(b) && a < b
    ensures 2 * a <= b
  {
    if a > 1 {
      PowersAreApart(a / 2, b / 2);
    }
  }

  /** The request and the dataset size settle the cluster count. */
  lemma ClusterCountIsUnique(requested: int, n: nat, a: nat, b: nat)
    requires AcceptsClusters(requested, n, a) && AcceptsClusters(requested, n, b)
    ensures a == b
  {
    hide Bits.IsPow2;
    if a < b {
      PowersAreApart(a, b);
    } else if b < a {
      PowersAreApart(b, a);
    }
  }

  /** A cluster count that the builder settles on and a search can use. */
  ghost predicate Usable(requested: int, n: nat, clusters: nat) {
    AcceptsClusters(requested, n, clusters) && clusters <= 8192
  }

  /** A file that serves references records at least one row. */
  lemma ServedFileHasRows(file: seq<Byte>, refs: seq<Reference>)
    requires Readable(file) && Serves(LoadedData(file), refs)
    ensures ShapeOf(file).count > 0
  {
    hide Readable, StoredTables;
    var data := LoadedData(file);
    LabelsAreCounted(file);
    assert IsListed(data.Observed().lists, 0);
    var c, i :| 0 <= c < |data.Observed().lists| && 0 <= i < |data.Observed().lists[c]|
                && data.Observed().lists[c][i].id == 0;
    data.RowInBounds(c, i);
  }

  lemma LabelsAreCounted(file: seq<Byte>)
    requires Readable(file)
    ensures |LoadedData(file).labels| == ShapeOf(file).count
  {
    hide AcceptableOffsets, DecodeI16s, DecodeU32s, U32At;
  }

  /** The answer of some index that serves the references with the given settings. */
  ghost predicate IsAnswer(frauds: int, refs: seq<Reference>, q: Vec, clusters: nat, cfg: Settings, avx2: bool) {
    exists data: IndexData :: AnswersWith(data, frauds, refs, q, clusters, cfg, avx2)
  }

  ghost predicate AnswersWith(
      data: IndexData, frauds: int, refs: seq<Reference>, q: Vec, clusters: nat, cfg: Settings, avx2: bool)
  {
    && Serves(data, refs) && data.ivf.clusters == clusters
    && data.Config() == cfg
    && frauds == Search(KernelsOf(data, avx2), q, data.Observed(), data.Config())
  }

  /** Settings asked for at build time, then overridden by positive counts when the file is served. */
  function ServedSettings(
      opts: BuildOptions, clusters: nat, nprobe: int, ambiguousNProbe: int, repair: bool): Settings
  {
    var built := InRange(Settings(opts.nprobe, opts.ambiguousNProbe, opts.repair), clusters);
    InRange(Settings(if nprobe > 0 then nprobe else built.nprobe,
                     if ambiguousNProbe > 0 then ambiguousNProbe else built.ambiguousNProbe, repair), clusters)
  }

  /** The counts in force once an index built with some is served with others. */
  ghost predicate ServesCounts(opts: BuildOptions, clusters: nat, nprobe: int, ambiguousNProbe: int, cfg: Settings) {
    exists n, a ::
      && CountsFor(opts.nprobe, opts.ambiguousNProbe, clusters, n, a)
      && CountsFor(if nprobe > 0 then nprobe else n, if ambiguousNProbe > 0 then ambiguousNProbe else a, clusters,
                   cfg.nprobe, cfg.ambiguousNProbe)
  }

  /**
   Builds an index, writes its file, loads it back, applies the serving settings and answers one query.
   There is an answer exactly when the cluster count is usable; with AVX2 and every list within reach of
   the first probes it is the brute-force one, up to the forced denial.
   */
  method PreprocessAndAnswer(
      refs: seq<Reference>, opts: BuildOptions, nprobe: int, ambiguousNProbe: int, repair: bool, avx2: bool, q: Vec)
    returns (frauds: Option<int>)
    requires |refs| <= MAX_UINT32 && IsInt64(opts.nprobe) && IsInt64(opts.ambiguousNProbe)
    requires IsInt64(nprobe) && IsInt64(ambiguousNProbe)
    ensures frauds.Some? <==> exists clusters: nat :: Usable(opts.clusters, |refs|, clusters)
    ensures forall clusters: nat :: frauds.Some? && Usable(opts.clusters, |refs|, clusters) ==>
              IsAnswer(frauds.value, refs, q, clusters,
                       ServedSettings(opts, clusters, nprobe, ambiguousNProbe, repair), avx2)
    ensures forall clusters: nat :: frauds.Some? && Usable(opts.clusters, |refs|, clusters) ==>
              ServesCounts(opts, clusters, nprobe, ambiguousNProbe,
                           ServedSettings(opts, clusters, nprobe, ambiguousNProbe, repair))
    ensures forall clusters: nat ::
              && frauds.Some? && Usable(opts.clusters, |refs|, clusters) && avx2
              && QuantizedRefs(refs) && Quantized(q) && clusters <= nprobe && clusters <= MAX_PROBE
              ==> frauds.value == BruteForce(q, refs, repair)
  {
    hide LoadedIndex, Readable, AcceptsClusters, IsAnswer, Usable, ServesCounts, BruteForce, QuantizedRefs, Quantized,
         Bits.IsPow2, ConfiguredData, ServedSettings, Search, Serves, IndexData.Scannable, ShapeOf;
    var file := WriteIvfBinaryIndex(refs, opts);
    if file.None? {
      Refused(refs, opts);
      return None;
    }
    ghost var clusters: nat :| AcceptsClusters(opts.clusters, |refs|, clusters)
                               && (Readable(file.value) <==> clusters <= 8192)
                               && (clusters <= 8192 ==> LoadedIndex(file.value, refs, opts, clusters));
    OnlyCount(opts.clusters, |refs|, clusters);
    var answer := AnswerFromFile(file.value, nprobe, ambiguousNProbe, repair, avx2, q);
    if answer.Unreadable? {
      return None;
    }
    ServedFile(file.value, refs, opts, clusters);
    assert clusters > 0 by {
      ServedHasClusters(opts.clusters, |refs|, clusters);
    }
    ServedCounts(opts, clusters, nprobe, ambiguousNProbe, repair);
    AnswerForReferences(file.value, answer.frauds, refs, opts, clusters, nprobe, ambiguousNProbe, repair, avx2, q);
    frauds := Some(answer.frauds);
  }

  /** What a written file answers is the answer of an index that serves its references. */
  lemma AnswerForReferences(
      file: seq<Byte>, frauds: int, refs: seq<Reference>, opts: BuildOptions, clusters: nat,
      nprobe: int, ambiguousNProbe: int, repair: bool, avx2: bool, q: Vec)
    requires LoadedIndex(file, refs, opts, clusters) && Readable(file)
    requires var data := ConfiguredData(file, nprobe, ambiguousNProbe, repair);
             data.Searchable() && frauds == Search(KernelsOf(data, avx2), q, data.Observed(), data.Config())
    ensures IsAnswer(frauds, refs, q, clusters, ServedSettings(opts, clusters, nprobe, ambiguousNProbe, repair), avx2)
    ensures avx2 && QuantizedRefs(refs) && Quantized(q) && clusters <= nprobe && clusters <= MAX_PROBE
            ==> frauds == BruteForce(q, refs, repair)
  {
    hide LoadedIndex, Readable, IsAnswer, BruteForce, QuantizedRefs, Quantized, ConfiguredData, ServedSettings, Search,
         Serves, IndexData.Scannable, ServesCounts;
    ServedData(file, refs, opts, clusters, nprobe, ambiguousNProbe, repair);
    ServedCounts(opts, clusters, nprobe, ambiguousNProbe, repair);
    AnswerIsServed(ConfiguredData(file, nprobe, ambiguousNProbe, repair), frauds, refs, q, clusters, avx2, nprobe,
                   ServedSettings(opts, clusters, nprobe, ambiguousNProbe, repair));
  }

  /** Stopped is the panic of the mapped reader. */
  datatype Answer = Unreadable | Stopped | Counted(frauds: int)

  /** Loads any file, applies the serving settings and answers one query. */
  method AnswerFromFile(file: seq<Byte>, nprobe: int, ambiguousNProbe: int, repair: bool, avx2: bool, q: Vec)
    returns (r: Answer)
    requires IsInt64(nprobe) && IsInt64(ambiguousNProbe)
    ensures r.Unreadable? <==> !Readable(file)
    ensures r.Stopped? <==> Readable(file) && ShapeOf(file).count == 0 && |file| == ShapeOf(file).BlocksAt()
    ensures r.Counted? ==> var data := ConfiguredData(file, nprobe, ambiguousNProbe, repair);
                           && data.Searchable()
                           && r.frauds == Search(KernelsOf(data, avx2), q, data.Observed(), data.Config())
  {
    hide Readable, LoadedData, ShapeOf, Search, Normalize, Reconfigured;
    var loaded := LoadSearcher(file, nprobe, ambiguousNProbe, repair);
    if loaded.Rejected? {
      return Unreadable;
    }
    if loaded.Panicked? {
      return Stopped;
    }
    var frauds := loaded.idx.Search5Quantized(avx2, q);
    r := Counted(frauds);
  }

  lemma ServedCounts(opts: BuildOptions, clusters: nat, nprobe: int, ambiguousNProbe: int, repair: bool)
    ensures var cfg := ServedSettings(opts, clusters, nprobe, ambiguousNProbe, repair);
            cfg.repair == repair && (nprobe > 0 ==> cfg.nprobe == Min(nprobe, clusters))
    ensures clusters > 0 ==> ServesCounts(opts, clusters, nprobe, ambiguousNProbe,
                                          ServedSettings(opts, clusters, nprobe, ambiguousNProbe, repair))
  {
    if clusters > 0 {
      var built := InRange(Settings(opts.nprobe, opts.ambiguousNProbe, opts.repair), clusters);
      InRangeIs(Settings(opts.nprobe, opts.ambiguousNProbe, opts.repair), clusters);
      InRangeIs(Settings(if nprobe > 0 then nprobe else built.nprobe,
                         if ambiguousNProbe > 0 then ambiguousNProbe else built.ambiguousNProbe, repair), clusters);
      assert CountsFor(opts.nprobe, opts.ambiguousNProbe, clusters, built.nprobe, built.ambiguousNProbe);
    }
  }

  lemma ServedHasClusters(requested: int, n: nat, clusters: nat)
    requires AcceptsClusters(requested, n, clusters)
    ensures clusters > 0
  {
  }

  lemma Refused(refs: seq<Reference>, opts: BuildOptions)
    requires |refs| == 0 || (0 < opts.clusters <= |refs| && !Bits.IsPow2(opts.clusters))
    ensures forall clusters: nat :: !Usable(opts.clusters, |refs|, clusters)
  {
  }

  lemma OnlyCount(requested: int, n: nat, clusters: nat)
    requires AcceptsClusters(requested, n, clusters)
    ensures forall c: nat :: Usable(requested, n, c) <==> c == clusters && clusters <= 8192
    ensures Usable(requested, n, clusters) <==> clusters <= 8192
  {
    forall c: nat | AcceptsClusters(requested, n, c)
      ensures c == clusters
    {
      ClusterCountIsUnique(requested, n, c, clusters);
    }
  }

  lemma ServedFile(file: seq<Byte>, refs: seq<Reference>, opts: BuildOptions, clusters: nat)
    requires LoadedIndex(file, refs, opts, clusters)
    ensures Readable(file) && Serves(LoadedData(file), refs) && ShapeOf(file).count > 0
  {
    hide Readable, Serves, LoadedData;
    ServedFileHasRows(file, refs);
  }

  lemma ServedData(
      file: seq<Byte>, refs: seq<Reference>, opts: BuildOptions, clusters: nat,
      nprobe: int, ambiguousNProbe: int, repair: bool)
    requires LoadedIndex(file, refs, opts, clusters)
    ensures Readable(file)
    ensures var data := ConfiguredData(file, nprobe, ambiguousNProbe, repair);
            && Serves(data, refs) && data.ivf.clusters == clusters && data.Searchable()
            && data.Config() == ServedSettings(opts, clusters, nprobe, ambiguousNProbe, repair)
  {
    hide Readable, LoadedData, WellBuilt;
    var loaded, data := LoadedData(file), ConfiguredData(file, nprobe, ambiguousNProbe, repair);
    NormalizeFixes(Reconfigured(loaded.ivf, nprobe, ambiguousNProbe, repair));
    SameView(loaded, data);
    ConfiguredServes(loaded, data, refs, nprobe, ambiguousNProbe, repair);
  }

  lemma AnswerIsServed(
      data: IndexData, frauds: int, refs: seq<Reference>, q: Vec, clusters: nat, avx2: bool, nprobe: int, cfg: Settings)
    requires AnswersWith(data, frauds, refs, q, clusters, cfg, avx2)
    requires nprobe > 0 ==> cfg.nprobe == Min(nprobe, clusters)
    ensures IsAnswer(frauds, refs, q, clusters, cfg, avx2)
    ensures avx2 && QuantizedRefs(refs) && Quantized(q) && clusters <= nprobe && clusters <= MAX_PROBE
            ==> frauds == BruteForce(q, refs, cfg.repair)
  {
    hide Serves, Search, QuantizedRefs, Quantized, NeedsApprovalRepair, NeedsKnownLateDenialRepair;
    if avx2 && QuantizedRefs(refs) && Quantized(q) && clusters <= nprobe && clusters <= MAX_PROBE {
      SettingsOf(data, cfg);
      ServedHasLists(data, refs);
      ServedFullProbingIsExact(data, refs, q);
    }
  }

  lemma SettingsOf(data: IndexData, cfg: Settings)
    requires data.Config() == cfg
    ensures data.ivf.nprobe == cfg.nprobe && data.ivf.repair == cfg.repair
  {
  }
}
