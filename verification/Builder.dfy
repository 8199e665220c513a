/** Building a searchable index from a dataset. */
module Builder {
  import opened Machine
  import opened Metric
  import opened SearchTheory
  import opened Exactness
  import opened Layout
  import opened Transpose
  import opened Bits
  import opened ClusterStats
  import opened Split
  import opened Build
  import opened BuildResults
  import opened IndexFile
  import opened QuantizedIndex

  /** Flattens the references into row-major vectors, label bytes and the identity id list. */
  method Flatten(refs: seq<Reference>) returns (vectors: seq<Int16>, labels: seq<Byte>, ids: array<nat>)
    ensures Encodes(vectors, labels, refs)
    ensures fresh(ids) && ids[..] == Identity(|refs|)
  {
    hide VecAt;
    vectors, labels := [], [];
    ids := new nat[|refs|](_ => 0);
    for i := 0 to |refs|
      invariant Encodes(vectors, labels, refs[..i])
      invariant forall j :: 0 <= j < i ==> ids[j] == j
    {
      EncodeStep(vectors, labels, refs, i);
      vectors := vectors + refs[i].vec;
      labels := labels + [if refs[i].fraud then 1 else 0];
      ids[i] := i;
    }
    assert refs[..|refs|] == refs;
  }

  lemma EncodeStep(vectors: seq<Int16>, labels: seq<Byte>, refs: seq<Reference>, n: nat)
    requires n < |refs| && Encodes(vectors, labels, refs[..n])
    ensures Encodes(vectors + refs[n].vec, labels + [if refs[n].fraud then 1 else 0], refs[..n + 1])
  {
    var vectors', labels', refs' := vectors + refs[n].vec, labels + [if refs[n].fraud then 1 else 0], refs[..n + 1];
    forall id | 0 <= id < |refs'|
      ensures EncodesRow(vectors', labels', refs', id)
    {
      if id < n {
        assert EncodesRow(vectors, labels, refs[..n], id);
        assert forall d :: 0 <= d < 14 ==> VecAt(vectors', id)[d] == VecAt(vectors, id)[d];
      } else {
        assert forall d :: 0 <= d < 14 ==> VecAt(vectors', id)[d] == refs[n].vec[d];
      }
    }
  }

  /** The cluster count the builder settles on, when it accepts the request. */
  ghost predicate AcceptsClusters(requested: int, n: nat, clusters: int) {
    var wanted := if requested <= 0 then 8192 else requested;
    && IsPow2(clusters) && clusters <= n
    && (if wanted <= n then clusters == wanted else n < 2 * clusters)
  }

  /** The cluster count in cases: a fitting power of two as asked, 8192 by default, else the largest that fits. */
  lemma ClusterCounts(requested: int, n: nat, clusters: nat)
    requires AcceptsClusters(requested, n, clusters)
    ensures 0 < requested <= n ==> clusters == requested && IsPow2(requested)
    ensures requested <= 0 && n >= 8192 ==> clusters == 8192
    ensures requested > n || (requested <= 0 && n < 8192) ==> IsPow2(clusters) && clusters <= n < 2 * clusters
  {
    hide IsPow2;
  }

  /** What every built index satisfies, whatever the number of its lists. */
  ghost predicate IsBuilt(data: IndexData, refs: seq<Reference>) {
    && IsPermutation(data.ivf.origIDs, |refs|) && data.ivf.clusters <= |refs| <= MAX_UINT32
    && data.HasIvf() && data.HasIvfBlocks() && data.HasBoxes() && data.CentroidBlocksAgree()
    && Normalized(data.ivf) && Storable(data)
    && data.Scannable() && WellBuilt(data.Observed(), refs)
  }

  /**
   Builds an index unless the dataset is empty or the requested cluster count fits it without being
   a power of two.
   */
  method BuildIvfIndex(refs: seq<Reference>, opts: BuildOptions) returns (r: Option<QuantizedIndex>)
    requires |refs| <= MAX_UINT32 && IsInt64(opts.nprobe) && IsInt64(opts.ambiguousNProbe)
    ensures r.None? <==> |refs| == 0 || (0 < opts.clusters <= |refs| && !IsPow2(opts.clusters))
    ensures r.Some? ==> fresh(r.value)
    ensures r.Some? ==> AcceptsClusters(opts.clusters, |refs|, r.value.ivf.clusters)
    ensures r.Some? ==> IsBuilt(r.value.Data(), refs)
    ensures r.Some? ==> r.value.Data().Config()
                        == InRange(Settings(opts.nprobe, opts.ambiguousNProbe, opts.repair), r.value.ivf.clusters)
    ensures r.Some? ==> CountsFor(opts.nprobe, opts.ambiguousNProbe, r.value.ivf.clusters,
                                  r.value.ivf.nprobe, r.value.ivf.ambiguousNProbe)
                        && r.value.ivf.repair == opts.repair
  {
    hide LaidOut, IsBuilt, TransposeTable, Normalize, InRange, IndexData.Config;
    if |refs| == 0 {
      return None;
    }
    var clusters := opts.clusters;
    if clusters <= 0 {
      clusters := 8192;
    }
    if clusters > |refs| {
      clusters := HighestPowerOfTwoLE(|refs|);
    }
    var power := IsPowerOfTwo(clusters);
    if clusters <= 0 || !power {
      return None;
    }
    var data := BuildData(refs, clusters, opts);
    LaidOutSizes(data, refs, clusters, opts);
    var idx := new QuantizedIndex.NewIvfQuantizedIndex(data.vectors, data.labels, data.ivf);
    idx.blocks := data.blocks;
    BuiltFromLayout(data, refs, clusters, opts, idx.Data());
    r := Some(idx);
  }

  /** The tables of a dataset split into the given number of lists, before centroids are transposed. */
  ghost predicate LaidOut(data: IndexData, refs: seq<Reference>, clusters: nat, opts: BuildOptions) {
    && 0 < clusters <= |refs| <= MAX_UINT32
    && data.ivf.clusters == clusters && data.ivf.centroidBlocks == [] && |data.ivf.centroids| == 14 * clusters
    && data.Config() == Settings(opts.nprobe, opts.ambiguousNProbe, opts.repair)
    && IsPermutation(data.ivf.origIDs, |refs|)
    && data.HasIvf() && data.HasIvfBlocks() && data.HasBoxes()
    && StorableOnce(data)
    && data.Scannable() && WellBuilt(data.Observed(), refs)
  }

  /** Once the centroids are transposed and the probe counts fixed, the tables have their file sizes. */
  ghost predicate StorableOnce(data: IndexData) {
    forall ivf: IvfMetadata ::
      && ivf == data.ivf.(
           centroidBlocks := ivf.centroidBlocks, nprobe := ivf.nprobe, ambiguousNProbe := ivf.ambiguousNProbe)
      && |ivf.centroidBlocks| == BlocksForRows(data.ivf.clusters) * 112
      && 0 <= ivf.nprobe <= MAX_UINT32 && 0 <= ivf.ambiguousNProbe <= MAX_UINT32
      ==> Storable(data.(ivf := ivf))
  }

  lemma LaidOutSizes(data: IndexData, refs: seq<Reference>, clusters: nat, opts: BuildOptions)
    requires LaidOut(data, refs, clusters, opts)
    ensures data.ivf.clusters == clusters > 0 && data.ivf.centroidBlocks == [] && |data.ivf.centroids| == 14 * clusters
    ensures |data.ivf.centroids| <= MAX_INT64 && data.HasIvf() && data.ivf.repair == opts.repair
    ensures data.ivf.nprobe == opts.nprobe && data.ivf.ambiguousNProbe == opts.ambiguousNProbe
  {
    hide WellBuilt, IsPermutation, StorableOnce;
  }

  lemma BuiltFromLayout(data: IndexData, refs: seq<Reference>, clusters: nat, opts: BuildOptions, built: IndexData)
    requires LaidOut(data, refs, clusters, opts)
    requires |data.ivf.centroids| >= clusters * 14
    requires built == data.(ivf := Normalize(data.ivf).(centroidBlocks := TransposeTable(data.ivf.centroids, clusters)))
    ensures IsBuilt(built, refs) && built.ivf.clusters == clusters
    ensures built.Config() == InRange(Settings(opts.nprobe, opts.ambiguousNProbe, opts.repair), clusters)
    ensures CountsFor(opts.nprobe, opts.ambiguousNProbe, clusters, built.ivf.nprobe, built.ivf.ambiguousNProbe)
    ensures built.ivf.repair == opts.repair
  {
    hide WellBuilt, IsPermutation, Storable;
    NormalizeFixes(data.ivf);
    InRangeIs(data.Config(), clusters);
    TransposeTableTransposes(data.ivf.centroids, clusters);
    AgreeingLanes(built);
    SameView(data, built);
  }

  /** Splits the dataset into the given number of lists and lays it out. */
  method BuildData(refs: seq<Reference>, clusters: nat, opts: BuildOptions) returns (data: IndexData)
    requires 0 < clusters <= |refs| <= MAX_UINT32 && IsPow2(clusters)
    ensures LaidOut(data, refs, clusters, opts)
  {
    hide Encodes, Tiles, WellBuilt, StorableOnce, IsPow2, Materialized, LaidOut, Halvings, Separated, IdsFit;
    var vectors, labels, ids := Flatten(refs);
    EncodedSizes(vectors, labels, refs);
    var ranges := new BuildRange[clusters](_ => BuildRange(0, 0));
    assert ids[0..ids.Length] == ids[..];
    IdentityFits(vectors, labels, refs);
    BalancedSplit(vectors, ids, ranges, 0, ids.Length, 0, clusters);
    assert ids[0..ids.Length] == ids[..] && ranges[0..0 + clusters] == ranges[..];
    PermutationFitsRows(ids[..], |refs|);
    HalvingsTile(0, |refs|, clusters);
    data := MaterializeIvf(vectors, labels, ids[..], ranges[..], opts);
    MaterializedIsLaidOut(vectors, labels, refs, ids[..], ranges[..], data, opts);
  }

  lemma IdentityFits(vectors: seq<Int16>, labels: seq<Byte>, refs: seq<Reference>)
    requires Encodes(vectors, labels, refs)
    ensures IdsFit(vectors, Identity(|refs|))
  {
  }

  lemma PermutationFitsRows(ids: seq<nat>, n: nat)
    requires IsPermutation(ids, n)
    ensures |ids| == n && forall i :: 0 <= i < |ids| ==> ids[i] < n
  {
    PermutationIsBijective(ids, n);
    assert forall i :: 0 <= i < |ids| ==> ids[i] in ids;
  }

  lemma MaterializedIsLaidOut(
      vectors: seq<Int16>, labels: seq<Byte>, refs: seq<Reference>, ids: seq<nat>, ranges: seq<BuildRange>,
      data: IndexData, opts: BuildOptions)
    requires Prepared(vectors, labels, refs, ids, ranges) && Materialized(vectors, labels, ids, ranges, data)
    requires 0 < |ranges| <= |refs| <= MAX_UINT32 && IsSplit(vectors, ids, ranges)
    requires data.ivf.centroidBlocks == []
    requires data.Config() == Settings(opts.nprobe, opts.ambiguousNProbe, opts.repair)
    ensures LaidOut(data, refs, |ranges|, opts)
  {
    hide Prepared, WellBuilt, StorableOnce, IsPermutation, IsSplit, RowsPlaced, TransposedTo, OffsetsFit, ClusterEntry;
    MaterializedIsScannable(vectors, labels, refs, ids, ranges, data);
    BuiltPermutation(vectors, labels, refs, ids, ranges, data);
    MaterializedIsStorable(vectors, labels, refs, ids, ranges, data);
    MaterializedIsWellBuilt(vectors, labels, refs, ids, ranges, data);
  }

  lemma MaterializedIsStorable(
      vectors: seq<Int16>, labels: seq<Byte>, refs: seq<Reference>, ids: seq<nat>, ranges: seq<BuildRange>,
      data: IndexData)
    requires Prepared(vectors, labels, refs, ids, ranges) && Materialized(vectors, labels, ids, ranges, data)
    requires |ranges| <= MAX_UINT32
    ensures StorableOnce(data)
  {
    MaterializedIsScannable(vectors, labels, refs, ids, ranges, data);
  }

  lemma EncodedSizes(vectors: seq<Int16>, labels: seq<Byte>, refs: seq<Reference>)
    requires Encodes(vectors, labels, refs)
    ensures |labels| == |refs| && |vectors| == 14 * |refs|
  {
  }
}
