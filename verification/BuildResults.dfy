/** What a freshly built index represents: the dataset, tight boxes, centroids and balanced lists. */
module BuildResults {
  import opened Machine
  import opened Metric
  import opened ProbeOrder
  import opened SearchTheory
  import opened Exactness
  import opened Layout
  import opened Transpose
  import opened Sorting
  import opened Split
  import opened ClusterStats
  import opened Bits
  import opened Variance
  import opened Separation
  import opened Build

  function Identity(n: nat): (s: seq<nat>)
    ensures |s| == n && forall i :: 0 <= i < n ==> s[i] == i
  {
    seq(n, i requires 0 <= i < n => i)
  }

  /** s lists 0..n-1, each once. */
  ghost predicate IsPermutation(s: seq<nat>, n: nat) {
    multiset(s) == multiset(Identity(n))
  }

  lemma {:induction false} IdentityCounts(n: nat, x: nat)
    ensures multiset(Identity(n))[x] == if x < n then 1 else 0
  {
    if n > 0 {
      IdentityCounts(n - 1, x);
      assert Identity(n) == Identity(n - 1) + [n - 1];
    }
  }

  lemma RepeatedItem(s: seq<nat>, i: nat, j: nat)
    requires i < j < |s| && s[i] == s[j]
    ensures multiset(s)[s[i]] >= 2
  {
    assert s == s[..j] + [s[j]] + s[j + 1..];
    assert s[i] in s[..j];
  }

  /** A permutation is injective and onto. */
  lemma {:induction false} PermutationIsBijective(s: seq<nat>, n: nat)
    requires IsPermutation(s, n)
    ensures |s| == n && Distinct(s)
    ensures forall x: nat :: x < n <==> x in s
  {
    assert |s| == |multiset(s)| == |multiset(Identity(n))| == n;
    forall i, j | 0 <= i < j < |s|
      ensures s[i] != s[j]
    {
      if s[i] == s[j] {
        RepeatedItem(s, i, j);
      }
      IdentityCounts(n, s[i]);
    }
    forall x: nat
      ensures x < n <==> x in s
    {
      IdentityCounts(n, x);
      assert x in s <==> x in multiset(s);
    }
  }

  /** The flat tables hold the references row by row. */
  ghost predicate Encodes(vectors: seq<Int16>, labels: seq<Byte>, refs: seq<Reference>) {
    && |labels| == |refs| && |vectors| == 14 * |refs|
    && forall id :: 0 <= id < |refs| ==> EncodesRow(vectors, labels, refs, id)
  }

  ghost predicate EncodesRow(vectors: seq<Int16>, labels: seq<Byte>, refs: seq<Reference>, id: int)
    requires |labels| == |refs| && |vectors| == 14 * |refs|
  {
    && 0 <= id < |refs|
    && VecAt(vectors, id) == refs[id].vec
    && labels[id] == if refs[id].fraud then 1 else 0
  }

  /** The inputs of materialisation for a dataset. */
  ghost predicate Prepared(
      vectors: seq<Int16>, labels: seq<Byte>, refs: seq<Reference>, ids: seq<nat>, ranges: seq<BuildRange>)
  {
    && Encodes(vectors, labels, refs) && |refs| <= MAX_UINT32
    && IsPermutation(ids, |refs|) && Tiles(ranges, 0, |refs|)
  }

  lemma MaterializedIsScannable(
      vectors: seq<Int16>, labels: seq<Byte>, refs: seq<Reference>, ids: seq<nat>, ranges: seq<BuildRange>,
      data: IndexData)
    requires Prepared(vectors, labels, refs, ids, ranges) && Materialized(vectors, labels, ids, ranges, data)
    ensures |ids| == |refs| == |data.labels| == |data.ivf.origIDs|
    ensures data.HasIvfBlocks() && data.HasBoxes() && data.ivf.clusters == |ranges|
    ensures data.Scannable()
  {
    PermutationIsBijective(ids, |refs|);
    PermutationIsBijective(data.ivf.origIDs, |refs|);
    assert data.ListStart(|ranges|) == |data.ivf.origIDs|;
  }

  /** Row i of list c is the reference whose id is recorded at its position. */
  lemma BuiltRow(
      vectors: seq<Int16>, labels: seq<Byte>, refs: seq<Reference>, ids: seq<nat>, ranges: seq<BuildRange>,
      data: IndexData, c: nat, i: nat)
    requires Prepared(vectors, labels, refs, ids, ranges) && Materialized(vectors, labels, ids, ranges, data)
    requires data.Scannable() && c < data.ivf.clusters && i < data.ListLength(c)
    ensures data.ListStart(c) + i < |data.ivf.origIDs|
    ensures data.RowAt(c, i).id == data.ivf.origIDs[data.ListStart(c) + i]
    ensures RowIsReference(data.RowAt(c, i), refs)
  {
    hide IsPermutation, ClustersDone, VecAt, LaneVec;
    MaterializedIsScannable(vectors, labels, refs, ids, ranges, data);
    assert data.ListStart(c + 1) <= data.ListStart(data.ivf.clusters);
    assert IsRowOf(data.ivf.listOffsets, c, i);
    assert LaneHolds(data.blocks, data.vectors, data.ivf.listOffsets, data.ivf.blockOffsets, c, i);
    var p := data.ListStart(c) + i;
    assert RowPlaced(vectors, labels, data.vectors, data.labels, data.ivf.origIDs, p);
    assert EncodesRow(vectors, labels, refs, data.ivf.origIDs[p]);
  }

  /** The rows of an earlier list come before those of a later one. */
  lemma ListsAreOrdered(data: IndexData)
    requires data.Scannable()
    ensures forall c, d :: 0 <= c < d < data.ivf.clusters
              ==> data.ListStart(c) + data.ListLength(c) <= data.ListStart(d)
  {
    forall c, d | 0 <= c < d < data.ivf.clusters
      ensures data.ListStart(c) + data.ListLength(c) <= data.ListStart(d)
    {
      assert data.ListStart(c + 1) <= data.ListStart(d);
    }
  }

  /** Every position belongs to a list. */
  lemma {:induction false} PositionHasList(data: IndexData, p: nat, k: nat) returns (c: nat)
    requires data.Scannable() && k <= data.ivf.clusters && p < data.ListStart(k)
    ensures c < data.ivf.clusters && data.ListStart(c) <= p < data.ListStart(c + 1)
  {
    if data.ListStart(k - 1) <= p {
      c := k - 1;
    } else {
      c := PositionHasList(data, p, k - 1);
    }
  }

  /** A built index holds every reference once, with its vector and label. */
  lemma BuiltRepresents(
      vectors: seq<Int16>, labels: seq<Byte>, refs: seq<Reference>, ids: seq<nat>, ranges: seq<BuildRange>,
      data: IndexData)
    requires Prepared(vectors, labels, refs, ids, ranges) && Materialized(vectors, labels, ids, ranges, data)
    requires data.Scannable()
    ensures Represents(data.Observed().lists, refs)
  {
    var lists: seq<seq<Row>> := data.Observed().lists;
    BuiltIdsAreDistinct(vectors, labels, refs, ids, ranges, data);
    forall c, i | 0 <= c < |lists| && 0 <= i < |lists[c]|
      ensures RowIsReference(lists[c][i], refs)
    {
      BuiltRow(vectors, labels, refs, ids, ranges, data, c, i);
    }
    forall id: nat | id < |refs|
      ensures IsListed(lists, id)
    {
      BuiltListsReference(vectors, labels, refs, ids, ranges, data, id);
    }
  }

  lemma BuiltIdsAreDistinct(
      vectors: seq<Int16>, labels: seq<Byte>, refs: seq<Reference>, ids: seq<nat>, ranges: seq<BuildRange>,
      data: IndexData)
    requires Prepared(vectors, labels, refs, ids, ranges) && Materialized(vectors, labels, ids, ranges, data)
    requires data.Scannable()
    ensures DistinctIds(data.Observed().lists)
  {
    hide Prepared, Materialized;
    var lists: seq<seq<Row>> := data.Observed().lists;
    BuiltPermutation(vectors, labels, refs, ids, ranges, data);
    forall c, i, d, j |
      && 0 <= c < |lists| && 0 <= i < |lists[c]|
      && 0 <= d < |lists| && 0 <= j < |lists[d]|
      && lists[c][i].id == lists[d][j].id
      ensures c == d && i == j
    {
      BuiltRow(vectors, labels, refs, ids, ranges, data, c, i);
      BuiltRow(vectors, labels, refs, ids, ranges, data, d, j);
      ListsAreOrdered(data);
    }
  }

  /** The recorded ids are a permutation of 0..n-1. */
  lemma BuiltPermutation(
      vectors: seq<Int16>, labels: seq<Byte>, refs: seq<Reference>, ids: seq<nat>, ranges: seq<BuildRange>,
      data: IndexData)
    requires Prepared(vectors, labels, refs, ids, ranges) && Materialized(vectors, labels, ids, ranges, data)
    ensures IsPermutation(data.ivf.origIDs, |refs|)
    ensures |data.ivf.origIDs| == |refs| && Distinct(data.ivf.origIDs)
    ensures forall x: nat :: x < |refs| <==> x in data.ivf.origIDs
  {
    PermutationIsBijective(data.ivf.origIDs, |refs|);
  }

  lemma BuiltListsReference(
      vectors: seq<Int16>, labels: seq<Byte>, refs: seq<Reference>, ids: seq<nat>, ranges: seq<BuildRange>,
      data: IndexData, id: nat)
    requires Prepared(vectors, labels, refs, ids, ranges) && Materialized(vectors, labels, ids, ranges, data)
    requires data.Scannable() && id < |refs|
    ensures IsListed(data.Observed().lists, id)
  {
    hide Prepared, Materialized;
    var lists: seq<seq<Row>> := data.Observed().lists;
    var oi := data.ivf.origIDs;
    BuiltPermutation(vectors, labels, refs, ids, ranges, data);
    MaterializedIsScannable(vectors, labels, refs, ids, ranges, data);
    assert id in oi;
    var p: nat :| p < |oi| && oi[p] == id;
    var c := PositionHasList(data, p, data.ivf.clusters);
    BuiltRow(vectors, labels, refs, ids, ranges, data, c, p - data.ListStart(c));
    assert lists[c][p - data.ListStart(c)].id == id;
  }

  // ---- boxes, centroids, order ------------------------------------------------------------------

  /** Rows come nearest to the centroid first, ties by id. */
  ghost predicate RowsInOrder(rows: seq<Row>, centroid: Vec) {
    forall i, j :: 0 <= i < j < |rows| ==>
      var a, b := Dist(rows[i].vec, centroid), Dist(rows[j].vec, centroid);
      a < b || (a == b && rows[i].id < rows[j].id)
  }

  /** Sorting a cluster does not change its component sums. */
  lemma {:induction false} SortKeepsSums(vectors: seq<Int16>, key: nat -> int, s: seq<nat>, d: nat)
    requires IdsFit(vectors, s) && d < 14
    ensures IdsFit(vectors, SortBy(key, s))
    ensures SumOf(Members(vectors, SortBy(key, s)), d) == SumOf(Members(vectors, s), d)
  {
    hide SumOf, SquaresOf, SortBy, SortedBy, VecAt, ClusterStats.Members;
    SortBySorts(key, s);
    MembersIgnoreOrder(vectors, s, SortBy(key, s));
    SumsIgnoreOrder(Members(vectors, s), Members(vectors, SortBy(key, s)), d);
  }

  /** Nor its bounding box. */
  lemma SortKeepsBox(vectors: seq<Int16>, s: seq<nat>, t: seq<nat>, b: Box)
    requires IdsFit(vectors, s) && IdsFit(vectors, t) && multiset(s) == multiset(t)
    requires TightBox(Members(vectors, s), b)
    ensures TightBox(Members(vectors, t), b)
  {
    assert |s| == |multiset(s)| == |t|;
    forall d: nat | d < 14
      ensures TightBounds(Members(vectors, t), d, b.low[d], b.high[d])
    {
      assert TightBounds(Members(vectors, s), d, b.low[d], b.high[d]);
      forall i | 0 <= i < |t|
        ensures b.low[d] <= Members(vectors, t)[i][d] <= b.high[d]
      {
        var j := SameItem(t, s, i);
        assert Members(vectors, s)[j] == Members(vectors, t)[i];
      }
      if s != [] {
        var i :| 0 <= i < |s| && Members(vectors, s)[i][d] == b.low[d];
        var j :| 0 <= j < |s| && Members(vectors, s)[j][d] == b.high[d];
        var i' := SameItem(s, t, i);
        var j' := SameItem(s, t, j);
        assert Members(vectors, t)[i'][d] == b.low[d] && Members(vectors, t)[j'][d] == b.high[d];
      }
    }
  }

  lemma SameItem(s: seq<nat>, t: seq<nat>, i: nat) returns (j: nat)
    requires i < |s| && multiset(s) == multiset(t)
    ensures j < |t| && t[j] == s[i]
  {
    assert s[i] in multiset(t);
    j :| 0 <= j < |t| && t[j] == s[i];
  }

  // ---- the finished index -------------------------------------------------------------------------

  /** List c of an index with centroid and box, built from n references over k lists. */
  ghost predicate WellBuiltList(rows: seq<Row>, centroid: Vec, box: Box, n: nat, k: nat) {
    && TightBox(VecsOf(rows), box)
    && RowsInOrder(rows, centroid)
    && (rows != [] ==> RoundedMean(VecsOf(rows), centroid) && Inside(centroid, box))
    && k > 0 && n / k <= |rows| <= (n + k - 1) / k
  }

  /**
   The lists hold the references once each, in order, with tight boxes and rounded centroids; they have the
   lengths that halving gives, and lie apart at every split.
   */
  ghost predicate WellBuilt(view: View, refs: seq<Reference>) {
    && WellFormed(view) && |view.boxes| == |view.lists|
    && Represents(view.lists, refs)
    && Covered(view)
    && RunSized(view.lists, |refs|) && Parted(view.lists)
    && forall c :: 0 <= c < |view.lists| ==>
         WellBuiltList(view.lists[c], view.centroids[c], view.boxes[c], |refs|, |view.lists|)
  }

  lemma TightBoxCovers(vs: seq<Vec>, b: Box)
    requires TightBox(vs, b)
    ensures forall i :: 0 <= i < |vs| ==> Inside(vs[i], b)
  {
    forall i, d: nat | 0 <= i < |vs| && d < 14
      ensures b.low[d] <= vs[i][d] <= b.high[d]
    {
      assert TightBounds(vs, d, b.low[d], b.high[d]);
    }
  }

  /** A list is its cluster's ids in sorted order. */
  lemma ListIsCluster(
      vectors: seq<Int16>, labels: seq<Byte>, refs: seq<Reference>, ids: seq<nat>, ranges: seq<BuildRange>,
      data: IndexData, c: nat)
    requires Prepared(vectors, labels, refs, ids, ranges) && Materialized(vectors, labels, ids, ranges, data)
    requires data.Scannable() && c < |ranges|
    ensures ranges[c].start <= ranges[c].end <= |ids| && IdsFit(vectors, ids)
    ensures var centroid := VecAt(data.ivf.centroids, c);
            var sorted := SortClusterByCentroidDistance(vectors, ids[ranges[c].start..ranges[c].end], centroid);
            && IdsFit(vectors, sorted) && multiset(sorted) == multiset(ids[ranges[c].start..ranges[c].end])
            && |sorted| == |data.ListRows(c)| == ranges[c].end - ranges[c].start
            && (forall i :: 0 <= i < |sorted| ==> data.ListRows(c)[i].id == sorted[i])
            && VecsOf(data.ListRows(c)) == Members(vectors, sorted)
  {
    hide RowsPlaced, TransposedTo, IndexData.RowAt, LaneVec, TightBox, RoundedMean, Inside, SortBy, SortedBy;
    PermutationIsBijective(ids, |refs|);
    assert forall i :: 0 <= i < |ids| ==> ids[i] in ids;
    assert ClusterEntry(vectors, ids, ranges, c, data.ivf.origIDs, data.ivf.centroids, data.ivf.bboxMin,
                        data.ivf.bboxMax, data.ivf.listOffsets, data.ivf.blockOffsets);
    var centroid := VecAt(data.ivf.centroids, c);
    var window := ids[ranges[c].start..ranges[c].end];
    var sorted := SortClusterByCentroidDistance(vectors, window, centroid);
    SortBySorts(CentroidKey(vectors, centroid), window);
    PermutationFits(vectors, window, sorted);
    var rows := data.ListRows(c);
    forall i | 0 <= i < |rows|
      ensures rows[i].id == sorted[i] && rows[i].vec == VecAt(vectors, sorted[i])
    {
      BuiltItem(vectors, labels, refs, ids, ranges, data, c, i);
      assert data.ivf.origIDs[ranges[c].start..ranges[c].end][i] == data.ivf.origIDs[ranges[c].start + i];
    }
  }

  /** Row i of list c has the recorded id and the vector of that reference. */
  lemma BuiltItem(
      vectors: seq<Int16>, labels: seq<Byte>, refs: seq<Reference>, ids: seq<nat>, ranges: seq<BuildRange>,
      data: IndexData, c: nat, i: nat)
    requires Prepared(vectors, labels, refs, ids, ranges) && Materialized(vectors, labels, ids, ranges, data)
    requires data.Scannable() && c < data.ivf.clusters && i < data.ListLength(c)
    ensures var id := data.RowAt(c, i).id;
            && data.ListStart(c) + i < |data.ivf.origIDs| && id == data.ivf.origIDs[data.ListStart(c) + i]
            && id * 14 + 14 <= |vectors| && data.RowAt(c, i).vec == VecAt(vectors, id)
  {
    hide Materialized, IsPermutation, IndexData.RowAt, VecAt, IndexData.Scannable;
    BuiltRow(vectors, labels, refs, ids, ranges, data, c, i);
    assert EncodesRow(vectors, labels, refs, data.RowAt(c, i).id);
  }

  lemma SortedRowsAreInOrder(vectors: seq<Int16>, rows: seq<Row>, sorted: seq<nat>, centroid: Vec)
    requires IdsFit(vectors, sorted) && |rows| == |sorted| && Distinct(sorted)
    requires SortedBy(CentroidKey(vectors, centroid), sorted)
    requires forall i :: 0 <= i < |rows| ==> rows[i].id == sorted[i] && rows[i].vec == VecAt(vectors, sorted[i])
    ensures RowsInOrder(rows, centroid)
  {
    forall i, j | 0 <= i < j < |rows|
      ensures var a, b := Dist(rows[i].vec, centroid), Dist(rows[j].vec, centroid);
              a < b || (a == b && rows[i].id < rows[j].id)
    {
      assert !Precedes(CentroidKey(vectors, centroid), sorted[j], sorted[i]);
      assert sorted[i] != sorted[j];
    }
  }

  lemma DistinctWindow(s: seq<nat>, n: nat, a: nat, b: nat, t: seq<nat>)
    requires IsPermutation(s, n) && a <= b <= |s| && multiset(t) == multiset(s[a..b])
    ensures Distinct(t)
  {
    PermutationIsBijective(s, n);
    forall i, j | 0 <= i < j < |t|
      ensures t[i] != t[j]
    {
      if t[i] == t[j] {
        RepeatedItem(t, i, j);
      }
      AtMostOnce(s[a..b], t[i]);
    }
  }

  lemma {:induction false} AtMostOnce(s: seq<nat>, x: nat)
    requires Distinct(s)
    ensures multiset(s)[x] <= 1
  {
    if s != [] {
      AtMostOnce(s[1..], x);
      assert s == [s[0]] + s[1..];
      assert s[0] !in s[1..];
    }
  }

  /** List c of a materialised index is well built. */
  lemma BuiltListIsWellBuilt(
      vectors: seq<Int16>, labels: seq<Byte>, refs: seq<Reference>, ids: seq<nat>, ranges: seq<BuildRange>,
      data: IndexData, c: nat)
    requires Prepared(vectors, labels, refs, ids, ranges) && Materialized(vectors, labels, ids, ranges, data)
    requires data.Scannable() && data.HasBoxes() && c < |ranges|
    requires Balanced(ranges, |refs|, |ranges|)
    ensures WellBuiltList(data.ListRows(c), VecAt(data.ivf.centroids, c), data.BoxAt(c), |refs|, |ranges|)
  {
    ListIsCluster(vectors, labels, refs, ids, ranges, data, c);
    var r, centroid, box, rows := ranges[c], VecAt(data.ivf.centroids, c), data.BoxAt(c), data.ListRows(c);
    var window := ids[r.start..r.end];
    var sorted := SortClusterByCentroidDistance(vectors, window, centroid);
    ClusterOfEntry(vectors, ids, ranges, data, c);
    SortKeepsBox(vectors, window, sorted, box);
    forall d: nat | d < 14
      ensures SumOf(VecsOf(rows), d) == SumOf(Members(vectors, window), d)
    {
      SortKeepsSums(vectors, CentroidKey(vectors, centroid), window, d);
    }
    DistinctWindow(ids, |refs|, r.start, r.end, sorted);
    SortBySorts(CentroidKey(vectors, centroid), window);
    forall i | 0 <= i < |rows|
      ensures rows[i].vec == VecAt(vectors, sorted[i])
    {
      assert VecsOf(rows)[i] == Members(vectors, sorted)[i];
    }
    SortedRowsAreInOrder(vectors, rows, sorted, centroid);
  }

  lemma ClusterOfEntry(vectors: seq<Int16>, ids: seq<nat>, ranges: seq<BuildRange>, data: IndexData, c: nat)
    requires exists labels: seq<Byte> :: |vectors| == 14 * |labels| && Materialized(vectors, labels, ids, ranges, data)
    requires c < |ranges| && data.HasBoxes() && |data.ivf.centroids| == 14 * |ranges|
    ensures ClusterDone(vectors, ids, ranges[c], data.ivf.origIDs, VecAt(data.ivf.centroids, c), data.BoxAt(c))
  {
    assert ClusterEntry(vectors, ids, ranges, c, data.ivf.origIDs, data.ivf.centroids, data.ivf.bboxMin,
                        data.ivf.bboxMax, data.ivf.listOffsets, data.ivf.blockOffsets);
  }

  /** A split of all the ids. */
  ghost predicate IsSplit(vectors: seq<Int16>, ids: seq<nat>, ranges: seq<BuildRange>) {
    && IsPow2(|ranges|) && ranges == Halvings(0, |ids|, |ranges|)
    && IdsFit(vectors, ids) && Separated(vectors, ids, |ranges|)
  }

  /** The lists of a materialised split are parted. */
  lemma MaterializedIsParted(
      vectors: seq<Int16>, labels: seq<Byte>, refs: seq<Reference>, ids: seq<nat>, ranges: seq<BuildRange>,
      data: IndexData)
    requires Prepared(vectors, labels, refs, ids, ranges) && Materialized(vectors, labels, ids, ranges, data)
    requires IsSplit(vectors, ids, ranges) && data.Scannable() && data.ivf.clusters == |ranges|
    ensures Parted(data.Observed().lists)
  {
    hide Materialized, Separated, Halvings, IsPow2, Parted, Windows, RowsFrom, Encodes, Tiles, IdsFit,
         IndexData.Scannable, IsPermutation;
    PermutationIsBijective(ids, |refs|);
    assert ids[0..|ids|] == ids;
    var lists: seq<seq<Row>> := data.Observed().lists;
    forall c | 0 <= c < |ranges|
      ensures RowsFrom(vectors, Windows(ids, |ranges|)[c], lists[c])
    {
      WindowsAreSlices(ids, 0, |ids|, |ranges|, c);
      ListIsRowsFrom(vectors, labels, refs, ids, ranges, data, c);
    }
    SeparatedIsParted(vectors, ids, |ranges|, lists);
  }

  /** They are as long as its ranges. */
  lemma MaterializedIsSized(
      vectors: seq<Int16>, labels: seq<Byte>, refs: seq<Reference>, ids: seq<nat>, ranges: seq<BuildRange>,
      data: IndexData)
    requires Prepared(vectors, labels, refs, ids, ranges) && Materialized(vectors, labels, ids, ranges, data)
    requires IsSplit(vectors, ids, ranges) && data.Scannable() && data.ivf.clusters == |ranges|
    ensures RunSized(data.Observed().lists, |refs|)
  {
    hide Materialized, Separated, Halvings, IsPow2, RunLength, RowsFrom, Encodes, Tiles, IdsFit, IndexData.Scannable,
         IsPermutation;
    PermutationIsBijective(ids, |refs|);
    HalvingsAreSized(0, |ids|, |ranges|);
    forall c | 0 <= c < |ranges|
      ensures |data.Observed().lists[c]| == RunLength(|refs|, c, |ranges|)
    {
      ListIsRowsFrom(vectors, labels, refs, ids, ranges, data, c);
    }
  }

  lemma ListIsRowsFrom(
      vectors: seq<Int16>, labels: seq<Byte>, refs: seq<Reference>, ids: seq<nat>, ranges: seq<BuildRange>,
      data: IndexData, c: nat)
    requires Prepared(vectors, labels, refs, ids, ranges) && Materialized(vectors, labels, ids, ranges, data)
    requires data.Scannable() && c < |ranges| && data.ivf.clusters == |ranges|
    ensures var r, rows := ranges[c], data.ListRows(c);
            && r.start <= r.end <= |ids| && |rows| == r.end - r.start
            && RowsFrom(vectors, ids[r.start..r.end], rows) && data.Observed().lists[c] == rows
  {
    hide Materialized, Encodes, Tiles, SortBy, VecAt, IsPermutation;
    ListIsCluster(vectors, labels, refs, ids, ranges, data, c);
    var rows, window := data.ListRows(c), ids[ranges[c].start..ranges[c].end];
    var sorted := SortClusterByCentroidDistance(vectors, window, VecAt(data.ivf.centroids, c));
    assert IdsOf(rows) == sorted;
  }

  /** A materialised index of a split is well built. */
  lemma MaterializedIsWellBuilt(
      vectors: seq<Int16>, labels: seq<Byte>, refs: seq<Reference>, ids: seq<nat>, ranges: seq<BuildRange>,
      data: IndexData)
    requires Prepared(vectors, labels, refs, ids, ranges) && Materialized(vectors, labels, ids, ranges, data)
    requires IsSplit(vectors, ids, ranges)
    ensures data.Scannable() && WellBuilt(data.Observed(), refs)
  {
    hide Prepared, Materialized, WellBuiltList, Represents, TightBox, Balanced, VecAt, Inside, IsSplit, Parted,
         RunSized;
    MaterializedIsScannable(vectors, labels, refs, ids, ranges, data);
    SplitIsBalanced(vectors, ids, ranges);
    MaterializedIsParted(vectors, labels, refs, ids, ranges, data);
    MaterializedIsSized(vectors, labels, refs, ids, ranges, data);
    BuiltRepresents(vectors, labels, refs, ids, ranges, data);
    var view := data.Observed();
    forall c | 0 <= c < |view.lists|
      ensures WellBuiltList(view.lists[c], view.centroids[c], view.boxes[c], |refs|, |view.lists|)
      ensures forall i :: 0 <= i < |view.lists[c]| ==> Inside(view.lists[c][i].vec, view.boxes[c])
    {
      BuiltListIsWellBuilt(vectors, labels, refs, ids, ranges, data, c);
      WellBuiltListIsCovered(view.lists[c], view.centroids[c], view.boxes[c], |refs|, |view.lists|);
    }
  }

  lemma SplitIsBalanced(vectors: seq<Int16>, ids: seq<nat>, ranges: seq<BuildRange>)
    requires IsSplit(vectors, ids, ranges)
    ensures |ranges| > 0 && Balanced(ranges, |ids|, |ranges|)
  {
    hide Separated, Halvings, Sized, Balanced;
    HalvingsAreSized(0, |ids|, |ranges|);
    SizedIsBalanced(ranges, |ids|, |ranges|);
  }

  lemma WellBuiltListIsCovered(rows: seq<Row>, centroid: Vec, box: Box, n: nat, k: nat)
    requires WellBuiltList(rows, centroid, box, n, k)
    ensures forall i :: 0 <= i < |rows| ==> Inside(rows[i].vec, box)
  {
    TightBoxCovers(VecsOf(rows), box);
    assert forall i :: 0 <= i < |rows| ==> VecsOf(rows)[i] == rows[i].vec;
  }
}
