/** How the lists of a built index lie apart: what the splits of the ids mean for the rows a search sees. */
module Separation {
  import opened Machine
  import opened Metric
  import opened SearchTheory
  import opened ProbeOrder
  import opened Layout
  import opened Bits
  import opened ClusterStats
  import opened Variance
  import opened Split

  /** The vectors of a list, in scan order. */
  ghost function VecsOf(rows: seq<Row>): (vs: seq<Vec>)
    ensures |vs| == |rows| && forall i :: 0 <= i < |rows| ==> vs[i] == rows[i].vec
  {
    seq<Vec>(|rows|, i requires 0 <= i < |rows| => rows[i].vec)
  }

  ghost function IdsOf(rows: seq<Row>): (s: seq<nat>)
    ensures |s| == |rows| && forall i :: 0 <= i < |rows| ==> s[i] == rows[i].id
  {
    seq<nat>(|rows|, i requires 0 <= i < |rows| => rows[i].id)
  }

  /** The rows of consecutive lists. */
  function Flat(lists: seq<seq<Row>>): seq<Row> {
    if lists == [] then [] else Flat(lists[..|lists| - 1]) + lists[|lists| - 1]
  }

  /** Every row of a comes before every row of b along dimension d, ties by id. */
  ghost predicate RowsApart(a: seq<Row>, b: seq<Row>, d: nat) {
    && d < 14
    && forall i, j :: 0 <= i < |a| && 0 <= j < |b| ==>
         a[i].vec[d] < b[j].vec[d] || (a[i].vec[d] == b[j].vec[d] && a[i].id < b[j].id)
  }

  /**
   The lower half of the lists and the upper half lie apart along the dimension in which their rows vary most,
   and so on within both halves.
   */
  ghost predicate Parted(lists: seq<seq<Row>>)
    decreases |lists|
  {
    |lists| <= 1 ||
    var h := |lists| / 2;
    && (exists d: nat :: Widest(VecsOf(Flat(lists)), d) && RowsApart(Flat(lists[..h]), Flat(lists[h..]), d))
    && Parted(lists[..h]) && Parted(lists[h..])
  }

  /** The lists have the lengths of the runs of n items. */
  ghost predicate RunSized(lists: seq<seq<Row>>, n: nat) {
    IsPow2(|lists|) && forall c :: 0 <= c < |lists| ==> |lists[c]| == RunLength(n, c, |lists|)
  }

  // ---- from ids to rows -------------------------------------------------------------------------

  /** The windows that halving a run of ids down to k runs leaves. */
  ghost function Windows(s: seq<nat>, k: nat): (ws: seq<seq<nat>>)
    requires IsPow2(k)
    ensures |ws| == k
    decreases k
  {
    if k == 1 then [s] else Windows(s[..|s| / 2], k / 2) + Windows(s[|s| / 2..], k / 2)
  }

  lemma {:induction false} WindowsAreSlices(ids: seq<nat>, start: nat, end: nat, k: nat, c: nat)
    requires start <= end <= |ids| && IsPow2(k) && c < k
    ensures var r := Halvings(start, end, k)[c];
            r.start <= r.end <= |ids| && ids[r.start..r.end] == Windows(ids[start..end], k)[c]
    decreases k
  {
    if k > 1 {
      var mid, h := start + (end - start) / 2, k / 2;
      SlicesOfWindow(ids, start, mid, end);
      if c < h {
        WindowsAreSlices(ids, start, mid, h, c);
      } else {
        WindowsAreSlices(ids, mid, end, h, c - h);
      }
    }
  }

  /** The rows are those of the window's ids, in some order. */
  ghost predicate RowsFrom(vectors: seq<Int16>, window: seq<nat>, rows: seq<Row>) {
    && multiset(IdsOf(rows)) == multiset(window)
    && IdsFit(vectors, IdsOf(rows)) && VecsOf(rows) == Members(vectors, IdsOf(rows))
  }

  lemma RowsFromConcat(vectors: seq<Int16>, s: seq<nat>, t: seq<nat>, a: seq<Row>, b: seq<Row>)
    requires RowsFrom(vectors, s, a) && RowsFrom(vectors, t, b)
    ensures RowsFrom(vectors, s + t, a + b)
  {
    hide VecAt;
    assert IdsOf(a + b) == IdsOf(a) + IdsOf(b);
    assert VecsOf(a + b) == VecsOf(a) + VecsOf(b);
    assert Members(vectors, IdsOf(a + b)) == Members(vectors, IdsOf(a)) + Members(vectors, IdsOf(b));
  }

  lemma {:induction false} FlatConcat(a: seq<seq<Row>>, b: seq<seq<Row>>)
    ensures Flat(a + b) == Flat(a) + Flat(b)
  {
    if b == [] {
      assert a + b == a;
    } else {
      FlatConcat(a, b[..|b| - 1]);
      assert (a + b)[..|a + b| - 1] == a + b[..|b| - 1];
    }
  }

  /** A row of a window has its component of that dimension. */
  lemma RowOfWindow(vectors: seq<Int16>, s: seq<nat>, rows: seq<Row>, i: nat, d: nat) returns (j: nat)
    requires RowsFrom(vectors, s, rows) && i < |rows| && d < 14
    ensures j < |s| && s[j] == rows[i].id && rows[i].vec[d] == Component(vectors, d, rows[i].id)
  {
    assert VecsOf(rows)[i] == Members(vectors, IdsOf(rows))[i];
    assert IdsOf(rows)[i] in multiset(s);
    j :| 0 <= j < |s| && s[j] == rows[i].id;
  }

  lemma WindowsApart(vectors: seq<Int16>, s: seq<nat>, m: nat, a: seq<Row>, b: seq<Row>, d: nat)
    requires m <= |s| && Distinct(s) && d < 14 && Apart(vectors, s[..m], s[m..], d)
    requires RowsFrom(vectors, s[..m], a) && RowsFrom(vectors, s[m..], b)
    ensures RowsApart(a, b, d)
  {
    hide Component, RowsFrom;
    forall i, j | 0 <= i < |a| && 0 <= j < |b|
      ensures a[i].vec[d] < b[j].vec[d] || (a[i].vec[d] == b[j].vec[d] && a[i].id < b[j].id)
    {
      var i' := RowOfWindow(vectors, s[..m], a, i, d);
      var j' := RowOfWindow(vectors, s[m..], b, j, d);
      assert s[i'] != s[m + j'];
    }
  }

  /** List c holds the rows of window c. */
  ghost predicate AllFrom(vectors: seq<Int16>, windows: seq<seq<nat>>, lists: seq<seq<Row>>) {
    |windows| == |lists| && forall c :: 0 <= c < |lists| ==> RowsFrom(vectors, windows[c], lists[c])
  }

  lemma AllFromHalves(vectors: seq<Int16>, a: seq<seq<nat>>, b: seq<seq<nat>>, lists: seq<seq<Row>>)
    requires AllFrom(vectors, a + b, lists)
    ensures |a| <= |lists| && AllFrom(vectors, a, lists[..|a|]) && AllFrom(vectors, b, lists[|a|..])
  {
    hide RowsFrom;
    assert forall c :: 0 <= c < |a| ==> (a + b)[c] == a[c];
    assert forall c :: 0 <= c < |b| ==> (a + b)[|a| + c] == b[c];
  }

  lemma WindowsStep(s: seq<nat>, k: nat)
    requires IsPow2(k)
    ensures k == 1 ==> Windows(s, k) == [s]
    ensures k != 1 ==> k > 1 && k == 2 * (k / 2) && IsPow2(k / 2)
                       && Windows(s, k) == Windows(s[..|s| / 2], k / 2) + Windows(s[|s| / 2..], k / 2)
  {
  }

  /** Lists over the windows of separated ids are parted. */
  lemma {:induction false} SeparatedIsParted(vectors: seq<Int16>, s: seq<nat>, k: nat, lists: seq<seq<Row>>)
    requires IsPow2(k) && Distinct(s) && IdsFit(vectors, s) && Separated(vectors, s, k)
    requires AllFrom(vectors, Windows(s, k), lists)
    ensures |lists| == k && RowsFrom(vectors, s, Flat(lists)) && Parted(lists)
    decreases k
  {
    hide RowsFrom, Apart, Widest, RowsApart, IdsFit, Distinct, Members, AllFrom, Windows, IsPow2, Flat;
    WindowsStep(s, k);
    if k == 1 {
      OneList(vectors, s, lists);
    } else {
      var m, h := |s| / 2, k / 2;
      SlicesFit(vectors, s, m);
      DistinctHalves(s, m);
      AllFromHalves(vectors, Windows(s[..m], h), Windows(s[m..], h), lists);
      SeparatedIsParted(vectors, s[..m], h, lists[..h]);
      SeparatedIsParted(vectors, s[m..], h, lists[h..]);
      var d: nat :| Widest(Members(vectors, s), d) && Apart(vectors, s[..m], s[m..], d);
      HalvesAreParted(vectors, s, m, lists, h, d);
    }
  }

  lemma OneList(vectors: seq<Int16>, s: seq<nat>, lists: seq<seq<Row>>)
    requires AllFrom(vectors, [s], lists)
    ensures |lists| == 1 && RowsFrom(vectors, s, Flat(lists))
  {
    hide RowsFrom;
    assert lists == [lists[0]] && lists[..0] == [] && [s][0] == s;
    assert Flat(lists) == lists[0];
  }

  lemma DistinctHalves(s: seq<nat>, m: nat)
    requires Distinct(s) && m <= |s|
    ensures Distinct(s[..m]) && Distinct(s[m..])
  {
  }

  /** One split of the ids is one split of the lists. */
  lemma HalvesAreParted(vectors: seq<Int16>, s: seq<nat>, m: nat, lists: seq<seq<Row>>, h: nat, d: nat)
    requires m <= |s| && h <= |lists| && Distinct(s) && IdsFit(vectors, s)
    requires RowsFrom(vectors, s[..m], Flat(lists[..h])) && RowsFrom(vectors, s[m..], Flat(lists[h..]))
    requires Widest(Members(vectors, s), d) && Apart(vectors, s[..m], s[m..], d)
    ensures RowsFrom(vectors, s, Flat(lists))
    ensures Widest(VecsOf(Flat(lists)), d) && RowsApart(Flat(lists[..h]), Flat(lists[h..]), d)
  {
    hide RowsFrom, Apart, Widest, RowsApart, IdsFit, Flat;
    assert lists == lists[..h] + lists[h..] && s == s[..m] + s[m..];
    FlatConcat(lists[..h], lists[h..]);
    RowsFromConcat(vectors, s[..m], s[m..], Flat(lists[..h]), Flat(lists[h..]));
    FlatIsWidest(vectors, s, Flat(lists), d);
    WindowsApart(vectors, s, m, Flat(lists[..h]), Flat(lists[h..]), d);
  }

  lemma FlatIsWidest(vectors: seq<Int16>, s: seq<nat>, rows: seq<Row>, d: nat)
    requires IdsFit(vectors, s) && RowsFrom(vectors, s, rows) && Widest(Members(vectors, s), d)
    ensures Widest(VecsOf(rows), d) && d < 14
  {
    hide VarianceOf, VecAt;
    MembersIgnoreOrder(vectors, s, IdsOf(rows));
    WidestIgnoresOrder(Members(vectors, s), VecsOf(rows), d);
  }
}
