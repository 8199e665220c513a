/** A run over several lists, read as one sequence of rows. */
module Runs {
  import opened Machine
  import opened Metric
  import opened TopFive
  import opened ProbeOrder
  import opened SearchTheory
  import opened Exactness

  /** Every row of a run of lists is a row of one of them. */
  lemma {:induction false} RowOfLists(lists: seq<seq<Row>>, order: seq<nat>, i: nat) returns (c: nat, j: nat)
    requires ValidOrder(lists, order) && i < |RowsOf(lists, order)|
    ensures c in order && j < |lists[c]| && lists[c][j] == RowsOf(lists, order)[i]
  {
    var n := |order| - 1;
    var head := RowsOf(lists, order[..n]);
    if i < |head| {
      c, j := RowOfLists(lists, order[..n], i);
    } else {
      c, j := order[n], i - |head|;
    }
  }

  ghost predicate UniqueRowIds(rows: seq<Row>) {
    forall i, j :: 0 <= i < j < |rows| ==> rows[i].id != rows[j].id
  }

  lemma {:induction false} RowsHaveDistinctIds(lists: seq<seq<Row>>, order: seq<nat>)
    requires DistinctIds(lists) && ValidOrder(lists, order) && Distinct(order)
    ensures UniqueRowIds(RowsOf(lists, order))
  {
    if order != [] {
      var n := |order| - 1;
      var head, rows := RowsOf(lists, order[..n]), RowsOf(lists, order);
      RowsHaveDistinctIds(lists, order[..n]);
      assert order[n] !in order[..n];
      assert |rows| == |head| + |lists[order[n]]| && forall i :: 0 <= i < |head| ==> rows[i] == head[i];
      forall i, j | 0 <= i < j < |rows|
        ensures rows[i].id != rows[j].id
      {
        var last := order[n];
        if |head| <= j {
          assert rows[j] == lists[last][j - |head|];
          if i < |head| {
            var c, k := RowOfLists(lists, order[..n], i);
          } else {
            assert rows[i] == lists[last][i - |head|];
          }
        }
      }
    }
  }

  lemma {:induction false} PositionOfRow(lists: seq<seq<Row>>, order: seq<nat>, c: nat, j: nat) returns (i: nat)
    requires ValidOrder(lists, order) && c in order && j < |lists[c]|
    ensures i < |RowsOf(lists, order)| && RowsOf(lists, order)[i] == lists[c][j]
  {
    var n := |order| - 1;
    if c == order[n] {
      i := |RowsOf(lists, order[..n])| + j;
    } else {
      i := PositionOfRow(lists, order[..n], c, j);
    }
  }

  lemma {:induction false} ScanListsConcat(
      k: Kernel, q: Vec, s: seq<Entry>, lists: seq<seq<Row>>, a: seq<nat>, b: seq<nat>)
    requires |s| == 5 && ValidOrder(lists, a) && ValidOrder(lists, b)
    ensures ValidOrder(lists, a + b)
    ensures ScanLists(k, q, s, lists, a + b) == ScanLists(k, q, ScanLists(k, q, s, lists, a), lists, b)
  {
    if b == [] {
      assert a + b == a;
    } else {
      ScanListsConcat(k, q, s, lists, a, b[..|b| - 1]);
      assert (a + b)[..|a + b| - 1] == a + b[..|b| - 1];
    }
  }

  lemma ScanListsSnoc(k: Kernel, q: Vec, s: seq<Entry>, lists: seq<seq<Row>>, order: seq<nat>, c: nat)
    requires |s| == 5 && ValidOrder(lists, order) && c < |lists|
    ensures ScanLists(k, q, s, lists, order + [c]) == ScanRows(k, q, ScanLists(k, q, s, lists, order), lists[c])
  {
    assert (order + [c])[..|order|] == order;
  }

  /** The candidates of a run are the entries of its rows. */
  lemma CandidatesOfRun(q: Vec, lists: seq<seq<Row>>, order: seq<nat>)
    requires ValidOrder(lists, order)
    ensures Candidates(q, lists, Elements(order)) == Members(RowEntries(q, RowsOf(lists, order)))
  {
    var es := RowEntries(q, RowsOf(lists, order));
    forall e | e in Candidates(q, lists, Elements(order))
      ensures e in es
    {
      var n, i :| n in Elements(order) && 0 <= n < |lists| && 0 <= i < |lists[n]| && e == RowEntry(q, lists[n][i]);
      var k := PositionOfRow(lists, order, n, i);
      assert es[k] == e;
    }
    forall e | e in es
      ensures e in Candidates(q, lists, Elements(order))
    {
      var k :| 0 <= k < |es| && es[k] == e;
      var c, j := RowOfLists(lists, order, k);
      assert c in Elements(order) && e == RowEntry(q, lists[c][j]);
    }
  }

  /** A run over distinct lists offers as many candidates as it has rows. */
  lemma CandidateCountOfRun(q: Vec, lists: seq<seq<Row>>, order: seq<nat>)
    requires DistinctIds(lists) && ValidOrder(lists, order) && Distinct(order)
    ensures |Candidates(q, lists, Elements(order))| == |RowsOf(lists, order)|
  {
    hide RowsOf, Candidates, DistinctIds;
    CandidatesOfRun(q, lists, order);
    RowsHaveDistinctIds(lists, order);
    DistinctEntries(RowEntries(q, RowsOf(lists, order)));
  }
}
