/** Sorting ids by a key, ties broken by the id: the total order both sorts of the builder use. */
module Sorting {

  predicate Precedes(key: nat -> int, a: nat, b: nat) {
    key(a) < key(b) || (key(a) == key(b) && a < b)
  }

  ghost predicate SortedBy(key: nat -> int, s: seq<nat>) {
    forall i, j :: 0 <= i < j < |s| ==> !Precedes(key, s[j], s[i])
  }

  function InsertBy(key: nat -> int, s: seq<nat>, x: nat): seq<nat> {
    if s == [] || Precedes(key, x, s[0]) then [x] + s else [s[0]] + InsertBy(key, s[1..], x)
  }

  function SortBy(key: nat -> int, s: seq<nat>): seq<nat> {
    if s == [] then [] else InsertBy(key, SortBy(key, s[1..]), s[0])
  }

  lemma {:induction false} InsertByKeepsItems(key: nat -> int, s: seq<nat>, x: nat)
    ensures multiset(InsertBy(key, s, x)) == multiset(s) + multiset{x}
    ensures |InsertBy(key, s, x)| == |s| + 1
  {
    if s != [] && !Precedes(key, x, s[0]) {
      InsertByKeepsItems(key, s[1..], x);
      assert s == [s[0]] + s[1..];
    }
  }

  lemma {:induction false} InsertByKeepsOrder(key: nat -> int, s: seq<nat>, x: nat)
    requires SortedBy(key, s)
    ensures SortedBy(key, InsertBy(key, s, x))
  {
    if s != [] && !Precedes(key, x, s[0]) {
      var tail := InsertBy(key, s[1..], x);
      InsertByKeepsOrder(key, s[1..], x);
      InsertByKeepsItems(key, s[1..], x);
      forall j | 0 <= j < |tail|
        ensures !Precedes(key, tail[j], s[0])
      {
        assert tail[j] in multiset(tail);
        assert tail[j] == x || tail[j] in s[1..];
      }
    }
  }

  /** The sort is a permutation in (key, id) order. */
  lemma {:induction false} SortBySorts(key: nat -> int, s: seq<nat>)
    ensures SortedBy(key, SortBy(key, s))
    ensures multiset(SortBy(key, s)) == multiset(s) && |SortBy(key, s)| == |s|
  {
    if s != [] {
      SortBySorts(key, s[1..]);
      InsertByKeepsItems(key, SortBy(key, s[1..]), s[0]);
      InsertByKeepsOrder(key, SortBy(key, s[1..]), s[0]);
      assert s == [s[0]] + s[1..];
    }
  }

  /** Items keep any bound they had. */
  lemma PermutationKeepsBound(s: seq<nat>, t: seq<nat>, n: nat)
    requires multiset(s) == multiset(t) && forall i :: 0 <= i < |s| ==> s[i] < n
    ensures forall i :: 0 <= i < |t| ==> t[i] < n
  {
    forall i | 0 <= i < |t|
      ensures t[i] < n
    {
      assert t[i] in multiset(s);
    }
  }

  /** Sorts a window of an array in place. */
  method SortWindow(ids: array<nat>, start: nat, end: nat, key: nat -> int)
    requires start <= end <= ids.Length
    modifies ids
    ensures ids[start..end] == SortBy(key, old(ids[start..end]))
    ensures ids[..start] == old(ids[..start]) && ids[end..] == old(ids[end..])
  {
    hide SortBy, SortedBy;
    ghost var was := ids[..];
    var sorted := SortBy(key, ids[start..end]);
    SortBySorts(key, ids[start..end]);
    for i := 0 to |sorted|
      invariant forall k :: start <= k < start + i ==> ids[k] == sorted[k - start]
      invariant forall k :: 0 <= k < ids.Length && !(start <= k < start + i) ==> ids[k] == was[k]
    {
      ids[start + i] := sorted[i];
    }
    assert ids[start..end] == sorted;
    assert ids[..start] == was[..start] && ids[end..] == was[end..];
  }
}
