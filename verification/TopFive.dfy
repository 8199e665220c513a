/**
 The bounded list of the five best candidates: what one offer does to it, and that any run of
 offers leaves the five least candidates in (distance, id) order.
 */
module TopFive {
  import opened Machine

  datatype Entry = Entry(dist: int, fraud: bool, id: int)

  /** An empty slot. */
  const VACANT: Entry := Entry(MAX_INT64, false, MAX_UINT32)

  const NO_ENTRIES: seq<Entry> := [VACANT, VACANT, VACANT, VACANT, VACANT]

  predicate Less(a: Entry, b: Entry) {
    a.dist < b.dist || (a.dist == b.dist && a.id < b.id)
  }

  /** Puts e before the first slot it beats, dropping the last slot. */
  function InsertFrom(s: seq<Entry>, e: Entry, i: nat): (r: seq<Entry>)
    requires |s| == 5 && i <= 5
    ensures |r| == 5
    decreases 5 - i
  {
    if i == 5 then s
    else if Less(e, s[i]) then s[..i] + [e] + s[i..4]
    else InsertFrom(s, e, i + 1)
  }

  /** The guard of every scan loop followed by the insertion. */
  function Offer(s: seq<Entry>, e: Entry): (r: seq<Entry>)
    requires |s| == 5
    ensures |r| == 5
  {
    if Less(e, s[4]) then InsertFrom(s, e, 0) else s
  }

  function OfferAll(s: seq<Entry>, es: seq<Entry>): (r: seq<Entry>)
    requires |s| == 5
    ensures |r| == 5
  {
    if es == [] then s else Offer(OfferAll(s, es[..|es| - 1]), es[|es| - 1])
  }

  /** Number of occupied slots labelled fraud. */
  function CountFrauds(s: seq<Entry>): nat
  {
    if s == [] then 0
    else CountFrauds(s[..|s| - 1]) +
         (if s[|s| - 1].dist != MAX_INT64 && s[|s| - 1].fraud then 1 else 0)
  }

  /** The slots counted: occupied and labelled fraud. */
  ghost function FraudSlots(s: seq<Entry>): set<int> {
    set i | 0 <= i < |s| && s[i].dist != MAX_INT64 && s[i].fraud
  }

  lemma {:induction false} CountIsFraudSlots(s: seq<Entry>)
    ensures CountFrauds(s) == |FraudSlots(s)|
  {
    assert s == [] ==> FraudSlots(s) == {};
    if s != [] {
      var n := |s| - 1;
      CountIsFraudSlots(s[..n]);
      OneMoreSlot(s, n);
    }
  }

  lemma OneMoreSlot(s: seq<Entry>, n: nat)
    requires |s| == n + 1
    ensures |FraudSlots(s)| == |FraudSlots(s[..n])| + if s[n].dist != MAX_INT64 && s[n].fraud then 1 else 0
  {
    var last := if s[n].dist != MAX_INT64 && s[n].fraud then {n} else {};
    assert FraudSlots(s) == FraudSlots(s[..n]) + last;
    assert n !in FraudSlots(s[..n]);
  }

  // ---- the declarative reading ----------------------------------------------------------

  /** A candidate that beats an empty slot. */
  predicate Real(e: Entry) {
    0 <= e.dist < MAX_INT64 && 0 <= e.id <= MAX_UINT32
  }

  /** Occupied slots come first, in strictly increasing (distance, id) order. */
  ghost predicate Ordered(s: seq<Entry>) {
    forall i, j :: 0 <= i < j < |s| ==> Less(s[i], s[j]) || s[j] == VACANT
  }

  /** s holds the five least members of c, or all of them when there are fewer. */
  ghost predicate IsBest5(s: seq<Entry>, c: set<Entry>) {
    && |s| == 5
    && Ordered(s)
    && (forall i :: 0 <= i < 5 ==> s[i] == VACANT || s[i] in c)
    && (forall e :: e in c ==> Real(e) && (e in s || Less(s[4], e)))
  }

  ghost predicate FreshId(c: set<Entry>, id: int) {
    forall e :: e in c ==> e.id != id
  }

  ghost predicate UniqueIds(c: set<Entry>) {
    forall a, b :: a in c && b in c && a.id == b.id ==> a == b
  }

  /** Members of c are totally ordered, so nothing else is the best five of c. */
  lemma {:induction false} Best5IsUnique(s: seq<Entry>, t: seq<Entry>, c: set<Entry>)
    requires UniqueIds(c) && IsBest5(s, c) && IsBest5(t, c)
    ensures s == t
  {
    for i := 0 to 5
      invariant forall j :: 0 <= j < i ==> s[j] == t[j]
    {
      assert !Less(s[i], t[i]) && !Less(t[i], s[i]);
    }
  }

  /** One offer of a new candidate keeps the best five. */
  lemma {:induction false} OfferKeepsBest5(s: seq<Entry>, c: set<Entry>, e: Entry)
    requires IsBest5(s, c) && Real(e) && FreshId(c, e.id)
    ensures IsBest5(Offer(s, e), c + {e})
  {
    if Less(e, s[4]) {
      var p := InsertPosition(s, e, 0);
      InsertionKeepsOrder(s, Offer(s, e), c, e, p);
      InsertionKeepsMembers(s, Offer(s, e), c, e, p);
    }
  }

  lemma InsertionKeepsOrder(s: seq<Entry>, r: seq<Entry>, c: set<Entry>, e: Entry, p: nat)
    requires IsBest5(s, c) && Real(e) && FreshId(c, e.id) && IsInsertion(s, r, e, p)
    ensures Ordered(r)
  {
    forall i, j | 0 <= i < j < 5
      ensures Less(r[i], r[j]) || r[j] == VACANT
    {
      if j > p && i >= p {
        assert p < j - 1 ==> Less(s[p], s[j - 1]) || s[j - 1] == VACANT;
        assert i > p ==> Less(s[i - 1], s[j - 1]) || s[j - 1] == VACANT;
      } else if j > p {
        assert i < j - 1 ==> Less(s[i], s[j - 1]) || s[j - 1] == VACANT;
      } else if j == p {
        assert Less(s[i], s[p]) || s[p] == VACANT;
      }
    }
  }

  lemma InsertionKeepsMembers(s: seq<Entry>, r: seq<Entry>, c: set<Entry>, e: Entry, p: nat)
    requires IsBest5(s, c) && Real(e) && IsInsertion(s, r, e, p)
    ensures forall i :: 0 <= i < 5 ==> r[i] == VACANT || r[i] in c + {e}
    ensures forall x :: x in c + {e} ==> x in r || Less(r[4], x)
  {
    assert r[p] == e;
    forall x | x in c
      ensures x in r || Less(r[4], x)
    {
      if x in s {
        var i :| 0 <= i < 5 && s[i] == x;
        assert i < 4 ==> r[if i < p then i else i + 1] == x;
        assert p < 4 ==> Less(s[3], s[4]) || s[4] == VACANT;
      }
    }
  }

  /** Where an insertion lands, and what each slot holds afterwards. */
  lemma {:induction false} InsertPosition(s: seq<Entry>, e: Entry, i: nat) returns (p: nat)
    requires |s| == 5 && i < 5 && Less(e, s[4])
    requires forall j :: 0 <= j < i ==> !Less(e, s[j])
    ensures IsInsertion(s, InsertFrom(s, e, i), e, p)
    decreases 5 - i
  {
    if Less(e, s[i]) {
      p := i;
    } else {
      p := InsertPosition(s, e, i + 1);
    }
  }

  ghost predicate IsInsertion(s: seq<Entry>, r: seq<Entry>, e: Entry, p: nat) {
    && |s| == |r| == 5 && p < 5
    && Less(e, s[p])
    && (forall j :: 0 <= j < p ==> !Less(e, s[j]))
    && (forall j :: 0 <= j < p ==> r[j] == s[j])
    && r[p] == e
    && (forall j :: p < j < 5 ==> r[j] == s[j - 1])
  }

  /** The distinct-id candidates of a sequence, as a set. */
  ghost function Members(es: seq<Entry>): set<Entry> {
    set e | e in es
  }

  /** Candidates that can be offered on top of c: real, with ids new to c and to each other. */
  ghost predicate Offerable(c: set<Entry>, es: seq<Entry>) {
    && (forall i :: 0 <= i < |es| ==> Real(es[i]) && FreshId(c, es[i].id))
    && (forall i, j :: 0 <= i < j < |es| ==> es[i].id != es[j].id)
  }

  /** Entries with different ids are as many as their positions. */
  lemma {:induction false} DistinctEntries(es: seq<Entry>)
    requires forall i, j :: 0 <= i < j < |es| ==> es[i].id != es[j].id
    ensures |Members(es)| == |es|
  {
    if es != [] {
      var n := |es| - 1;
      DistinctEntries(es[..n]);
      assert Members(es) == Members(es[..n]) + {es[n]};
      assert es[n] !in es[..n];
    }
  }

  /** Any run of offers of new candidates keeps the best five of everything offered so far. */
  lemma {:induction false} OffersKeepBest5(s: seq<Entry>, c: set<Entry>, es: seq<Entry>)
    requires IsBest5(s, c) && Offerable(c, es)
    ensures IsBest5(OfferAll(s, es), c + Members(es))
  {
    if es == [] {
      assert c + Members(es) == c;
    } else {
      var n := |es| - 1;
      OffersKeepBest5(s, c, es[..n]);
      assert es == es[..n] + [es[n]];
      assert Members(es) == Members(es[..n]) + {es[n]};
      assert (c + Members(es[..n])) + {es[n]} == c + Members(es);
      OfferKeepsBest5(OfferAll(s, es[..n]), c + Members(es[..n]), es[n]);
    }
  }

  lemma NoEntriesIsBest5()
    ensures IsBest5(NO_ENTRIES, {})
  {
  }

  /** The order of the offers does not matter. */
  lemma {:induction false} OfferOrderIrrelevant(es: seq<Entry>, fs: seq<Entry>)
    requires Offerable({}, es) && Offerable({}, fs) && Members(es) == Members(fs)
    ensures OfferAll(NO_ENTRIES, es) == OfferAll(NO_ENTRIES, fs)
  {
    OffersKeepBest5(NO_ENTRIES, {}, es);
    OffersKeepBest5(NO_ENTRIES, {}, fs);
    assert {} + Members(es) == Members(es) == {} + Members(fs);
    forall a, b | a in Members(es) && b in Members(es) && a.id == b.id
      ensures a == b
    {
      var i :| 0 <= i < |es| && es[i] == a;
      var j :| 0 <= j < |es| && es[j] == b;
    }
    Best5IsUnique(OfferAll(NO_ENTRIES, es), OfferAll(NO_ENTRIES, fs), Members(es));
  }

  // ---- distances alone ------------------------------------------------------------------

  function Dists(s: seq<Entry>): (ds: seq<int>)
    requires |s| == 5
    ensures |ds| == 5 && forall i :: 0 <= i < 5 ==> ds[i] == s[i].dist
  {
    [s[0].dist, s[1].dist, s[2].dist, s[3].dist, s[4].dist]
  }

  ghost predicate Ascending(ds: seq<int>) {
    forall i, j :: 0 <= i < j < |ds| ==> ds[i] <= ds[j]
  }

  /** Inserting d into five ascending distances and dropping the largest. */
  function InsertDist(ds: seq<int>, d: int): (r: seq<int>)
    requires |ds| == 5
    ensures |r| == 5
  {
    seq(5, k requires 0 <= k < 5 =>
      if ds[k] <= d then ds[k] else if k == 0 || ds[k - 1] <= d then d else ds[k - 1])
  }

  /** The distances after an offer depend on the distances before it alone, whatever the ids. */
  lemma {:induction false} OfferActsOnDists(s: seq<Entry>, e: Entry)
    requires |s| == 5 && Ascending(Dists(s))
    ensures Dists(Offer(s, e)) == InsertDist(Dists(s), e.dist)
    ensures Ascending(Dists(Offer(s, e)))
  {
    if Less(e, s[4]) {
      var p := InsertPosition(s, e, 0);
      InsertionActsOnDists(s, Offer(s, e), e, p);
    } else {
      assert forall k :: 0 <= k < 5 ==> Dists(s)[k] <= Dists(s)[4] <= e.dist;
    }
  }

  lemma InsertionActsOnDists(s: seq<Entry>, r: seq<Entry>, e: Entry, p: nat)
    requires IsInsertion(s, r, e, p) && Ascending(Dists(s))
    ensures Dists(r) == InsertDist(Dists(s), e.dist) && Ascending(Dists(r))
  {
    var ds := Dists(s);
    forall k | 0 <= k < 5
      ensures Dists(r)[k] == InsertDist(ds, e.dist)[k]
    {
      if k < p {
        assert ds[k] <= e.dist;
      } else if k == p {
        assert e.dist <= ds[k] && (k == 0 || s[k - 1].dist <= e.dist);
      } else {
        assert e.dist <= ds[p] <= ds[k - 1] <= ds[k];
      }
    }
  }

  /** A distance overstated to no less than the cutoff leaves the same five distances. */
  lemma InsertDistIgnoresTruncation(ds: seq<int>, d: int, truncated: int)
    requires |ds| == 5 && Ascending(ds)
    requires truncated == d || (ds[4] <= truncated && ds[4] <= d)
    ensures InsertDist(ds, truncated) == InsertDist(ds, d)
  {
  }

  // ---- repeated offers ------------------------------------------------------------------

  /** Every slot of r is at least as good as the same slot of s. */
  ghost predicate NoWorse(r: seq<Entry>, s: seq<Entry>) {
    |r| == |s| == 5 && forall k :: 0 <= k < 5 ==> !Less(s[k], r[k])
  }

  ghost predicate Sorted(s: seq<Entry>) {
    |s| == 5 && forall i, j :: 0 <= i < j < 5 ==> !Less(s[j], s[i])
  }

  /** One offer keeps the list sorted, never worsens a slot, and changes it iff it beats the last. */
  lemma {:induction false} OfferImproves(s: seq<Entry>, e: Entry)
    requires Sorted(s)
    ensures Sorted(Offer(s, e)) && NoWorse(Offer(s, e), s)
    ensures if Less(e, s[4]) then Improved(Offer(s, e), s) else Offer(s, e) == s
  {
    if Less(e, s[4]) {
      var p := InsertPosition(s, e, 0);
      var r := Offer(s, e);
      forall i, j | 0 <= i < j < 5
        ensures !Less(r[j], r[i])
      {
        assert j > p ==> !Less(s[j - 1], s[if i < p then i else p]);
      }
      forall k | 0 <= k < 5
        ensures !Less(s[k], r[k])
      {
        assert k > p ==> !Less(s[k], s[k - 1]);
      }
      assert Less(r[p], s[p]);
    }
  }

  ghost predicate Improved(r: seq<Entry>, s: seq<Entry>) {
    |r| == |s| == 5 && exists k :: 0 <= k < 5 && Less(r[k], s[k])
  }

  /** Offers only ever improve slots; the list is unchanged iff no offer beats its last slot. */
  lemma {:induction false} OffersChangeNothingIff(s: seq<Entry>, es: seq<Entry>)
    requires Sorted(s)
    ensures Sorted(OfferAll(s, es)) && NoWorse(OfferAll(s, es), s)
    ensures if exists e :: e in es && Less(e, s[4]) then Improved(OfferAll(s, es), s)
            else OfferAll(s, es) == s
  {
    if es != [] {
      var n := |es| - 1;
      var m := OfferAll(s, es[..n]);
      OffersChangeNothingIff(s, es[..n]);
      OfferImproves(m, es[n]);
      assert forall e :: e in es <==> e in es[..n] || e == es[n];
    }
  }
}
