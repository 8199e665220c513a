/** The brute-force searcher: five slots filled in visit order, so the earlier of two ties wins. */
module Baseline {
  import opened Machine
  import opened Metric
  import opened TopFive
  import opened ProbeOrder
  import opened SearchTheory
  import opened Exactness
  import opened SearchResults

  /** Distances and labels of the slots of s. */
  ghost predicate Holds(dist: seq<int>, fraud: seq<bool>, s: seq<Entry>) {
    && |dist| == |fraud| == |s| == 5
    && forall i :: 0 <= i < 5 ==> dist[i] == s[i].dist && fraud[i] == s[i].fraud
  }

  /** Every occupied slot was visited before e, so only a smaller distance beats it. */
  ghost predicate VisitedBefore(s: seq<Entry>, e: Entry) {
    |s| == 5 && forall i :: 0 <= i < 5 ==> (Less(e, s[i]) <==> e.dist < s[i].dist)
  }

  lemma LaterVisit(q: Vec, refs: seq<Reference>, r: nat)
    requires r < |refs| <= 0x1_0000_0000
    ensures var es := ReferenceEntries(q, refs);
            VisitedBefore(OfferAll(NO_ENTRIES, es[..r]), es[r])
  {
    var es := ReferenceEntries(q, refs);
    var s := OfferAll(NO_ENTRIES, es[..r]);
    assert es[..r] == ReferenceEntries(q, refs[..r]);
    Nearest5IsBest5(q, refs[..r]);
    DistBounds(q, refs[r].vec);
    forall i | 0 <= i < 5
      ensures Less(es[r], s[i]) <==> es[r].dist < s[i].dist
    {
      if s[i] != VACANT {
        assert s[i] in Members(es[..r]);
      }
    }
  }

  class ExactSearcher {
    const references: seq<Reference>

    constructor (references: seq<Reference>)
      ensures this.references == references
    {
      this.references := references;
    }

    /** The fraud count among the five nearest references, over integer distances. */
    method Search5(q: Vec) returns (frauds: nat)
      requires |references| <= 0x1_0000_0000
      ensures frauds == ExactFrauds(q, references)
    {
      hide OfferAll, CountFrauds;
      var bestDist, bestFraud := new int[5](_ => MAX_INT64), new bool[5](_ => false);
      ghost var es := ReferenceEntries(q, references);
      NothingVisited(es);
      for r := 0 to |references|
        invariant Holds(bestDist[..], bestFraud[..], OfferAll(NO_ENTRIES, es[..r]))
      {
        LaterVisit(q, references, r);
        VisitIsOffer(es, r);
        var d := Dist(q, references[r].vec);
        if d >= bestDist[4] {
          continue;
        }
        Place(d, references[r].fraud, bestDist, bestFraud, OfferAll(NO_ENTRIES, es[..r]), es[r]);
      }
      assert es[..|references|] == es;
      frauds := CountLabels(bestFraud, |references|, bestDist[..], Nearest5(q, references));
      LabelsAreFrauds(q, references);
    }

    /** The insertion loop: e goes before the first slot with a larger distance. */
    method Place(d: int, fraud: bool, bestDist: array<int>, bestFraud: array<bool>, ghost s: seq<Entry>, ghost e: Entry)
      requires bestDist.Length == bestFraud.Length == 5 && Holds(bestDist[..], bestFraud[..], s)
      requires e.dist == d && e.fraud == fraud && VisitedBefore(s, e)
      modifies bestDist, bestFraud
      ensures Holds(bestDist[..], bestFraud[..], InsertFrom(s, e, 0))
    {
      for i := 0 to 5
        invariant Holds(bestDist[..], bestFraud[..], s)
        invariant InsertFrom(s, e, i) == InsertFrom(s, e, 0)
      {
        if d < bestDist[i] {
          assert Less(e, s[i]);
          ShiftIn(i, d, fraud, bestDist, bestFraud, s, e);
          break;
        }
      }
    }

    /** Shifts the slots from i on down by one and fills slot i. */
    method ShiftIn(
        i: nat, d: int, fraud: bool, bestDist: array<int>, bestFraud: array<bool>, ghost s: seq<Entry>, ghost e: Entry)
      requires i < 5 && bestDist.Length == bestFraud.Length == 5 && Holds(bestDist[..], bestFraud[..], s)
      requires e.dist == d && e.fraud == fraud
      modifies bestDist, bestFraud
      ensures Holds(bestDist[..], bestFraud[..], s[..i] + [e] + s[i..4])
    {
      var j := 4;
      while j > i
        invariant i <= j <= 4
        invariant forall k :: 0 <= k <= j ==> bestDist[k] == s[k].dist && bestFraud[k] == s[k].fraud
        invariant forall k :: j < k < 5 ==> bestDist[k] == s[k - 1].dist && bestFraud[k] == s[k - 1].fraud
      {
        bestDist[j] := bestDist[j - 1];
        bestFraud[j] := bestFraud[j - 1];
        j := j - 1;
      }
      bestDist[i] := d;
      bestFraud[i] := fraud;
    }

    /** Counts the labels of the first min(5, n) slots. */
    method CountLabels(bestFraud: array<bool>, n: nat, ghost dist: seq<int>, ghost s: seq<Entry>) returns (frauds: nat)
      requires bestFraud.Length == 5 && Holds(dist, bestFraud[..], s)
      ensures frauds == LabelCount(s, Min(5, n))
    {
      frauds := 0;
      for i := 0 to Min(5, n)
        invariant frauds == LabelCount(s, i)
      {
        if bestFraud[i] {
          frauds := frauds + 1;
        }
      }
    }
  }

  lemma NothingVisited(es: seq<Entry>)
    ensures OfferAll(NO_ENTRIES, es[..0]) == NO_ENTRIES
  {
  }

  /** One visit offers the next reference; skipping is what an offer that beats no slot does. */
  lemma VisitIsOffer(es: seq<Entry>, r: nat)
    requires r < |es|
    ensures var s := OfferAll(NO_ENTRIES, es[..r]);
            OfferAll(NO_ENTRIES, es[..r + 1]) == if Less(es[r], s[4]) then InsertFrom(s, es[r], 0) else s
  {
    assert es[..r + 1][..r] == es[..r];
  }

  /** Labels set among the first n slots. */
  function LabelCount(s: seq<Entry>, n: nat): nat
    requires n <= |s|
  {
    if n == 0 then 0 else LabelCount(s, n - 1) + if s[n - 1].fraud then 1 else 0
  }

  /** With fewer than five references the slots beyond them are vacant, so no label is missed. */
  lemma {:induction false} LabelsAreFrauds(q: Vec, refs: seq<Reference>)
    requires |refs| <= 0x1_0000_0000
    ensures LabelCount(Nearest5(q, refs), Min(5, |refs|)) == CountFrauds(Nearest5(q, refs))
  {
    var s, c := Nearest5(q, refs), Members(ReferenceEntries(q, refs));
    Nearest5IsBest5(q, refs);
    MemberCount(ReferenceEntries(q, refs));
    forall i | Min(5, |refs|) <= i < 5
      ensures s[i] == VACANT
    {
      OccupiedSlots(s, c, i);
    }
    NoMoreLabels(s, Min(5, |refs|), 5);
    LabelsOfOccupied(s, 5);
    assert s[..5] == s;
  }

  lemma {:induction false} NoMoreLabels(s: seq<Entry>, n: nat, m: nat)
    requires n <= m <= |s| && forall i :: n <= i < m ==> !s[i].fraud
    ensures LabelCount(s, n) == LabelCount(s, m)
    decreases m
  {
    if n < m {
      NoMoreLabels(s, n, m - 1);
    }
  }

  lemma {:induction false} LabelsOfOccupied(s: seq<Entry>, n: nat)
    requires n <= |s| && forall i :: 0 <= i < |s| && s[i].dist == MAX_INT64 ==> !s[i].fraud
    ensures LabelCount(s, n) == CountFrauds(s[..n])
  {
    if n > 0 {
      LabelsOfOccupied(s, n - 1);
      assert s[..n][..n - 1] == s[..n - 1];
    }
  }

  lemma {:induction false} MemberCount(es: seq<Entry>)
    ensures |Members(es)| <= |es|
  {
    if es != [] {
      MemberCount(es[1..]);
      assert Members(es) == Members(es[1..]) + {es[0]};
    }
  }

  /** An occupied slot has as many candidates before it as its index says. */
  lemma {:induction false} OccupiedSlots(s: seq<Entry>, c: set<Entry>, i: nat)
    requires IsBest5(s, c) && i < 5
    ensures s[i] != VACANT ==> |c| > i
  {
    if s[i] != VACANT {
      FirstSlots(s, c, i + 1);
      CardinalityMonotone(Slots(s, i + 1), c);
    }
  }

  ghost function Slots(s: seq<Entry>, n: nat): set<Entry>
    requires n <= |s|
  {
    if n == 0 then {} else Slots(s, n - 1) + {s[n - 1]}
  }

  lemma {:induction false} FirstSlots(s: seq<Entry>, c: set<Entry>, n: nat)
    requires IsBest5(s, c) && 0 < n <= 5 && s[n - 1] != VACANT
    ensures Slots(s, n) <= c && |Slots(s, n)| == n
  {
    assert s[n - 1] in c;
    if n > 1 {
      assert Less(s[n - 2], s[n - 1]);
      FirstSlots(s, c, n - 1);
      SlotsAreEarlier(s, n - 1);
      assert forall i :: 0 <= i < n - 1 ==> s[i] != s[n - 1];
    } else {
      assert Slots(s, 1) == {s[0]};
    }
  }

  lemma {:induction false} SlotsAreEarlier(s: seq<Entry>, n: nat)
    requires n <= |s|
    ensures forall e :: e in Slots(s, n) ==> exists i :: 0 <= i < n && s[i] == e
  {
    if n > 0 {
      SlotsAreEarlier(s, n - 1);
    }
  }
}
