/** The mutable state of one search: five best slots and the probe bit mask. */
module SearchState {
  import opened Machine
  import opened Bits
  import opened TopFive

  const MASK_WORDS: nat := 128
  const MAX_CLUSTERS: nat := 8192

  /** The cluster ids whose bits are set in a mask of 64-bit words. */
  ghost function Marked(mask: seq<nat>): set<nat>
    requires |mask| == MASK_WORDS
  {
    set c: nat | c < MAX_CLUSTERS && Bit(mask[c / 64], c % 64)
  }

  lemma {:induction false} NothingMarked(mask: seq<nat>)
    requires |mask| == MASK_WORDS && forall w :: 0 <= w < MASK_WORDS ==> mask[w] == 0
    ensures Marked(mask) == {}
  {
    forall c: nat | c < MAX_CLUSTERS
      ensures !Bit(mask[c / 64], c % 64)
    {
      ZeroHasNoBits(c % 64);
    }
  }

  /** Setting one bit of one word marks exactly one more cluster. */
  lemma {:induction false} MarkAddsOne(mask: seq<nat>, c: nat)
    requires |mask| == MASK_WORDS && c < MAX_CLUSTERS
    ensures Marked(mask[c / 64 := Or(mask[c / 64], Pow2(c % 64))]) == Marked(mask) + {c}
  {
    var mask' := mask[c / 64 := Or(mask[c / 64], Pow2(c % 64))];
    forall x: nat | x < MAX_CLUSTERS
      ensures Bit(mask'[x / 64], x % 64) <==> Bit(mask[x / 64], x % 64) || x == c
    {
      if x / 64 == c / 64 {
        OrSetsBits(mask[c / 64], Pow2(c % 64), x % 64);
        OnlyBitOfPow2(c % 64, x % 64);
      }
    }
  }

  class IvfSearchState {
    const bestDist: array<int>
    const bestFraud: array<bool>
    const bestID: array<int>
    const probes: array<int>
    const probeMask: array<nat>
    var probeCount: nat

    ghost const Repr: set<object>

    ghost predicate Valid()
      reads this, Repr
    {
      && this in Repr && Repr == {this, bestDist, bestFraud, bestID, probes, probeMask}
      && bestDist.Length == bestFraud.Length == bestID.Length == 5
      && bestDist != bestID && bestDist != probes && bestID != probes
      && probes.Length == MAX_PROBE && probeCount <= MAX_PROBE
      && probeMask.Length == MASK_WORDS
      && (bestDist as object) != probeMask && (bestID as object) != probeMask && (probes as object) != probeMask
      && forall w :: 0 <= w < MASK_WORDS ==> probeMask[w] < Pow2(64)
    }

    /** The five slots, best first. */
    ghost function Best(): (s: seq<Entry>)
      requires Valid()
      reads this, Repr
      ensures |s| == 5
      ensures forall i :: 0 <= i < 5 ==> s[i] == Entry(bestDist[i], bestFraud[i], bestID[i])
    {
      seq(5, i requires Valid() && 0 <= i < 5 reads this, Repr => Entry(bestDist[i], bestFraud[i], bestID[i]))
    }

    /** The clusters marked in the bit mask. */
    ghost function Probed(): set<nat>
      requires Valid()
      reads this, Repr
    {
      Marked(probeMask[..])
    }

    constructor ()
      ensures Valid() && fresh(Repr)
      ensures Best() == NO_ENTRIES && Probed() == {}
    {
      bestDist := new int[5](_ => MAX_INT64);
      bestFraud := new bool[5](_ => false);
      bestID := new int[5](_ => MAX_UINT32);
      probes := new int[MAX_PROBE](_ => 0);
      probeMask := new nat[MASK_WORDS](_ => 0);
      probeCount := 0;
      Repr := {this, bestDist, bestFraud, bestID, probes, probeMask};
      new;
      Pow2Grows(0, 64);
      NothingMarked(probeMask[..]);
    }

    /** Whether the mask marks a cluster. */
    method HasProbe(cluster: nat) returns (marked: bool)
      requires Valid() && cluster < MAX_CLUSTERS
      ensures marked <==> cluster in Probed()
    {
      MaskTestsBit(probeMask[cluster / 64], cluster % 64);
      marked := And(probeMask[cluster / 64], Pow2(cluster % 64)) != 0;
    }

    /** Marks a cluster, and logs it while the log has room. */
    method AddProbe(cluster: nat)
      requires Valid() && cluster < MAX_CLUSTERS
      modifies this`probeCount, probes, probeMask
      ensures Valid() && Best() == old(Best())
      ensures Probed() == old(Probed()) + {cluster}
      ensures old(probeCount) < MAX_PROBE ==> probes[..probeCount] == old(probes[..probeCount]) + [cluster]
      ensures old(probeCount) == MAX_PROBE ==> probeCount == MAX_PROBE && probes[..] == old(probes[..])
    {
      hide Pow2, Or, Marked;
      ghost var mask := probeMask[..];
      var w, j := cluster / 64, cluster % 64;
      Pow2Grows(j, 64);
      OrStaysBelow(mask[w], Pow2(j), 64);
      probeMask[w] := Or(probeMask[w], Pow2(j));
      MarkAddsOne(mask, cluster);
      assert probeMask[..] == mask[w := Or(mask[w], Pow2(j))];
      if probeCount < MAX_PROBE {
        probes[probeCount] := cluster;
        probeCount := probeCount + 1;
      }
    }

    /** Puts a candidate before the first slot it beats. */
    method Insert(d: int, fraud: bool, origID: int)
      requires Valid()
      modifies bestDist, bestFraud, bestID
      ensures Valid() && Probed() == old(Probed())
      ensures Best() == InsertFrom(old(Best()), Entry(d, fraud, origID), 0)
    {
      ghost var e, was := Entry(d, fraud, origID), Best();
      for i := 0 to 5
        invariant Valid() && Best() == was && Probed() == old(Probed())
        invariant InsertFrom(was, e, i) == InsertFrom(was, e, 0)
      {
        if d < bestDist[i] || (d == bestDist[i] && origID < bestID[i]) {
          assert Less(e, was[i]);
          PutAt(i, d, fraud, origID);
          return;
        }
      }
    }

    /** Shifts the slots from i on down by one, dropping the last, and fills slot i. */
    method PutAt(i: nat, d: int, fraud: bool, origID: int)
      requires Valid() && i < 5
      modifies bestDist, bestFraud, bestID
      ensures Valid() && Probed() == old(Probed())
      ensures Best() == old(Best())[..i] + [Entry(d, fraud, origID)] + old(Best())[i..4]
    {
      ghost var was := Best();
      var j := 4;
      while j > i
        invariant i <= j <= 4 && Valid() && Probed() == old(Probed())
        invariant forall k :: 0 <= k <= j ==> Best()[k] == was[k]
        invariant forall k :: j < k < 5 ==> Best()[k] == was[k - 1]
      {
        bestDist[j] := bestDist[j - 1];
        bestFraud[j] := bestFraud[j - 1];
        bestID[j] := bestID[j - 1];
        j := j - 1;
      }
      bestDist[i] := d;
      bestFraud[i] := fraud;
      bestID[i] := origID;
    }

    /** The scan loops' guard and insertion. */
    method OfferCandidate(d: int, fraud: bool, origID: int)
      requires Valid()
      modifies bestDist, bestFraud, bestID
      ensures Valid() && Probed() == old(Probed())
      ensures Best() == Offer(old(Best()), Entry(d, fraud, origID))
    {
      if d > bestDist[4] || (d == bestDist[4] && origID >= bestID[4]) {
        return;
      }
      Insert(d, fraud, origID);
    }

    /** The number of occupied slots labelled fraud. */
    method CountFraudSlots() returns (frauds: nat)
      requires Valid()
      ensures frauds == CountFrauds(Best())
    {
      frauds := 0;
      ghost var s := Best();
      for i := 0 to 5
        invariant frauds == CountFrauds(s[..i])
      {
        assert s[..i + 1][..i] == s[..i];
        if bestDist[i] != MAX_INT64 && bestFraud[i] {
          frauds := frauds + 1;
        }
      }
      assert s[..5] == s;
    }
  }
}
