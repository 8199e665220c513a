/** The order in which lists are probed: by centroid distance, ties broken by cluster index. */
module ProbeOrder {
  import opened Machine

  ghost predicate Before(ds: seq<int>, a: nat, b: nat)
    requires a < |ds| && b < |ds|
  {
    ds[a] < ds[b] || (ds[a] == ds[b] && a < b)
  }

  /** out lists, in order, the first |out| of the clusters below bound. */
  ghost predicate IsTop(ds: seq<int>, bound: nat, out: seq<nat>)
    requires bound <= |ds|
  {
    && (forall i :: 0 <= i < |out| ==> out[i] < bound)
    && (forall i, j :: 0 <= i < j < |out| ==> Before(ds, out[i], out[j]))
    && (forall c: nat :: c < bound && c !in out ==> forall i :: 0 <= i < |out| ==> Before(ds, out[i], c))
  }

  ghost predicate Distinct(s: seq<nat>) {
    forall i, j :: 0 <= i < j < |s| ==> s[i] != s[j]
  }

  ghost function Elements(s: seq<nat>): set<nat> {
    set x | x in s
  }

  /** The first n clusters, nearest first. */
  ghost function Top(ds: seq<int>, n: nat): (r: seq<nat>)
    requires n <= |ds|
    ensures |r| == n && IsTop(ds, |ds|, r)
  {
    if n == 0 then []
    else
      var prefix := Top(ds, n - 1);
      NextExists(ds, prefix);
      var c: nat :| IsNext(ds, prefix, c);
      prefix + [c]
  }

  ghost predicate IsNext(ds: seq<int>, prefix: seq<nat>, c: nat) {
    && c < |ds| && c !in prefix
    && forall x: nat :: x < |ds| && x !in prefix && x != c ==> Before(ds, c, x)
  }

  lemma NextExists(ds: seq<int>, prefix: seq<nat>)
    requires |prefix| < |ds|
    ensures exists c: nat :: IsNext(ds, prefix, c)
  {
    SomeoneMissing(prefix, |ds|);
    var c: nat :| c < |ds| && c !in prefix;
    var x: nat := 0;
    while x < |ds|
      invariant x <= |ds| && c < |ds| && c !in prefix
      invariant forall y: nat :: y < x && y !in prefix && y != c ==> Before(ds, c, y)
    {
      if x !in prefix && x != c && Before(ds, x, c) {
        c := x;
      }
      x := x + 1;
    }
    assert IsNext(ds, prefix, c);
  }

  /** A list shorter than n misses some number below n. */
  lemma {:induction false} SomeoneMissing(s: seq<nat>, n: nat)
    requires |s| < n
    ensures exists c: nat :: c < n && c !in s
  {
    ElementCount(s);
    if Below(n) <= Elements(s) {
      CardinalityMonotone(Below(n), Elements(s));
    } else {
      var c :| c in Below(n) && c !in Elements(s);
    }
  }

  ghost function Below(n: nat): (s: set<nat>)
    ensures |s| == n
    ensures forall x: nat :: x in s <==> x < n
  {
    if n == 0 then {} else Below(n - 1) + {n - 1}
  }

  lemma {:induction false} ElementCount(s: seq<nat>)
    ensures |Elements(s)| <= |s|
  {
    if s != [] {
      ElementCount(s[1..]);
      assert Elements(s) == Elements(s[1..]) + {s[0]};
    }
  }

  lemma {:induction false} CardinalityMonotone<T>(a: set<T>, b: set<T>)
    requires a <= b
    ensures |a| <= |b|
  {
    assert b == a + (b - a);
  }

  /** There is only one list of the first n clusters. */
  lemma {:induction false} TopIsUnique(ds: seq<int>, a: seq<nat>, b: seq<nat>)
    requires IsTop(ds, |ds|, a) && IsTop(ds, |ds|, b) && |a| == |b|
    ensures a == b
  {
    for i := 0 to |a|
      invariant forall j :: 0 <= j < i ==> a[j] == b[j]
    {
      if a[i] != b[i] {
        if Before(ds, a[i], b[i]) {
          SlotAgrees(ds, a, b, i);
        } else {
          SlotAgrees(ds, b, a, i);
        }
      }
    }
  }

  lemma SlotAgrees(ds: seq<int>, a: seq<nat>, b: seq<nat>, i: nat)
    requires IsTop(ds, |ds|, a) && IsTop(ds, |ds|, b) && i < |a| == |b|
    requires forall j :: 0 <= j < i ==> a[j] == b[j]
    ensures !Before(ds, a[i], b[i])
  {
    forall j | 0 <= j < |b| && Before(ds, a[i], b[i])
      ensures b[j] != a[i]
    {
      if j < i {
        assert Before(ds, a[j], a[i]);
      } else {
        assert j == i || Before(ds, b[i], b[j]);
      }
    }
    var x := a[i];
    assert Before(ds, x, b[i]) ==> x !in b;
  }

  /** A smaller probe count selects a prefix of what a larger one selects. */
  lemma {:induction false} TopIsPrefix(ds: seq<int>, n: nat, m: nat)
    requires n <= m <= |ds|
    ensures Top(ds, n) == Top(ds, m)[..n]
    decreases m
  {
    if n < m {
      TopIsPrefix(ds, n, m - 1);
      assert Top(ds, m)[..m - 1] == Top(ds, m - 1);
      assert Top(ds, m)[..n] == Top(ds, m - 1)[..n];
    }
  }

  /** Selected clusters come nearest first, ties by smaller index, and none left out comes before one of them. */
  lemma NearestFirst(ds: seq<int>, n: nat)
    requires n <= |ds|
    ensures var r := Top(ds, n);
            && (forall i, j :: 0 <= i < j < n ==> ds[r[i]] < ds[r[j]] || (ds[r[i]] == ds[r[j]] && r[i] < r[j]))
            && (forall c: nat, i :: c < |ds| && c !in r && 0 <= i < n ==>
                  ds[r[i]] < ds[c] || (ds[r[i]] == ds[c] && r[i] < c))
  {
    hide Top;
    var r := Top(ds, n);
    forall i, j | 0 <= i < j < n
      ensures ds[r[i]] < ds[r[j]] || (ds[r[i]] == ds[r[j]] && r[i] < r[j])
    {
      assert Before(ds, r[i], r[j]);
    }
    forall c: nat, i | c < |ds| && c !in r && 0 <= i < n
      ensures ds[r[i]] < ds[c] || (ds[r[i]] == ds[c] && r[i] < c)
    {
      assert Before(ds, r[i], c);
    }
  }

  /** The full ranking contains every cluster. */
  lemma {:induction false} TopOfAllIsAll(ds: seq<int>)
    ensures Elements(Top(ds, |ds|)) == Below(|ds|)
  {
    var r := Top(ds, |ds|);
    DistinctCount(r);
    SubsetOfEqualSize(Elements(r), Below(|ds|));
  }

  lemma {:induction false} DistinctCount(s: seq<nat>)
    requires Distinct(s)
    ensures |Elements(s)| == |s|
  {
    if s != [] {
      DistinctCount(s[1..]);
      assert Elements(s) == Elements(s[1..]) + {s[0]};
      assert s[0] !in s[1..];
    }
  }

  lemma SubsetOfEqualSize(a: set<nat>, b: set<nat>)
    requires a <= b && |a| == |b|
    ensures a == b
  {
    assert b == a + (b - a);
    assert |b - a| == 0;
  }

  // ---- one step of the selection loop ---------------------------------------------------

  /** Cluster c lands at p: everything before is at most as far, everything from p on is farther. */
  ghost predicate IsSlot(ds: seq<int>, out: seq<nat>, d: int, p: nat)
    requires forall i :: 0 <= i < |out| ==> out[i] < |ds|
  {
    && p <= |out|
    && (forall i :: 0 <= i < p ==> ds[out[i]] <= d)
    && (forall i :: p <= i < |out| ==> d < ds[out[i]])
  }

  /**
   Inserting cluster c at its slot extends the list, if the list already holds every earlier
   cluster or c does not land at its end.
   */
  lemma TopGrows(ds: seq<int>, c: nat, out: seq<nat>, p: nat)
    requires c < |ds| && IsTop(ds, c, out) && IsSlot(ds, out, ds[c], p)
    requires |out| == c || p < |out|
    ensures IsTop(ds, c + 1, out[..p] + [c] + out[p..])
  {
    var r := out[..p] + [c] + out[p..];
    if |out| == c {
      AllPresent(out, c);
    }
    forall x: nat, i | x < c + 1 && x !in r && 0 <= i < |r|
      ensures Before(ds, r[i], x)
    {
      assert r[p] == c;
      assert forall k :: 0 <= k < |out| ==> out[k] == r[if k < p then k else k + 1];
      assert x !in out;
      assert Before(ds, out[p], x);
    }
  }

  lemma TopDropsLast(ds: seq<int>, bound: nat, out: seq<nat>)
    requires bound <= |ds| && 0 < |out| && IsTop(ds, bound, out)
    ensures IsTop(ds, bound, out[..|out| - 1])
  {
    var r := out[..|out| - 1];
    forall x: nat, i | x < bound && x !in r && 0 <= i < |r|
      ensures Before(ds, r[i], x)
    {
      assert forall k :: 0 <= k < |r| ==> out[k] == r[k];
      assert x in out ==> x == out[|r|];
    }
  }

  /** A cluster no nearer than the last one kept does not enter a full list. */
  lemma TopSkips(ds: seq<int>, c: nat, out: seq<nat>)
    requires c < |ds| && 0 < |out| && IsTop(ds, c, out) && ds[out[|out| - 1]] <= ds[c]
    ensures IsTop(ds, c + 1, out)
  {
    forall i | 0 <= i < |out|
      ensures Before(ds, out[i], c)
    {
      assert i < |out| - 1 ==> Before(ds, out[i], out[|out| - 1]);
    }
  }

  lemma AllPresent(out: seq<nat>, c: nat)
    requires |out| == c && Distinct(out) && forall i :: 0 <= i < c ==> out[i] < c
    ensures forall x: nat :: x < c ==> x in out
  {
    DistinctCount(out);
    SubsetOfEqualSize(Elements(out), Below(c));
    forall x: nat | x < c
      ensures x in out
    {
      assert x in Below(c);
    }
  }
}
