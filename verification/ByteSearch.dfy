/** The first occurrence of one byte string in another, as the library searches of both programs find it. */
module ByteSearch {
  import opened Machine

  predicate OccursAt(s: seq<Byte>, sep: seq<Byte>, i: int) {
    0 <= i && i + |sep| <= |s| && s[i..i + |sep|] == sep
  }

  /** The first occurrence, or -1; an empty pattern occurs at 0. */
  function Index(s: seq<Byte>, sep: seq<Byte>): (i: int)
    ensures i == -1 || OccursAt(s, sep, i)
    ensures forall k :: 0 <= k && (k < i || i == -1) ==> !OccursAt(s, sep, k)
  {
    IndexFrom(s, sep, 0)
  }

  function IndexFrom(s: seq<Byte>, sep: seq<Byte>, from: nat): (i: int)
    requires from <= |s|
    ensures i == -1 || (from <= i && OccursAt(s, sep, i))
    ensures forall k :: from <= k && (k < i || i == -1) ==> !OccursAt(s, sep, k)
    decreases |s| - from
  {
    if OccursAt(s, sep, from) then from
    else if from == |s| then -1
    else IndexFrom(s, sep, from + 1)
  }

  /** Growing a text does not move an occurrence already found, nor hide where one ends. */
  lemma IndexInPrefix(p: seq<Byte>, w: seq<Byte>, sep: seq<Byte>)
    requires p <= w
    ensures var i := Index(w, sep); Index(p, sep) == if i >= 0 && i + |sep| <= |p| then i else -1
  {
    forall k | 0 <= k <= |p| - |sep|
      ensures OccursAt(p, sep, k) <==> OccursAt(w, sep, k)
    {
      assert p[k..k + |sep|] == w[k..k + |sep|];
    }
  }

  lemma IndexIs(s: seq<Byte>, sep: seq<Byte>, i: nat)
    requires OccursAt(s, sep, i) && forall k :: 0 <= k < i ==> !OccursAt(s, sep, k)
    ensures Index(s, sep) == i
  {
  }

  /** b does not occur in s. */
  predicate Free(s: seq<Byte>, b: Byte) {
    b !in s
  }

  lemma NoSuchByte(s: seq<Byte>, b: Byte)
    requires Free(s, b)
    ensures Index(s, [b]) == -1
  {
    forall k | 0 <= k < |s|
      ensures !OccursAt(s, [b], k)
    {
      assert s[k..k + 1][0] == s[k];
    }
  }

  lemma FirstByte(s: seq<Byte>, b: Byte, n: nat)
    requires n < |s| && s[n] == b && forall k :: 0 <= k < n ==> s[k] != b
    ensures Index(s, [b]) == n
  {
    assert s[n..n + 1] == [b];
    assert OccursAt(s, [b], n);
    forall k | 0 <= k < n
      ensures !OccursAt(s, [b], k)
    {
      assert s[k..k + 1][0] == s[k];
    }
    IndexIs(s, [b], n);
  }

  /** Texts joined by a separator byte. */
  function Join(separator: Byte, texts: seq<seq<Byte>>): seq<Byte>
    requires texts != []
  {
    if |texts| == 1 then texts[0] else texts[0] + [separator] + Join(separator, texts[1..])
  }
}
