/**
 The binary index file: one writer, a reader that takes sections from a stream, and a reader that
 computes section positions over the whole file.
 */
module IndexFile {
  import opened Machine
  import opened Metric
  import opened Layout

  // ---- little-endian values -----------------------------------------------------------------

  function EncodeI16(x: Int16): (b: seq<Byte>)
    ensures |b| == 2
  {
    var u := if x < 0 then x + 0x1_0000 else x as int;
    [u % 256, u / 256]
  }

  function DecodeI16(lo: Byte, hi: Byte): Int16 {
    var u := lo + hi * 256;
    if u < 0x8000 then u else u - 0x1_0000
  }

  function EncodeU32(x: Uint32): (b: seq<Byte>)
    ensures |b| == 4
  {
    [x % 256, x / 256 % 256, x / 0x1_0000 % 256, x / 0x100_0000]
  }

  function DecodeU32(a: Byte, b: Byte, c: Byte, d: Byte): Uint32 {
    a + b * 256 + c * 0x1_0000 + d * 0x100_0000
  }

  function EncodeI16s(s: seq<Int16>): (b: seq<Byte>)
    ensures |b| == 2 * |s|
  {
    if s == [] then [] else EncodeI16s(s[..|s| - 1]) + EncodeI16(s[|s| - 1])
  }

  function EncodeU32s(s: seq<Uint32>): (b: seq<Byte>)
    ensures |b| == 4 * |s|
  {
    if s == [] then [] else EncodeU32s(s[..|s| - 1]) + EncodeU32(s[|s| - 1])
  }

  function DecodeI16s(b: seq<Byte>): (s: seq<Int16>)
    ensures |s| == |b| / 2
  {
    seq(|b| / 2, i requires 0 <= i < |b| / 2 => DecodeI16(b[2 * i], b[2 * i + 1]))
  }

  function DecodeU32s(b: seq<Byte>): (s: seq<Uint32>)
    ensures |s| == |b| / 4
  {
    seq(|b| / 4, i requires 0 <= i < |b| / 4 => DecodeU32(b[4 * i], b[4 * i + 1], b[4 * i + 2], b[4 * i + 3]))
  }

  /** Low bytes come first, and negative values are stored modulo 2^16. */
  lemma LittleEndian(x: Int16, y: Uint32)
    ensures FromBytes(EncodeI16(x)) == if x >= 0 then x as int else x + 65536
    ensures FromBytes(EncodeU32(y)) == y
  {
    hide FromBytes;
    U32RoundTrip(y);
    var a, b := EncodeI16(x), EncodeU32(y);
    assert a == [a[0], a[1]] && b == [b[0], b[1], b[2], b[3]];
    FromTwo(a[0], a[1]);
    FromFour(b[0], b[1], b[2], b[3]);
  }

  lemma FromTwo(a: Byte, b: Byte)
    ensures FromBytes([a, b]) == a + 256 * b as int
  {
    assert [a, b][1..] == [b] && [b][1..] == [];
    assert FromBytes([b]) == b;
  }

  lemma FromFour(a: Byte, b: Byte, c: Byte, d: Byte)
    ensures FromBytes([a, b, c, d]) == DecodeU32(a, b, c, d)
  {
    FromTwo(c, d);
    assert [a, b, c, d][1..] == [b, c, d] && [b, c, d][1..] == [c, d];
    assert FromBytes([b, c, d]) == b + 256 * FromBytes([c, d]);
  }

  /** The number that a run of bytes spells, low byte first. */
  function FromBytes(b: seq<Byte>): int {
    if b == [] then 0 else b[0] + 256 * FromBytes(b[1..])
  }

  lemma I16RoundTrip(x: Int16)
    ensures DecodeI16(EncodeI16(x)[0], EncodeI16(x)[1]) == x
  {
  }

  lemma U32RoundTrip(x: Uint32)
    ensures var b := EncodeU32(x); DecodeU32(b[0], b[1], b[2], b[3]) == x
  {
    var q := x / 0x1_0000;
    assert x / 256 / 256 == q && q / 256 == x / 0x100_0000;
  }

  lemma {:induction false} I16sRoundTrip(s: seq<Int16>)
    ensures DecodeI16s(EncodeI16s(s)) == s
  {
    if s != [] {
      var n := |s| - 1;
      var head, b := EncodeI16s(s[..n]), EncodeI16s(s);
      I16sRoundTrip(s[..n]);
      I16RoundTrip(s[n]);
      forall i | 0 <= i < |s|
        ensures DecodeI16s(b)[i] == s[i]
      {
        if i < n {
          assert b[2 * i] == head[2 * i] && b[2 * i + 1] == head[2 * i + 1];
          assert DecodeI16s(head)[i] == s[..n][i];
        }
      }
    }
  }

  lemma {:induction false} U32sRoundTrip(s: seq<Uint32>)
    ensures DecodeU32s(EncodeU32s(s)) == s
  {
    if s != [] {
      var n := |s| - 1;
      var head, b := EncodeU32s(s[..n]), EncodeU32s(s);
      U32sRoundTrip(s[..n]);
      U32RoundTrip(s[n]);
      forall i | 0 <= i < |s|
        ensures DecodeU32s(b)[i] == s[i]
      {
        if i < n {
          assert b[4 * i] == head[4 * i] && b[4 * i + 1] == head[4 * i + 1];
          assert b[4 * i + 2] == head[4 * i + 2] && b[4 * i + 3] == head[4 * i + 3];
          assert DecodeU32s(head)[i] == s[..n][i];
        }
      }
    }
  }

  // ---- offsets ------------------------------------------------------------------------------

  /** What the validator is meant to establish. */
  ghost predicate AcceptableOffsets(count: nat, clusters: nat, lists: seq<Uint32>, blocks: Option<seq<Uint32>>) {
    && clusters <= 8192
    && |lists| == clusters + 1 && lists[0] == 0 && lists[clusters] == count && Monotone(lists)
    && (blocks.Some? ==> |blocks.value| == clusters + 1 && blocks.value[0] == 0 && Monotone(blocks.value)
                         && BlockSpans(lists, blocks.value))
  }

  /** Accepts exactly the acceptable offsets; a version without block offsets passes None. */
  method ValidateIvfOffsets(count: nat, clusters: nat, lists: seq<Uint32>, blocks: Option<seq<Uint32>>)
    returns (ok: bool)
    ensures ok <==> AcceptableOffsets(count, clusters, lists, blocks)
  {
    if clusters > 128 * 64 || |lists| != clusters + 1 {
      return false;
    }
    if lists[0] != 0 || lists[|lists| - 1] != count {
      return false;
    }
    var monotone := IsMonotone(lists);
    if !monotone {
      return false;
    }
    if blocks.None? {
      return true;
    }
    var bo := blocks.value;
    if |bo| != clusters + 1 || bo[0] != 0 {
      return false;
    }
    ok := HasBlockSpans(lists, bo);
  }

  /** The first loop: no offset below the one before it. */
  method IsMonotone(s: seq<Uint32>) returns (ok: bool)
    requires s != []
    ensures ok <==> Monotone(s)
  {
    for i := 0 to |s| - 1
      invariant Monotone(s[..i + 1])
    {
      if s[i + 1] < s[i] {
        return false;
      }
      MonotoneStep(s, i + 1);
    }
    assert s[..|s|] == s;
    ok := true;
  }

  /** The second loop: block offsets ascend by exactly the blocks each list's rows need. */
  method HasBlockSpans(lists: seq<Uint32>, bo: seq<Uint32>) returns (ok: bool)
    requires |lists| == |bo| > 0 && Monotone(lists)
    ensures ok <==> Monotone(bo) && BlockSpans(lists, bo)
  {
    for i := 0 to |bo| - 1
      invariant Monotone(bo[..i + 1])
      invariant forall c :: 0 <= c < i ==> SpanFits(lists, bo, c)
    {
      SpansAreSteps(lists, bo);
      if bo[i + 1] < bo[i] {
        return false;
      }
      var rows := lists[i + 1] as int - lists[i];
      if bo[i + 1] as int - bo[i] != BlocksForRows(rows) {
        return false;
      }
      MonotoneStep(bo, i + 1);
    }
    assert bo[..|bo|] == bo;
    SpansAreSteps(lists, bo);
    ok := true;
  }

  ghost predicate SpanFits(lists: seq<int>, bo: seq<int>, c: int)
    requires |lists| == |bo|
  {
    0 <= c < |lists| - 1 && bo[c + 1] - bo[c] == BlocksForRows(lists[c + 1] - lists[c])
  }

  lemma SpansAreSteps(lists: seq<int>, bo: seq<int>)
    requires |lists| == |bo| > 0
    ensures BlockSpans(lists, bo) <==> forall c :: 0 <= c < |bo| - 1 ==> SpanFits(lists, bo, c)
  {
    if forall c :: 0 <= c < |bo| - 1 ==> SpanFits(lists, bo, c) {
      forall c, e | 0 <= c && e == c + 1 && e < |lists|
        ensures bo[e] - bo[c] == BlocksForRows(lists[e] - lists[c])
      {
        assert SpanFits(lists, bo, c);
      }
    }
  }

  lemma MonotoneStep(s: seq<int>, n: nat)
    requires 0 < n < |s| && Monotone(s[..n]) && s[n - 1] <= s[n]
    ensures Monotone(s[..n + 1])
  {
    var r := s[..n + 1];
    forall i, j | 0 <= i <= j < |r|
      ensures r[i] <= r[j]
    {
      if j < n {
        assert s[..n][i] <= s[..n][j];
      } else if i < n {
        assert s[..n][i] <= s[..n][n - 1];
      }
    }
  }

  // ---- file layout --------------------------------------------------------------------------

  const MAGIC: seq<Byte> := [72, 78, 68, 88, 50, 48, 50, 54]
  const CURRENT_VERSION: Uint32 := 4
  const HEADER_SIZE: nat := 24
  const IVF_HEADER_SIZE: nat := 16

  /** Section positions of a file with a version, a cluster count and a row count. */
  datatype Shape = Shape(version: nat, clusters: nat, count: nat) {
    function CentroidsAt(): nat { 40 }
    function CentroidBlocksAt(): nat { CentroidsAt() + 28 * clusters }
    function ListOffsetsAt(): nat { CentroidBlocksAt() + if version >= 4 then BlocksForRows(clusters) * 224 else 0 }
    function BlockOffsetsAt(): nat { ListOffsetsAt() + 4 * (clusters + 1) }
    function BoxMinAt(): nat { BlockOffsetsAt() + if version >= 3 then 4 * (clusters + 1) else 0 }
    function BoxMaxAt(): nat { BoxMinAt() + 28 * clusters }
    function OrigIDsAt(): nat { BoxMaxAt() + 28 * clusters }
    function VectorsAt(): nat { OrigIDsAt() + 4 * count }
    function LabelsAt(): nat { VectorsAt() + if version == 2 then 28 * count else 0 }
    function BlocksAt(): nat { LabelsAt() + count + if version >= 3 then count % 2 else 0 }
  }

  function Slice(data: seq<Byte>, from: nat, n: nat): (b: seq<Byte>)
    requires from + n <= |data|
    ensures |b| == n
  {
    data[from..from + n]
  }

  function U32At(data: seq<Byte>, at: nat): Uint32
    requires at + 4 <= |data|
  {
    DecodeU32(data[at], data[at + 1], data[at + 2], data[at + 3])
  }

  predicate ValidHeader(data: seq<Byte>) {
    && |data| >= HEADER_SIZE
    && data[..8] == MAGIC && U32At(data, 12) == 14 && U32At(data, 16) == 10000
    && (U32At(data, 8) == 2 || U32At(data, 8) == 3 || U32At(data, 8) == 4)
  }

  function ShapeOf(data: seq<Byte>): Shape
    requires |data| >= HEADER_SIZE + IVF_HEADER_SIZE
  {
    Shape(U32At(data, 8), U32At(data, 24), U32At(data, 20))
  }

  function ListOffsetsOf(data: seq<Byte>, sh: Shape): seq<Uint32>
    requires sh.BlockOffsetsAt() <= |data|
  {
    DecodeU32s(Slice(data, sh.ListOffsetsAt(), 4 * (sh.clusters + 1)))
  }

  function BlockOffsetsOf(data: seq<Byte>, sh: Shape): Option<seq<Uint32>>
    requires sh.BoxMinAt() <= |data|
  {
    if sh.version >= 3 then Some(DecodeU32s(Slice(data, sh.BlockOffsetsAt(), 4 * (sh.clusters + 1)))) else None
  }

  /** Bytes taken by the blocks section. */
  function BlockBytes(offsets: Option<seq<Uint32>>): nat {
    if offsets.Some? && offsets.value != [] then offsets.value[|offsets.value| - 1] as int * 224 else 0
  }

  /** The files both readers are meant to accept. */
  ghost predicate Readable(data: seq<Byte>) {
    && ValidHeader(data)
    && |data| >= HEADER_SIZE + IVF_HEADER_SIZE
    && var sh := ShapeOf(data);
       && sh.clusters > 0
       && sh.BlocksAt() <= |data|
       && AcceptableOffsets(sh.count, sh.clusters, ListOffsetsOf(data, sh), BlockOffsetsOf(data, sh))
       && sh.BlocksAt() + BlockBytes(BlockOffsetsOf(data, sh)) <= |data|
  }

  /** The tables as stored, before the index object fills in its defaults. */
  ghost function StoredTables(data: seq<Byte>): (t: IndexData)
    requires Readable(data)
  {
    var sh := ShapeOf(data);
    var k, n, offsets := sh.clusters, sh.count, BlockOffsetsOf(data, sh);
    IndexData(
      if sh.version == 2 then DecodeI16s(Slice(data, sh.VectorsAt(), 28 * n)) else [],
      if sh.version >= 3 then DecodeI16s(Slice(data, sh.BlocksAt(), BlockBytes(offsets))) else [],
      Slice(data, sh.LabelsAt(), n),
      IvfMetadata(
        k,
        DecodeI16s(Slice(data, sh.CentroidsAt(), 28 * k)),
        if sh.version >= 4 then DecodeI16s(Slice(data, sh.CentroidBlocksAt(), BlocksForRows(k) * 224)) else [],
        ListOffsetsOf(data, sh),
        if offsets.Some? then offsets.value else [],
        DecodeI16s(Slice(data, sh.BoxMinAt(), 28 * k)),
        DecodeI16s(Slice(data, sh.BoxMaxAt(), 28 * k)),
        DecodeU32s(Slice(data, sh.OrigIDsAt(), 4 * n)),
        U32At(data, 28), U32At(data, 32), U32At(data, 36) % 2 == 1))
  }

  /** The accepted headers, byte by byte. */
  lemma HeaderIsValidIff(data: seq<Byte>)
    ensures ValidHeader(data) <==>
              && |data| >= 24
              && (forall i :: 0 <= i < 8 ==> data[i] == "HNDX2026"[i] as int)
              && (data[8] == 2 || data[8] == 3 || data[8] == 4) && data[9] == data[10] == data[11] == 0
              && data[12] == 14 && data[13] == data[14] == data[15] == 0
              && data[16] == 16 && data[17] == 39 && data[18] == data[19] == 0
  {
    if |data| >= 24 {
      assert data[..8] == MAGIC <==> forall i :: 0 <= i < 8 ==> data[i] == "HNDX2026"[i] as int by {
        assert forall i :: 0 <= i < 8 ==> MAGIC[i] == "HNDX2026"[i] as int;
        if forall i :: 0 <= i < 8 ==> data[i] == "HNDX2026"[i] as int {
          assert forall i :: 0 <= i < 8 ==> data[..8][i] == MAGIC[i];
        } else {
          var i :| 0 <= i < 8 && data[i] != "HNDX2026"[i] as int;
          assert data[..8][i] != MAGIC[i];
        }
      }
    }
  }

  /** The header's numbers: rows at byte 20, lists at 24, the probe counts at 28 and 32, the repair bit at 36. */
  lemma HeaderFields(data: seq<Byte>)
    requires Readable(data)
    ensures ShapeOf(data).version == data[8]
    ensures ShapeOf(data).count == FromBytes(data[20..24]) && ShapeOf(data).clusters == FromBytes(data[24..28])
    ensures StoredTables(data).ivf.nprobe == FromBytes(data[28..32])
    ensures StoredTables(data).ivf.ambiguousNProbe == FromBytes(data[32..36])
    ensures StoredTables(data).ivf.repair <==> data[36] % 2 == 1
  {
    hide AcceptableOffsets, DecodeI16s, DecodeU32s, FromBytes, U32At, ValidHeader, Slice, ListOffsetsOf,
         BlockOffsetsOf, BlocksForRows, Shape.BlocksAt;
    VersionByte(data);
    WordIs(data, 20);
    WordIs(data, 24);
    WordIs(data, 28);
    WordIs(data, 32);
    WordIs(data, 36);
  }

  lemma VersionByte(data: seq<Byte>)
    requires ValidHeader(data)
    ensures U32At(data, 8) == data[8]
  {
    hide U32At;
    HeaderIsValidIff(data);
    WordIs(data, 8);
  }

  lemma WordIs(data: seq<Byte>, at: nat)
    requires at + 4 <= |data|
    ensures U32At(data, at) == FromBytes(data[at..at + 4])
    ensures U32At(data, at) % 2 == data[at] % 2
    ensures data[at + 1] == data[at + 2] == data[at + 3] == 0 ==> U32At(data, at) == data[at]
  {
    hide FromBytes;
    assert data[at..at + 4] == [data[at], data[at + 1], data[at + 2], data[at + 3]];
    FromFour(data[at], data[at + 1], data[at + 2], data[at + 3]);
    LowBit(data[at], data[at + 1], data[at + 2], data[at + 3]);
  }

  lemma LowBit(a: Byte, b: Byte, c: Byte, d: Byte)
    ensures DecodeU32(a, b, c, d) % 2 == a % 2
  {
    var m := b * 128 + c * 0x8000 + d * 0x80_0000;
    assert DecodeU32(a, b, c, d) == a + 2 * m;
  }

  /** Where the sections of the three versions start, for k lists in b blocks of centroids, and n rows. */
  lemma SectionPositions(k: nat, n: nat)
    ensures var two, b := Shape(2, k, n), BlocksForRows(k);
            && two.CentroidsAt() == 40 && two.ListOffsetsAt() == 40 + 28 * k && two.BoxMinAt() == 44 + 32 * k
            && two.BoxMaxAt() == 44 + 60 * k && two.OrigIDsAt() == 44 + 88 * k && two.VectorsAt() == 44 + 88 * k + 4 * n
            && two.LabelsAt() == 44 + 88 * k + 32 * n && two.BlocksAt() == 44 + 88 * k + 33 * n
    ensures var three := Shape(3, k, n);
            && three.CentroidsAt() == 40 && three.ListOffsetsAt() == 40 + 28 * k
            && three.BlockOffsetsAt() == 44 + 32 * k && three.BoxMinAt() == 48 + 36 * k
            && three.BoxMaxAt() == 48 + 64 * k && three.OrigIDsAt() == 48 + 92 * k
            && three.LabelsAt() == 48 + 92 * k + 4 * n && three.BlocksAt() == 48 + 92 * k + 5 * n + n % 2
    ensures var four, b := Shape(4, k, n), (k + 7) / 8;
            && four.CentroidsAt() == 40 && four.CentroidBlocksAt() == 40 + 28 * k
            && four.ListOffsetsAt() == 40 + 28 * k + 224 * b && four.BlockOffsetsAt() == 44 + 32 * k + 224 * b
            && four.BoxMinAt() == 48 + 36 * k + 224 * b && four.BoxMaxAt() == 48 + 64 * k + 224 * b
            && four.OrigIDsAt() == 48 + 92 * k + 224 * b && four.LabelsAt() == 48 + 92 * k + 224 * b + 4 * n
            && four.BlocksAt() == 48 + 92 * k + 224 * b + 5 * n + n % 2
  {
    assert BlocksForRows(k) == (k + 7) / 8;
  }

  /** Every 32-bit section starts on a multiple of four, every 16-bit one on a multiple of two. */
  lemma SectionsAreAligned(sh: Shape)
    requires sh.version == 2 || sh.version == 3 || sh.version == 4
    ensures sh.ListOffsetsAt() % 4 == sh.BlockOffsetsAt() % 4 == sh.OrigIDsAt() % 4 == 0
    ensures sh.CentroidsAt() % 2 == sh.CentroidBlocksAt() % 2 == sh.BoxMinAt() % 2 == sh.BoxMaxAt() % 2 == 0
    ensures sh.VectorsAt() % 2 == 0 && (sh.version >= 3 ==> sh.BlocksAt() % 2 == 0)
  {
    hide BlocksForRows;
    var k, b, n := sh.clusters, BlocksForRows(sh.clusters), sh.count;
    var b' := if sh.version >= 4 then 56 * b else 0;
    var o := if sh.version >= 3 then k + 1 else 0;
    IsMultiple(sh.CentroidsAt(), 10);
    IsMultiple(sh.CentroidBlocksAt(), 10 + 7 * k);
    IsMultiple(sh.ListOffsetsAt(), 10 + 7 * k + b');
    IsMultiple(sh.BlockOffsetsAt(), 11 + 8 * k + b');
    IsMultiple(sh.BoxMinAt(), 11 + 8 * k + b' + o);
    IsMultiple(sh.BoxMaxAt(), 11 + 15 * k + b' + o);
    IsMultiple(sh.OrigIDsAt(), 11 + 22 * k + b' + o);
    IsMultiple(sh.VectorsAt(), 11 + 22 * k + b' + o + n);
    if sh.version >= 3 {
      PaddedIsEven(sh.VectorsAt(), n);
    }
  }

  lemma IsMultiple(x: nat, m: nat)
    requires x == 4 * m
    ensures x % 4 == 0 && x % 2 == 0
  {
    assert x / 4 == m;
    assert x == 2 * (2 * m);
    assert x / 2 == 2 * m;
  }

  lemma PaddedIsEven(x: nat, n: nat)
    requires x % 2 == 0
    ensures (x + n + n % 2) % 2 == 0
  {
  }

  // ---- writing ------------------------------------------------------------------------------

  /** The tables have the sizes a written file gives them. */
  ghost predicate Storable(t: IndexData) {
    && 0 < t.ivf.clusters <= MAX_UINT32 && |t.labels| <= MAX_UINT32
    && 0 <= t.ivf.nprobe <= MAX_UINT32 && 0 <= t.ivf.ambiguousNProbe <= MAX_UINT32
    && |t.ivf.centroids| == |t.ivf.bboxMin| == |t.ivf.bboxMax| == 14 * t.ivf.clusters
    && |t.ivf.centroidBlocks| == BlocksForRows(t.ivf.clusters) * 112
    && |t.ivf.listOffsets| == |t.ivf.blockOffsets| == t.ivf.clusters + 1
    && |t.ivf.origIDs| == |t.labels| && |t.blocks| == t.ivf.blockOffsets[t.ivf.clusters] as int * 112
    && (t.ivf.clusters <= 8192 ==>
          AcceptableOffsets(|t.labels|, t.ivf.clusters, t.ivf.listOffsets, Some(t.ivf.blockOffsets)))
  }

  // The file is written front to back; each function puts its part before what follows it.

  function HeaderThen(count: Uint32, rest: seq<Byte>): seq<Byte> {
    MAGIC + (EncodeU32(CURRENT_VERSION) + (EncodeU32(14) + (EncodeU32(10000) + (EncodeU32(count) + rest))))
  }

  function IvfHeaderThen(ivf: IvfMetadata, rest: seq<Byte>): seq<Byte> {
    EncodeU32(ivf.clusters % 0x1_0000_0000) + (EncodeU32(ivf.nprobe % 0x1_0000_0000)
    + (EncodeU32(ivf.ambiguousNProbe % 0x1_0000_0000) + (EncodeU32(if ivf.repair then 1 else 0) + rest)))
  }

  function ClustersThen(ivf: IvfMetadata, rest: seq<Byte>): seq<Byte> {
    EncodeI16s(ivf.centroids) + (EncodeI16s(ivf.centroidBlocks)
    + (EncodeU32s(ivf.listOffsets) + (EncodeU32s(ivf.blockOffsets) + rest)))
  }

  function Padding(count: nat): seq<Byte> {
    if count % 2 != 0 then [0] else []
  }

  function RowBytes(t: IndexData): seq<Byte> {
    EncodeI16s(t.ivf.bboxMin) + (EncodeI16s(t.ivf.bboxMax) + (EncodeU32s(t.ivf.origIDs)
    + (t.labels + (Padding(|t.labels|) + EncodeI16s(t.blocks)))))
  }

  function FileBytes(t: IndexData): seq<Byte>
    requires |t.labels| <= MAX_UINT32
  {
    HeaderThen(|t.labels|, IvfHeaderThen(t.ivf, ClustersThen(t.ivf, RowBytes(t))))
  }

  /** A section lies at a position of the file. */
  ghost predicate HasSection(data: seq<Byte>, at: nat, section: seq<Byte>) {
    at + |section| <= |data| && data[at..at + |section|] == section
  }

  /** The section that starts the remainder of a file, and the remainder after it. */
  lemma TakeSection(data: seq<Byte>, at: nat, section: seq<Byte>, rest: seq<Byte>)
    requires at <= |data| && data[at..] == section + rest
    ensures HasSection(data, at, section) && at + |section| <= |data| && data[at + |section|..] == rest
  {
    assert |data| == at + |section| + |rest|;
    assert data[at..at + |section|] == data[at..][..|section|];
    assert data[at + |section|..] == data[at..][|section|..];
  }

  lemma ReadU32(data: seq<Byte>, at: nat, x: Uint32)
    requires HasSection(data, at, EncodeU32(x))
    ensures at + 4 <= |data| && U32At(data, at) == x
  {
    var b := data[at..at + 4];
    assert b[0] == data[at] && b[1] == data[at + 1] && b[2] == data[at + 2] && b[3] == data[at + 3];
    U32RoundTrip(x);
  }

  lemma ReadBytes(data: seq<Byte>, at: nat, b: seq<Byte>)
    requires HasSection(data, at, b)
    ensures at + |b| <= |data| && Slice(data, at, |b|) == b
  {
  }

  lemma ReadI16s(data: seq<Byte>, at: nat, s: seq<Int16>)
    requires HasSection(data, at, EncodeI16s(s))
    ensures at + 2 * |s| <= |data| && DecodeI16s(Slice(data, at, 2 * |s|)) == s
  {
    hide EncodeI16s, DecodeI16s, HasSection, Slice;
    I16sRoundTrip(s);
    ReadBytes(data, at, EncodeI16s(s));
  }

  lemma ReadU32s(data: seq<Byte>, at: nat, s: seq<Uint32>)
    requires HasSection(data, at, EncodeU32s(s))
    ensures at + 4 * |s| <= |data| && DecodeU32s(Slice(data, at, 4 * |s|)) == s
  {
    hide EncodeU32s, DecodeU32s, HasSection, Slice;
    U32sRoundTrip(s);
    ReadBytes(data, at, EncodeU32s(s));
  }

  lemma HeaderSections(data: seq<Byte>, count: Uint32, rest: seq<Byte>)
    requires data == HeaderThen(count, rest)
    ensures |data| >= 24 && ValidHeader(data) && U32At(data, 8) == 4 && U32At(data, 20) == count && data[24..] == rest
  {
    hide HasSection, EncodeU32, DecodeU32;
    var r4 := EncodeU32(count) + rest;
    var r3 := EncodeU32(10000) + r4;
    var r2 := EncodeU32(14) + r3;
    var r1 := EncodeU32(CURRENT_VERSION) + r2;
    assert data[0..] == MAGIC + r1;
    assert data[..8] == MAGIC;
    TakeSection(data, 0, MAGIC, r1);
    TakeSection(data, 8, EncodeU32(CURRENT_VERSION), r2);
    TakeSection(data, 12, EncodeU32(14), r3);
    TakeSection(data, 16, EncodeU32(10000), r4);
    TakeSection(data, 20, EncodeU32(count), rest);
    ReadU32(data, 8, CURRENT_VERSION);
    ReadU32(data, 12, 14);
    ReadU32(data, 16, 10000);
    ReadU32(data, 20, count);
  }

  lemma IvfHeaderSections(data: seq<Byte>, ivf: IvfMetadata, rest: seq<Byte>)
    requires |data| >= 24 && data[24..] == IvfHeaderThen(ivf, rest)
    requires 0 <= ivf.clusters <= MAX_UINT32 && 0 <= ivf.nprobe <= MAX_UINT32 && 0 <= ivf.ambiguousNProbe <= MAX_UINT32
    ensures |data| >= 40 && data[40..] == rest
    ensures U32At(data, 24) == ivf.clusters && U32At(data, 28) == ivf.nprobe && U32At(data, 32) == ivf.ambiguousNProbe
    ensures U32At(data, 36) % 2 == 1 <==> ivf.repair
  {
    hide HasSection, EncodeU32, DecodeU32;
    var flags: Uint32 := if ivf.repair then 1 else 0;
    var r3 := EncodeU32(flags) + rest;
    var r2 := EncodeU32(ivf.ambiguousNProbe) + r3;
    var r1 := EncodeU32(ivf.nprobe) + r2;
    TakeSection(data, 24, EncodeU32(ivf.clusters), r1);
    TakeSection(data, 28, EncodeU32(ivf.nprobe), r2);
    TakeSection(data, 32, EncodeU32(ivf.ambiguousNProbe), r3);
    TakeSection(data, 36, EncodeU32(flags), rest);
    ReadU32(data, 24, ivf.clusters);
    ReadU32(data, 28, ivf.nprobe);
    ReadU32(data, 32, ivf.ambiguousNProbe);
    ReadU32(data, 36, flags);
  }

  lemma ClusterSections(data: seq<Byte>, ivf: IvfMetadata, b: nat, rest: seq<Byte>)
    requires |data| >= 40 && data[40..] == ClustersThen(ivf, rest)
    requires ivf.clusters >= 0 && |ivf.centroids| == 14 * ivf.clusters && |ivf.centroidBlocks| == b * 112
    requires |ivf.listOffsets| == |ivf.blockOffsets| == ivf.clusters + 1
    ensures var k := ivf.clusters;
      && HasSection(data, 40, EncodeI16s(ivf.centroids))
      && HasSection(data, 40 + 28 * k, EncodeI16s(ivf.centroidBlocks))
      && HasSection(data, 40 + 28 * k + b * 224, EncodeU32s(ivf.listOffsets))
      && HasSection(data, 40 + 28 * k + b * 224 + 4 * (k + 1), EncodeU32s(ivf.blockOffsets))
      && 40 + 28 * k + b * 224 + 8 * (k + 1) <= |data|
      && data[40 + 28 * k + b * 224 + 8 * (k + 1)..] == rest
  {
    hide HasSection, EncodeI16s, EncodeU32s;
    var k := ivf.clusters;
    var r3 := EncodeU32s(ivf.blockOffsets) + rest;
    var r2 := EncodeU32s(ivf.listOffsets) + r3;
    var r1 := EncodeI16s(ivf.centroidBlocks) + r2;
    TakeSection(data, 40, EncodeI16s(ivf.centroids), r1);
    TakeSection(data, 40 + 28 * k, EncodeI16s(ivf.centroidBlocks), r2);
    TakeSection(data, 40 + 28 * k + b * 224, EncodeU32s(ivf.listOffsets), r3);
    TakeSection(data, 40 + 28 * k + b * 224 + 4 * (k + 1), EncodeU32s(ivf.blockOffsets), rest);
  }

  lemma RowSections(data: seq<Byte>, at: nat, t: IndexData, k: nat, n: nat)
    requires at <= |data| && data[at..] == RowBytes(t)
    requires |t.ivf.bboxMin| == |t.ivf.bboxMax| == 14 * k && |t.ivf.origIDs| == |t.labels| == n
    ensures HasSection(data, at, EncodeI16s(t.ivf.bboxMin))
    ensures HasSection(data, at + 28 * k, EncodeI16s(t.ivf.bboxMax))
    ensures HasSection(data, at + 56 * k, EncodeU32s(t.ivf.origIDs))
    ensures HasSection(data, at + 56 * k + 4 * n, t.labels)
    ensures HasSection(data, at + 56 * k + 5 * n + n % 2, EncodeI16s(t.blocks))
    ensures |data| == at + 56 * k + 5 * n + n % 2 + 2 * |t.blocks|
  {
    hide HasSection, EncodeI16s, EncodeU32s, Padding;
    PaddingIs(n);
    var r5 := EncodeI16s(t.blocks);
    var r4 := Padding(n) + r5;
    var r3 := t.labels + r4;
    var r2 := EncodeU32s(t.ivf.origIDs) + r3;
    var r1 := EncodeI16s(t.ivf.bboxMax) + r2;
    TakeSection(data, at, EncodeI16s(t.ivf.bboxMin), r1);
    TakeSection(data, at + 28 * k, EncodeI16s(t.ivf.bboxMax), r2);
    TakeSection(data, at + 56 * k, EncodeU32s(t.ivf.origIDs), r3);
    TakeSection(data, at + 56 * k + 4 * n, t.labels, r4);
    TakeSection(data, at + 56 * k + 5 * n, Padding(n), r5);
    assert r5 == r5 + [];
    TakeSection(data, at + 56 * k + 5 * n + n % 2, r5, []);
  }

  lemma PaddingIs(n: nat)
    ensures |Padding(n)| == n % 2
  {
  }

  /** Positions of the sections of a version-4 file. */
  lemma CurrentPositions(sh: Shape, b: nat)
    requires sh.version == 4 && b == BlocksForRows(sh.clusters)
    ensures var k, n := sh.clusters, sh.count;
      && sh.CentroidBlocksAt() == 40 + 28 * k && sh.ListOffsetsAt() == 40 + 28 * k + b * 224
      && sh.BlockOffsetsAt() == 40 + 28 * k + b * 224 + 4 * (k + 1)
      && sh.BoxMinAt() == 40 + 28 * k + b * 224 + 8 * (k + 1)
      && sh.BoxMaxAt() == sh.BoxMinAt() + 28 * k && sh.OrigIDsAt() == sh.BoxMinAt() + 56 * k
      && sh.LabelsAt() == sh.BoxMinAt() + 56 * k + 4 * n
      && sh.BlocksAt() == sh.BoxMinAt() + 56 * k + 5 * n + n % 2
  {
    hide BlocksForRows;
  }

  /** Every section of a written file is where the readers look for it. */
  lemma WrittenSections(t: IndexData)
    requires Storable(t)
    ensures var data, sh := FileBytes(t), Shape(4, t.ivf.clusters, |t.labels|);
      && |data| >= 40 && ValidHeader(data) && ShapeOf(data) == sh
      && U32At(data, 28) == t.ivf.nprobe && U32At(data, 32) == t.ivf.ambiguousNProbe
      && (U32At(data, 36) % 2 == 1 <==> t.ivf.repair)
      && |data| == sh.BlocksAt() + 2 * |t.blocks|
      && HasSection(data, sh.CentroidsAt(), EncodeI16s(t.ivf.centroids))
      && HasSection(data, sh.CentroidBlocksAt(), EncodeI16s(t.ivf.centroidBlocks))
      && HasSection(data, sh.ListOffsetsAt(), EncodeU32s(t.ivf.listOffsets))
      && HasSection(data, sh.BlockOffsetsAt(), EncodeU32s(t.ivf.blockOffsets))
      && HasSection(data, sh.BoxMinAt(), EncodeI16s(t.ivf.bboxMin))
      && HasSection(data, sh.BoxMaxAt(), EncodeI16s(t.ivf.bboxMax))
      && HasSection(data, sh.OrigIDsAt(), EncodeU32s(t.ivf.origIDs))
      && HasSection(data, sh.LabelsAt(), t.labels)
      && HasSection(data, sh.BlocksAt(), EncodeI16s(t.blocks))
  {
    hide HasSection, EncodeI16s, EncodeU32s, BlocksForRows, HeaderThen, IvfHeaderThen, ClustersThen, RowBytes,
         ValidHeader, U32At;
    var data, sh, b := FileBytes(t), Shape(4, t.ivf.clusters, |t.labels|), BlocksForRows(t.ivf.clusters);
    HeaderSections(data, |t.labels|, IvfHeaderThen(t.ivf, ClustersThen(t.ivf, RowBytes(t))));
    IvfHeaderSections(data, t.ivf, ClustersThen(t.ivf, RowBytes(t)));
    ClusterSections(data, t.ivf, b, RowBytes(t));
    CurrentPositions(sh, b);
    RowSections(data, sh.BoxMinAt(), t, sh.clusters, sh.count);
  }

  /** A written file is accepted exactly when a search could use the index. */
  lemma WrittenIsReadableIff(t: IndexData)
    requires Storable(t)
    ensures Readable(FileBytes(t)) <==> t.ivf.clusters <= 8192
  {
    hide FileBytes, DecodeU32s, EncodeU32s, EncodeI16s, HasSection;
    WrittenSections(t);
    var data, sh := FileBytes(t), Shape(4, t.ivf.clusters, |t.labels|);
    ReadU32s(data, sh.ListOffsetsAt(), t.ivf.listOffsets);
    ReadU32s(data, sh.BlockOffsetsAt(), t.ivf.blockOffsets);
  }

  /** Round trip: the stored tables of a written file are the index, without the row-major vectors. */
  lemma WriteThenReadRestores(t: IndexData)
    requires Storable(t) && t.ivf.clusters <= 8192
    ensures Readable(FileBytes(t)) && StoredTables(FileBytes(t)) == t.(vectors := [])
  {
    hide FileBytes, DecodeU32s, EncodeU32s, DecodeI16s, EncodeI16s, Readable, HasSection, BlocksForRows,
         AcceptableOffsets, U32At, ValidHeader;
    WrittenIsReadableIff(t);
    WrittenSections(t);
    var data, sh := FileBytes(t), Shape(4, t.ivf.clusters, |t.labels|);
    ReadU32s(data, sh.ListOffsetsAt(), t.ivf.listOffsets);
    ReadU32s(data, sh.BlockOffsetsAt(), t.ivf.blockOffsets);
    ReadU32s(data, sh.OrigIDsAt(), t.ivf.origIDs);
    ReadI16s(data, sh.CentroidsAt(), t.ivf.centroids);
    ReadI16s(data, sh.CentroidBlocksAt(), t.ivf.centroidBlocks);
    ReadI16s(data, sh.BoxMinAt(), t.ivf.bboxMin);
    ReadI16s(data, sh.BoxMaxAt(), t.ivf.bboxMax);
    ReadBytes(data, sh.LabelsAt(), t.labels);
    ReadI16s(data, sh.BlocksAt(), t.blocks);
  }
}
