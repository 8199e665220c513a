/** Writing an index file, and the two readers: section by section from a stream, and by position. */
module IndexReaders {
  import opened Machine
  import opened SearchTheory
  import opened Layout
  import opened Transpose
  import opened QuantizedIndex
  import opened IndexFile

  /** Panicked is the index out of range raised while taking the address of a section. */
  datatype LoadResult = Accepted(idx: QuantizedIndex) | Rejected | Panicked

  /** Stored tables with the defaults the index object fills in. */
  ghost function FilledIn(t: IndexData): IndexData
    requires t.HasIvf()
  {
    t.(ivf := Normalize(t.ivf).(centroidBlocks :=
      if t.ivf.centroidBlocks == [] then TransposeTable(t.ivf.centroids, t.ivf.clusters) else t.ivf.centroidBlocks))
  }

  lemma StoredHasIvf(file: seq<Byte>)
    requires Readable(file)
    ensures StoredTables(file).HasIvf()
    ensures |StoredTables(file).ivf.centroids| <= MAX_INT64
  {
    hide DecodeI16s, DecodeU32s, AcceptableOffsets;
  }

  /** What both readers return for a readable file. */
  ghost function LoadedData(file: seq<Byte>): IndexData
    requires Readable(file)
  {
    StoredHasIvf(file);
    FilledIn(StoredTables(file))
  }

  // ---- the writer ---------------------------------------------------------------------------

  /** The tables a write stores: the centroid blocks are completed, and cut to their length. */
  ghost function Stored(t: IndexData): IndexData {
    var n := if t.ivf.clusters > 0 then BlocksForRows(t.ivf.clusters) * 112 else 0;
    if |t.ivf.centroidBlocks| > n then t.(ivf := t.ivf.(centroidBlocks := t.ivf.centroidBlocks[..n])) else t
  }

  /** Completes missing centroid blocks in the index, then appends the sections in file order. */
  method WriteIvfQuantizedIndex(idx: QuantizedIndex) returns (file: seq<Byte>)
    requires |idx.labels| <= MAX_UINT32
    modifies idx`ivf
    ensures idx.ivf == old(idx.ivf).(centroidBlocks := idx.ivf.centroidBlocks)
    ensures idx.ivf.centroidBlocks
            == if old(idx.ivf).clusters > 0 && |old(idx.ivf).centroids| >= old(idx.ivf).clusters * 14
                  && |old(idx.ivf).centroidBlocks| < BlocksForRows(old(idx.ivf).clusters) * 112
               then TransposeTable(old(idx.ivf).centroids, old(idx.ivf).clusters)
               else old(idx.ivf).centroidBlocks
    ensures file == FileBytes(Stored(idx.Data()))
  {
    hide EncodeI16s, EncodeU32s, EncodeU32, BlocksForRows;
    var centroidBlockLen := if idx.ivf.clusters > 0 then BlocksForRows(idx.ivf.clusters) * BLOCK_STRIDE else 0;
    if idx.ivf.clusters > 0 && |idx.ivf.centroids| >= idx.ivf.clusters * 14
       && |idx.ivf.centroidBlocks| < centroidBlockLen
    {
      var table := BuildCentroidBlocks(idx.ivf.centroids, idx.ivf.clusters);
      idx.ivf := idx.ivf.(centroidBlocks := table[..]);
    }
    var centroidBlocks := idx.ivf.centroidBlocks;
    if |centroidBlocks| > centroidBlockLen {
      centroidBlocks := centroidBlocks[..centroidBlockLen];
    }
    var ivf := idx.ivf;
    file := MAGIC + EncodeU32(CURRENT_VERSION) + EncodeU32(14) + EncodeU32(10000) + EncodeU32(|idx.labels|);
    file := file + EncodeU32(ivf.clusters % 0x1_0000_0000) + EncodeU32(ivf.nprobe % 0x1_0000_0000)
                 + EncodeU32(ivf.ambiguousNProbe % 0x1_0000_0000) + EncodeU32(if ivf.repair then 1 else 0);
    file := file + EncodeI16s(ivf.centroids);
    file := file + EncodeI16s(centroidBlocks);
    file := file + EncodeU32s(ivf.listOffsets);
    file := file + EncodeU32s(ivf.blockOffsets);
    file := file + EncodeI16s(ivf.bboxMin);
    file := file + EncodeI16s(ivf.bboxMax);
    file := file + EncodeU32s(ivf.origIDs);
    file := file + idx.labels;
    ghost var labelled := file;
    if |idx.labels| % 2 != 0 {
      file := file + [0];
    }
    assert file == labelled + Padding(|idx.labels|);
    file := file + EncodeI16s(idx.blocks);
    AppendOrder(Stored(idx.Data()), file);
  }

  /** Appending sections one by one is the same file as putting each before its rest. */
  lemma AppendOrder(t: IndexData, file: seq<Byte>)
    requires |t.labels| <= MAX_UINT32
    requires file == MAGIC + EncodeU32(CURRENT_VERSION) + EncodeU32(14) + EncodeU32(10000) + EncodeU32(|t.labels|)
                     + EncodeU32(t.ivf.clusters % 0x1_0000_0000) + EncodeU32(t.ivf.nprobe % 0x1_0000_0000)
                     + EncodeU32(t.ivf.ambiguousNProbe % 0x1_0000_0000) + EncodeU32(if t.ivf.repair then 1 else 0)
                     + EncodeI16s(t.ivf.centroids) + EncodeI16s(t.ivf.centroidBlocks) + EncodeU32s(t.ivf.listOffsets)
                     + EncodeU32s(t.ivf.blockOffsets) + EncodeI16s(t.ivf.bboxMin) + EncodeI16s(t.ivf.bboxMax)
                     + EncodeU32s(t.ivf.origIDs) + t.labels + Padding(|t.labels|) + EncodeI16s(t.blocks)
    ensures file == FileBytes(t)
  {
    hide EncodeI16s, EncodeU32s, EncodeU32, Padding, RowBytes, ClustersThen, IvfHeaderThen;
    var clusters := ClustersThen(t.ivf, RowBytes(t));
    var header := MAGIC + EncodeU32(CURRENT_VERSION) + EncodeU32(14) + EncodeU32(10000) + EncodeU32(|t.labels|);
    assert FileBytes(t) == header + IvfHeaderThen(t.ivf, clusters);
    var ivfHeader := FlatIvfHeader(header, t.ivf, clusters);
    var tables := FlatClusters(ivfHeader, t.ivf, RowBytes(t));
    FlatRows(tables, t);
  }

  lemma FlatIvfHeader(before: seq<Byte>, ivf: IvfMetadata, rest: seq<Byte>) returns (after: seq<Byte>)
    ensures after == before + EncodeU32(ivf.clusters % 0x1_0000_0000) + EncodeU32(ivf.nprobe % 0x1_0000_0000)
                     + EncodeU32(ivf.ambiguousNProbe % 0x1_0000_0000) + EncodeU32(if ivf.repair then 1 else 0)
    ensures before + IvfHeaderThen(ivf, rest) == after + rest
  {
    hide EncodeU32;
    after := before + EncodeU32(ivf.clusters % 0x1_0000_0000) + EncodeU32(ivf.nprobe % 0x1_0000_0000)
             + EncodeU32(ivf.ambiguousNProbe % 0x1_0000_0000) + EncodeU32(if ivf.repair then 1 else 0);
  }

  lemma FlatClusters(before: seq<Byte>, ivf: IvfMetadata, rest: seq<Byte>) returns (after: seq<Byte>)
    ensures after == before + EncodeI16s(ivf.centroids) + EncodeI16s(ivf.centroidBlocks)
                     + EncodeU32s(ivf.listOffsets) + EncodeU32s(ivf.blockOffsets)
    ensures before + ClustersThen(ivf, rest) == after + rest
  {
    hide EncodeI16s, EncodeU32s;
    after := before + EncodeI16s(ivf.centroids) + EncodeI16s(ivf.centroidBlocks)
             + EncodeU32s(ivf.listOffsets) + EncodeU32s(ivf.blockOffsets);
  }

  lemma FlatRows(before: seq<Byte>, t: IndexData)
    ensures before + RowBytes(t)
            == before + EncodeI16s(t.ivf.bboxMin) + EncodeI16s(t.ivf.bboxMax) + EncodeU32s(t.ivf.origIDs)
               + t.labels + Padding(|t.labels|) + EncodeI16s(t.blocks)
  {
    hide EncodeI16s, EncodeU32s, Padding;
  }

  /** Loading a written index restores every table and setting except the row-major vectors. */
  lemma WriteThenLoadRestores(t: IndexData)
    requires Storable(t) && Normalized(t.ivf) && t.ivf.clusters <= 8192
    ensures Readable(FileBytes(Stored(t))) && LoadedData(FileBytes(Stored(t))) == t.(vectors := [])
  {
    hide FileBytes, Readable, StoredTables, BlocksForRows;
    assert Stored(t) == t;
    WriteThenReadRestores(t);
    NormalizeFixes(t.ivf);
    BlocksPositive(t.ivf.clusters);
  }

  lemma BlocksPositive(n: nat)
    ensures n > 0 ==> BlocksForRows(n) > 0
  {
  }

  // ---- the stream reader --------------------------------------------------------------------

  class FileCursor {
    const data: seq<Byte>
    var pos: nat

    constructor (data: seq<Byte>)
      ensures this.data == data && pos == 0
    {
      this.data, pos := data, 0;
    }

    /** Reads exactly n bytes or fails. */
    method ReadFull(n: nat) returns (r: Option<seq<Byte>>)
      requires pos <= |data|
      modifies this
      ensures pos <= |data|
      ensures old(pos) + n <= |data| ==> r == Some(Slice(data, old(pos), n)) && pos == old(pos) + n
      ensures old(pos) + n > |data| ==> r.None?
    {
      if pos + n <= |data| {
        r := Some(data[pos..pos + n]);
        pos := pos + n;
      } else {
        r := None;
        pos := |data|;
      }
    }
  }

  /** Header checks shared by both readers: magic, dimensions, scale and a known version. */
  method ReadBinaryHeader(f: FileCursor) returns (r: Option<(Uint32, Uint32)>)
    requires f.pos == 0
    modifies f
    ensures f.pos <= |f.data|
    ensures r.Some? <==> ValidHeader(f.data)
    ensures r.Some? ==> f.pos == 24 && r.value == (U32At(f.data, 8), U32At(f.data, 20))
  {
    var h := f.ReadFull(HEADER_SIZE);
    if h.None? {
      return None;
    }
    if h.value[..8] != MAGIC || U32At(h.value, 12) != 14 || U32At(h.value, 16) != 10000 {
      return None;
    }
    var version := U32At(h.value, 8);
    if version != 2 && version != 3 && version != 4 {
      return None;
    }
    r := Some((version, U32At(h.value, 20)));
  }

  method LoadBinaryIndexHeap(file: seq<Byte>) returns (r: LoadResult)
    ensures r.Accepted? <==> Readable(file)
    ensures !r.Panicked?
    ensures r.Accepted? ==> fresh(r.idx) && r.idx.Data() == LoadedData(file)
  {
    var f := new FileCursor(file);
    var header := ReadBinaryHeader(f);
    if header.None? {
      return Rejected;
    }
    r := LoadIvfBinaryIndexHeap(f, header.value.0, header.value.1);
  }

  datatype ClusterTables = ClusterTables(
    centroids: seq<Int16>, centroidBlocks: seq<Int16>, lists: seq<Uint32>, blocks: Option<seq<Uint32>>)

  datatype RowTables = RowTables(
    low: seq<Int16>, high: seq<Int16>, ids: seq<Uint32>, vectors: seq<Int16>, labels: seq<Byte>, blocks: seq<Int16>)

  /** The cluster sections of a file long enough to hold them. */
  ghost predicate HoldsClusterTables(file: seq<Byte>, sh: Shape, t: ClusterTables) {
    && sh.BoxMinAt() <= |file|
    && t.centroids == DecodeI16s(Slice(file, sh.CentroidsAt(), 28 * sh.clusters))
    && t.centroidBlocks == (if sh.version >= 4
                            then DecodeI16s(Slice(file, sh.CentroidBlocksAt(), BlocksForRows(sh.clusters) * 224))
                            else [])
    && t.lists == ListOffsetsOf(file, sh)
    && t.blocks == BlockOffsetsOf(file, sh)
  }

  ghost predicate HoldsRowTables(file: seq<Byte>, sh: Shape, blockBytes: nat, t: RowTables) {
    && sh.BlocksAt() + (if sh.version >= 3 then blockBytes else 0) <= |file|
    && t.low == DecodeI16s(Slice(file, sh.BoxMinAt(), 28 * sh.clusters))
    && t.high == DecodeI16s(Slice(file, sh.BoxMaxAt(), 28 * sh.clusters))
    && t.ids == DecodeU32s(Slice(file, sh.OrigIDsAt(), 4 * sh.count))
    && t.vectors == (if sh.version == 2 then DecodeI16s(Slice(file, sh.VectorsAt(), 28 * sh.count)) else [])
    && t.labels == Slice(file, sh.LabelsAt(), sh.count)
    && t.blocks == (if sh.version >= 3 then DecodeI16s(Slice(file, sh.BlocksAt(), blockBytes)) else [])
  }

  /** Reads the sections up to the block offsets. */
  method ReadClusterTables(f: FileCursor, sh: Shape) returns (r: Option<ClusterTables>)
    requires f.pos == sh.CentroidsAt() <= |f.data|
    modifies f
    ensures f.pos <= |f.data|
    ensures r.Some? <==> sh.BoxMinAt() <= |f.data|
    ensures r.Some? ==> f.pos == sh.BoxMinAt() && HoldsClusterTables(f.data, sh, r.value)
  {
    hide BlocksForRows, DecodeI16s, DecodeU32s;
    var centroids := f.ReadFull(28 * sh.clusters);
    if centroids.None? {
      return None;
    }
    var centroidBlocks: Option<seq<Byte>> := Some([]);
    if sh.version >= 4 {
      centroidBlocks := f.ReadFull(BlocksForRows(sh.clusters) * 224);
      if centroidBlocks.None? {
        return None;
      }
    }
    var lists := f.ReadFull(4 * (sh.clusters + 1));
    if lists.None? {
      return None;
    }
    var blocks: Option<seq<Uint32>> := None;
    if sh.version >= 3 {
      var bytes := f.ReadFull(4 * (sh.clusters + 1));
      if bytes.None? {
        return None;
      }
      blocks := Some(DecodeU32s(bytes.value));
    }
    r := Some(ClusterTables(DecodeI16s(centroids.value),
                            if sh.version >= 4 then DecodeI16s(centroidBlocks.value) else [],
                            DecodeU32s(lists.value), blocks));
  }

  /** Reads the boxes, ids and rows. */
  method ReadRowTables(f: FileCursor, sh: Shape, blockBytes: nat) returns (r: Option<RowTables>)
    requires f.pos == sh.BoxMinAt() <= |f.data| && 2 <= sh.version
    modifies f
    ensures f.pos <= |f.data|
    ensures r.Some? <==> sh.BlocksAt() + (if sh.version >= 3 then blockBytes else 0) <= |f.data|
    ensures r.Some? ==> HoldsRowTables(f.data, sh, blockBytes, r.value)
  {
    hide BlocksForRows, DecodeI16s, DecodeU32s;
    var low := f.ReadFull(28 * sh.clusters);
    if low.None? {
      return None;
    }
    var high := f.ReadFull(28 * sh.clusters);
    if high.None? {
      return None;
    }
    var ids := f.ReadFull(4 * sh.count);
    if ids.None? {
      return None;
    }
    if sh.version >= 3 {
      var rows := ReadBlockedRows(f, sh, blockBytes);
      return if rows.None? then None
             else Some(RowTables(DecodeI16s(low.value), DecodeI16s(high.value), DecodeU32s(ids.value), [],
                                 rows.value.0, rows.value.1));
    }
    var rows := ReadPlainRows(f, sh);
    r := if rows.None? then None
         else Some(RowTables(DecodeI16s(low.value), DecodeI16s(high.value), DecodeU32s(ids.value),
                             rows.value.0, rows.value.1, []));
  }

  /** Row-major vectors and labels of a version without blocks. */
  method ReadPlainRows(f: FileCursor, sh: Shape) returns (r: Option<(seq<Int16>, seq<Byte>)>)
    requires f.pos == sh.VectorsAt() <= |f.data| && 2 == sh.version
    modifies f
    ensures f.pos <= |f.data|
    ensures r.Some? <==> sh.BlocksAt() <= |f.data|
    ensures r.Some? ==> r.value == (DecodeI16s(Slice(f.data, sh.VectorsAt(), 28 * sh.count)),
                                    Slice(f.data, sh.LabelsAt(), sh.count))
  {
    hide BlocksForRows, DecodeI16s;
    var vectors := f.ReadFull(28 * sh.count);
    if vectors.None? {
      return None;
    }
    var labels := f.ReadFull(sh.count);
    r := if labels.None? then None else Some((DecodeI16s(vectors.value), labels.value));
  }

  /** Labels, padding byte and blocks of a version with blocks. */
  method ReadBlockedRows(f: FileCursor, sh: Shape, blockBytes: nat) returns (r: Option<(seq<Byte>, seq<Int16>)>)
    requires f.pos == sh.LabelsAt() <= |f.data| && 3 <= sh.version
    modifies f
    ensures f.pos <= |f.data|
    ensures r.Some? <==> sh.BlocksAt() + blockBytes <= |f.data|
    ensures r.Some? ==> r.value == (Slice(f.data, sh.LabelsAt(), sh.count),
                                    DecodeI16s(Slice(f.data, sh.BlocksAt(), blockBytes)))
  {
    hide BlocksForRows, DecodeI16s;
    var labels := f.ReadFull(sh.count);
    if labels.None? {
      return None;
    }
    if sh.count % 2 != 0 {
      var pad := f.ReadFull(1);
      if pad.None? {
        return None;
      }
    }
    var blocks := f.ReadFull(blockBytes);
    if blocks.None? {
      return None;
    }
    r := Some((labels.value, DecodeI16s(blocks.value)));
  }

  method LoadIvfBinaryIndexHeap(f: FileCursor, version: Uint32, count: Uint32) returns (r: LoadResult)
    requires f.pos == 24 && ValidHeader(f.data) && version == U32At(f.data, 8) && count == U32At(f.data, 20)
    modifies f
    ensures r.Accepted? <==> Readable(f.data)
    ensures !r.Panicked?
    ensures r.Accepted? ==> fresh(r.idx) && r.idx.Data() == LoadedData(f.data)
  {
    hide DecodeI16s, DecodeU32s, BlocksForRows, AcceptableOffsets, HoldsClusterTables, HoldsRowTables, LoadedData,
         FilledIn;
    var ih := f.ReadFull(IVF_HEADER_SIZE);
    if ih.None? {
      return Rejected;
    }
    var sh := Shape(version, U32At(ih.value, 0), count);
    assert sh == ShapeOf(f.data);
    if sh.clusters <= 0 {
      return Rejected;
    }
    var c := ReadClusterTables(f, sh);
    if c.None? {
      return Rejected;
    }
    ClusterTablesOffsets(f.data, sh, c.value);
    var ok := ValidateIvfOffsets(sh.count, sh.clusters, c.value.lists, c.value.blocks);
    if !ok {
      return Rejected;
    }
    var t := ReadRowTables(f, sh, BlockBytes(c.value.blocks));
    if t.None? {
      return Rejected;
    }
    Assemble(f.data, sh, c.value, t.value);
    var idx := MakeIndex(sh, c.value, t.value, U32At(ih.value, 4), U32At(ih.value, 8), U32At(ih.value, 12) % 2 == 1);
    r := Accepted(idx);
  }

  lemma ClusterTablesOffsets(file: seq<Byte>, sh: Shape, c: ClusterTables)
    requires HoldsClusterTables(file, sh, c)
    ensures sh.BoxMinAt() <= |file| && c.lists == ListOffsetsOf(file, sh) && c.blocks == BlockOffsetsOf(file, sh)
  {
  }

  /** The tables as both readers put them together. */
  function Assembled(
      sh: Shape, c: ClusterTables, t: RowTables, nprobe: int, ambiguousNProbe: int, repair: bool): IndexData
  {
    IndexData(t.vectors, t.blocks, t.labels,
              IvfMetadata(sh.clusters, c.centroids, c.centroidBlocks, c.lists,
                          if c.blocks.Some? then c.blocks.value else [],
                          t.low, t.high, t.ids, nprobe, ambiguousNProbe, repair))
  }

  lemma Assemble(file: seq<Byte>, sh: Shape, c: ClusterTables, t: RowTables)
    requires ValidHeader(file) && |file| >= 40 && sh == ShapeOf(file) && sh.clusters > 0
    requires HoldsClusterTables(file, sh, c) && HoldsRowTables(file, sh, BlockBytes(c.blocks), t)
    requires AcceptableOffsets(sh.count, sh.clusters, c.lists, c.blocks)
    ensures Readable(file)
    ensures var data := Assembled(sh, c, t, U32At(file, 28), U32At(file, 32), U32At(file, 36) % 2 == 1);
            data.HasIvf() && |c.centroids| <= MAX_INT64 && FilledIn(data) == LoadedData(file)
  {
    hide DecodeI16s, DecodeU32s, BlocksForRows, AcceptableOffsets;
    assert sh.version < 3 ==> BlockBytes(c.blocks) == 0;
    StoredHasIvf(file);
  }

  /** The index object over assembled tables. */
  method MakeIndex(sh: Shape, c: ClusterTables, t: RowTables, nprobe: Uint32, ambiguousNProbe: Uint32, repair: bool)
    returns (idx: QuantizedIndex)
    requires Assembled(sh, c, t, nprobe, ambiguousNProbe, repair).HasIvf() && |c.centroids| <= MAX_INT64
    ensures fresh(idx) && idx.Data() == FilledIn(Assembled(sh, c, t, nprobe, ambiguousNProbe, repair))
  {
    var data := Assembled(sh, c, t, nprobe, ambiguousNProbe, repair);
    idx := new QuantizedIndex.NewIvfQuantizedIndex(data.vectors, data.labels, data.ivf);
    idx.blocks := data.blocks;
  }

  // ---- the positional reader ----------------------------------------------------------------

  /** The n bytes of a section whose first byte is addressed; None when there is no byte to address. */
  method AddressSection(file: seq<Byte>, at: nat, n: nat) returns (r: Option<seq<Byte>>)
    requires at + n <= |file|
    ensures r == if at < |file| then Some(Slice(file, at, n)) else None
  {
    r := if at < |file| then Some(file[at..at + n]) else None;
  }

  /**
   Accepts and rejects the same files as the stream reader, with equal results, except that it panics
   on a readable file without rows that ends right after the fixed sections.
   */
  method LoadBinaryIndexMmap(file: seq<Byte>) returns (r: LoadResult)
    ensures r.Rejected? <==> !Readable(file)
    ensures r.Panicked? <==> Readable(file) && ShapeOf(file).count == 0 && |file| == ShapeOf(file).BlocksAt()
    ensures r.Accepted? ==> fresh(r.idx) && r.idx.Data() == LoadedData(file)
  {
    var f := new FileCursor(file);
    var header := ReadBinaryHeader(f);
    if header.None? {
      return Rejected;
    }
    r := LoadIvfBinaryIndexMmap(file, header.value.0, header.value.1);
  }

  method LoadIvfBinaryIndexMmap(file: seq<Byte>, version: Uint32, count: Uint32) returns (r: LoadResult)
    requires ValidHeader(file) && version == U32At(file, 8) && count == U32At(file, 20)
    ensures r.Rejected? <==> !Readable(file)
    ensures r.Panicked? <==> Readable(file) && ShapeOf(file).count == 0 && |file| == ShapeOf(file).BlocksAt()
    ensures r.Accepted? ==> fresh(r.idx) && r.idx.Data() == LoadedData(file)
  {
    hide DecodeI16s, DecodeU32s, BlocksForRows, AcceptableOffsets, HoldsClusterTables, HoldsRowTables;
    if |file| < HEADER_SIZE + IVF_HEADER_SIZE {
      return Rejected;
    }
    var sh := Shape(version, U32At(file, 24), count);
    assert sh == ShapeOf(file);
    if sh.clusters <= 0 {
      return Rejected;
    }
    if |file| < sh.BlocksAt() {
      return Rejected;
    }
    var c := AddressClusterTables(file, sh);
    ClusterTablesOffsets(file, sh, c);
    var ok := ValidateIvfOffsets(sh.count, sh.clusters, c.lists, c.blocks);
    if !ok {
      return Rejected;
    }
    NoRowsNoBlocks(sh, c);
    r := AddressRowTables(file, sh, c);
  }

  /** The cluster sections are never empty, so their first bytes exist. */
  method AddressClusterTables(file: seq<Byte>, sh: Shape) returns (c: ClusterTables)
    requires sh.clusters > 0 && sh.BlocksAt() <= |file|
    ensures HoldsClusterTables(file, sh, c)
  {
    hide DecodeI16s, DecodeU32s;
    assert BlocksForRows(sh.clusters) > 0;
    var centroids := AddressSection(file, sh.CentroidsAt(), 28 * sh.clusters);
    var centroidBlocks: Option<seq<Byte>> := Some([]);
    if sh.version >= 4 {
      centroidBlocks := AddressSection(file, sh.CentroidBlocksAt(), BlocksForRows(sh.clusters) * 224);
    }
    var lists := AddressSection(file, sh.ListOffsetsAt(), 4 * (sh.clusters + 1));
    var blocks: Option<seq<Uint32>> := None;
    if sh.version >= 3 {
      var bytes := AddressSection(file, sh.BlockOffsetsAt(), 4 * (sh.clusters + 1));
      blocks := Some(DecodeU32s(bytes.value));
    }
    c := ClusterTables(DecodeI16s(centroids.value), if sh.version >= 4 then DecodeI16s(centroidBlocks.value) else [],
                       DecodeU32s(lists.value), blocks);
  }

  /** Offsets over no rows span no blocks; offsets over some rows span at least one. */
  lemma NoRowsNoBlocks(sh: Shape, c: ClusterTables)
    requires sh.clusters > 0 && AcceptableOffsets(sh.count, sh.clusters, c.lists, c.blocks)
    ensures c.blocks.Some? ==> (BlockBytes(c.blocks) == 0 <==> sh.count == 0)
  {
    if c.blocks.Some? {
      BlocksOfRows(c.lists, c.blocks.value, sh.clusters);
    }
  }

  lemma {:induction false} BlocksOfRows(lists: seq<int>, blocks: seq<int>, c: nat)
    requires |lists| == |blocks| && c < |lists| && Monotone(lists) && Monotone(blocks) && BlockSpans(lists, blocks)
    requires lists[0] == 0 && blocks[0] == 0
    ensures blocks[c] == 0 <==> lists[c] == 0
  {
    if c > 0 {
      BlocksOfRows(lists, blocks, c - 1);
      assert blocks[c] - blocks[c - 1] == BlocksForRows(lists[c] - lists[c - 1]);
      assert lists[c - 1] <= lists[c] && lists[0] <= lists[c - 1];
    }
  }

  /** The remaining sections; the ids, the vectors and the blocks are empty without rows. */
  method AddressRowTables(file: seq<Byte>, sh: Shape, c: ClusterTables) returns (r: LoadResult)
    requires ValidHeader(file) && |file| >= 40 && sh == ShapeOf(file) && sh.clusters > 0 && sh.BlocksAt() <= |file|
    requires HoldsClusterTables(file, sh, c) && AcceptableOffsets(sh.count, sh.clusters, c.lists, c.blocks)
    requires c.blocks.Some? <==> sh.version >= 3
    requires c.blocks.Some? ==> (BlockBytes(c.blocks) == 0 <==> sh.count == 0)
    ensures r.Rejected? <==> !Readable(file)
    ensures r.Panicked? <==> Readable(file) && sh.count == 0 && |file| == sh.BlocksAt()
    ensures r.Accepted? ==> fresh(r.idx) && r.idx.Data() == LoadedData(file)
  {
    hide DecodeI16s, DecodeU32s, BlocksForRows, AcceptableOffsets, LoadedData, FilledIn;
    var low := AddressSection(file, sh.BoxMinAt(), 28 * sh.clusters);
    var high := AddressSection(file, sh.BoxMaxAt(), 28 * sh.clusters);
    var ids := AddressSection(file, sh.OrigIDsAt(), 4 * sh.count);
    if ids.None? {
      return Panicked;
    }
    var vectors: Option<seq<Byte>> := Some([]);
    if sh.version == 2 {
      vectors := AddressSection(file, sh.VectorsAt(), 28 * sh.count);
    }
    var labels := Slice(file, sh.LabelsAt(), sh.count);
    var blocks: Option<seq<Byte>> := Some([]);
    if sh.version >= 3 {
      if |file| < sh.BlocksAt() + BlockBytes(c.blocks) {
        return Rejected;
      }
      blocks := AddressSection(file, sh.BlocksAt(), BlockBytes(c.blocks));
    }
    var t := RowTables(DecodeI16s(low.value), DecodeI16s(high.value), DecodeU32s(ids.value),
                       if sh.version == 2 then DecodeI16s(vectors.value) else [], labels,
                       if sh.version >= 3 then DecodeI16s(blocks.value) else []);
    assert HoldsRowTables(file, sh, BlockBytes(c.blocks), t);
    Assemble(file, sh, c, t);
    var idx := MakeIndex(sh, c, t, U32At(file, 28), U32At(file, 32), U32At(file, 36) % 2 == 1);
    r := Accepted(idx);
  }
}
