/**
 * The OpenCTM container as CTM.File loads it: the file header, the body
 * buffer carved into typed-array views from the header's counts, the choice
 * of reader from the compression tag, and the order in which each reader
 * consumes the chunks of the file.
 */
module CtmFormat {
  import opened JsInt
  import opened CtmStream
  import opened Wrappers

  /** "OCTM", read as a little-endian 32-bit word. */
  const FILE_MAGIC: int := 0x4d54_434f

  /** The compression tags "RAW\0", "MG1\0" and "MG2\0". */
  const RAW_TAG: int := 0x0057_4152
  const MG1_TAG: int := 0x0031_474d
  const MG2_TAG: int := 0x0032_474d

  datatype Method = RAW | MG1 | MG2

  datatype Error = RangeError | UnknownMethod

  datatype Result<T> = Ok(value: T) | Err(error: Error)

  datatype FileHeader = FileHeader(
    fileFormat: int,
    compressionMethod: int,
    vertexCount: int,
    triangleCount: int,
    uvMapCount: int,
    attrMapCount: int,
    flags: int,
    comment: string)

  /** `flags & CTM.Flags.NORMALS`: the lowest bit of the flags word. */
  predicate HasNormals(h: FileHeader)
  {
    h.flags % 2 == 1
  }

  // ----- header -----

  /** The header CTM.FileHeader reads at `off`, and the offset after it. */
  function ParseHeader(data: seq<byte>, off: int): (FileHeader, int)
  {
    var (comment, next) := StringAt(data, off + 32);
    (FileHeader(Int32At(data, off + 4), Int32At(data, off + 8), Int32At(data, off + 12),
       Int32At(data, off + 16), Int32At(data, off + 20), Int32At(data, off + 24),
       Int32At(data, off + 28), comment),
     next)
  }

  /** CTM.FileHeader: the magic word (not checked), seven integers and the comment. */
  method ReadFileHeader(stream: Stream) returns (h: FileHeader)
    modifies stream
    ensures (h, stream.offset) == ParseHeader(stream.data, old(stream.offset))
  {
    var _ := stream.ReadInt32();
    var fileFormat := stream.ReadInt32();
    var compressionMethod := stream.ReadInt32();
    var vertexCount := stream.ReadInt32();
    var triangleCount := stream.ReadInt32();
    var uvMapCount := stream.ReadInt32();
    var attrMapCount := stream.ReadInt32();
    var flags := stream.ReadInt32();
    var comment := stream.ReadString();
    h := FileHeader(fileFormat, compressionMethod, vertexCount, triangleCount, uvMapCount,
      attrMapCount, flags, comment);
  }

  /** A header a writer can emit: 32-bit fields and a comment of byte-sized characters. */
  predicate WellFormedHeader(h: FileHeader)
  {
    IsInt32(h.fileFormat) && IsInt32(h.compressionMethod) && IsInt32(h.vertexCount)
    && IsInt32(h.triangleCount) && IsInt32(h.uvMapCount) && IsInt32(h.attrMapCount)
    && IsInt32(h.flags) && |h.comment| < TWO31
    && forall i :: 0 <= i < |h.comment| ==> h.comment[i] as int < 256
  }

  function HeaderWords(h: FileHeader): (r: seq<int>)
    ensures |r| == 8
  {
    [FILE_MAGIC, h.fileFormat, h.compressionMethod, h.vertexCount, h.triangleCount,
     h.uvMapCount, h.attrMapCount, h.flags]
  }

  /** Consecutive 32-bit integers, four little-endian bytes each. */
  function EncodeInts(vs: seq<int>): (r: seq<byte>)
    ensures |r| == 4 * |vs|
  {
    if vs == [] then [] else EncodeInt32(vs[0]) + EncodeInts(vs[1..])
  }

  /** The header as an OpenCTM writer lays it out. */
  function EncodeHeader(h: FileHeader): seq<byte>
    requires WellFormedHeader(h)
  {
    EncodeInts(HeaderWords(h)) + EncodeString(h.comment)
  }

  /** Each integer of an encoded list reads back at its own offset. */
  lemma {:induction false} IntsReadBack(prefix: seq<byte>, vs: seq<int>, suffix: seq<byte>, k: nat)
    requires k < |vs| && IsInt32(vs[k])
    ensures Int32At(prefix + EncodeInts(vs) + suffix, |prefix| + 4 * k) == vs[k]
    decreases k
  {
    var rest := EncodeInts(vs[1..]) + suffix;
    assert prefix + EncodeInts(vs) + suffix == prefix + EncodeInt32(vs[0]) + rest;
    if k == 0 {
      Int32RoundTrip(prefix, vs[0], rest);
    } else {
      IntsReadBack(prefix + EncodeInt32(vs[0]), vs[1..], suffix, k - 1);
      assert prefix + EncodeInt32(vs[0]) + EncodeInts(vs[1..]) + suffix == prefix + EncodeInt32(vs[0]) + rest;
    }
  }

  /** The seven integers after the magic word read back from an encoded header. */
  lemma HeaderWordsReadBack(data: seq<byte>, o: nat, h: FileHeader)
    requires WellFormedHeader(h)
    requires o + 32 <= |data| && data[o..o + 32] == EncodeInts(HeaderWords(h))
    ensures && Int32At(data, o + 4) == h.fileFormat && Int32At(data, o + 8) == h.compressionMethod
      && Int32At(data, o + 12) == h.vertexCount && Int32At(data, o + 16) == h.triangleCount
      && Int32At(data, o + 20) == h.uvMapCount && Int32At(data, o + 24) == h.attrMapCount
      && Int32At(data, o + 28) == h.flags
  {
    var words := HeaderWords(h);
    var prefix, rest := data[..o], data[o + 32..];
    assert data == prefix + EncodeInts(words) + rest;
    forall k | 1 <= k < 8 ensures Int32At(data, o + 4 * k) == words[k] {
      IntsReadBack(prefix, words, rest, k);
    }
    assert Int32At(data, o + 4 * 1) == words[1];
    assert Int32At(data, o + 4 * 2) == words[2];
    assert Int32At(data, o + 4 * 3) == words[3];
    assert Int32At(data, o + 4 * 4) == words[4];
    assert Int32At(data, o + 4 * 5) == words[5];
    assert Int32At(data, o + 4 * 6) == words[6];
    assert Int32At(data, o + 4 * 7) == words[7];
  }

  /** The comment of an encoded header reads back with its length prefix. */
  lemma CommentReadBack(data: seq<byte>, o: nat, c: string)
    requires |c| < TWO31 && forall i :: 0 <= i < |c| ==> c[i] as int < 256
    requires o + 4 + |c| <= |data| && data[o..o + 4 + |c|] == EncodeString(c)
    ensures StringAt(data, o) == (c, o + 4 + |c|)
  {
    var prefix, suffix := data[..o], data[o + 4 + |c|..];
    assert data == prefix + EncodeString(c) + suffix;
    StringRoundTrip(prefix, c, suffix);
  }

  /** The middle of a concatenation. */
  lemma Middle(a: seq<byte>, b: seq<byte>, c: seq<byte>)
    ensures (a + b + c)[|a|..|a| + |b|] == b
  {
  }

  /** CTM.FileHeader reads back every field of a header a writer emitted, and stops right after it. */
  lemma HeaderRoundTrip(prefix: seq<byte>, h: FileHeader, suffix: seq<byte>)
    requires WellFormedHeader(h)
    ensures ParseHeader(prefix + EncodeHeader(h) + suffix, |prefix|) == (h, |prefix| + 36 + |h.comment|)
  {
    var data := prefix + EncodeHeader(h) + suffix;
    var o := |prefix|;
    var ints, str := EncodeInts(HeaderWords(h)), EncodeString(h.comment);
    assert data == prefix + ints + (str + suffix);
    Middle(prefix, ints, str + suffix);
    HeaderWordsReadBack(data, o, h);
    assert data == (prefix + ints) + str + suffix;
    Middle(prefix + ints, str, suffix);
    CommentReadBack(data, o + 32, h.comment);
  }

  // ----- body layout -----

  /** A typed-array view: its first element and its length, both counted in 4-byte elements. */
  datatype View = View(start: int, length: int)

  datatype Layout = Layout(
    words: int,
    indices: View,
    vertices: View,
    normals: Option<View>,
    uvMaps: seq<View>,
    attrMaps: seq<View>)

  /** A view the ArrayBuffer of `words` 4-byte elements accepts; any other throws a RangeError. */
  predicate Fits(v: View, words: int)
  {
    0 <= v.start && 0 <= v.length && v.start + v.length <= words
  }

  /** The element counts CTM.FileBody computes from the header. */
  function IndexWords(h: FileHeader): int { h.triangleCount * 3 }
  function VertexWords(h: FileHeader): int { h.vertexCount * 3 }
  function NormalWords(h: FileHeader): int { if HasNormals(h) then h.vertexCount * 3 else 0 }
  function UVWords(h: FileHeader): int { h.vertexCount * 2 }
  function AttrWords(h: FileHeader): int { h.vertexCount * 4 }

  /** Where the uv maps start, and where the attribute maps start. */
  function UVBase(h: FileHeader): int { IndexWords(h) + VertexWords(h) + NormalWords(h) }
  function AttrBase(h: FileHeader): int { UVBase(h) + UVWords(h) * h.uvMapCount }

  /** A loop `for (j = 0; j < count; ++j)` runs max(count, 0) times. */
  function Iterations(count: int): nat
  {
    if count < 0 then 0 else count
  }

  /**
   * CTM.FileBody: one ArrayBuffer for every array of the mesh, and a view per
   * array at the offset the header's counts give.  The uv and attribute map
   * arrays exist only when their count is non-zero.  A negative buffer size or
   * a view outside the buffer throws a RangeError.
   */
  function FileBody(h: FileHeader): Result<Layout>
  {
    var i, v, n, u, a := IndexWords(h), VertexWords(h), NormalWords(h), UVWords(h), AttrWords(h);
    var words := i + v + n + u * h.uvMapCount + a * h.attrMapCount;
    var layout := Layout(words, View(0, i), View(i, v),
      if HasNormals(h) then Some(View(i + v, n)) else None,
      if h.uvMapCount != 0 then seq(Iterations(h.uvMapCount), j => View(UVBase(h) + j * u, u)) else [],
      if h.attrMapCount != 0 then seq(Iterations(h.attrMapCount), j => View(AttrBase(h) + j * a, a)) else []);
    if words < 0 || !AllFit(layout) then Err(RangeError) else Ok(layout)
  }

  predicate AllFit(l: Layout)
  {
    Fits(l.indices, l.words) && Fits(l.vertices, l.words)
    && (l.normals.Some? ==> Fits(l.normals.value, l.words))
    && (forall j :: 0 <= j < |l.uvMaps| ==> Fits(l.uvMaps[j], l.words))
    && (forall j :: 0 <= j < |l.attrMaps| ==> Fits(l.attrMaps[j], l.words))
  }

  /**
   * With non-negative counts the body is laid out, and its views tile the
   * buffer: indices from element 0, each later array starting where the one
   * before it ends, the last attribute map (or whatever array comes last)
   * ending at the end of the buffer.
   */
  lemma BodyTilesBuffer(h: FileHeader)
    requires h.vertexCount >= 0 && h.triangleCount >= 0 && h.uvMapCount >= 0 && h.attrMapCount >= 0
    ensures FileBody(h).Ok?
    ensures var l := FileBody(h).value;
      && l.indices.start == 0
      && l.vertices.start == l.indices.start + l.indices.length
      && l.normals.Some? == HasNormals(h)
      && (l.normals.Some? ==> l.normals.value.start == l.vertices.start + l.vertices.length)
      && UVBase(h) == l.vertices.start + l.vertices.length + (if l.normals.Some? then l.normals.value.length else 0)
      && |l.uvMaps| == h.uvMapCount && |l.attrMaps| == h.attrMapCount
      && (forall j :: 0 <= j < |l.uvMaps| ==> l.uvMaps[j].start == UVBase(h) + j * UVWords(h))
      && (forall j :: 0 <= j < |l.uvMaps| ==> l.uvMaps[j].length == UVWords(h))
      && (forall j :: 0 <= j < |l.attrMaps| ==> l.attrMaps[j].start == AttrBase(h) + j * AttrWords(h))
      && (forall j :: 0 <= j < |l.attrMaps| ==> l.attrMaps[j].length == AttrWords(h))
      && AttrBase(h) + h.attrMapCount * AttrWords(h) == l.words
  {
    var u, a := UVWords(h), AttrWords(h);
    var uc, ac := h.uvMapCount, h.attrMapCount;
    MulLe(u, 0, uc);
    MulLe(a, 0, ac);
    assert a * ac == ac * a;
    var l := Layout(UVBase(h) + u * uc + a * ac, View(0, IndexWords(h)), View(IndexWords(h), VertexWords(h)),
      if HasNormals(h) then Some(View(IndexWords(h) + VertexWords(h), NormalWords(h))) else None,
      if uc != 0 then seq(Iterations(uc), j => View(UVBase(h) + j * u, u)) else [],
      if ac != 0 then seq(Iterations(ac), j => View(AttrBase(h) + j * a, a)) else []);
    forall j | 0 <= j < |l.uvMaps| ensures Fits(l.uvMaps[j], l.words) {
      RunFits(UVBase(h), u, j, uc);
    }
    forall j | 0 <= j < |l.attrMaps| ensures Fits(l.attrMaps[j], l.words) {
      RunFits(AttrBase(h), a, j, ac);
    }
    assert AllFit(l);
  }

  /** The j-th of `count` back-to-back runs of `len` elements from `base` ends by base + count * len. */
  lemma RunFits(base: int, len: int, j: int, count: int)
    requires 0 <= base && 0 <= len && 0 <= j < count
    ensures 0 <= base + j * len && base + j * len + len <= base + len * count
  {
    MulLe(len, 0, j);
    MulLe(len, j + 1, count);
  }

  /** A negative vertex or triangle count never yields a body. */
  lemma NegativeCountFails(h: FileHeader)
    requires h.vertexCount < 0 || h.triangleCount < 0
    ensures FileBody(h).Err?
  {
    var l := FileBody(h);
    if h.triangleCount < 0 {
      assert !Fits(View(0, IndexWords(h)), UVBase(h));
    }
  }

  // ----- reader dispatch and chunk order -----

  /** CTM.File.getReader: the reader for a compression tag, none for an unknown tag. */
  function ReaderFor(tag: int): (r: Option<Method>)
    ensures r == Some(RAW) <==> tag == RAW_TAG
    ensures r == Some(MG1) <==> tag == MG1_TAG
    ensures r == Some(MG2) <==> tag == MG2_TAG
  {
    if tag == RAW_TAG then Some(RAW)
    else if tag == MG1_TAG then Some(MG1)
    else if tag == MG2_TAG then Some(MG2)
    else None
  }

  /** An array of the body, or the temporary grid-index array of MG2. */
  datatype Target = Indices | Vertices | Normals | UVMap(j: nat) | AttrMap(j: nat) | GridIndices

  /** The fields a chunk carries before its payload, each read and stepped over in order. */
  datatype Field = Magic | Name | FileName | Precision | PackedSize

  /** How a chunk's payload reaches its array. */
  datatype Payload =
    | RawArray                 // readArrayInt32 or readArrayFloat32
    | Packed(count: nat)       // LZMA into an InterleavedStream of count elements per group

  /** The in-place passes a reader runs right after a chunk. */
  datatype Pass = RestoreIndicesPass | RestoreGridIndicesPass | RestoreVerticesPass
                | RestoreNormalsPass | RestoreMapPass(count: nat)

  datatype Chunk = Chunk(fields: seq<Field>, target: Target, payload: Payload, passes: seq<Pass>)

  /** What a reader does: MG2 first reads its grid header, then every reader reads its chunks in order. */
  datatype Plan = Plan(mg2Header: bool, chunks: seq<Chunk>)

  function UVChunk(m: Method, j: nat): Chunk
  {
    match m
    case RAW => Chunk([Magic, Name, FileName], UVMap(j), RawArray, [])
    case MG1 => Chunk([Magic, Name, FileName, PackedSize], UVMap(j), Packed(2), [])
    case MG2 => Chunk([Magic, Name, FileName, Precision, PackedSize], UVMap(j), Packed(2), [RestoreMapPass(2)])
  }

  function AttrChunk(m: Method, j: nat): Chunk
  {
    match m
    case RAW => Chunk([Magic, Name], AttrMap(j), RawArray, [])
    case MG1 => Chunk([Magic, Name, PackedSize], AttrMap(j), Packed(4), [])
    case MG2 => Chunk([Magic, Name, Precision, PackedSize], AttrMap(j), Packed(4), [RestoreMapPass(4)])
  }

  /** The first chunks: indices and vertices (MG2: vertices, grid indices, then indices). */
  function MainChunks(m: Method): seq<Chunk>
  {
    match m
    case RAW => [Chunk([Magic], Indices, RawArray, []), Chunk([Magic], Vertices, RawArray, [])]
    case MG1 => [Chunk([Magic, PackedSize], Indices, Packed(3), [RestoreIndicesPass]),
                 Chunk([Magic, PackedSize], Vertices, Packed(1), [])]
    case MG2 => [Chunk([Magic, PackedSize], Vertices, Packed(3), []),
                 Chunk([Magic, PackedSize], GridIndices, Packed(1), [RestoreGridIndicesPass, RestoreVerticesPass]),
                 Chunk([Magic, PackedSize], Indices, Packed(3), [RestoreIndicesPass])]
  }

  function NormalChunk(m: Method): Chunk
  {
    match m
    case RAW => Chunk([Magic], Normals, RawArray, [])
    case MG1 => Chunk([Magic, PackedSize], Normals, Packed(3), [])
    case MG2 => Chunk([Magic, PackedSize], Normals, Packed(3), [RestoreNormalsPass])
  }

  /**
   * The read method of each reader: the main chunks, the normals when the
   * body has them, then the uv maps and the attribute maps.
   */
  function ReadPlan(m: Method, hasNormals: bool, uvMaps: nat, attrMaps: nat): Plan
  {
    Plan(m == MG2,
      MainChunks(m) + (if hasNormals then [NormalChunk(m)] else [])
      + seq(uvMaps, j requires 0 <= j < uvMaps => UVChunk(m, j))
      + seq(attrMaps, j requires 0 <= j < attrMaps => AttrChunk(m, j)))
  }

  /** The arrays CTM.FileBody allocates for a header. */
  predicate InBody(t: Target, hasNormals: bool, uvMaps: nat, attrMaps: nat)
  {
    match t
    case Indices => true
    case Vertices => true
    case Normals => hasNormals
    case UVMap(j) => j < uvMaps
    case AttrMap(j) => j < attrMaps
    case GridIndices => false
  }

  /** The target of the k-th chunk a reader reads, by position. */
  function TargetAt(m: Method, hasNormals: bool, uvMaps: nat, k: nat): Target
  {
    var main := MainChunks(m);
    var base := |main| + (if hasNormals then 1 else 0);
    if k < |main| then main[k].target
    else if k < base then Normals
    else if k < base + uvMaps then UVMap(k - base)
    else AttrMap(k - base - uvMaps)
  }

  lemma ChunkTarget(m: Method, hasNormals: bool, uvMaps: nat, attrMaps: nat, k: nat)
    requires k < |ReadPlan(m, hasNormals, uvMaps, attrMaps).chunks|
    ensures ReadPlan(m, hasNormals, uvMaps, attrMaps).chunks[k].target == TargetAt(m, hasNormals, uvMaps, k)
  {
  }

  /** The first chunks of each reader fill distinct arrays. */
  lemma MainTargetsDistinct(m: Method, k: nat, k': nat)
    requires k < k' < |MainChunks(m)|
    ensures MainChunks(m)[k].target != MainChunks(m)[k'].target
  {
  }

  /** None of the first chunks fills a normal, uv or attribute array. */
  lemma MainTargetKind(m: Method, k: nat)
    requires k < |MainChunks(m)|
    ensures var t := MainChunks(m)[k].target; t in {Indices, Vertices, GridIndices}
  {
  }

  /** No two chunks of a reader fill the same array. */
  lemma PlanTargetsDistinct(m: Method, hasNormals: bool, uvMaps: nat, attrMaps: nat)
    ensures var cs := ReadPlan(m, hasNormals, uvMaps, attrMaps).chunks;
      forall k, k' :: 0 <= k < k' < |cs| ==> cs[k].target != cs[k'].target
  {
    var cs := ReadPlan(m, hasNormals, uvMaps, attrMaps).chunks;
    var main := MainChunks(m);
    forall k, k' | 0 <= k < k' < |cs| ensures cs[k].target != cs[k'].target {
      ChunkTarget(m, hasNormals, uvMaps, attrMaps, k);
      ChunkTarget(m, hasNormals, uvMaps, attrMaps, k');
      if k' < |main| {
        MainTargetsDistinct(m, k, k');
      } else if k < |main| {
        MainTargetKind(m, k);
      }
    }
  }

  /**
   * Every reader fills each array of the body and no array the body does not
   * have; MG2 also fills its temporary grid-index array.  With
   * PlanTargetsDistinct, each of them is filled exactly once.
   */
  lemma PlanFillsBody(m: Method, hasNormals: bool, uvMaps: nat, attrMaps: nat, t: Target)
    ensures var cs := ReadPlan(m, hasNormals, uvMaps, attrMaps).chunks;
      (exists k :: 0 <= k < |cs| && cs[k].target == t) <==>
        InBody(t, hasNormals, uvMaps, attrMaps) || (m == MG2 && t == GridIndices)
  {
    var cs := ReadPlan(m, hasNormals, uvMaps, attrMaps).chunks;
    if k :| 0 <= k < |cs| && cs[k].target == t {
      ChunkFillsBody(m, hasNormals, uvMaps, attrMaps, k);
    }
    if InBody(t, hasNormals, uvMaps, attrMaps) || (m == MG2 && t == GridIndices) {
      ChunkOfFills(m, hasNormals, uvMaps, attrMaps, t);
    }
  }

  lemma ChunkOfFills(m: Method, hasNormals: bool, uvMaps: nat, attrMaps: nat, t: Target)
    requires InBody(t, hasNormals, uvMaps, attrMaps) || (m == MG2 && t == GridIndices)
    ensures var cs, k := ReadPlan(m, hasNormals, uvMaps, attrMaps).chunks, ChunkOf(m, hasNormals, uvMaps, t);
      k < |cs| && cs[k].target == t
  {
    ChunkTarget(m, hasNormals, uvMaps, attrMaps, ChunkOf(m, hasNormals, uvMaps, t));
  }

  lemma ChunkFillsBody(m: Method, hasNormals: bool, uvMaps: nat, attrMaps: nat, k: nat)
    requires k < |ReadPlan(m, hasNormals, uvMaps, attrMaps).chunks|
    ensures var t := ReadPlan(m, hasNormals, uvMaps, attrMaps).chunks[k].target;
      InBody(t, hasNormals, uvMaps, attrMaps) || (m == MG2 && t == GridIndices)
  {
    ChunkTarget(m, hasNormals, uvMaps, attrMaps, k);
    if k < |MainChunks(m)| {
      MainTargetKind(m, k);
    }
  }

  /** The position of the chunk that fills t. */
  function ChunkOf(m: Method, hasNormals: bool, uvMaps: nat, t: Target): nat
  {
    var base := |MainChunks(m)| + (if hasNormals then 1 else 0);
    match t
    case UVMap(j) => base + j
    case AttrMap(j) => base + uvMaps + j
    case Normals => |MainChunks(m)|
    case Indices => if m == MG2 then 2 else 0
    case Vertices => if m == MG2 then 0 else 1
    case GridIndices => 1
  }

  /** Only the compressed methods restore anything, and every MG1 and MG2 payload is LZMA-packed. */
  lemma PassesOnlyWhenCompressed(m: Method, hasNormals: bool, uvMaps: nat, attrMaps: nat)
    ensures var cs := ReadPlan(m, hasNormals, uvMaps, attrMaps).chunks;
      forall k :: 0 <= k < |cs| ==>
        && (cs[k].passes != [] ==> m != RAW)
        && (cs[k].payload.RawArray? <==> m == RAW)
        && (cs[k].payload.Packed? <==> PackedSize in cs[k].fields)
  {
  }

  /**
   * The arrays a pass reads, run after the chunk that fills `own`:
   * restoreIndices, restoreGridIndices and restoreMap read only that array,
   * restoreVertices also the grid indices, and restoreNormals the smooth
   * normals of the triangle indices and the vertices.
   */
  function PassReads(pass: Pass, own: Target): (r: set<Target>)
    ensures own in r
  {
    match pass
    case RestoreVerticesPass => {own, Vertices, GridIndices}
    case RestoreNormalsPass => {own, Indices, Vertices}
    case _ => {own}
  }

  /**
   * Every pass run after chunk k reads only arrays that chunks 0 to k have
   * filled: the restoring readers never read an array before its chunk.
   */
  lemma PassesReadFilled(m: Method, hasNormals: bool, uvMaps: nat, attrMaps: nat)
    ensures var cs := ReadPlan(m, hasNormals, uvMaps, attrMaps).chunks;
      forall k, i, t :: 0 <= k < |cs| && 0 <= i < |cs[k].passes| && t in PassReads(cs[k].passes[i], cs[k].target) ==>
        exists j :: 0 <= j <= k && cs[j].target == t
  {
    var cs := ReadPlan(m, hasNormals, uvMaps, attrMaps).chunks;
    forall k, i, t | 0 <= k < |cs| && 0 <= i < |cs[k].passes| && t in PassReads(cs[k].passes[i], cs[k].target)
      ensures exists j :: 0 <= j <= k && cs[j].target == t
    {
      ChunkTarget(m, hasNormals, uvMaps, attrMaps, k);
      if t == cs[k].target {
        assert cs[k].target == t;
      } else {
        var main := MainChunks(m);
        assert k < |main| + (if hasNormals then 1 else 0);
        var j := if t == Vertices then 0 else if t == GridIndices then 1 else 2;
        assert cs[j] == main[j];
        assert cs[j].target == t;
      }
    }
  }

  /**
   * CTM.File.load after the header: the body is allocated first (a RangeError
   * ends the load there), then the reader chosen by the compression tag reads
   * the chunks; an unknown tag leaves no reader to call.
   */
  function Load(h: FileHeader): (r: Result<Plan>)
    ensures FileBody(h).Err? ==> r == Err(RangeError)
    ensures FileBody(h).Ok? && ReaderFor(h.compressionMethod).None? ==> r == Err(UnknownMethod)
  {
    match FileBody(h)
    case Err(e) => Err(e)
    case Ok(l) =>
      match ReaderFor(h.compressionMethod)
      case None => Err(UnknownMethod)
      case Some(m) => Ok(ReadPlan(m, l.normals.Some?, |l.uvMaps|, |l.attrMaps|))
  }

  /**
   * A header with non-negative counts and a known tag loads, and its reader
   * reads exactly one chunk per array of the body (plus MG2's grid indices):
   * one per uv map and one per attribute map the header announces.
   */
  lemma LoadReadsWholeBody(h: FileHeader, t: Target)
    requires h.vertexCount >= 0 && h.triangleCount >= 0 && h.uvMapCount >= 0 && h.attrMapCount >= 0
    requires ReaderFor(h.compressionMethod).Some?
    ensures Load(h).Ok?
    ensures var cs, m := Load(h).value.chunks, ReaderFor(h.compressionMethod).value;
      && |cs| == (if m == MG2 then 3 else 2) + (if HasNormals(h) then 1 else 0) + h.uvMapCount + h.attrMapCount
      && ((exists k :: 0 <= k < |cs| && cs[k].target == t) <==>
            InBody(t, HasNormals(h), h.uvMapCount, h.attrMapCount) || (m == MG2 && t == GridIndices))
  {
    BodyTilesBuffer(h);
    var m := ReaderFor(h.compressionMethod).value;
    PlanFillsBody(m, HasNormals(h), h.uvMapCount, h.attrMapCount, t);
  }
}
