/** `Model::init` and the `Mesh` constructor of mesh.h: the file's bytes are decoded with the
    layout of module `Bmf`, every record becomes a `Mesh`, and the meshes are appended to the
    model's list in file order.  Opening the file is a parameter: `None` stands for a path
    that could not be opened.  GPU buffer creation is reduced to the data it uploads. */
module Loader {
  import opened Outcomes
  import opened Bytes
  import opened Bmf

  /** A constructed `Mesh`: the material it keeps, the vertices and indices its vertex and
      index buffers were filled with, and the index count it draws with. */
  datatype Mesh = Mesh(material: Material, vertexBuffer: seq<Vertex>, indexBuffer: seq<uint32>,
                       numIndices: uint64)

  /** Why `Model::init` adds no meshes. */
  datatype LoadError = FileNotFound | TruncatedStream

  /** The number of whole indices in the byte size `numIndices * elementSize` that the
      `IndexBuffer` constructor computes: the count is first narrowed to its `uint32`
      parameter, and the product with the 4-byte element size is again a `uint32`, so only
      the count modulo 2^30 reaches the GPU. */
  function UploadedIndexCount(numIndices: uint64): (k: nat)
    ensures k <= Narrow32(numIndices)
    ensures k == numIndices % 0x4000_0000
  {
    var n := Narrow32(numIndices);
    var bytes := (n * INDEX_SIZE) % U32_LIMIT;
    IndexBytesWrap(numIndices);
    bytes / INDEX_SIZE
  }

  /** The 32-bit byte size of `numIndices` indices is four times the count modulo 2^30. */
  lemma IndexBytesWrap(numIndices: uint64)
    ensures (Narrow32(numIndices) * INDEX_SIZE) % U32_LIMIT == INDEX_SIZE * (numIndices % 0x4000_0000)
  {
    var q := numIndices / 0x4000_0000;
    var r := numIndices % 0x4000_0000;
    var hi := q / 4;
    var lo := q % 4;
    assert numIndices == U32_LIMIT * hi + (0x4000_0000 * lo + r);
    Remainder32(numIndices, hi, 0x4000_0000 * lo + r);
    var n := Narrow32(numIndices);
    assert n * INDEX_SIZE == U32_LIMIT * lo + INDEX_SIZE * r;
    Remainder32(n * INDEX_SIZE, lo, INDEX_SIZE * r);
  }

  /** The remainder of `a` by 2^32 is the `x` of any decomposition `a == 2^32 * k + x` with
      `0 <= x < 2^32`. */
  lemma Remainder32(a: int, k: int, x: int)
    requires a == U32_LIMIT * k + x && 0 <= x < U32_LIMIT
    ensures a % U32_LIMIT == x
  {
  }

  /** The `Mesh` constructor.  The vertex buffer receives the first `numVertices` vertices,
      counted modulo 2^32 because `VertexBuffer` takes a `uint32`; the index buffer receives
      the whole indices of its 32-bit byte size.  The mesh keeps the 64-bit index count it
      draws with. */
  function NewMesh(vertices: seq<Vertex>, numVertices: uint64, indices: seq<uint32>,
                   numIndices: uint64, material: Material): (m: Mesh)
    requires Narrow32(numVertices) <= |vertices| && Narrow32(numIndices) <= |indices|
    ensures m.material == material
    ensures m.numIndices == numIndices
    ensures |m.vertexBuffer| == Narrow32(numVertices) && m.vertexBuffer <= vertices
    ensures |m.indexBuffer| == numIndices % 0x4000_0000 && m.indexBuffer <= indices
  {
    Mesh(material, vertices[..Narrow32(numVertices)], indices[..UploadedIndexCount(numIndices)],
         numIndices)
  }

  /** What the loader's loop body builds from one decoded record. */
  function ToMesh(r: MeshRecord): (m: Mesh)
    requires WellFormedMesh(r)
    ensures m.material == r.material
    ensures m.numIndices == |r.indices|
    ensures |m.vertexBuffer| == |r.vertices| % U32_LIMIT && m.vertexBuffer <= r.vertices
    ensures |m.indexBuffer| == |r.indices| % 0x4000_0000 && m.indexBuffer <= r.indices
  {
    NewMesh(r.vertices, |r.vertices|, r.indices, |r.indices|, r.material)
  }

  /** A mesh with fewer than 2^32 vertices and 2^30 indices reaches the GPU whole, with its
      material unchanged and its full index count. */
  lemma ToMeshKeepsSmallMeshes(r: MeshRecord)
    requires |r.vertices| < U32_LIMIT && |r.indices| < 0x4000_0000
    ensures ToMesh(r) == Mesh(r.material, r.vertices, r.indices, |r.indices|)
  {
    assert r.vertices[..|r.vertices|] == r.vertices;
    assert r.indices[..|r.indices|] == r.indices;
  }

  /** With 2^30 indices the index buffer's byte size wraps to 0: the mesh still draws 2^30
      indices, but its index buffer receives none of them. */
  lemma IndexBufferSizeWraps(r: MeshRecord)
    requires WellFormedMesh(r) && |r.indices| == 0x4000_0000
    ensures ToMesh(r).numIndices == 0x4000_0000
    ensures ToMesh(r).indexBuffer == []
  {
  }

  /** The `meshes.push_back` loop over the decoded records, in order. */
  function Upload(rs: seq<MeshRecord>): (ms: seq<Mesh>)
    requires WellFormedMeshes(rs)
    ensures |ms| == |rs|
    ensures forall i :: 0 <= i < |rs| ==> ms[i] == ToMesh(rs[i])
    ensures forall i :: 0 <= i < |rs| ==> ms[i].material == rs[i].material
                                          && ms[i].numIndices == |rs[i].indices|
  {
    if |rs| == 0 then [] else [ToMesh(rs[0])] + Upload(rs[1..])
  }

  /** Opening and decoding a file. */
  function Load(file: Option<seq<byte>>): (r: Result<seq<MeshRecord>, LoadError>)
    ensures r == Err(FileNotFound) <==> file.None?
    ensures r == Err(TruncatedStream) <==> file.Some? && Decode(file.value).None?
    ensures r.Ok? ==> file.Some? && Decode(file.value) == Some(r.value)
  {
    match file
    case None => Err(FileNotFound)
    case Some(bytes) =>
      match Decode(bytes)
      case None => Err(TruncatedStream)
      case Some(rs) => Ok(rs)
  }

  /** `Model::init`: appends the file's meshes to `meshes` in file order.  When the file
      cannot be opened, or (unlike the source, see `LoadShapesAsWritten`) when it ends early,
      the list is left as it was. */
  function Init(meshes: seq<Mesh>, file: Option<seq<byte>>): (r: seq<Mesh>)
    ensures file.None? ==> r == meshes
    ensures Load(file).Err? ==> r == meshes
    ensures |r| >= |meshes| && r[..|meshes|] == meshes
    ensures Load(file).Ok? ==> |r| == |meshes| + FromLE(file.value[..COUNT_SIZE])
    ensures Load(file).Ok? ==> WellFormedMeshes(Load(file).value)
                               && r == meshes + Upload(Load(file).value)
  {
    match Load(file)
    case Err(_) => meshes
    case Ok(rs) =>
      ParseModelConsumes(file.value);
      meshes + Upload(rs)
  }

  /** Loading a file written in this layout appends exactly the meshes it was written from,
      in the order they were written. */
  lemma InitLoadsEncodedModel(meshes: seq<Mesh>, rs: seq<MeshRecord>)
    requires WellFormedModel(rs)
    ensures Init(meshes, Some(EncodeModel(rs))) == meshes + Upload(rs)
  {
    DecodeEncode(rs);
  }

  /** A file cut short anywhere adds no mesh at all. */
  lemma InitIgnoresTruncatedFile(meshes: seq<Mesh>, rs: seq<MeshRecord>, k: nat)
    requires WellFormedModel(rs)
    requires 0 < k <= |EncodeModel(rs)|
    ensures Init(meshes, Some(EncodeModel(rs)[..|EncodeModel(rs)| - k])) == meshes
  {
    DecodeRejectsTruncation(rs, k);
  }

  // ------------------------------------------------ the loader as written: unchecked reads

  /** The part of `std::ifstream` the loader relies on: the unread bytes and whether a read
      has failed.  A failed stream stays failed and copies nothing. */
  datatype Stream = Stream(data: seq<byte>, failed: bool)

  /** `read(buf, n)`: copies `n` bytes, or on a short read copies what is left and fails. */
  function StreamRead(st: Stream, n: nat): (r: (seq<byte>, Stream))
    ensures |r.0| <= n
    ensures r.1.failed <==> st.failed || |st.data| < n
    ensures !r.1.failed ==> st.data == r.0 + r.1.data && |r.0| == n
    ensures st.failed ==> r == ([], st)
    ensures !st.failed && |st.data| < n ==> r == (st.data, Stream([], true))
  {
    if st.failed then ([], st)
    else if |st.data| < n then (st.data, Stream([], true))
    else (st.data[..n], Stream(st.data[n..], false))
  }

  /** Reading into a `uint64` that was initialised to 0: the copied bytes replace its low
      bytes, the others stay 0. */
  function ReadCount(st: Stream): (r: (uint64, Stream))
    ensures st.failed ==> r == (0, st)
    ensures !st.failed && |st.data| >= COUNT_SIZE ==>
              !r.1.failed && ParseU64(st.data) == Some((r.0, r.1.data))
    ensures !st.failed && |st.data| < COUNT_SIZE ==>
              r.1 == Stream([], true) && r.0 == FromLE(st.data) < Pow256(|st.data|)
  {
    var (bs, st') := StreamRead(st, COUNT_SIZE);
    Pow256Limits();
    (FromLE(bs), st')
  }

  /** `count` reads of `size` bytes each, their values discarded. */
  function SkipReads(st: Stream, size: nat, count: nat): (r: Stream)
    ensures st.failed ==> r == st
    ensures !st.failed && r.failed ==> r.data == []
    ensures |r.data| <= |st.data| && r.data == st.data[|st.data| - |r.data|..]
    decreases count
  {
    if count == 0 then st else SkipReads(StreamRead(st, size).1, size, count - 1)
  }

  /** The vertex and index counts the source passes to the `Mesh` constructor; its vectors
      hold that many elements whatever the reads delivered. */
  datatype Shape = Shape(numVertices: uint64, numIndices: uint64)

  function ShapeOf(r: MeshRecord): Shape
    requires WellFormedMesh(r)
  {
    Shape(|r.vertices|, |r.indices|)
  }

  function Shapes(rs: seq<MeshRecord>): (ss: seq<Shape>)
    requires WellFormedMeshes(rs)
    ensures |ss| == |rs|
  {
    if |rs| == 0 then [] else [ShapeOf(rs[0])] + Shapes(rs[1..])
  }

  /** The mesh loop of the source, which never looks at the stream state: a material read,
      two count reads, six float reads per vertex and one read per index, for every one of
      the `n` meshes. */
  function MeshShapesAsWritten(st: Stream, n: nat): (ss: seq<Shape>)
    ensures |ss| == n
    decreases n
  {
    if n == 0 then []
    else
      var st1 := StreamRead(st, MATERIAL_SIZE).1;
      var (nv, st2) := ReadCount(st1);
      var (ni, st3) := ReadCount(st2);
      var st4 := SkipReads(st3, 4, 6 * nv);
      var st5 := SkipReads(st4, INDEX_SIZE, ni);
      [Shape(nv, ni)] + MeshShapesAsWritten(st5, n - 1)
  }

  /** `Model::init` as written, reduced to the shapes of the meshes it constructs.  It always
      builds exactly as many meshes as the (possibly partially read) leading count says. */
  function LoadShapesAsWritten(bytes: seq<byte>): (ss: seq<Shape>)
    ensures |ss| == ReadCount(Stream(bytes, false)).0
  {
    var (n, st) := ReadCount(Stream(bytes, false));
    MeshShapesAsWritten(st, n)
  }

  /** On an intact stream the unchecked reads skip exactly the bytes they cover. */
  lemma {:induction false} SkipReadsIntact(s: seq<byte>, size: nat, count: nat)
    requires |s| >= size * count
    ensures SkipReads(Stream(s, false), size, count) == Stream(s[size * count..], false)
  {
    if count > 0 {
      assert s[size..][size * (count - 1)..] == s[size * count..];
      SkipReadsIntact(s[size..], size, count - 1);
    }
  }

  /** The unchecked reads of one mesh written in this layout deliver its two counts and stop
      exactly at the bytes that follow it. */
  lemma MeshReadsAsWritten(r: MeshRecord, tail: seq<byte>)
    requires WellFormedMesh(r)
    ensures var st1 := StreamRead(Stream(EncodeMesh(r) + tail, false), MATERIAL_SIZE).1;
            var st2 := ReadCount(st1).1;
            var st3 := ReadCount(st2).1;
            ReadCount(st1).0 == |r.vertices| && ReadCount(st2).0 == |r.indices|
            && SkipReads(SkipReads(st3, 4, 6 * |r.vertices|), INDEX_SIZE, |r.indices|)
               == Stream(tail, false)
  {
    var t3 := EncodeIndices(r.indices) + tail;
    var t2 := EncodeVertices(r.vertices) + t3;
    var t1 := EncodeU64(|r.indices|) + t2;
    var t0 := EncodeU64(|r.vertices|) + t1;
    calc {
      EncodeMesh(r) + tail;
      { Append3(EncodeMaterial(r.material) + EncodeU64(|r.vertices|) + EncodeU64(|r.indices|)
                  + EncodeVertices(r.vertices), EncodeIndices(r.indices), tail);
        Append3(EncodeMaterial(r.material) + EncodeU64(|r.vertices|) + EncodeU64(|r.indices|),
                EncodeVertices(r.vertices), t3);
        Append3(EncodeMaterial(r.material) + EncodeU64(|r.vertices|), EncodeU64(|r.indices|), t2);
        Append3(EncodeMaterial(r.material), EncodeU64(|r.vertices|), t1); }
      EncodeMaterial(r.material) + t0;
    }
    assert StreamRead(Stream(EncodeMesh(r) + tail, false), MATERIAL_SIZE).1 == Stream(t0, false);
    ParseU64Encode(|r.vertices|, t1);
    assert ReadCount(Stream(t0, false)) == (|r.vertices|, Stream(t1, false));
    ParseU64Encode(|r.indices|, t2);
    assert ReadCount(Stream(t1, false)) == (|r.indices|, Stream(t2, false));
    SkipReadsIntact(t2, 4, 6 * |r.vertices|);
    assert t2[4 * (6 * |r.vertices|)..] == t3;
    SkipReadsIntact(t3, INDEX_SIZE, |r.indices|);
    assert t3[INDEX_SIZE * |r.indices|..] == tail;
  }

  /** The unchecked mesh loop run over one mesh written in this layout yields its shape and
      continues with the bytes that follow it. */
  lemma MeshShapesAsWrittenStep(r: MeshRecord, tail: seq<byte>, n: nat)
    requires WellFormedMesh(r) && n > 0
    ensures MeshShapesAsWritten(Stream(EncodeMesh(r) + tail, false), n)
            == [ShapeOf(r)] + MeshShapesAsWritten(Stream(tail, false), n - 1)
  {
    MeshReadsAsWritten(r, tail);
  }

  /** On a file written in this layout, the unchecked loader builds meshes of the same shapes
      as the checked decoder. */
  lemma {:induction false} MeshShapesAsWrittenOnEncoding(rs: seq<MeshRecord>, rest: seq<byte>)
    requires WellFormedMeshes(rs)
    ensures MeshShapesAsWritten(Stream(EncodeMeshes(rs) + rest, false), |rs|) == Shapes(rs)
  {
    var st := Stream(EncodeMeshes(rs) + rest, false);
    if |rs| == 0 {
      assert MeshShapesAsWritten(st, 0) == [] == Shapes(rs);
    } else {
      var tail := EncodeMeshes(rs[1..]) + rest;
      MeshShapesAsWrittenOnEncoding(rs[1..], rest);
      assert MeshShapesAsWritten(Stream(tail, false), |rs| - 1) == Shapes(rs[1..]);
      EncodeMeshesCons(rs);
      Append3(EncodeMesh(rs[0]), EncodeMeshes(rs[1..]), rest);
      assert st == Stream(EncodeMesh(rs[0]) + tail, false);
      MeshShapesAsWrittenStep(rs[0], tail, |rs|);
      assert MeshShapesAsWritten(st, |rs|) == [ShapeOf(rs[0])] + Shapes(rs[1..]);
    }
  }

  /** The unchecked loader and the checked decoder agree on every well-formed file. */
  lemma AsWrittenAgreesOnEncodedModel(rs: seq<MeshRecord>)
    requires WellFormedModel(rs)
    ensures LoadShapesAsWritten(EncodeModel(rs)) == Shapes(rs)
  {
    ParseU64Encode(|rs|, EncodeMeshes(rs) + []);
    assert EncodeModel(rs) == EncodeU64(|rs|) + (EncodeMeshes(rs) + []);
    MeshShapesAsWrittenOnEncoding(rs, []);
  }

  /** They disagree on a file that ends right after a mesh count of 1: the source builds
      one empty mesh from a material it never read, the checked loader adds nothing. */
  lemma UncheckedReadAcceptsTruncatedFile()
    ensures LoadShapesAsWritten([1, 0, 0, 0, 0, 0, 0, 0]) == [Shape(0, 0)]
    ensures Load(Some([1, 0, 0, 0, 0, 0, 0, 0])) == Err(TruncatedStream)
  {
    var bytes: seq<byte> := [1, 0, 0, 0, 0, 0, 0, 0];
    assert FromLE(bytes) == 1;
    assert bytes[..8] == bytes;
    var failed := Stream([], true);
    assert StreamRead(Stream([], false), MATERIAL_SIZE).1 == failed;
    assert ReadCount(failed) == (0, failed);
    assert MeshShapesAsWritten(Stream([], false), 1) == [Shape(0, 0)];
    assert ParseMeshes(1, bytes[8..]) == None;
  }
}
