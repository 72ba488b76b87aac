/** The binary model layout that `Model::init` reads: a `uint64` mesh count, then for every
    mesh a 40-byte material, a `uint64` vertex count, a `uint64` index count, the vertices
    (position then normal, six float words each) and the `uint32` indices.  All integers
    are little-endian.  Parsers return the decoded value with the bytes that follow it;
    encoders produce the layout; the lemmas show the two are mutually inverse. */
module Bmf {
  import opened Outcomes
  import opened Bytes
  import opened Records

  datatype Vec3 = Vec3(x: Float32, y: Float32, z: Float32)

  /** `struct Material` of mesh.h: three colours and a shininess, 10 floats, no padding. */
  datatype Material = Material(diffuse: Vec3, specular: Vec3, emissive: Vec3, shininess: Float32)

  /** The vertex the loader fills: a position followed by a normal. */
  datatype Vertex = Vertex(position: Vec3, normal: Vec3)

  /** One decoded mesh, before it is handed to the GPU. */
  datatype MeshRecord = MeshRecord(material: Material, vertices: seq<Vertex>, indices: seq<uint32>)

  const COUNT_SIZE: nat := 8
  const MATERIAL_SIZE: nat := 40
  const VERTEX_SIZE: nat := 24
  const INDEX_SIZE: nat := 4

  /** A mesh whose counts fit the `uint64` header fields. */
  predicate WellFormedMesh(m: MeshRecord)
  {
    |m.vertices| < U64_LIMIT && |m.indices| < U64_LIMIT
  }

  predicate WellFormedMeshes(ms: seq<MeshRecord>)
  {
    forall i :: 0 <= i < |ms| ==> WellFormedMesh(ms[i])
  }

  /** A mesh list whose count fits the leading `uint64` and whose meshes are well formed. */
  predicate WellFormedModel(ms: seq<MeshRecord>)
  {
    |ms| < U64_LIMIT && WellFormedMeshes(ms)
  }

  /** A count stored in a `uint64` field: the value modulo 2^64, as a C++ conversion does.
      The two branches equal `n % U64_LIMIT`; the split keeps the remainder out of sight of
      the verifier for the counts that fit, which is every count the lemmas use. */
  function Count64(n: nat): uint64
  {
    if n < U64_LIMIT then n else n % U64_LIMIT
  }

  /** Bytes one mesh record occupies on disk. */
  function MeshSize(m: MeshRecord): nat
  {
    MATERIAL_SIZE + 2 * COUNT_SIZE + VERTEX_SIZE * |m.vertices| + INDEX_SIZE * |m.indices|
  }

  function TotalMeshSize(ms: seq<MeshRecord>): nat
  {
    if |ms| == 0 then 0 else MeshSize(ms[0]) + TotalMeshSize(ms[1..])
  }

  // ---------------------------------------------------------------- field order

  /** The ten floats of a material in memory order. */
  function MaterialWords(m: Material): (ws: seq<Float32>)
    ensures |ws| == 10
  {
    [m.diffuse.x, m.diffuse.y, m.diffuse.z,
     m.specular.x, m.specular.y, m.specular.z,
     m.emissive.x, m.emissive.y, m.emissive.z,
     m.shininess]
  }

  function MaterialFromWords(ws: seq<Float32>): Material
    requires |ws| == 10
  {
    Material(Vec3(ws[0], ws[1], ws[2]), Vec3(ws[3], ws[4], ws[5]),
             Vec3(ws[6], ws[7], ws[8]), ws[9])
  }

  /** The six floats of a vertex in the order the loader reads them. */
  function VertexWords(v: Vertex): (ws: seq<Float32>)
    ensures |ws| == 6
  {
    [v.position.x, v.position.y, v.position.z, v.normal.x, v.normal.y, v.normal.z]
  }

  function VertexFromWords(ws: seq<Float32>): Vertex
    requires |ws| == 6
  {
    Vertex(Vec3(ws[0], ws[1], ws[2]), Vec3(ws[3], ws[4], ws[5]))
  }

  // ---------------------------------------------------------------- encoders

  function EncodeMaterial(m: Material): (bs: seq<byte>)
    ensures |bs| == MATERIAL_SIZE
  {
    EncodeWords(MaterialWords(m))
  }

  function EncodeVertex(v: Vertex): (bs: seq<byte>)
    ensures |bs| == VERTEX_SIZE
  {
    EncodeWords(VertexWords(v))
  }

  function EncodeVertices(vs: seq<Vertex>): (bs: seq<byte>)
    ensures |bs| == VERTEX_SIZE * |vs|
  {
    EncodeRepeatedLength(EncodeVertex, VERTEX_SIZE, vs);
    EncodeRepeated(EncodeVertex, vs)
  }

  function EncodeIndices(xs: seq<uint32>): (bs: seq<byte>)
    ensures |bs| == INDEX_SIZE * |xs|
  {
    EncodeRepeatedLength(EncodeU32, INDEX_SIZE, xs);
    EncodeRepeated(EncodeU32, xs)
  }

  function EncodeMesh(m: MeshRecord): (bs: seq<byte>)
    ensures |bs| == MeshSize(m)
  {
    EncodeMaterial(m.material) + EncodeU64(Count64(|m.vertices|)) + EncodeU64(Count64(|m.indices|))
      + EncodeVertices(m.vertices) + EncodeIndices(m.indices)
  }

  function EncodeMeshes(ms: seq<MeshRecord>): seq<byte>
  {
    EncodeRepeated(EncodeMesh, ms)
  }

  lemma EncodeMeshesCons(ms: seq<MeshRecord>)
    requires |ms| > 0
    ensures EncodeMeshes(ms) == EncodeMesh(ms[0]) + EncodeMeshes(ms[1..])
  {
  }

  lemma {:induction false} EncodeMeshesLength(ms: seq<MeshRecord>)
    ensures |EncodeMeshes(ms)| == TotalMeshSize(ms)
  {
    if |ms| > 0 {
      EncodeMeshesCons(ms);
      EncodeMeshesLength(ms[1..]);
    }
  }

  /** The whole file: the mesh count, then the meshes in order.  Its length is
      8 + the sum over the meshes of (40 + 16 + 24 * vertices + 4 * indices). */
  function EncodeModel(ms: seq<MeshRecord>): (bs: seq<byte>)
    ensures |bs| == COUNT_SIZE + TotalMeshSize(ms)
  {
    EncodeMeshesLength(ms);
    EncodeU64(Count64(|ms|)) + EncodeMeshes(ms)
  }

  // ---------------------------------------------------------------- parsers

  /** The single 40-byte `read` of a `Material` struct. */
  function ParseMaterial(s: seq<byte>): (r: Option<(Material, seq<byte>)>)
    ensures r.Some? <==> |s| >= MATERIAL_SIZE
  {
    if |s| < MATERIAL_SIZE then None
    else Some((MaterialFromWords(DecodeWords(s[..MATERIAL_SIZE])), s[MATERIAL_SIZE..]))
  }

  /** Six consecutive float reads: position x, y, z, then normal x, y, z. */
  function ParseVertex(s: seq<byte>): (r: Option<(Vertex, seq<byte>)>)
    ensures r.Some? <==> |s| >= VERTEX_SIZE
    ensures r.Some? ==> r.value.1 == s[VERTEX_SIZE..]
  {
    if |s| < VERTEX_SIZE then None
    else Some((VertexFromWords(DecodeWords(s[..VERTEX_SIZE])), s[VERTEX_SIZE..]))
  }

  /** The vertex loop: `n` vertices read one after another and appended in order. */
  function ParseVertices(n: nat, s: seq<byte>): (r: Option<(seq<Vertex>, seq<byte>)>)
    ensures r.Some? <==> |s| >= VERTEX_SIZE * n
    ensures r.Some? ==> |r.value.0| == n && r.value.1 == s[VERTEX_SIZE * n..]
  {
    ParseRepeatedFixed(ParseVertex, VERTEX_SIZE, n, s);
    ParseRepeated(ParseVertex, n, s)
  }

  /** The index loop: `n` `uint32` reads appended in order. */
  function ParseIndices(n: nat, s: seq<byte>): (r: Option<(seq<uint32>, seq<byte>)>)
    ensures r.Some? <==> |s| >= INDEX_SIZE * n
    ensures r.Some? ==> |r.value.0| == n && r.value.1 == s[INDEX_SIZE * n..]
  {
    ParseU32Fixed();
    ParseRepeatedFixed(ParseU32, INDEX_SIZE, n, s);
    ParseRepeated(ParseU32, n, s)
  }

  lemma ParseU32Fixed()
    ensures FixedSize(ParseU32, INDEX_SIZE)
  {
    forall t
      ensures ParseU32(t).Some? ==> ParseU32(t).value.1 == t[INDEX_SIZE..]
    {
    }
  }

  /** The two `uint64` counts that follow the material: vertices first, then indices. */
  function ParseCounts(s: seq<byte>): (r: Option<(uint64, uint64, seq<byte>)>)
    ensures r.Some? <==> |s| >= 2 * COUNT_SIZE
  {
    match ParseU64(s)
    case None => None
    case Some((nv, s1)) =>
      match ParseU64(s1)
      case None => None
      case Some((ni, s2)) => Some((nv, ni, s2))
  }

  /** One mesh record, in the order the loader reads it: material, vertex count, index
      count, vertices, indices. */
  function ParseMesh(s: seq<byte>): (r: Option<(MeshRecord, seq<byte>)>)
    ensures r.Some? ==> WellFormedMesh(r.value.0)
  {
    match ParseMaterial(s)
    case None => None
    case Some((mat, s1)) =>
      match ParseCounts(s1)
      case None => None
      case Some((nv, ni, s2)) =>
        match ParseVertices(nv, s2)
        case None => None
        case Some((vs, s3)) =>
          match ParseIndices(ni, s3)
          case None => None
          case Some((xs, s4)) => Some((MeshRecord(mat, vs, xs), s4))
  }

  /** The mesh loop: `n` records, appended in the order they appear in the stream. */
  function ParseMeshes(n: nat, s: seq<byte>): (r: Option<(seq<MeshRecord>, seq<byte>)>)
    ensures r.Some? ==> |r.value.0| == n
  {
    ParseRepeated(ParseMesh, n, s)
  }

  /** The whole stream: the leading `uint64` mesh count, then exactly that many records. */
  function ParseModel(s: seq<byte>): (r: Option<(seq<MeshRecord>, seq<byte>)>)
    ensures r.Some? ==> |s| >= COUNT_SIZE && |r.value.0| == FromLE(s[..COUNT_SIZE])
  {
    match ParseU64(s)
    case None => None
    case Some((n, s1)) => ParseMeshes(n, s1)
  }

  /** The loader's reading of a whole file.  Bytes after the last record are never read,
      so they are ignored; a stream that ends early yields `None`. */
  function Decode(s: seq<byte>): (r: Option<seq<MeshRecord>>)
    ensures |s| < COUNT_SIZE ==> r.None?
    ensures r.Some? ==> |s| >= COUNT_SIZE && |r.value| == FromLE(s[..COUNT_SIZE])
  {
    match ParseModel(s)
    case None => None
    case Some((ms, _)) => Some(ms)
  }

  // ---------------------------------------------------------------- byte layout

  /** The material is the struct's ten floats at word offsets 0..9. */
  lemma ParseMaterialLayout(s: seq<byte>)
    requires |s| >= MATERIAL_SIZE
    ensures ParseMaterial(s) == Some((Material(Vec3(WordAt(s, 0), WordAt(s, 1), WordAt(s, 2)),
                                               Vec3(WordAt(s, 3), WordAt(s, 4), WordAt(s, 5)),
                                               Vec3(WordAt(s, 6), WordAt(s, 7), WordAt(s, 8)),
                                               WordAt(s, 9)),
                                      s[MATERIAL_SIZE..]))
  {
    var p := s[..MATERIAL_SIZE];
    forall k | 0 <= k < 10
      ensures DecodeWords(p)[k] == WordAt(s, k)
    {
      DecodeWordsAt(p, k);
      WordAtPrefix(s, MATERIAL_SIZE, k);
    }
  }

  /** A vertex is position x, y, z at word offsets 0..2 and normal x, y, z at 3..5. */
  lemma ParseVertexLayout(s: seq<byte>)
    requires |s| >= VERTEX_SIZE
    ensures ParseVertex(s) == Some((Vertex(Vec3(WordAt(s, 0), WordAt(s, 1), WordAt(s, 2)),
                                           Vec3(WordAt(s, 3), WordAt(s, 4), WordAt(s, 5))),
                                    s[VERTEX_SIZE..]))
  {
    var p := s[..VERTEX_SIZE];
    forall k | 0 <= k < 6
      ensures DecodeWords(p)[k] == WordAt(s, k)
    {
      DecodeWordsAt(p, k);
      WordAtPrefix(s, VERTEX_SIZE, k);
    }
  }

  /** Vertex `j` of a successful vertex loop is the vertex stored at bytes `24j .. 24j+24`. */
  lemma ParseVerticesLayout(n: nat, s: seq<byte>, j: nat)
    requires |s| >= VERTEX_SIZE * n && j < n
    ensures |s| >= VERTEX_SIZE * j + VERTEX_SIZE
    ensures ParseVertices(n, s).value.0[j] == ParseVertex(s[VERTEX_SIZE * j..]).value.0
  {
    ParseRepeatedAt(ParseVertex, VERTEX_SIZE, n, s, j);
  }

  /** Index `j` of a successful index loop is the `uint32` at bytes `4j .. 4j+4`. */
  lemma ParseIndicesLayout(n: nat, s: seq<byte>, j: nat)
    requires |s| >= INDEX_SIZE * n && j < n
    ensures |s| >= INDEX_SIZE * j + INDEX_SIZE
    ensures ParseIndices(n, s).value.0[j] == FromLE(s[INDEX_SIZE * j .. INDEX_SIZE * j + INDEX_SIZE])
  {
    ParseU32Fixed();
    ParseRepeatedAt(ParseU32, INDEX_SIZE, n, s, j);
    assert s[INDEX_SIZE * j..][..INDEX_SIZE] == s[INDEX_SIZE * j .. INDEX_SIZE * j + INDEX_SIZE];
  }

  /** A mesh record starts with the material in bytes 0..40, the vertex count in bytes
      40..48 and the index count in bytes 48..56; the vertices follow from byte 56, the
      indices right after them, and the record ends there. */
  lemma ParseMeshLayout(s: seq<byte>)
    requires ParseMesh(s).Some?
    ensures |s| >= MATERIAL_SIZE + 2 * COUNT_SIZE
    ensures ParseMesh(s).value.0.material == ParseMaterial(s).value.0
    ensures |ParseMesh(s).value.0.vertices| == FromLE(s[40..48])
    ensures |ParseMesh(s).value.0.indices| == FromLE(s[48..56])
    ensures ParseMesh(s).value.0.vertices == ParseVertices(FromLE(s[40..48]), s[56..]).value.0
    ensures |s| >= 56 + VERTEX_SIZE * FromLE(s[40..48]) + INDEX_SIZE * FromLE(s[48..56])
    ensures ParseMesh(s).value.0.indices
              == ParseIndices(FromLE(s[48..56]), s[56 + VERTEX_SIZE * FromLE(s[40..48])..]).value.0
    ensures ParseMesh(s).value.1
              == s[56 + VERTEX_SIZE * FromLE(s[40..48]) + INDEX_SIZE * FromLE(s[48..56])..]
  {
    var s1 := ParseMaterial(s).value.1;
    var s1b := ParseU64(s1).value.1;
    assert s1[..8] == s[40..48];
    assert s1b[..8] == s[48..56];
    assert ParseCounts(s1).value.2 == s[56..];
  }

  // ---------------------------------------------------------------- round trips

  lemma ParseMaterialEncode(m: Material, rest: seq<byte>)
    ensures ParseMaterial(EncodeMaterial(m) + rest) == Some((m, rest))
  {
    var s := EncodeMaterial(m) + rest;
    assert s[..MATERIAL_SIZE] == EncodeMaterial(m) && s[MATERIAL_SIZE..] == rest;
    DecodeEncodeWords(MaterialWords(m));
  }

  lemma ParseVertexEncode(v: Vertex, rest: seq<byte>)
    ensures ParseVertex(EncodeVertex(v) + rest) == Some((v, rest))
  {
    var s := EncodeVertex(v) + rest;
    assert s[..VERTEX_SIZE] == EncodeVertex(v) && s[VERTEX_SIZE..] == rest;
    DecodeEncodeWords(VertexWords(v));
  }

  lemma ParseVerticesEncode(vs: seq<Vertex>, rest: seq<byte>)
    ensures ParseVertices(|vs|, EncodeVertices(vs) + rest) == Some((vs, rest))
  {
    forall i, r | 0 <= i < |vs|
      ensures ParseVertex(EncodeVertex(vs[i]) + r) == Some((vs[i], r))
    {
      ParseVertexEncode(vs[i], r);
    }
    ParseEncodeRepeated(ParseVertex, EncodeVertex, vs, rest);
  }

  lemma ParseIndicesEncode(xs: seq<uint32>, rest: seq<byte>)
    ensures ParseIndices(|xs|, EncodeIndices(xs) + rest) == Some((xs, rest))
  {
    forall i, r | 0 <= i < |xs|
      ensures ParseU32(EncodeU32(xs[i]) + r) == Some((xs[i], r))
    {
      ParseU32Encode(xs[i], r);
    }
    ParseEncodeRepeated(ParseU32, EncodeU32, xs, rest);
  }

  lemma ParseCountsEncode(nv: uint64, ni: uint64, rest: seq<byte>)
    ensures ParseCounts(EncodeU64(nv) + EncodeU64(ni) + rest) == Some((nv, ni, rest))
  {
    Append3(EncodeU64(nv), EncodeU64(ni), rest);
    ParseU64Encode(nv, EncodeU64(ni) + rest);
    ParseU64Encode(ni, rest);
  }

  /** One record decodes to the mesh it encodes, whatever follows it. */
  lemma ParseMeshEncode(m: MeshRecord, rest: seq<byte>)
    requires WellFormedMesh(m)
    ensures ParseMesh(EncodeMesh(m) + rest) == Some((m, rest))
  {
    var t3 := EncodeIndices(m.indices) + rest;
    var t2 := EncodeVertices(m.vertices) + t3;
    var counts := EncodeU64(|m.vertices|) + EncodeU64(|m.indices|);
    var t1 := counts + t2;
    var head := EncodeMaterial(m.material) + counts;
    assert Count64(|m.vertices|) == |m.vertices| && Count64(|m.indices|) == |m.indices|;
    calc {
      EncodeMesh(m) + rest;
      { Append3(head + EncodeVertices(m.vertices), EncodeIndices(m.indices), rest); }
      head + EncodeVertices(m.vertices) + t3;
      { Append3(head, EncodeVertices(m.vertices), t3); }
      head + t2;
      { Append3(EncodeMaterial(m.material), counts, t2); }
      EncodeMaterial(m.material) + t1;
    }
    ParseMaterialEncode(m.material, t1);
    ParseCountsEncode(|m.vertices|, |m.indices|, t2);
    ParseVerticesEncode(m.vertices, t3);
    ParseIndicesEncode(m.indices, rest);
  }

  lemma ParseMeshesEncode(ms: seq<MeshRecord>, rest: seq<byte>)
    requires WellFormedMeshes(ms)
    ensures ParseMeshes(|ms|, EncodeMeshes(ms) + rest) == Some((ms, rest))
  {
    forall i, r | 0 <= i < |ms|
      ensures ParseMesh(EncodeMesh(ms[i]) + r) == Some((ms[i], r))
    {
      ParseMeshEncode(ms[i], r);
    }
    ParseEncodeRepeated(ParseMesh, EncodeMesh, ms, rest);
  }

  /** The loader reads back exactly the meshes that were written, in order, and leaves any
      trailing bytes unread. */
  lemma ParseModelEncode(ms: seq<MeshRecord>, rest: seq<byte>)
    requires WellFormedModel(ms)
    ensures ParseModel(EncodeModel(ms) + rest) == Some((ms, rest))
  {
    assert Count64(|ms|) == |ms|;
    Append3(EncodeU64(|ms|), EncodeMeshes(ms), rest);
    ParseU64Encode(|ms|, EncodeMeshes(ms) + rest);
    ParseMeshesEncode(ms, rest);
  }

  /** Round trip for the layout `Model::init` reads. */
  lemma DecodeEncode(ms: seq<MeshRecord>)
    requires WellFormedModel(ms)
    ensures Decode(EncodeModel(ms)) == Some(ms)
  {
    ParseModelEncode(ms, []);
    assert EncodeModel(ms) + [] == EncodeModel(ms);
  }

  // ---------------------------------------------------------------- consumption

  lemma ParseMaterialConsumes(s: seq<byte>)
    requires ParseMaterial(s).Some?
    ensures s == EncodeMaterial(ParseMaterial(s).value.0) + ParseMaterial(s).value.1
  {
    var ws := DecodeWords(s[..MATERIAL_SIZE]);
    assert MaterialWords(MaterialFromWords(ws)) == ws;
    EncodeDecodeWords(s[..MATERIAL_SIZE]);
    assert s == s[..MATERIAL_SIZE] + s[MATERIAL_SIZE..];
  }

  lemma ParseVertexConsumes(s: seq<byte>)
    requires ParseVertex(s).Some?
    ensures s == EncodeVertex(ParseVertex(s).value.0) + ParseVertex(s).value.1
  {
    var ws := DecodeWords(s[..VERTEX_SIZE]);
    assert VertexWords(VertexFromWords(ws)) == ws;
    EncodeDecodeWords(s[..VERTEX_SIZE]);
    assert s == s[..VERTEX_SIZE] + s[VERTEX_SIZE..];
  }

  lemma ParseVerticesConsumes(n: nat, s: seq<byte>)
    requires ParseVertices(n, s).Some?
    ensures s == EncodeVertices(ParseVertices(n, s).value.0) + ParseVertices(n, s).value.1
  {
    forall t | ParseVertex(t).Some?
      ensures t == EncodeVertex(ParseVertex(t).value.0) + ParseVertex(t).value.1
    {
      ParseVertexConsumes(t);
    }
    ParseRepeatedConsumes(ParseVertex, EncodeVertex, n, s);
  }

  lemma ParseIndicesConsumes(n: nat, s: seq<byte>)
    requires ParseIndices(n, s).Some?
    ensures s == EncodeIndices(ParseIndices(n, s).value.0) + ParseIndices(n, s).value.1
  {
    forall t | ParseU32(t).Some?
      ensures t == EncodeU32(ParseU32(t).value.0) + ParseU32(t).value.1
    {
      ParseU32Consumes(t);
    }
    ParseRepeatedConsumes(ParseU32, EncodeU32, n, s);
  }

  lemma ParseCountsConsumes(s: seq<byte>)
    requires ParseCounts(s).Some?
    ensures s == EncodeU64(ParseCounts(s).value.0) + EncodeU64(ParseCounts(s).value.1)
                 + ParseCounts(s).value.2
  {
    ParseU64Consumes(s);
    ParseU64Consumes(ParseU64(s).value.1);
    Append3(EncodeU64(ParseCounts(s).value.0), EncodeU64(ParseCounts(s).value.1),
            ParseCounts(s).value.2);
  }

  /** A record the loader accepted re-encodes to exactly the bytes it consumed. */
  lemma ParseMeshConsumes(s: seq<byte>)
    requires ParseMesh(s).Some?
    ensures s == EncodeMesh(ParseMesh(s).value.0) + ParseMesh(s).value.1
  {
    var (mat, s1) := ParseMaterial(s).value;
    var (nv, ni, s2) := ParseCounts(s1).value;
    var (vs, s3) := ParseVertices(nv, s2).value;
    var (xs, s4) := ParseIndices(ni, s3).value;
    assert ParseMesh(s) == Some((MeshRecord(mat, vs, xs), s4));
    ParseMaterialConsumes(s);
    ParseCountsConsumes(s1);
    ParseVerticesConsumes(nv, s2);
    ParseIndicesConsumes(ni, s3);
    var head := EncodeMaterial(mat) + EncodeU64(nv) + EncodeU64(ni);
    assert Count64(|vs|) == nv && Count64(|xs|) == ni;
    calc {
      s;
      EncodeMaterial(mat) + (EncodeU64(nv) + EncodeU64(ni) + s2);
      { Append3(EncodeMaterial(mat), EncodeU64(nv) + EncodeU64(ni), s2); }
      head + (EncodeVertices(vs) + (EncodeIndices(xs) + s4));
      { Append3(head, EncodeVertices(vs), EncodeIndices(xs) + s4); }
      head + EncodeVertices(vs) + (EncodeIndices(xs) + s4);
      { Append3(head + EncodeVertices(vs), EncodeIndices(xs), s4); }
      EncodeMesh(MeshRecord(mat, vs, xs)) + s4;
    }
  }

  /** Every record the mesh loop accepts has counts that fit their `uint64` fields. */
  lemma ParseMeshesWellFormed(n: nat, s: seq<byte>)
    requires ParseMeshes(n, s).Some?
    ensures WellFormedMeshes(ParseMeshes(n, s).value.0)
  {
    ParseRepeatedAll(ParseMesh, WellFormedMesh, n, s);
  }

  lemma ParseMeshesConsumes(n: nat, s: seq<byte>)
    requires ParseMeshes(n, s).Some?
    ensures s == EncodeMeshes(ParseMeshes(n, s).value.0) + ParseMeshes(n, s).value.1
  {
    forall t | ParseMesh(t).Some?
      ensures t == EncodeMesh(ParseMesh(t).value.0) + ParseMesh(t).value.1
    {
      ParseMeshConsumes(t);
    }
    ParseRepeatedConsumes(ParseMesh, EncodeMesh, n, s);
  }

  /** Decoding never invents data: whatever the loader accepts is a well-formed model whose
      encoding is exactly the prefix of the stream it consumed. */
  lemma ParseModelConsumes(s: seq<byte>)
    requires ParseModel(s).Some?
    ensures WellFormedModel(ParseModel(s).value.0)
    ensures s == EncodeModel(ParseModel(s).value.0) + ParseModel(s).value.1
  {
    var (n, s1) := ParseU64(s).value;
    ParseU64Consumes(s);
    ParseMeshesWellFormed(n, s1);
    ParseMeshesConsumes(n, s1);
    var (ms, r) := ParseMeshes(n, s1).value;
    assert Count64(|ms|) == n;
    Append3(EncodeU64(n), EncodeMeshes(ms), r);
  }

  /** Bytes appended after an accepted stream are left unread. */
  lemma ParseModelExtend(s: seq<byte>, t: seq<byte>)
    requires ParseModel(s).Some?
    ensures ParseModel(s + t) == Some((ParseModel(s).value.0, ParseModel(s).value.1 + t))
  {
    var (ms, r) := ParseModel(s).value;
    ParseModelConsumes(s);
    Append3(EncodeModel(ms), r, t);
    ParseModelEncode(ms, r + t);
  }

  /** A valid file with any number of its final bytes removed is rejected: the loader cannot
      return a partially populated model from a truncated stream. */
  lemma DecodeRejectsTruncation(ms: seq<MeshRecord>, k: nat)
    requires WellFormedModel(ms)
    requires 0 < k <= |EncodeModel(ms)|
    ensures Decode(EncodeModel(ms)[..|EncodeModel(ms)| - k]) == None
  {
    var e := EncodeModel(ms);
    var p := e[..|e| - k];
    var dropped := e[|e| - k..];
    assert p + dropped == e;
    assert e + [] == e;
    ParseModelEncode(ms, []);
    if ParseModel(p).Some? {
      // Reading on would leave the dropped bytes unread, but the full file has none left.
      ParseModelExtend(p, dropped);
    }
  }
}
