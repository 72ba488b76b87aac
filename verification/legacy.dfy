/** The file the model exporter writes: a `uint64` vertex count, a `uint64` index count, the
    vertices (three position floats, then three normal floats each) and the `uint32`
    indices.  There is no mesh count and no material, so this is not the layout
    `Model::init` reads; it is a loader mesh record without its leading material. */
module Legacy {
  import opened Outcomes
  import opened Bytes
  import opened Bmf

  /** The flattened geometry the exporter writes, one vertex per position/normal pair. */
  datatype LegacyFile = LegacyFile(vertices: seq<Vertex>, indices: seq<uint32>)

  predicate WellFormedLegacy(f: LegacyFile)
  {
    |f.vertices| < U64_LIMIT && |f.indices| < U64_LIMIT
  }

  /** The writer: the two counts, the vertex loop, then the index loop. */
  function EncodeLegacy(f: LegacyFile): (bs: seq<byte>)
    ensures |bs| == 2 * COUNT_SIZE + VERTEX_SIZE * |f.vertices| + INDEX_SIZE * |f.indices|
  {
    EncodeU64(Count64(|f.vertices|)) + EncodeU64(Count64(|f.indices|))
      + EncodeVertices(f.vertices) + EncodeIndices(f.indices)
  }

  /** Reads the exporter's layout back: the counts, then that many vertices and indices. */
  function ParseLegacy(s: seq<byte>): (r: Option<(LegacyFile, seq<byte>)>)
    ensures r.Some? <==> |s| >= 2 * COUNT_SIZE
                         && |s| >= 2 * COUNT_SIZE + VERTEX_SIZE * FromLE(s[..8])
                                   + INDEX_SIZE * FromLE(s[8..16])
    ensures r.Some? ==> WellFormedLegacy(r.value.0)
                        && |r.value.0.vertices| == FromLE(s[..8])
                        && |r.value.0.indices| == FromLE(s[8..16])
  {
    match ParseCounts(s)
    case None => None
    case Some((nv, ni, s2)) =>
      LegacyCounts(s);
      match ParseVertices(nv, s2)
      case None => None
      case Some((vs, s3)) =>
        match ParseIndices(ni, s3)
        case None => None
        case Some((xs, s4)) => Some((LegacyFile(vs, xs), s4))
  }

  /** The two counts are the first sixteen bytes. */
  lemma LegacyCounts(s: seq<byte>)
    requires |s| >= 2 * COUNT_SIZE
    ensures ParseCounts(s).value.0 == FromLE(s[..8])
    ensures ParseCounts(s).value.1 == FromLE(s[8..16])
    ensures ParseCounts(s).value.2 == s[16..]
  {
    assert ParseU64(s).value.1[..8] == s[8..16];
  }

  /** Round trip for the exporter's layout, whatever follows the file's bytes. */
  lemma ParseLegacyEncode(f: LegacyFile, rest: seq<byte>)
    requires WellFormedLegacy(f)
    ensures ParseLegacy(EncodeLegacy(f) + rest) == Some((f, rest))
  {
    var t3 := EncodeIndices(f.indices) + rest;
    var t2 := EncodeVertices(f.vertices) + t3;
    var counts := EncodeU64(|f.vertices|) + EncodeU64(|f.indices|);
    assert Count64(|f.vertices|) == |f.vertices| && Count64(|f.indices|) == |f.indices|;
    calc {
      EncodeLegacy(f) + rest;
      { Append3(counts + EncodeVertices(f.vertices), EncodeIndices(f.indices), rest); }
      counts + EncodeVertices(f.vertices) + t3;
      { Append3(counts, EncodeVertices(f.vertices), t3); }
      counts + t2;
    }
    ParseCountsEncode(|f.vertices|, |f.indices|, t2);
    ParseVerticesEncode(f.vertices, t3);
    ParseIndicesEncode(f.indices, rest);
  }

  /** Whatever the reader accepts is exactly the encoding of what it returned. */
  lemma ParseLegacyConsumes(s: seq<byte>)
    requires ParseLegacy(s).Some?
    ensures s == EncodeLegacy(ParseLegacy(s).value.0) + ParseLegacy(s).value.1
  {
    var (nv, ni, s2) := ParseCounts(s).value;
    var (vs, s3) := ParseVertices(nv, s2).value;
    var (xs, s4) := ParseIndices(ni, s3).value;
    assert ParseLegacy(s) == Some((LegacyFile(vs, xs), s4));
    ParseCountsConsumes(s);
    ParseVerticesConsumes(nv, s2);
    ParseIndicesConsumes(ni, s3);
    var counts := EncodeU64(nv) + EncodeU64(ni);
    assert Count64(|vs|) == nv && Count64(|xs|) == ni;
    calc {
      s;
      counts + (EncodeVertices(vs) + (EncodeIndices(xs) + s4));
      { Append3(counts, EncodeVertices(vs), EncodeIndices(xs) + s4); }
      counts + EncodeVertices(vs) + (EncodeIndices(xs) + s4);
      { Append3(counts + EncodeVertices(vs), EncodeIndices(xs), s4); }
      EncodeLegacy(LegacyFile(vs, xs)) + s4;
    }
  }

  /** A loader mesh record is the material followed by exactly the exporter's bytes for the
      same geometry; the two layouts differ only by the material and the leading mesh count. */
  lemma MeshRecordIsMaterialThenLegacy(m: MeshRecord)
    ensures EncodeMesh(m) == EncodeMaterial(m.material) + EncodeLegacy(LegacyFile(m.vertices, m.indices))
  {
    var counts := EncodeU64(Count64(|m.vertices|)) + EncodeU64(Count64(|m.indices|));
    calc {
      EncodeMesh(m);
      EncodeMaterial(m.material) + counts + EncodeVertices(m.vertices) + EncodeIndices(m.indices);
      { Append3(EncodeMaterial(m.material), counts, EncodeVertices(m.vertices));
        Append3(EncodeMaterial(m.material), counts + EncodeVertices(m.vertices),
                EncodeIndices(m.indices)); }
      EncodeMaterial(m.material) + (counts + EncodeVertices(m.vertices) + EncodeIndices(m.indices));
    }
  }

  /** The checked decoder does not read an exporter file for what it holds.  A file with one
      vertex and no index has its vertex count taken for a mesh count, and then ends before
      the 40-byte material of that mesh, so it is rejected. */
  lemma LoaderRejectsLegacyFile(v: Vertex)
    ensures Decode(EncodeLegacy(LegacyFile([v], []))) == None
  {
    var bs := EncodeLegacy(LegacyFile([v], []));
    assert bs[..8] == EncodeU64(1);
    Pow256Limits();
    assert FromLE(bs[..8]) == 1;
    assert |bs[8..]| < MATERIAL_SIZE;
  }

  /** An exporter file of an empty scene, its two zero counts, is accepted: its vertex count
      of 0 is taken for a mesh count, and the checked decoder reads it as a model without
      meshes. */
  lemma LoaderReadsEmptyExportAsEmptyModel()
    ensures Decode(EncodeLegacy(LegacyFile([], []))) == Some([])
  {
    var bs := EncodeLegacy(LegacyFile([], []));
    assert bs[..8] == EncodeU64(0);
    Pow256Limits();
    assert FromLE(bs[..8]) == 0;
  }
}
