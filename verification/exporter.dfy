/** The offline model exporter: it flattens an imported scene into position, normal and
    index lists by a pre-order walk of the node tree, derives the output name from the
    input path, and writes the lists in the exporter's layout (module `Legacy`).  The
    import itself is a parameter: `Scene` is what the importer returned for the last
    command-line argument. */
module Exporter {
  import opened Outcomes
  import opened Bytes
  import opened Bmf
  import opened Legacy

  // ---------------------------------------------------------------- file names

  predicate IsSeparator(c: char)
  {
    c == '/' || c == '\\'
  }

  predicate NoSeparator(s: string)
  {
    forall j :: 0 <= j < |s| ==> !IsSeparator(s[j])
  }

  /** A position where a file name may start: the beginning, or just after a separator. */
  predicate NameBoundary(path: string, k: nat)
    requires k <= |path|
  {
    k == 0 || IsSeparator(path[k - 1])
  }

  /** The `getFilename` loop from index `i` on, where `start` is the position just past the
      last separator seen so far (initially the start of the string). */
  function NameStart(path: string, i: nat, start: nat): (k: nat)
    requires start <= i <= |path|
    requires NameBoundary(path, start)
    requires forall j :: start <= j < i ==> !IsSeparator(path[j])
    ensures start <= k <= |path|
    ensures NameBoundary(path, k)
    ensures forall j :: k <= j < |path| ==> !IsSeparator(path[j])
    decreases |path| - i
  {
    if i == |path| then start
    else if IsSeparator(path[i]) then NameStart(path, i + 1, i + 1)
    else NameStart(path, i + 1, start)
  }

  /** `getFilename`: the part of the path after its last `/` or `\`, or the whole path when
      it has neither. */
  function GetFilename(path: string): (name: string)
    ensures |name| <= |path| && name == path[|path| - |name|..]
    ensures NoSeparator(name)
    ensures NameBoundary(path, |path| - |name|)
  {
    path[NameStart(path, 0, 0)..]
  }

  /** The characterisation above has exactly one solution: any separator-free suffix that
      starts at a name boundary is the one `GetFilename` returns. */
  lemma GetFilenameUnique(path: string, k: nat)
    requires k <= |path| && NameBoundary(path, k)
    requires NoSeparator(path[k..])
    ensures GetFilename(path) == path[k..]
  {
  }

  /** The directory part of a path never affects the file name. */
  lemma GetFilenameAfterDirectory(dir: string, name: string)
    requires |dir| == 0 || IsSeparator(dir[|dir| - 1])
    requires NoSeparator(name)
    ensures GetFilename(dir + name) == name
  {
    var path := dir + name;
    assert path[|dir|..] == name;
    GetFilenameUnique(path, |dir|);
  }

  lemma GetFilenameIdempotent(path: string)
    ensures GetFilename(GetFilename(path)) == GetFilename(path)
  {
    GetFilenameUnique(GetFilename(path), 0);
  }

  /** `find_last_of(c)`: the index of the last `c`, or `None` for `npos`. */
  function LastIndexOf(s: string, c: char): (r: Option<nat>)
    ensures r.None? <==> c !in s
    ensures r.Some? ==> r.value < |s| && s[r.value] == c && c !in s[r.value + 1..]
  {
    if |s| == 0 then None
    else if s[|s| - 1] == c then Some(|s| - 1)
    else
      var r := LastIndexOf(s[..|s| - 1], c);
      assert r.Some? ==> s[..|s| - 1][r.value + 1..] + [s[|s| - 1]] == s[r.value + 1..];
      assert s == s[..|s| - 1] + [s[|s| - 1]];
      r
  }

  /** `substr(0, find_last_of('.'))`: the name up to its last dot, or the whole name when
      it has no dot. */
  function StripExtension(name: string): (stem: string)
    ensures stem <= name
    ensures stem == name <==> '.' !in name
    ensures '.' in name ==> name[|stem|] == '.' && '.' !in name[|stem| + 1..]
  {
    match LastIndexOf(name, '.')
    case None => name
    case Some(k) => name[..k]
  }

  /** The stem ends at whichever dot has no dot after it. */
  lemma StripExtensionAt(name: string, k: nat)
    requires k < |name| && name[k] == '.' && '.' !in name[k + 1..]
    ensures StripExtension(name) == name[..k]
  {
    var j := LastIndexOf(name, '.').value;
    forall i | k < i < |name| ensures name[i] != '.' {
      assert name[k + 1..][i - k - 1] == name[i];
    }
    forall i | j < i < |name| ensures name[i] != '.' {
      assert name[j + 1..][i - j - 1] == name[i];
    }
  }

  const BMF_EXTENSION: string := ".bmf"

  /** The output file name: the input's file name without its last extension, plus ".bmf". */
  function OutputFilename(path: string): (out: string)
    ensures |out| >= |BMF_EXTENSION| && out[|out| - |BMF_EXTENSION|..] == BMF_EXTENSION
    ensures NoSeparator(out)
  {
    var name := GetFilename(path);
    var stem := StripExtension(name);
    WithExtension(name, stem);
    stem + BMF_EXTENSION
  }

  /** A prefix of a separator-free name, with ".bmf" appended, is a separator-free name
      ending in ".bmf". */
  lemma WithExtension(name: string, stem: string)
    requires NoSeparator(name) && stem <= name
    ensures var out := stem + BMF_EXTENSION;
            |out| >= |BMF_EXTENSION| && out[|out| - |BMF_EXTENSION|..] == BMF_EXTENSION
            && NoSeparator(out)
  {
    var out := stem + BMF_EXTENSION;
    forall j | 0 <= j < |out| ensures !IsSeparator(out[j]) {
      if j < |stem| {
        assert out[j] == name[j];
      } else {
        assert out[j] == BMF_EXTENSION[j - |stem|];
      }
    }
    assert out[|stem|..] == BMF_EXTENSION;
  }

  /** Dots in directory names are ignored: the output name depends only on the file name. */
  lemma OutputFilenameIgnoresDirectory(dir: string, name: string)
    requires |dir| == 0 || IsSeparator(dir[|dir| - 1])
    requires NoSeparator(name)
    ensures OutputFilename(dir + name) == OutputFilename(name)
  {
    GetFilenameAfterDirectory(dir, name);
    GetFilenameAfterDirectory([], name);
    assert [] + name == name;
  }

  /** A dot in a directory name is ignored and only the file's extension is cut. */
  lemma OutputFilenameDottedDirectory(dir: string, name: string)
    requires dir == "assets/v1.2/" && name == "sponza.obj"
    ensures OutputFilename(dir + name) == "sponza.bmf"
  {
    GetFilenameAfterDirectory(dir, name);
    assert name[7..] == "obj";
    StripExtensionAt(name, 6);
    assert name[..6] == "sponza";
  }

  /** A file name without a dot is kept whole. */
  lemma OutputFilenameNoExtension(path: string)
    requires path == "C:\\models\\tree"
    ensures OutputFilename(path) == "tree.bmf"
  {
    GetFilenameAfterDirectory("C:\\models\\", "tree");
    assert "C:\\models\\" + "tree" == path;
  }

  /** Only the last of several extensions is cut. */
  lemma OutputFilenameDoubleExtension(path: string)
    requires path == "archive.tar.gz"
    ensures OutputFilename(path) == "archive.tar.bmf"
  {
    var name := path;
    GetFilenameAfterDirectory("", name);
    assert "" + name == name;
    assert name[12..] == "gz";
    StripExtensionAt(name, 11);
    assert name[..11] + BMF_EXTENSION == "archive.tar.bmf";
  }

  // ---------------------------------------------------------------- the scene

  /** A face of an imported mesh: the vertex indices it references. */
  datatype Face = Face(indices: seq<uint32>)

  /** An imported mesh: per-vertex positions and normals, and its faces. */
  datatype SourceMesh = SourceMesh(positions: seq<Vec3>, normals: seq<Vec3>, faces: seq<Face>)

  /** A scene node: indices into the scene's mesh array, then the child nodes. */
  datatype Node = Node(meshes: seq<nat>, children: seq<Node>)

  datatype Scene = Scene(meshes: seq<SourceMesh>, root: Node)

  /** The three global lists the exporter accumulates. */
  datatype Buffers = Buffers(positions: seq<Vec3>, normals: seq<Vec3>, indices: seq<uint32>)

  const EMPTY_BUFFERS: Buffers := Buffers([], [], [])

  /** Every vertex has a normal.  The normal-generating import step provides normals for
      meshes with faces of three or more vertices; a mesh of points or lines keeps no normals,
      and `processMesh` would dereference the missing normal array, so such meshes are
      outside the model. */
  predicate HasNormals(m: SourceMesh)
  {
    |m.normals| >= |m.positions|
  }

  /** Every mesh index of the node and its descendants names a mesh of the scene. */
  predicate ValidNode(node: Node, count: nat)
  {
    (forall i :: 0 <= i < |node.meshes| ==> node.meshes[i] < count)
    && (forall k :: 0 <= k < |node.children| ==> ValidNode(node.children[k], count))
  }

  predicate ValidScene(scene: Scene)
  {
    (forall i :: 0 <= i < |scene.meshes| ==> HasNormals(scene.meshes[i]))
    && ValidNode(scene.root, |scene.meshes|)
  }

  /** Every face is a triangle, as the triangulating import step guarantees. */
  predicate AllTriangles(faces: seq<Face>)
  {
    forall i :: 0 <= i < |faces| ==> |faces[i].indices| == 3
  }

  predicate Aligned(b: Buffers)
  {
    |b.positions| == |b.normals|
  }

  // ---------------------------------------------------------------- traversal

  /** The face loop: every face's indices, face after face. */
  function FaceIndices(faces: seq<Face>): (r: seq<uint32>)
    ensures forall i, j :: 0 <= i < |faces| && 0 <= j < |faces[i].indices| ==>
              faces[i].indices[j] in r
    ensures forall x :: x in r ==> exists i :: 0 <= i < |faces| && x in faces[i].indices
  {
    if |faces| == 0 then [] else faces[0].indices + FaceIndices(faces[1..])
  }

  /** `processMesh`: appends every vertex's position and normal, then every face's indices
      unchanged. */
  function ProcessMesh(b: Buffers, m: SourceMesh): (r: Buffers)
    requires HasNormals(m)
    ensures r.positions == b.positions + m.positions
    ensures |r.normals| == |b.normals| + |m.positions| && b.normals <= r.normals
    ensures forall i :: 0 <= i < |m.positions| ==> r.normals[|b.normals| + i] == m.normals[i]
    ensures Aligned(b) ==> Aligned(r)
    ensures b.indices <= r.indices && r.indices[|b.indices|..] == FaceIndices(m.faces)
  {
    Buffers(b.positions + m.positions, b.normals + m.normals[..|m.positions|],
            b.indices + FaceIndices(m.faces))
  }

  /** With triangles only, each face contributes three indices, in order and unchanged. */
  lemma {:induction false} TriangleIndices(faces: seq<Face>)
    requires AllTriangles(faces)
    ensures |FaceIndices(faces)| == 3 * |faces|
    ensures forall i, j :: 0 <= i < |faces| && 0 <= j < 3 ==>
              FaceIndices(faces)[3 * i + j] == faces[i].indices[j]
  {
    if |faces| > 0 {
      assert AllTriangles(faces[1..]);
      TriangleIndices(faces[1..]);
      forall i, j | 0 <= i < |faces| && 0 <= j < 3
        ensures FaceIndices(faces)[3 * i + j] == faces[i].indices[j]
      {
        if i > 0 {
          assert FaceIndices(faces)[3 * i + j] == FaceIndices(faces[1..])[3 * (i - 1) + j];
        }
      }
    }
  }

  /** The indices are copied, not shifted by the number of vertices already collected: a
      mesh's indices come out the same whatever was exported before it. */
  lemma IndicesNotRebased(b: Buffers, c: Buffers, m: SourceMesh)
    requires HasNormals(m)
    ensures ProcessMesh(b, m).indices[|b.indices|..] == ProcessMesh(c, m).indices[|c.indices|..]
  {
    assert ProcessMesh(b, m).indices[|b.indices|..] == FaceIndices(m.faces);
    assert ProcessMesh(c, m).indices[|c.indices|..] == FaceIndices(m.faces);
  }

  /** With triangles only, the index count stays a multiple of three. */
  lemma ProcessMeshKeepsTriangles(b: Buffers, m: SourceMesh)
    requires HasNormals(m) && AllTriangles(m.faces)
    requires |b.indices| % 3 == 0
    ensures |ProcessMesh(b, m).indices| % 3 == 0
    ensures |ProcessMesh(b, m).indices| == |b.indices| + 3 * |m.faces|
  {
    var added := FaceIndices(m.faces);
    TriangleIndices(m.faces);
    assert |added| == 3 * |m.faces|;
    assert ProcessMesh(b, m).indices == b.indices + added;
  }

  predicate MeshIdsValid(scene: Scene, ids: seq<nat>)
  {
    (forall i :: 0 <= i < |scene.meshes| ==> HasNormals(scene.meshes[i]))
    && (forall k :: 0 <= k < |ids| ==> ids[k] < |scene.meshes|)
  }

  /** The meshes named by `ids`, processed in that order. */
  function ProcessMeshList(b: Buffers, scene: Scene, ids: seq<nat>): (r: Buffers)
    requires MeshIdsValid(scene, ids)
    ensures b.positions <= r.positions && b.normals <= r.normals && b.indices <= r.indices
    ensures Aligned(b) ==> Aligned(r)
    decreases |ids|
  {
    if |ids| == 0 then b
    else ProcessMeshList(ProcessMesh(b, scene.meshes[ids[0]]), scene, ids[1..])
  }

  /** `processNode`: the node's own meshes in order, then each child subtree in order. */
  function ProcessNode(b: Buffers, scene: Scene, node: Node): (r: Buffers)
    requires ValidScene(scene) && ValidNode(node, |scene.meshes|)
    ensures Aligned(b) ==> Aligned(r)
    decreases node, 1
  {
    ProcessChildren(ProcessMeshList(b, scene, node.meshes), scene, node.children)
  }

  function ProcessChildren(b: Buffers, scene: Scene, children: seq<Node>): (r: Buffers)
    requires ValidScene(scene)
    requires forall k :: 0 <= k < |children| ==> ValidNode(children[k], |scene.meshes|)
    ensures Aligned(b) ==> Aligned(r)
    decreases children, 0
  {
    if |children| == 0 then b
    else ProcessChildren(ProcessNode(b, scene, children[0]), scene, children[1..])
  }

  /** The reference order: a node's mesh indices, then its children's, depth first. */
  function PreOrder(node: Node): seq<nat>
    decreases node, 1
  {
    node.meshes + ChildrenPreOrder(node.children)
  }

  function ChildrenPreOrder(children: seq<Node>): seq<nat>
    decreases children, 0
  {
    if |children| == 0 then [] else PreOrder(children[0]) + ChildrenPreOrder(children[1..])
  }

  lemma {:induction false} PreOrderValid(scene: Scene, node: Node)
    requires ValidScene(scene) && ValidNode(node, |scene.meshes|)
    ensures MeshIdsValid(scene, PreOrder(node))
    decreases node, 1
  {
    ChildrenPreOrderValid(scene, node.children);
  }

  lemma {:induction false} ChildrenPreOrderValid(scene: Scene, children: seq<Node>)
    requires ValidScene(scene)
    requires forall k :: 0 <= k < |children| ==> ValidNode(children[k], |scene.meshes|)
    ensures MeshIdsValid(scene, ChildrenPreOrder(children))
    decreases children, 0
  {
    if |children| > 0 {
      PreOrderValid(scene, children[0]);
      ChildrenPreOrderValid(scene, children[1..]);
    }
  }

  /** Processing two lists of meshes one after the other is processing their concatenation. */
  lemma {:induction false} ProcessMeshListAppend(b: Buffers, scene: Scene, xs: seq<nat>, ys: seq<nat>)
    requires MeshIdsValid(scene, xs) && MeshIdsValid(scene, ys)
    ensures MeshIdsValid(scene, xs + ys)
    ensures ProcessMeshList(b, scene, xs + ys)
            == ProcessMeshList(ProcessMeshList(b, scene, xs), scene, ys)
    decreases |xs|
  {
    if |xs| > 0 {
      assert (xs + ys)[1..] == xs[1..] + ys;
      ProcessMeshListAppend(ProcessMesh(b, scene.meshes[xs[0]]), scene, xs[1..], ys);
    } else {
      assert xs + ys == ys;
    }
  }

  /** `processNode` visits exactly the meshes of the pre-order listing, in that order. */
  lemma {:induction false} ProcessNodeIsPreOrder(b: Buffers, scene: Scene, node: Node)
    requires ValidScene(scene) && ValidNode(node, |scene.meshes|)
    ensures MeshIdsValid(scene, PreOrder(node))
    ensures ProcessNode(b, scene, node) == ProcessMeshList(b, scene, PreOrder(node))
    decreases node, 1
  {
    ChildrenPreOrderValid(scene, node.children);
    ProcessChildrenIsPreOrder(ProcessMeshList(b, scene, node.meshes), scene, node.children);
    ProcessMeshListAppend(b, scene, node.meshes, ChildrenPreOrder(node.children));
  }

  lemma {:induction false} ProcessChildrenIsPreOrder(b: Buffers, scene: Scene, children: seq<Node>)
    requires ValidScene(scene)
    requires forall k :: 0 <= k < |children| ==> ValidNode(children[k], |scene.meshes|)
    ensures MeshIdsValid(scene, ChildrenPreOrder(children))
    ensures ProcessChildren(b, scene, children) == ProcessMeshList(b, scene, ChildrenPreOrder(children))
    decreases children, 0
  {
    ChildrenPreOrderValid(scene, children);
    if |children| > 0 {
      var first := children[0];
      ProcessNodeIsPreOrder(b, scene, first);
      ProcessChildrenIsPreOrder(ProcessNode(b, scene, first), scene, children[1..]);
      ChildrenPreOrderValid(scene, children[1..]);
      ProcessMeshListAppend(b, scene, PreOrder(first), ChildrenPreOrder(children[1..]));
    } else {
      assert ChildrenPreOrder(children) == [];
    }
  }

  // ---------------------------------------------------------------- writer and main

  /** The vertex loop of the writer pairs position `i` with normal `i`. */
  function ExportFile(b: Buffers): (f: LegacyFile)
    requires Aligned(b)
    ensures |f.vertices| == |b.positions| && f.indices == b.indices
    ensures forall i :: 0 <= i < |b.positions| ==>
              f.vertices[i].position == b.positions[i] && f.vertices[i].normal == b.normals[i]
  {
    LegacyFile(seq(|b.positions|, i requires 0 <= i < |b.positions| => Vertex(b.positions[i], b.normals[i])),
               b.indices)
  }

  /** The bytes written for the collected lists. */
  function WriteBmf(b: Buffers): (bs: seq<byte>)
    requires Aligned(b)
    ensures |bs| == 2 * COUNT_SIZE + VERTEX_SIZE * |b.positions| + INDEX_SIZE * |b.indices|
  {
    EncodeLegacy(ExportFile(b))
  }

  /** Reading the written file back gives the collected positions, normals and indices. */
  lemma WriteBmfReadsBack(b: Buffers)
    requires Aligned(b) && |b.positions| < U64_LIMIT && |b.indices| < U64_LIMIT
    ensures ParseLegacy(WriteBmf(b)).Some?
    ensures var f := ParseLegacy(WriteBmf(b)).value.0;
            |f.vertices| == |b.positions| && f.indices == b.indices
            && (forall i :: 0 <= i < |b.positions| ==>
                  f.vertices[i].position == b.positions[i] && f.vertices[i].normal == b.normals[i])
  {
    ParseLegacyEncode(ExportFile(b), []);
    assert WriteBmf(b) + [] == WriteBmf(b);
  }

  /** What the exporter leaves behind: its exit code and the file it wrote, if any. */
  datatype ExitStatus = ExitStatus(code: int, written: Option<(string, seq<byte>)>)

  /** `main`: with fewer than two arguments it prints the usage and fails; otherwise it
      flattens the imported scene and writes it into the working directory under the
      derived name. */
  function ExportMain(args: seq<string>, scene: Scene): (r: ExitStatus)
    requires |args| >= 2 ==> ValidScene(scene)
    ensures r.code == 0 || r.code == 1
    ensures r.written.None? <==> r.code == 1
    ensures r.written.Some? ==> NoSeparator(r.written.value.0)
  {
    if |args| < 2 then ExitStatus(1, None)
    else
      var b := ProcessNode(EMPTY_BUFFERS, scene, scene.root);
      ExitStatus(0, Some((OutputFilename(args[|args| - 1]), WriteBmf(b))))
  }

  /** Fewer than two arguments: exit code 1 and nothing written. */
  lemma ExportMainUsage(args: seq<string>, scene: Scene)
    requires |args| < 2
    ensures ExportMain(args, scene) == ExitStatus(1, None)
  {
  }

  /** Otherwise the file, named after the last argument, holds the scene's meshes in
      pre-order, read back exactly. */
  lemma ExportMainWritesScene(args: seq<string>, scene: Scene)
    requires |args| >= 2 && ValidScene(scene)
    ensures MeshIdsValid(scene, PreOrder(scene.root))
    ensures var b := ProcessMeshList(EMPTY_BUFFERS, scene, PreOrder(scene.root));
            ExportMain(args, scene)
              == ExitStatus(0, Some((OutputFilename(args[|args| - 1]), WriteBmf(b))))
  {
    ProcessNodeIsPreOrder(EMPTY_BUFFERS, scene, scene.root);
  }
}
