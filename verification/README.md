# OpenGLTutorial model files and text batching, in Dafny

This project models three pieces of logic from the OpenGL tutorial engine and proves properties about them.

- **The `.bmf` model loader** (`Model::init` and the `Mesh` constructor in `mesh.h`). The file is little-endian. It starts with a `u64` mesh count. Each mesh then holds:
  - a 40-byte material (three `vec3` and one `float`);
  - a `u64` vertex count and a `u64` index count;
  - that many vertices of six floats each, position then normal;
  - that many `u32` indices.

  Module `Bmf` defines the encoder and a checked decoder for this layout. Module `Loader` builds meshes from the decoded records and appends them to the model.
- **The offline exporter** (`tools/modelexporter.cpp`), in modules `Exporter` and `Legacy`:
  - the file-name functions;
  - the pre-order flattening of the imported node tree into position, normal and index lists;
  - the writer.

  The writer emits an older layout: two `u64` counts, the vertices, then the indices. It has no mesh count and no material. That is exactly a loader mesh record without its material (`Legacy.MeshRecordIsMaterialThenLegacy`). The checked decoder takes the exporter's vertex count for a mesh count: it rejects the file of one vertex and no indices (`Legacy.LoaderRejectsLegacyFile`), and reads the 16-byte file of an empty scene as a model without meshes (`Legacy.LoaderReadsEmptyExportAsEmptyModel`). Each layout has its own round trip. Face indices are copied verbatim, without a per-mesh offset; the model keeps this behaviour (`Exporter.IndicesNotRebased`).
- **Text batching** (`Font::drawString` in `font.h`), in module `Font`:
  - every character with code 32..127 becomes six vertices, two triangles of a glyph quad;
  - the CPU vertex buffer grows to the string's length.

  The glyph lookup of `stb_truetype` is a function parameter. `Font.DrawString` is a loop whose invariants tie the buffer to the reference layout `Font.Layout`.

Shared parts:
- Floats are opaque 32-bit words (`Bytes.Float32`) that are copied byte for byte.
- Byte strings are `seq<byte>`.
- Module `Records` defines, once, the "read `n` records back to back" loop. The vertex, index and mesh loops all use it.

## Model

| member | source | states |
|---|---|---|
| Bytes.ToLE | mesh.h:67 | An integer below 256^n is stored as n bytes whose little-endian value is that integer. |
| Bytes.ToLEFromLE | mesh.h:67 | Every byte string is the little-endian encoding of its own value, so bytes and counts correspond one to one. |
| Bytes.ParseU64 | mesh.h:67 | An 8-byte count read succeeds exactly when 8 bytes remain. |
| Bytes.ParseU64Encode | mesh.h:67 | A `u64` read back from its 8 bytes is the value written, and the following bytes are left unread. |
| Bytes.ParseU64Consumes | mesh.h:67 | A successful `u64` read consumed exactly the encoding of the value it returned. |
| Bytes.ParseU32 | mesh.h:92 | A 4-byte index read succeeds exactly when 4 bytes remain. |
| Bytes.ParseU32Encode | mesh.h:92 | A `u32` read back from its 4 bytes is the value written, and the rest is left. |
| Bytes.ParseU32Consumes | mesh.h:92 | A successful `u32` read consumed exactly the encoding of its value. |
| Bytes.DecodeEncodeWords | mesh.h:82-87 | Float words written as bytes read back unchanged. |
| Bytes.EncodeDecodeWords | mesh.h:82-87 | Any byte string of whole words re-encodes to itself after decoding, so no float bit pattern is altered. |
| Bytes.DecodeWordsAt | mesh.h:82-87 | Word k of a decoded run is the 4 bytes at offset 4k. |
| Bytes.Narrow32 | vertex_buffer.h:7 | Passing a `uint64` count to the `uint32` parameter of `VertexBuffer`, as of `IndexBuffer` (index_buffer.h:7) and as in `uint32 len = strlen(text)` (font.h:52), keeps values below 2^32 and otherwise loses a multiple of 2^32. |
| Records.ParseRepeated | mesh.h:69 | A loop with count n that succeeds returns exactly n records. |
| Records.EncodeRepeatedLength | mesh.h:80-94 | n records of a fixed size take size times n bytes. |
| Records.ParseEncodeRepeated | mesh.h:80-94 | When each record reads back, whatever follows it, so does any run of them, in order. |
| Records.ParseRepeatedConsumes | mesh.h:80-94 | A run the loop accepts is exactly the encoding of the records it returned, followed by the unread rest. |
| Records.ParseRepeatedAll | mesh.h:69 | Every record of an accepted run satisfies what the single-record reader guarantees. |
| Records.ParseRepeatedFixed | mesh.h:80-94 | For fixed-size records, n records can be read exactly when size times n bytes remain; the run ends at that offset. |
| Records.ParseRepeatedAt | mesh.h:80-94 | For fixed-size records, record j of the result is the record at byte size times j, so records are appended in read order. |
| Bmf.EncodeMaterial | mesh.h:10-15 | A material occupies 40 bytes. |
| Bmf.EncodeVertex | mesh.h:82-87 | A vertex occupies 24 bytes. |
| Bmf.EncodeMesh | mesh.h:76-94 | A mesh record occupies 40 + 16 + 24·nv + 4·ni bytes. |
| Bmf.EncodeMeshesLength | mesh.h:69-94 | Mesh records written back to back take the sum of their sizes. |
| Bmf.EncodeModel | mesh.h:67-94 | A model file is 8 + Σ(40 + 16 + 24·nv + 4·ni) bytes long. |
| Bmf.ParseMaterial | mesh.h:76 | The material read succeeds exactly when 40 bytes remain. |
| Bmf.ParseVertex | mesh.h:80-89 | A vertex read succeeds exactly when 24 bytes remain, and consumes exactly 24. |
| Bmf.ParseVertices | mesh.h:80-89 | n vertices can be read exactly when 24·n bytes remain; exactly n are returned and reading resumes at byte 24·n. |
| Bmf.ParseIndices | mesh.h:90-94 | n indices can be read exactly when 4·n bytes remain; exactly n are returned and reading resumes at byte 4·n. |
| Bmf.ParseCounts | mesh.h:77-78 | The two counts can be read exactly when 16 bytes remain. |
| Bmf.ParseMesh | mesh.h:76-94 | Every mesh record the reader accepts has vertex and index counts that fit a `u64`. |
| Bmf.ParseMeshes | mesh.h:69 | A successful mesh loop returns exactly as many meshes as the count. |
| Bmf.ParseModel | mesh.h:67-69 | A decoded model has exactly as many meshes as the leading `u64` says. |
| Bmf.ParseMaterialLayout | mesh.h:10-15 | The material is diffuse, specular, emissive and shininess, in words 0 to 9. Reading resumes after byte 40. |
| Bmf.ParseVertexLayout | mesh.h:82-87 | A vertex is position x, y, z then normal x, y, z, in words 0 to 5. |
| Bmf.ParseVerticesLayout | mesh.h:80-89 | Vertex j of a mesh is the vertex at byte 24·j of the vertex block. |
| Bmf.ParseIndicesLayout | mesh.h:90-94 | Index j is the little-endian `u32` at byte 4·j of the index block. |
| Bmf.ParseMeshLayout | mesh.h:76-94 | A mesh record is laid out as: material at byte 0, vertex count at 40, index count at 48, vertices from 56, then the indices. The next record starts right after the indices. |
| Bmf.ParseMaterialEncode | mesh.h:76 | A material reads back from its bytes, whatever follows. |
| Bmf.ParseVertexEncode | mesh.h:80-89 | A vertex reads back from its bytes, whatever follows. |
| Bmf.ParseVerticesEncode | mesh.h:80-89 | A vertex list reads back from its bytes, in order. |
| Bmf.ParseIndicesEncode | mesh.h:90-94 | An index list reads back from its bytes, in order. |
| Bmf.ParseCountsEncode | mesh.h:77-78 | The two counts read back from their 16 bytes. |
| Bmf.ParseMeshEncode | mesh.h:76-94 | A well-formed mesh record reads back from its bytes, whatever follows. |
| Bmf.ParseMeshesEncode | mesh.h:69-97 | Well-formed mesh records read back from their bytes, in order. |
| Bmf.ParseModelEncode | mesh.h:67-97 | A well-formed model reads back from its bytes, and any trailing bytes are left unread. |
| Bmf.Decode | mesh.h:67-97 | A file shorter than its 8-byte mesh count is rejected; an accepted file yields exactly as many meshes as that count says. |
| Bmf.DecodeEncode | mesh.h:67-97 | Decoding the encoding of a well-formed model gives that model. |
| Bmf.ParseMaterialConsumes | mesh.h:76 | An accepted material read consumed exactly the material's encoding. |
| Bmf.ParseVertexConsumes | mesh.h:80-89 | An accepted vertex read consumed exactly the vertex's encoding. |
| Bmf.ParseVerticesConsumes | mesh.h:80-89 | An accepted vertex block is exactly the encoding of the vertices returned. |
| Bmf.ParseIndicesConsumes | mesh.h:90-94 | An accepted index block is exactly the encoding of the indices returned. |
| Bmf.ParseCountsConsumes | mesh.h:77-78 | Accepted counts are exactly the encoding of the two values returned. |
| Bmf.ParseMeshConsumes | mesh.h:76-94 | An accepted mesh record is exactly the encoding of the record returned. |
| Bmf.ParseMeshesWellFormed | mesh.h:69-97 | Every mesh of an accepted mesh loop is well formed. |
| Bmf.ParseMeshesConsumes | mesh.h:69-94 | The bytes of an accepted mesh loop are exactly the encoding of the meshes returned. |
| Bmf.ParseModelConsumes | mesh.h:67-94 | Whatever the decoder accepts is a well-formed model. The bytes it consumed are exactly that model's encoding. |
| Bmf.ParseModelExtend | mesh.h:67-94 | Bytes appended after an accepted model change nothing that is read. |
| Bmf.DecodeRejectsTruncation | mesh.h:67-94 | Removing any non-empty tail from an encoded model makes the checked decoder fail. |
| Loader.NewMesh | mesh.h:19-25 | The mesh stores its material unchanged and keeps the 64-bit index count it draws with. The vertex buffer holds the first `numVertices` vertices modulo 2^32. The index buffer holds the first `numIndices` modulo 2^30 indices. |
| Loader.UploadedIndexCount | index_buffer.h:7-10 | The index buffer's byte size `numIndices * elementSize` is a `uint32` product of the narrowed count, so it holds the count modulo 2^30 in whole indices, never more than the narrowed count. |
| Loader.IndexBufferSizeWraps | index_buffer.h:10 | A mesh of 2^30 indices draws 2^30 indices from an index buffer that received none. |
| Loader.ToMesh | mesh.h:96 | The mesh built from a record keeps its material and its full index count. Its buffers hold the first vertices modulo 2^32 and the first indices modulo 2^30 of the record. |
| Loader.ToMeshKeepsSmallMeshes | mesh.h:96 | For fewer than 2^32 vertices and 2^30 indices, the constructed mesh holds exactly the record's vertices and indices. |
| Loader.Upload | mesh.h:69-97 | One mesh per record, in file order: mesh i is the `Mesh` constructed from record i, so its buffers hold that record's vertices and indices (as `Loader.ToMesh` states), with its material and index count. |
| Loader.Load | mesh.h:59-94 | The corrected reading of the Findings row for mesh.h:67-97: `FileNotFound` exactly when the file cannot be opened; `TruncatedStream` exactly when decoding fails, where the source reads on; otherwise the decoded records. |
| Loader.Init | mesh.h:59-99 | The corrected `Model::init` of the Findings row for mesh.h:67-97. A missing or truncated file leaves the model's meshes unchanged. Otherwise existing meshes stay in front, followed by exactly the meshes uploaded from the decoded records, `numMeshes` of them. |
| Loader.InitLoadsEncodedModel | mesh.h:67-97 | Loading an encoded model appends exactly its meshes, in file order, after the existing ones. |
| Loader.InitIgnoresTruncatedFile | mesh.h:67-94 | The corrected loader adds nothing for a truncated file. |
| Loader.StreamRead | mesh.h:67 | A read on a good stream with n bytes left copies those n bytes and stays good. With fewer left it copies what is left and fails with nothing left. A failed stream copies nothing and is returned unchanged. |
| Loader.ReadCount | mesh.h:67 | A count read on a good stream with 8 bytes left is the `u64` the checked decoder reads there, and the stream stays good. With fewer left, the count holds the bytes that arrived in its low bytes and the stream fails. A failed stream leaves the count at 0. |
| Loader.MeshShapesAsWritten | mesh.h:69-94 | The unchecked mesh loop always constructs n meshes, whatever the stream state. |
| Loader.LoadShapesAsWritten | mesh.h:67-69 | The loader as written constructs as many meshes as the possibly partial leading count says. |
| Loader.SkipReads | mesh.h:80-94 | Unchecked reads leave a suffix of the data, and a failed stream unchanged. A stream they make fail has nothing left. |
| Loader.SkipReadsIntact | mesh.h:80-94 | On an intact stream the unchecked vertex and index reads skip exactly size·count bytes. |
| Loader.MeshReadsAsWritten | mesh.h:76-94 | On one mesh written in this layout, the unchecked reads deliver its vertex and index counts and stop right after its indices. |
| Loader.MeshShapesAsWrittenStep | mesh.h:69-96 | On one mesh written in this layout, the unchecked loop constructs a mesh of its shape and goes on with the next bytes. |
| Loader.MeshShapesAsWrittenOnEncoding | mesh.h:69-94 | On the bytes of well-formed records, the unchecked loop sees the same counts as the checked decoder. |
| Loader.AsWrittenAgreesOnEncodedModel | mesh.h:67-97 | On an encoded model, the as-written and corrected loaders build meshes of the same shapes. |
| Loader.UncheckedReadAcceptsTruncatedFile | mesh.h:67-97 | On an 8-byte file holding only the count 1, the loader as written builds a mesh with no vertices or indices, while the checked loader rejects the file. |
| Legacy.EncodeLegacy | tools/modelexporter.cpp:89-104 | The exporter's file is 16 + 24·nv + 4·ni bytes long. |
| Legacy.ParseLegacy | tools/modelexporter.cpp:89-104 | The exporter's layout reads back exactly when the length covers both counts and the data. The vertex and index counts are bytes 0-8 and 8-16. |
| Legacy.ParseLegacyEncode | tools/modelexporter.cpp:89-104 | An exporter file reads back to the vertices and indices written, whatever follows. |
| Legacy.ParseLegacyConsumes | tools/modelexporter.cpp:89-104 | An accepted exporter file is exactly the encoding of what was read. |
| Legacy.MeshRecordIsMaterialThenLegacy | mesh.h:76-94 | A loader mesh record is the 40-byte material followed by exactly the exporter's bytes for the same geometry. |
| Legacy.LoaderRejectsLegacyFile | tools/modelexporter.cpp:89-92 | The checked decoder reads the exporter's vertex count as a mesh count, then runs out of bytes inside the 40-byte material, so it rejects the exporter file of one vertex and no indices. |
| Legacy.LoaderReadsEmptyExportAsEmptyModel | tools/modelexporter.cpp:89-92 | The exporter file of an empty scene, two zero counts, is accepted by the checked decoder as a model without meshes. |
| Exporter.NameStart | tools/modelexporter.cpp:57-61 | The scan stops at a name boundary with no separator after it. |
| Exporter.GetFilename | tools/modelexporter.cpp:54-63 | The result is a suffix of the path with no `/` or `\`. It starts at the path's start or right after a separator. |
| Exporter.GetFilenameUnique | tools/modelexporter.cpp:54-63 | That suffix is the only one with these properties: everything after the last separator. |
| Exporter.GetFilenameAfterDirectory | tools/modelexporter.cpp:54-63 | A name after any directory prefix ending in a separator is returned unchanged. |
| Exporter.GetFilenameIdempotent | tools/modelexporter.cpp:54-63 | Taking the file name twice changes nothing. |
| Exporter.LastIndexOf | tools/modelexporter.cpp:84 | The result is absent exactly when the character is absent. Otherwise it is a position holding the character, with no later occurrence. |
| Exporter.StripExtension | tools/modelexporter.cpp:84 | The stem is a prefix of the name, and equals it exactly when there is no `.`. Otherwise the stem stops at the last `.`. |
| Exporter.StripExtensionAt | tools/modelexporter.cpp:84 | The stem ends at the dot that has no dot after it. |
| Exporter.OutputFilename | tools/modelexporter.cpp:83-85 | The output name ends in `.bmf` and contains no separator. |
| Exporter.OutputFilenameIgnoresDirectory | tools/modelexporter.cpp:83-85 | The directory part of the input, dots included, does not affect the output name. |
| Exporter.OutputFilenameDottedDirectory | tools/modelexporter.cpp:83-85 | `assets/v1.2/sponza.obj` becomes `sponza.bmf`. |
| Exporter.OutputFilenameNoExtension | tools/modelexporter.cpp:83-85 | `C:\models\tree` becomes `tree.bmf`. |
| Exporter.OutputFilenameDoubleExtension | tools/modelexporter.cpp:83-85 | Only the last extension is cut: `archive.tar.gz` becomes `archive.tar.bmf`. |
| Exporter.FaceIndices | tools/modelexporter.cpp:33-39 | Every index of every face is collected, and nothing else: each collected index belongs to some face. |
| Exporter.ProcessMesh | tools/modelexporter.cpp:18-39 | The mesh's positions are appended in order, each with its own normal. Equal position and normal counts are preserved. The indices collected before are kept, followed by the face indices. |
| Exporter.TriangleIndices | tools/modelexporter.cpp:33-39 | For triangle faces, 3 indices per face are appended, verbatim and in face order. |
| Exporter.IndicesNotRebased | tools/modelexporter.cpp:37 | The indices appended for a mesh do not depend on what was collected before, so there is no per-mesh offset. |
| Exporter.ProcessMeshKeepsTriangles | tools/modelexporter.cpp:33-39 | A triangle mesh adds 3 indices per face, so an index count divisible by 3 stays divisible by 3. |
| Exporter.ProcessMeshList | tools/modelexporter.cpp:44-47 | A node's meshes only extend the three lists and keep positions and normals paired. |
| Exporter.ProcessNode | tools/modelexporter.cpp:42-52 | Flattening a node keeps positions and normals paired. |
| Exporter.ProcessChildren | tools/modelexporter.cpp:49-51 | Flattening the children keeps positions and normals paired. |
| Exporter.PreOrderValid | tools/modelexporter.cpp:42-52 | Every mesh index met in pre-order refers to a mesh of the scene. |
| Exporter.ProcessMeshListAppend | tools/modelexporter.cpp:44-47 | Processing two mesh lists in sequence is processing their concatenation. |
| Exporter.ProcessNodeIsPreOrder | tools/modelexporter.cpp:42-52 | Flattening a node is processing its meshes in pre-order: a node's meshes in order, then each child's subtree in order. |
| Exporter.ProcessChildrenIsPreOrder | tools/modelexporter.cpp:49-51 | Flattening the children is processing their subtrees' pre-orders one after another. |
| Exporter.ExportFile | tools/modelexporter.cpp:93-101 | Written vertex i is position i with normal i; the indices are written as collected. |
| Exporter.WriteBmf | tools/modelexporter.cpp:87-104 | The file written is 16 + 24·nv + 4·ni bytes long. |
| Exporter.WriteBmfReadsBack | tools/modelexporter.cpp:89-104 | Reading the written file back gives the collected positions, normals and indices. |
| Exporter.ExportMain | tools/modelexporter.cpp:65-104 | The exit code is 0 or 1, and a file is written exactly when it is 0. The written name contains no separator. |
| Exporter.ExportMainUsage | tools/modelexporter.cpp:65-72 | With fewer than two arguments the exit code is 1 and nothing is written. |
| Exporter.ExportMainWritesScene | tools/modelexporter.cpp:81-104 | Otherwise the file is named after the last argument and holds the scene's meshes flattened in pre-order. |
| Font.AcceptedRange | font.h:67 | The accepted characters are exactly the bytes 32..127, whether `char` is signed or not. |
| Font.GlyphOf | font.h:69 | The glyph index `c - 32` of an accepted character lies within the 96-entry baked table. |
| Font.CountAccepted | font.h:66-82 | At most one quad per character. |
| Font.CountAcceptedZero | font.h:66-82 | No geometry exactly when no character is in 32..127. |
| Font.CountAcceptedRepeated | font.h:66-82 | A string of n copies of one accepted character yields n quads. |
| Font.QuadVertices | font.h:71-76 | Six vertices in the corner pattern (x0,y0), (x1,y0), (x1,y1), (x0,y1), (x0,y0), (x1,y1). Each position comes with the matching texture corner. The two triangles share the (x0,y0)-(x1,y1) diagonal. |
| Font.Layout | font.h:64-82 | The reference layout has 6 vertices per accepted character. |
| Font.LayoutSkipsRejected | font.h:66-81 | A character outside 32..127 adds no vertex and does not move the pen. |
| Font.InitialState | font.h:38-39 | The initial capacity is 20 characters, in a buffer of 120 vertices. |
| Font.Grow | font.h:52-58 | The corrected growth of the Findings rows for font.h:52 and font.h:57, on the full length and without wrap-around. The capacity never shrinks and afterwards is at least the string length. It changes only to that length. The buffer holds 6 vertices per character of capacity. |
| Font.DrawString | font.h:48-86 | The corrected `drawString` of the Findings rows for font.h:52 and font.h:57, growing the buffer by `Font.Grow`. The number of vertices is 6 times the number of accepted characters and never exceeds the buffer. The uploaded vertices are the buffer's filled prefix, equal to the reference layout, and the pen ends where the layout leaves it. |
| Font.GrowAsWritten | font.h:53-57 | The 32-bit growth step never lowers the capacity below the current capacity or the length. |
| Font.GrowAsWrittenAgrees | font.h:52-58 | When the vertex counts fit 32 bits, the as-written growth matches the corrected one. |
| Font.CapacityProductWraps | font.h:57 | For 715827883 characters, `capacity * 6` wraps to 2 vertices, while 4294967298 are written. |
| Font.LengthTruncationSkipsGrowth | font.h:52 | For 2^32 + 1 characters the length reads as 1, so the 120-vertex buffer is kept while far more vertices are written. |

## Left out

- File and console I/O: opening and reading the `.bmf` file, writing the exporter's output, and the messages printed. The file's contents are a parameter; `None` stands for a file that cannot be opened.
- OpenGL: buffer creation, uniform lookups, `Mesh::render` and the draw calls. A mesh is reduced to the data its buffers receive. The upload in `drawString` is reduced to the vertex prefix it sends.
- `stbtt_GetBakedQuad` is a function parameter, because it is foreign code. `Font::initFont` is left out (font file read and bitmap baking) except for its buffer constants, 20 characters and 120 vertices.
- Assimp import and post-processing: the scene is an abstract tree of nodes holding mesh indices. The import error check at `tools/modelexporter.cpp:76` belongs to that code. It uses the comma operator, so only the root-node test takes effect. It is not modelled.
- Float values: every `float` is an opaque 32-bit word copied byte for byte. Byte order is little-endian, as on the targets the code is built for.
- The `Vertex` of `defines.h` (x, y, z, u, v, r, g, b, a) does not match the position and normal fields that `mesh.h` reads. The model follows `mesh.h`.
- Exporter.ProcessMesh: the `assert(face.mNumIndices == 3)` at `tools/modelexporter.cpp:35` is not modelled as an abort. As in a release build, all of a face's indices are appended. The triangle facts are stated for triangle faces only.
- Exporter.GetFilename: lengths are unbounded; the `int len` of the source (paths of 2^31 bytes or more) is not modelled.
- Exporter.GetFilename: paths are sequences of characters, while the source scans the bytes of a `char*`. The two agree for ASCII and UTF-8 paths. They differ for double-byte code pages, where byte 0x5C (`\`) can be the second byte of a character, which the source takes for a separator.
- Exporter.ProcessMesh: meshes without a normal for every vertex are excluded by `HasNormals`. The import step generates no normals for meshes made only of points or lines, and the source then dereferences a null normal array at `tools/modelexporter.cpp:27`; that crash is not modelled, and `Exporter.ExportMain` requires a scene without such meshes.
- Bmf.EncodeMesh: counts are written modulo 2^64. Round trips are stated for records whose counts fit a `u64`, which is the case for any list that fits in memory.
- Legacy.EncodeLegacy: counts are written modulo 2^64, as for `Bmf.EncodeMesh`.
- Font.DrawString: `numVertices` is unbounded rather than `uint32`. It could only wrap after more than 2^32/6 accepted characters. Such strings are already broken by the `capacity * 6` wrap of the Findings (from 715827883 characters), and beyond 2^32 - 1 characters by the `uint32 len` truncation. The string is a byte sequence without NUL, since the loop stops at the first NUL.
- Loader.LoadShapesAsWritten: the loader as written is modelled only up to the counts it passes to each `Mesh`. The material it passes after a failed read is not modelled, because the source never initialises it.
- Loader.Init: models the checked loader, the corrected half of the Findings row for mesh.h:67-97. A file that ends early adds no mesh here, while the source adds `numMeshes` meshes built from counts left at 0 or partially read; that behaviour is modelled only as `Loader.LoadShapesAsWritten`.
- Loader.Load: models the checked reading, the corrected half of the Findings row for mesh.h:67-97; the source never reports a short file. Bytes after the last mesh are ignored, as the source reads only what the counts call for.
- Font.Grow: models the corrected growth of the Findings rows for font.h:52 and font.h:57. It compares the full length, not the `uint32` one, and sizes the buffer without 32-bit wrap-around; the source's step is `Font.GrowAsWritten`.

## Findings

| source | as written | input that shows it | evidently intended | confidence | as-written member | corrected member |
|---|---|---|---|---|---|---|
| mesh.h:67-97 | The stream state is never checked. A short read leaves the counts at 0, or holding only the bytes that arrived, and the loop still constructs `numMeshes` meshes. | The 8-byte file `01 00 00 00 00 00 00 00` | Stop, adding no meshes, when a read fails | medium; not executed | Loader.UncheckedReadAcceptsTruncatedFile | Loader.InitIgnoresTruncatedFile |
| font.h:57 | The new buffer has `fontVertexBufferCapacity * 6` elements, computed in `uint32`. | A string of 715827883 accepted characters: the product wraps to 2 elements, then 4294967298 vertices are written | Allocate 6 vertices per character without wrap-around | high; not executed | Font.CapacityProductWraps | Font.DrawString |
| font.h:52 | `uint32 len = strlen(text)` truncates the length. | A string of 2^32 + 1 accepted characters: `len` is 1, so the buffer is not grown | Compare the full length with the capacity | high; not executed | Font.LengthTruncationSkipsGrowth | Font.Grow |
