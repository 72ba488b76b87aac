/** Text batching of `Font::drawString`: every printable character of the string becomes a
    textured quad of six vertices (two triangles) in a CPU-side vertex buffer, which grows
    when the string is longer than its capacity; the filled prefix is then uploaded and
    drawn.  The glyph lookup `stbtt_GetBakedQuad` over the baked character table is a
    parameter: it maps a glyph and the pen position to a quad and the advanced pen. */
module Font {
  import opened Bytes

  datatype Vec2 = Vec2(x: Float32, y: Float32)

  /** `struct FontVertex`: a screen position and a texture coordinate. */
  datatype FontVertex = FontVertex(position: Vec2, texCoords: Vec2)

  /** `stbtt_aligned_quad`: screen corners (x0, y0)-(x1, y1), texture corners (s0, t0)-(s1, t1). */
  datatype Quad = Quad(x0: Float32, y0: Float32, s0: Float32, t0: Float32,
                       x1: Float32, y1: Float32, s1: Float32, t1: Float32)

  /** The pen position `x`, `y` that the glyph lookup advances. */
  datatype Pen = Pen(x: Float32, y: Float32)

  const FIRST_CHAR: int := 32
  const END_CHAR: int := 128
  const GLYPH_COUNT: int := 96
  const VERTICES_PER_QUAD: nat := 6
  const INITIAL_CAPACITY: nat := 20

  /** An index into the 96-entry baked character table. */
  type Glyph = g: int | 0 <= g < GLYPH_COUNT

  /** `stbtt_GetBakedQuad` over the font's baked table. */
  type Baker = (Glyph, Pen) -> (Quad, Pen)

  const ZERO: Float32 := Float32(0)
  const BLANK_VERTEX: FontVertex := FontVertex(Vec2(ZERO, ZERO), Vec2(ZERO, ZERO))

  // ---------------------------------------------------------------- characters

  /** A `char` of the string as the signed value the comparisons see. */
  function SignedChar(b: byte): int
  {
    if b < 128 then b else b - 256
  }

  /** The filter of the character loop: only codes 32..127 produce a quad. */
  predicate Accepted(b: byte)
  {
    FIRST_CHAR <= SignedChar(b) < END_CHAR
  }

  /** Whether `char` is signed or not, the accepted bytes are exactly 32..127. */
  lemma AcceptedRange(b: byte)
    ensures Accepted(b) <==> 32 <= b < 128
  {
  }

  /** The glyph index `c - 32` of an accepted character; it always lies inside the table. */
  function GlyphOf(b: byte): (g: Glyph)
    requires Accepted(b)
    ensures FIRST_CHAR + g == b
  {
    b - FIRST_CHAR
  }

  /** The number of characters that produce a quad. */
  function CountAccepted(text: seq<byte>): (n: nat)
    ensures n <= |text|
  {
    if |text| == 0 then 0
    else CountAccepted(text[..|text| - 1]) + (if Accepted(text[|text| - 1]) then 1 else 0)
  }

  /** No quad at all exactly when no character is accepted. */
  lemma {:induction false} CountAcceptedZero(text: seq<byte>)
    ensures CountAccepted(text) == 0 <==> forall i :: 0 <= i < |text| ==> !Accepted(text[i])
  {
    if |text| > 0 {
      var init := text[..|text| - 1];
      CountAcceptedZero(init);
      assert forall i :: 0 <= i < |init| ==> init[i] == text[i];
    }
  }

  /** A string of `n` copies of one accepted character produces `n` quads. */
  lemma {:induction false} CountAcceptedRepeated(n: nat, b: byte)
    requires Accepted(b)
    ensures CountAccepted(seq(n, _ => b)) == n
  {
    if n > 0 {
      assert seq(n, _ => b)[..n - 1] == seq(n - 1, _ => b);
      CountAcceptedRepeated(n - 1, b);
    }
  }

  // ---------------------------------------------------------------- quads

  /** The corner of a quad on the right (x1, s1) or left (x0, s0) side and on the y1/t1 or
      y0/t0 side: its screen position always comes with the matching texture coordinate. */
  function Corner(q: Quad, right: bool, far: bool): FontVertex
  {
    FontVertex(Vec2(if right then q.x1 else q.x0, if far then q.y1 else q.y0),
               Vec2(if right then q.s1 else q.s0, if far then q.t1 else q.t0))
  }

  /** The six vertices written for one character. */
  function QuadVertices(q: Quad): (vs: seq<FontVertex>)
    ensures |vs| == VERTICES_PER_QUAD
    ensures vs == [Corner(q, false, false), Corner(q, true, false), Corner(q, true, true),
                   Corner(q, false, true), Corner(q, false, false), Corner(q, true, true)]
    ensures vs[0] == vs[4] && vs[2] == vs[5]
  {
    [FontVertex(Vec2(q.x0, q.y0), Vec2(q.s0, q.t0)),
     FontVertex(Vec2(q.x1, q.y0), Vec2(q.s1, q.t0)),
     FontVertex(Vec2(q.x1, q.y1), Vec2(q.s1, q.t1)),
     FontVertex(Vec2(q.x0, q.y1), Vec2(q.s0, q.t1)),
     FontVertex(Vec2(q.x0, q.y0), Vec2(q.s0, q.t0)),
     FontVertex(Vec2(q.x1, q.y1), Vec2(q.s1, q.t1))]
  }

  /** Reference layout of a string: the vertices of its accepted characters, quad after quad
      in string order, and the pen after the last one. */
  function Layout(bake: Baker, pen: Pen, text: seq<byte>): (r: (seq<FontVertex>, Pen))
    ensures |r.0| == VERTICES_PER_QUAD * CountAccepted(text)
  {
    if |text| == 0 then ([], pen)
    else
      var (vs, p) := Layout(bake, pen, text[..|text| - 1]);
      var c := text[|text| - 1];
      if Accepted(c) then
        var (q, p') := bake(GlyphOf(c), p);
        (vs + QuadVertices(q), p')
      else (vs, p)
  }

  /** Characters outside 32..127 add nothing and leave the pen where it was. */
  lemma LayoutSkipsRejected(bake: Baker, pen: Pen, text: seq<byte>, b: byte)
    requires !Accepted(b)
    ensures Layout(bake, pen, text + [b]) == Layout(bake, pen, text)
  {
    assert (text + [b])[..|text|] == text;
  }

  // ---------------------------------------------------------------- the vertex buffer

  /** The CPU-side vertex buffer and its capacity in characters. */
  datatype FontState = FontState(capacity: nat, buffer: seq<FontVertex>)

  /** The buffer holds six vertices per character of capacity. */
  predicate Valid(st: FontState)
  {
    |st.buffer| == VERTICES_PER_QUAD * st.capacity
  }

  /** The buffer `initFont` allocates. */
  function InitialState(): (st: FontState)
    ensures Valid(st) && st.capacity == INITIAL_CAPACITY && |st.buffer| == 120
  {
    FontState(INITIAL_CAPACITY, seq(VERTICES_PER_QUAD * INITIAL_CAPACITY, _ => BLANK_VERTEX))
  }

  /** The growth step: a string longer than the capacity replaces the buffer by one sized
      for the string; otherwise nothing changes.  Counts are unbounded here; see
      `GrowAsWritten` for the 32-bit arithmetic of the source. */
  function Grow(st: FontState, len: nat): (r: FontState)
    requires Valid(st)
    ensures Valid(r)
    ensures r.capacity >= st.capacity && r.capacity >= len
    ensures r.capacity == st.capacity || r.capacity == len
    ensures st.capacity >= len ==> r == st
  {
    if st.capacity < len then FontState(len, seq(VERTICES_PER_QUAD * len, _ => BLANK_VERTEX))
    else st
  }

  /** `drawString`: grows the buffer for the string, writes six vertices per accepted
      character, and returns the grown state, the advanced pen, the vertex count drawn and
      the vertices uploaded. */
  method DrawString(st: FontState, pen: Pen, text: seq<byte>, bake: Baker)
    returns (st': FontState, pen': Pen, numVertices: nat, uploaded: seq<FontVertex>)
    requires Valid(st)
    requires forall i :: 0 <= i < |text| ==> text[i] != 0
    ensures Valid(st') && st'.capacity >= st.capacity && st'.capacity >= |text|
    ensures numVertices == VERTICES_PER_QUAD * CountAccepted(text)
    ensures numVertices <= |st'.buffer|
    ensures uploaded == st'.buffer[..numVertices]
    ensures uploaded == Layout(bake, pen, text).0 && pen' == Layout(bake, pen, text).1
  {
    var grown := Grow(st, |text|);
    var buffer := grown.buffer;
    var p := pen;
    numVertices := 0;
    var i := 0;
    while i < |text|
      invariant 0 <= i <= |text|
      invariant |buffer| == VERTICES_PER_QUAD * grown.capacity
      invariant numVertices == VERTICES_PER_QUAD * CountAccepted(text[..i])
      invariant numVertices <= |buffer|
      invariant buffer[..numVertices] == Layout(bake, pen, text[..i]).0
      invariant p == Layout(bake, pen, text[..i]).1
    {
      var c := text[i];
      assert text[..i + 1][..i] == text[..i];
      if Accepted(c) {
        var (q, p2) := bake(GlyphOf(c), p);
        assert CountAccepted(text[..i]) <= i;
        var quad := QuadVertices(q);
        var written := buffer[..numVertices] + quad + buffer[numVertices + VERTICES_PER_QUAD..];
        assert written[..numVertices + VERTICES_PER_QUAD] == buffer[..numVertices] + quad;
        buffer := written;
        numVertices := numVertices + VERTICES_PER_QUAD;
        p := p2;
      }
      i := i + 1;
    }
    assert text[..i] == text;
    st' := FontState(grown.capacity, buffer);
    pen' := p;
    uploaded := buffer[..numVertices];
  }

  // ---------------------------------------------------------------- 32-bit counts as written

  /** The growth step with the source's `uint32` capacity: the new buffer gets
      `capacity * 6` elements computed in 32-bit unsigned arithmetic.  Returns the new
      capacity and the number of vertices the buffer holds. */
  function GrowAsWritten(capacity: uint32, bufferLength: nat, len: uint32): (r: (uint32, nat))
    ensures r.0 >= capacity && r.0 >= len
  {
    if capacity < len then (len, (len * 6) % U32_LIMIT) else (capacity, bufferLength)
  }

  /** For strings and capacities whose vertex counts fit 32 bits the source computes the
      same capacity and buffer size as the unbounded model. */
  lemma GrowAsWrittenAgrees(st: FontState, n: nat)
    requires Valid(st)
    requires VERTICES_PER_QUAD * st.capacity < U32_LIMIT && VERTICES_PER_QUAD * n < U32_LIMIT
    ensures GrowAsWritten(st.capacity, |st.buffer|, Narrow32(n))
            == (Grow(st, n).capacity, |Grow(st, n).buffer|)
  {
  }

  /** A string of 715827883 accepted characters grows the capacity to 715827883, but
      `715827883 * 6` wraps to 2, so the loop writes 4294967298 vertices into a two-vertex
      buffer; the unbounded model allocates all 4294967298. */
  lemma CapacityProductWraps()
    ensures GrowAsWritten(INITIAL_CAPACITY, 120, 715827883) == (715827883, 2)
    ensures VERTICES_PER_QUAD * CountAccepted(seq(715827883, _ => 'a' as byte)) == 4294967298
    ensures |Grow(InitialState(), 715827883).buffer| == 4294967298
  {
    CountAcceptedRepeated(715827883, 'a' as byte);
  }

  /** A string of 2^32 + 1 accepted characters is seen as one character long, so the
      20-character buffer is kept while 6 * (2^32 + 1) vertices are written into it; the
      unbounded model grows the buffer to hold them. */
  lemma LengthTruncationSkipsGrowth()
    ensures Narrow32(U32_LIMIT + 1) == 1
    ensures GrowAsWritten(INITIAL_CAPACITY, 120, Narrow32(U32_LIMIT + 1)) == (INITIAL_CAPACITY, 120)
    ensures VERTICES_PER_QUAD * CountAccepted(seq(U32_LIMIT + 1, _ => 'a' as byte)) > 120
    ensures |Grow(InitialState(), U32_LIMIT + 1).buffer| == VERTICES_PER_QUAD * (U32_LIMIT + 1)
  {
    CountAcceptedRepeated(U32_LIMIT + 1, 'a' as byte);
  }
}
