/** Display lists (`parse_indices` and its helpers in `run_extract_Model.py`,
    with a copy in `run/extract_model.py`).

    A display list is a stream of one-byte opcodes. 0x61 loads a register
    and skips its four payload bytes, 0x00 does nothing, and a draw opcode
    (primitive type in the high five bits, vertex format in the low three)
    is followed by a big-endian halfword vertex count and that many
    vertices of `vectorSize` bytes. Each vertex holds big-endian indices
    into the position, normal, colour and texture-coordinate arrays. The
    vertices of a draw are assembled into triangles by primitive type.

    Reads follow Python slicing: a read past the end of the buffer yields
    the bytes that are there, and `int.from_bytes` of them.
 */
module DisplayList {
  import opened Bits
  import opened Wrappers
  import Compressor
  import Layout
  import DisplayState
  import DisplayObject

  // ---------------------------------------------------------------------
  // Assembling triangles

  /** An `OBJFace`: three corners in winding order. */
  datatype Face<T> = Face(a: T, b: T, c: T)

  /** Corner `j` of a face. */
  function Corner<T>(f: Face<T>, j: nat): T {
    if j == 0 then f.a else if j == 1 then f.b else f.c
  }

  /** `parse_quads` without its length check: each quad (a, b, c, d) gives
      (a, b, c) then (c, d, a). */
  function QuadFaces<T>(l: seq<T>): (r: seq<Face<T>>)
    requires |l| % 4 == 0
    ensures |r| == |l| / 2
  {
    if |l| == 0 then [] else [Face(l[0], l[1], l[2]), Face(l[2], l[3], l[0])] + QuadFaces(l[4..])
  }

  /** Quad `q` gives faces `2q` and `2q + 1`, which share its diagonal. */
  lemma {:induction false} QuadFacesAt<T>(l: seq<T>, q: nat)
    requires |l| % 4 == 0 && 4 * q < |l|
    ensures 2 * q + 1 < |QuadFaces(l)|
    ensures QuadFaces(l)[2 * q] == Face(l[4 * q], l[4 * q + 1], l[4 * q + 2])
    ensures QuadFaces(l)[2 * q + 1] == Face(l[4 * q + 2], l[4 * q + 3], l[4 * q])
    decreases q
  {
    if q > 0 {
      QuadFacesAt(l[4..], q - 1);
    }
  }

  /** `parse_quads`: the length must be a multiple of four. */
  function ParseQuads<T>(l: seq<T>): (r: Result<seq<Face<T>>>)
    ensures r.Err? <==> |l| % 4 != 0
    ensures r.Err? ==> r.error == AssertionFailed
    ensures r.Ok? ==> |r.value| == |l| / 2
  {
    if |l| % 4 != 0 then Err(AssertionFailed) else Ok(QuadFaces(l))
  }

  /** The quads back from their face pairs: a, b, c of the first face and
      the middle corner of the second. */
  function Unquad<T>(faces: seq<Face<T>>): (l: seq<T>)
    requires |faces| % 2 == 0
    ensures |l| == 2 * |faces|
  {
    if |faces| == 0 then []
    else [faces[0].a, faces[0].b, faces[0].c, faces[1].b] + Unquad(faces[2..])
  }

  lemma {:induction false} QuadsInverse<T>(l: seq<T>)
    requires |l| % 4 == 0
    ensures Unquad(QuadFaces(l)) == l
  {
    if |l| > 0 {
      var rest := QuadFaces(l[4..]);
      var faces := [Face(l[0], l[1], l[2]), Face(l[2], l[3], l[0])] + rest;
      assert QuadFaces(l) == faces;
      assert faces[2..] == rest;
      QuadsInverse(l[4..]);
      assert Unquad(faces) == [l[0], l[1], l[2], l[3]] + l[4..];
      assert l == [l[0], l[1], l[2], l[3]] + l[4..];
    }
  }

  /** `parse_triangles` without its length check: consecutive triples. */
  function TriangleFaces<T>(l: seq<T>): (r: seq<Face<T>>)
    requires |l| % 3 == 0
    ensures |r| == |l| / 3
  {
    if |l| == 0 then [] else [Face(l[0], l[1], l[2])] + TriangleFaces(l[3..])
  }

  lemma {:induction false} TriangleFacesAt<T>(l: seq<T>, q: nat)
    requires |l| % 3 == 0 && 3 * q < |l|
    ensures q < |TriangleFaces(l)|
    ensures TriangleFaces(l)[q] == Face(l[3 * q], l[3 * q + 1], l[3 * q + 2])
    decreases q
  {
    if q > 0 {
      TriangleFacesAt(l[3..], q - 1);
    }
  }

  /** `parse_triangles`: the length must be a multiple of three. */
  function ParseTriangles<T>(l: seq<T>): (r: Result<seq<Face<T>>>)
    ensures r.Err? <==> |l| % 3 != 0
    ensures r.Err? ==> r.error == AssertionFailed
    ensures r.Ok? ==> |r.value| == |l| / 3
  {
    if |l| % 3 != 0 then Err(AssertionFailed) else Ok(TriangleFaces(l))
  }

  /** The corners of a face list, in order. */
  function Flatten<T>(faces: seq<Face<T>>): (l: seq<T>)
    ensures |l| == 3 * |faces|
  {
    if faces == [] then [] else [faces[0].a, faces[0].b, faces[0].c] + Flatten(faces[1..])
  }

  lemma {:induction false} TrianglesInverse<T>(l: seq<T>)
    requires |l| % 3 == 0
    ensures Flatten(TriangleFaces(l)) == l
  {
    if |l| > 0 {
      var faces := TriangleFaces(l);
      assert faces[1..] == TriangleFaces(l[3..]);
      TrianglesInverse(l[3..]);
      assert l == l[..3] + l[3..];
    }
  }

  /** `len(l) - 2` clamped at zero: the size of `range(len(l) - 2)`. */
  function Inner(n: nat): nat {
    if n >= 2 then n - 2 else 0
  }

  /** `parse_fan`: every face starts at the hub `l[0]`. */
  function FanFaces<T>(l: seq<T>): (r: seq<Face<T>>)
    ensures |r| == Inner(|l|)
    ensures forall i :: 0 <= i < |r| ==> i + 2 < |l| && r[i] == Face(l[0], l[i + 1], l[i + 2])
  {
    if |l| < 3 then []
    else
      var n := |l|;
      var front := l[..n - 1];
      var rest := FanFaces(front);
      assert forall i :: 0 <= i < |rest| ==> rest[i] == Face(l[0], l[i + 1], l[i + 2]);
      rest + [Face(l[0], l[n - 2], l[n - 1])]
  }

  /** The vertices back from a fan: the first face's hub and second corner,
      then the last corner of each face. */
  function Unfan<T>(faces: seq<Face<T>>): (l: seq<T>)
    requires |faces| > 0
    ensures |l| == |faces| + 2
  {
    [faces[0].a, faces[0].b] + seq(|faces|, i requires 0 <= i < |faces| => faces[i].c)
  }

  lemma {:induction false} FanInverse<T>(l: seq<T>)
    requires |l| >= 3
    ensures Unfan(FanFaces(l)) == l
  {
    var faces := FanFaces(l);
    var back := Unfan(faces);
    forall k | 0 <= k < |l|
      ensures back[k] == l[k]
    {
      if k < 2 {
        assert faces[0] == Face(l[0], l[1], l[2]);
      } else {
        assert back[k] == faces[k - 2].c;
      }
    }
  }

  /** Face `i` of a strip: even faces keep the order, odd faces are
      reversed so that every face has the same winding. */
  function StripFace<T>(l: seq<T>, i: nat): Face<T>
    requires i + 2 < |l|
  {
    if i % 2 == 0 then Face(l[i], l[i + 1], l[i + 2]) else Face(l[i + 2], l[i + 1], l[i])
  }

  /** `parse_strip`. */
  function StripFaces<T>(l: seq<T>): (r: seq<Face<T>>)
    ensures |r| == Inner(|l|)
    ensures forall i :: 0 <= i < |r| ==> i + 2 < |l| && r[i] == StripFace(l, i)
  {
    if |l| < 3 then []
    else
      var n := |l|;
      var front := l[..n - 1];
      var rest := StripFaces(front);
      assert forall i :: 0 <= i < |rest| ==> StripFace(front, i) == StripFace(l, i);
      rest + [StripFace(l, n - 3)]
  }

  /** The corner that face `i` of a strip adds: the third of an even face,
      the first of an odd (reversed) one. */
  function NewCorner<T>(f: Face<T>, i: nat): T {
    if i % 2 == 0 then f.c else f.a
  }

  /** The vertices back from a strip: the corners of face 0, then the
      corner each later face adds. */
  function Unstrip<T>(faces: seq<Face<T>>): (l: seq<T>)
    requires |faces| > 0
    ensures |l| == |faces| + 2
  {
    var n := |faces|;
    if n == 1 then [faces[0].a, faces[0].b, faces[0].c]
    else Unstrip(faces[..n - 1]) + [NewCorner(faces[n - 1], n - 1)]
  }

  lemma {:induction false} StripInverse<T>(l: seq<T>)
    requires |l| >= 3
    ensures Unstrip(StripFaces(l)) == l
  {
    var n := |l|;
    var faces := StripFaces(l);
    if n > 3 {
      var front := l[..n - 1];
      assert faces[..n - 3] == StripFaces(front);
      StripInverse(front);
      assert faces[n - 3] == StripFace(l, n - 3);
      assert l == front + [l[n - 1]];
    } else {
      assert faces[0] == StripFace(l, 0);
    }
  }

  /** Neighbouring strip faces share the edge between their common corners. */
  lemma {:induction false} StripSharesEdges<T>(l: seq<T>, i: nat)
    requires i + 1 < |StripFaces(l)|
    ensures var f, g := StripFaces(l)[i], StripFaces(l)[i + 1];
      && {f.a, f.b, f.c} == {l[i], l[i + 1], l[i + 2]}
      && {g.a, g.b, g.c} == {l[i + 1], l[i + 2], l[i + 3]}
  {
    assert StripFaces(l)[i] == StripFace(l, i);
    assert StripFaces(l)[i + 1] == StripFace(l, i + 1);
  }

  // ---------------------------------------------------------------------
  // Primitive types

  datatype Primitive = Quads | Triangles | TriangleStrip | TriangleFan | Lines | LineStrip | Points

  /** The draw opcodes: `command >> 3` is 0x10 or one of 0x12 to 0x17. */
  function PrimitiveOf(opcode: nat): (r: Option<Primitive>)
    ensures r.None? <==> opcode < 0x10 || opcode == 0x11 || opcode > 0x17
    ensures r.Some? ==> PrimitiveCode(r.value) == opcode
  {
    if opcode == 0x10 then Some(Quads)
    else if opcode == 0x12 then Some(Triangles)
    else if opcode == 0x13 then Some(TriangleStrip)
    else if opcode == 0x14 then Some(TriangleFan)
    else if opcode == 0x15 then Some(Lines)
    else if opcode == 0x16 then Some(LineStrip)
    else if opcode == 0x17 then Some(Points)
    else None
  }

  function PrimitiveCode(p: Primitive): (code: nat)
    ensures 0x10 <= code <= 0x17 && code != 0x11
  {
    match p
    case Quads => 0x10
    case Triangles => 0x12
    case TriangleStrip => 0x13
    case TriangleFan => 0x14
    case Lines => 0x15
    case LineStrip => 0x16
    case Points => 0x17
  }

  lemma {:induction false} PrimitiveRoundTrip(p: Primitive)
    ensures PrimitiveOf(PrimitiveCode(p)) == Some(p)
  {
  }

  /** The primitive types the extractor assembles; lines and points are
      assertion failures. */
  predicate Supported(p: Primitive) {
    p == Quads || p == Triangles || p == TriangleStrip || p == TriangleFan
  }

  /** The second `if` chain of the loop: vertices to faces by primitive type. */
  function Assemble<T>(p: Primitive, vertices: seq<T>): (r: Result<seq<Face<T>>>)
    ensures r.Err? <==> !Supported(p) || (p == Quads && |vertices| % 4 != 0) || (p == Triangles && |vertices| % 3 != 0)
    ensures r.Err? ==> r.error == AssertionFailed
  {
    match p
    case Quads => ParseQuads(vertices)
    case Triangles => ParseTriangles(vertices)
    case TriangleStrip => Ok(StripFaces(vertices))
    case TriangleFan => Ok(FanFaces(vertices))
    case _ => Err(AssertionFailed)
  }

  // ---------------------------------------------------------------------
  // Vertices

  /** Where each index sits inside a vertex, as the component dictionary
      gives it: sizes and offsets in bytes, a size of 0 meaning absent. */
  datatype VertexLayout = VertexLayout(
    vectorSize: nat, posSize: nat, posOffset: nat, normSize: nat, normOffset: nat,
    colorSize: nat, colorOffset: nat, uvSize: nat, uvOffset: nat)

  /** `OBJIndices`: the index of each attribute, `None` when absent. */
  datatype Vertex = Vertex(position: Option<nat>, normal: Option<nat>, color: Option<nat>, uv: Option<nat>)

  /** `int.from_bytes(v[offset:][:size], 'big')`, or `None` for size 0. */
  function Attribute(v: seq<u8>, size: nat, offset: nat): (r: Option<nat>)
    ensures r.None? <==> size == 0
    ensures r.Some? ==> r.value < Pow2(8 * size)
  {
    if size > 0 then
      var s := Compressor.Slice(v, offset, offset + size);
      assert |s| <= size;
      Pow2Mono(8 * |s|, 8 * size);
      Some(BigEndian(s))
    else None
  }

  function VertexOf(v: seq<u8>, layout: VertexLayout): Vertex {
    Vertex(Attribute(v, layout.posSize, layout.posOffset), Attribute(v, layout.normSize, layout.normOffset),
           Attribute(v, layout.colorSize, layout.colorOffset), Attribute(v, layout.uvSize, layout.uvOffset))
  }

  /** `count` records of `size` bytes from `start`, each read with `read`
      from `b[at:][:size]`. */
  function Records<T>(read: seq<u8> -> T, b: seq<u8>, start: nat, size: nat, count: nat): (r: seq<T>)
    ensures |r| == count
    decreases count
  {
    if count == 0 then []
    else [read(Compressor.Slice(b, start, start + size))] + Records(read, b, start + size, size, count - 1)
  }

  /** Record `k` is read at `start + k * size`. */
  lemma {:induction false} RecordIs<T>(read: seq<u8> -> T, b: seq<u8>, start: nat, size: nat, count: nat, k: nat)
    requires k < count
    ensures Records(read, b, start, size, count)[k] == read(Compressor.Slice(b, start + k * size, start + k * size + size))
    decreases k
  {
    if k > 0 {
      RecordIs(read, b, start + size, size, count - 1, k - 1);
      MulAddRight(k - 1, 1, size);
    }
  }

  function VertexReader(layout: VertexLayout): seq<u8> -> Vertex {
    (v: seq<u8>) => VertexOf(v, layout)
  }

  /** The vertices of a draw: `count` of them, `vectorSize` bytes apart. */
  function Vertices(b: seq<u8>, start: nat, layout: VertexLayout, count: nat): (r: seq<Vertex>)
    ensures |r| == count
  {
    Records(VertexReader(layout), b, start, layout.vectorSize, count)
  }

  /** The component dictionary of a display-state helper as
      `run/extract_model.py` reads it: no colour, the first texture
      coordinate. */
  function LayoutOf(c: DisplayState.Components): (layout: VertexLayout)
    requires |c.uvSizes| > 0 && |c.uvOffsets| > 0
    ensures layout.colorSize == 0
  {
    VertexLayout(c.vectorSize, c.posSize, c.posOffset, c.normSize, c.normOffset, 0, 0, c.uvSizes[0], c.uvOffsets[0])
  }

  lemma {:induction false} LayoutOfHasNoColor(c: DisplayState.Components, v: seq<u8>)
    requires |c.uvSizes| > 0 && |c.uvOffsets| > 0
    ensures VertexOf(v, LayoutOf(c)).color == None
  {
  }

  // ---------------------------------------------------------------------
  // The command loop

  const RegisterLoad: nat := 0x61
  const NoOperation: nat := 0x00

  /** The `while offset < len(b)` loop of `parse_indices`, for vertices of
      `size` bytes read with `read`. */
  function ParseCommands(read: seq<u8> -> Vertex, size: nat, b: seq<u8>, offset: nat): (r: Result<seq<Face<Vertex>>>)
    ensures r.Err? ==> r.error == AssertionFailed
    decreases |b| - offset
  {
    if offset >= |b| then Ok([])
    else
      var command := b[offset] as nat;
      if command == RegisterLoad then ParseCommands(read, size, b, offset + 5)
      else if command == NoOperation then ParseCommands(read, size, b, offset + 1)
      else
        match PrimitiveOf(command / 8)
        case None => Err(AssertionFailed)
        case Some(p) =>
          if command % 8 != 0 then Err(AssertionFailed)
          else
            var count := BigEndian(Compressor.Slice(b, offset + 1, offset + 3));
            var faces :- Assemble(p, Records(read, b, offset + 3, size, count));
            var rest :- ParseCommands(read, size, b, DrawEnd(offset, count, size));
            Ok(faces + rest)
  }

  /** Where the command after a draw of `count` vertices at `offset` starts. */
  function DrawEnd(offset: nat, count: nat, size: nat): (r: nat)
    ensures r >= offset + 3
  {
    MulLeMul(0, count, size);
    offset + 3 + count * size
  }

  /** `parse_indices`: the commands of the whole primitive list. */
  function ParseIndices(b: seq<u8>, layout: VertexLayout): (r: Result<seq<Face<Vertex>>>)
    ensures r.Err? ==> r.error == AssertionFailed
  {
    ParseCommands(VertexReader(layout), layout.vectorSize, b, 0)
  }

  /** A display-list command as the game writes it. */
  datatype Command = RegisterCommand(payload: seq<u8>) | NopCommand | Draw(primitive: Primitive, count: nat, data: seq<u8>)

  predicate CommandFits(c: Command, size: nat) {
    match c
    case RegisterCommand(payload) => |payload| == 4
    case NopCommand => true
    case Draw(_, count, data) => count < 0x1_0000 && |data| == count * size
  }

  predicate CommandsFit(cs: seq<Command>, size: nat) {
    forall i :: 0 <= i < |cs| ==> CommandFits(cs[i], size)
  }

  /** How many bytes a command occupies in the stream. */
  function Width(c: Command): nat {
    match c
    case RegisterCommand(_) => 5
    case NopCommand => 1
    case Draw(_, _, data) => 3 + |data|
  }

  function EncodeCommand(c: Command, size: nat): (e: seq<u8>)
    requires CommandFits(c, size)
    ensures |e| == Width(c)
  {
    match c
    case RegisterCommand(payload) => [RegisterLoad as u8] + payload
    case NopCommand => [NoOperation as u8]
    case Draw(p, count, data) =>
      Pow2Values();
      [(PrimitiveCode(p) * 8) as u8] + Layout.ToBigEndian(count, 2) + data
  }

  function EncodeCommands(cs: seq<Command>, size: nat): seq<u8>
    requires CommandsFit(cs, size)
  {
    if cs == [] then [] else EncodeCommand(cs[0], size) + EncodeCommands(cs[1..], size)
  }

  /** What one command adds in front of what the commands after it draw. */
  function Then(c: Command, read: seq<u8> -> Vertex, size: nat, rest: Result<seq<Face<Vertex>>>): Result<seq<Face<Vertex>>> {
    match c
    case Draw(p, count, data) =>
      var faces :- Assemble(p, Records(read, data, 0, size, count));
      var after :- rest;
      Ok(faces + after)
    case _ => rest
  }

  /** What a command stream draws: the faces of each draw, in stream order. */
  function DecodeCommands(cs: seq<Command>, read: seq<u8> -> Vertex, size: nat): Result<seq<Face<Vertex>>> {
    if cs == [] then Ok([]) else Then(cs[0], read, size, DecodeCommands(cs[1..], read, size))
  }

  /** A read inside a window of the buffer is the read of the window. */
  lemma {:induction false} SliceWithin(b: seq<u8>, o: nat, d: seq<u8>, a: nat, n: nat)
    requires o + |d| <= |b| && b[o..o + |d|] == d && a + n <= |d|
    ensures Compressor.Slice(b, o + a, o + a + n) == Compressor.Slice(d, a, a + n)
  {
    if n > 0 {
      assert Compressor.Slice(d, a, a + n) == d[a..a + n];
      assert Compressor.Slice(b, o + a, o + a + n) == b[o + a..o + a + n];
      var x, y, w := d[a..a + n], b[o + a..o + a + n], b[o..o + |d|];
      forall i | 0 <= i < n
        ensures x[i] == y[i]
      {
        assert x[i] == w[a + i];
      }
      assert x == y;
    }
  }

  /** Records read inside a window of the buffer are those read from the window. */
  lemma {:induction false} RecordsWithin<T>(read: seq<u8> -> T, b: seq<u8>, o: nat, d: seq<u8>, a: nat, size: nat, count: nat)
    requires o + |d| <= |b| && b[o..o + |d|] == d && a + count * size <= |d|
    ensures Records(read, b, o + a, size, count) == Records(read, d, a, size, count)
    decreases count
  {
    if count > 0 {
      MulAddRight(count - 1, 1, size);
      SliceWithin(b, o, d, a, size);
      RecordsWithin(read, b, o, d, a + size, size, count - 1);
    }
  }

  /** What the loop sees at `offset` when command `c` is written there: the
      opcode byte and, for a draw, the count and the vertex records. */
  ghost predicate Opens(read: seq<u8> -> Vertex, size: nat, b: seq<u8>, offset: nat, c: Command) {
    offset < |b| &&
    match c
    case RegisterCommand(_) => b[offset] as nat == RegisterLoad
    case NopCommand => b[offset] as nat == NoOperation
    case Draw(p, count, data) =>
      var command := b[offset] as nat;
      command != RegisterLoad && command != NoOperation
      && command / 8 == PrimitiveCode(p) && command % 8 == 0
      && BigEndian(Compressor.Slice(b, offset + 1, offset + 3)) == count
      && Records(read, b, offset + 3, size, count) == Records(read, data, 0, size, count)
      && DrawEnd(offset, count, size) == offset + 3 + |data|
  }

  /** A buffer holding an encoded command at `offset` opens with it. */
  lemma {:induction false} OpensEncoded(read: seq<u8> -> Vertex, size: nat, b: seq<u8>, offset: nat, c: Command)
    requires CommandFits(c, size) && offset + |EncodeCommand(c, size)| <= |b|
    requires b[offset..offset + |EncodeCommand(c, size)|] == EncodeCommand(c, size)
    ensures Opens(read, size, b, offset, c)
  {
    var e := EncodeCommand(c, size);
    assert b[offset] == e[0];
    if c.Draw? {
      DrawFacts(read, size, b, offset, c.primitive, c.count, c.data);
    }
  }

  /** One command at `offset` is parsed as that command, then the loop goes
      on right after it. */
  lemma {:induction false} ParseOne(read: seq<u8> -> Vertex, size: nat, b: seq<u8>, offset: nat, c: Command)
    requires Opens(read, size, b, offset, c)
    ensures ParseCommands(read, size, b, offset)
         == Then(c, read, size, ParseCommands(read, size, b, offset + Width(c)))
  {
    if c.Draw? {
      ParseOneDraw(read, size, b, offset, c);
    } else {
      ParseSkip(read, size, b, offset, Width(c));
    }
  }

  lemma {:induction false} ParseOneDraw(read: seq<u8> -> Vertex, size: nat, b: seq<u8>, offset: nat, c: Command)
    requires c.Draw? && Opens(read, size, b, offset, c)
    ensures ParseCommands(read, size, b, offset)
         == Then(c, read, size, ParseCommands(read, size, b, offset + Width(c)))
  {
    ParseDraw(read, size, b, offset, c.primitive, c.count, c.data, offset + Width(c));
  }

  /** A register load skips its five bytes and a no-op its one byte. */
  lemma {:induction false} ParseSkip(read: seq<u8> -> Vertex, size: nat, b: seq<u8>, offset: nat, width: nat)
    requires offset < |b|
    requires (width == 5 && b[offset] as nat == RegisterLoad) || (width == 1 && b[offset] as nat == NoOperation)
    ensures ParseCommands(read, size, b, offset) == ParseCommands(read, size, b, offset + width)
  {
  }

  /** The bytes of an encoded draw, read where the loop reads them: the
      opcode names the primitive, the count comes back, and the vertex
      records are those of the draw's data. */
  lemma {:induction false} DrawFacts<T>(read: seq<u8> -> T, size: nat, b: seq<u8>, offset: nat, p: Primitive, count: nat, data: seq<u8>)
    requires CommandFits(Draw(p, count, data), size)
    requires var e := EncodeCommand(Draw(p, count, data), size);
      offset + |e| <= |b| && b[offset..offset + |e|] == e
    ensures offset < |b|
    ensures var command := b[offset] as nat;
      command != RegisterLoad && command != NoOperation
      && command / 8 == PrimitiveCode(p) && command % 8 == 0
    ensures BigEndian(Compressor.Slice(b, offset + 1, offset + 3)) == count
    ensures Records(read, b, offset + 3, size, count) == Records(read, data, 0, size, count)
    ensures DrawEnd(offset, count, size) == offset + 3 + |data|
  {
    Pow2Values();
    var e := EncodeCommand(Draw(p, count, data), size);
    var code := PrimitiveCode(p) * 8;
    var header := Layout.ToBigEndian(count, 2);
    assert e == [code as u8] + header + data;
    Layout.ReadWritten(count, 2);
    DrawOpcode(b, offset, p, e);
    DrawCount(b, offset, count, e, header);
    DrawRecords(read, size, b, offset, count, data, e);
  }

  /** The first byte of an encoded draw is its opcode. */
  lemma {:induction false} DrawOpcode(b: seq<u8>, offset: nat, p: Primitive, e: seq<u8>)
    requires e != [] && e[0] as nat == PrimitiveCode(p) * 8
    requires offset + |e| <= |b| && b[offset..offset + |e|] == e
    ensures offset < |b|
    ensures var command := b[offset] as nat;
      command != RegisterLoad && command != NoOperation
      && command / 8 == PrimitiveCode(p) && command % 8 == 0
  {
    assert b[offset] == e[0];
  }

  /** Bytes 1 and 2 of an encoded draw are its big-endian count. */
  lemma {:induction false} DrawCount(b: seq<u8>, offset: nat, count: nat, e: seq<u8>, header: seq<u8>)
    requires |header| == 2 && BigEndian(header) == count && |e| >= 3 && e[1..3] == header
    requires offset + |e| <= |b| && b[offset..offset + |e|] == e
    ensures BigEndian(Compressor.Slice(b, offset + 1, offset + 3)) == count
  {
    SliceWithin(b, offset, e, 1, 2);
    assert Compressor.Slice(e, 1, 3) == e[1..3];
  }

  /** The vertex records of an encoded draw are those of its data. */
  lemma {:induction false} DrawRecords<T>(read: seq<u8> -> T, size: nat, b: seq<u8>, offset: nat, count: nat, data: seq<u8>, e: seq<u8>)
    requires |data| == count * size && |e| == 3 + |data| && e[3..] == data
    requires offset + |e| <= |b| && b[offset..offset + |e|] == e
    ensures Records(read, b, offset + 3, size, count) == Records(read, data, 0, size, count)
    ensures DrawEnd(offset, count, size) == offset + 3 + |data|
  {
    RecordsWithin(read, b, offset, e, 3, size, count);
    assert e[3..3 + count * size] == data;
    RecordsWithin(read, e, 3, data, 0, size, count);
  }

  /** A draw opcode whose count and records are known is parsed as those
      faces, then the loop goes on at the end of the draw. */
  lemma {:induction false} ParseDraw(read: seq<u8> -> Vertex, size: nat, b: seq<u8>, offset: nat, p: Primitive, count: nat, data: seq<u8>, next: nat)
    requires offset < |b|
    requires var command := b[offset] as nat;
      command != RegisterLoad && command != NoOperation
      && command / 8 == PrimitiveCode(p) && command % 8 == 0
    requires BigEndian(Compressor.Slice(b, offset + 1, offset + 3)) == count
    requires Records(read, b, offset + 3, size, count) == Records(read, data, 0, size, count)
    requires DrawEnd(offset, count, size) == next
    ensures ParseCommands(read, size, b, offset)
         == Then(Draw(p, count, data), read, size, ParseCommands(read, size, b, next))
  {
    PrimitiveRoundTrip(p);
  }

  /** An encoded stream starts with its first command, and the rest of the
      stream follows it. */
  lemma {:induction false} SplitEncoded(b: seq<u8>, offset: nat, cs: seq<Command>, size: nat)
    requires cs != [] && CommandsFit(cs, size) && offset <= |b| && b[offset..] == EncodeCommands(cs, size)
    ensures CommandFits(cs[0], size) && CommandsFit(cs[1..], size)
    ensures var e := EncodeCommand(cs[0], size);
      offset + |e| <= |b| && b[offset..offset + |e|] == e
      && b[offset + |e|..] == EncodeCommands(cs[1..], size)
  {
    assert CommandFits(cs[0], size);
    assert CommandsFit(cs[1..], size) by {
      assert forall i :: 0 <= i < |cs[1..]| ==> cs[1..][i] == cs[i + 1];
    }
    var e := EncodeCommand(cs[0], size);
    assert EncodeCommands(cs, size) == e + EncodeCommands(cs[1..], size);
    SplitBytes(b, offset, e, EncodeCommands(cs[1..], size));
  }

  /** A buffer whose tail from `offset` is `e + rest` holds `e` at `offset`
      and `rest` right after it. */
  lemma {:induction false} SplitBytes(b: seq<u8>, offset: nat, e: seq<u8>, rest: seq<u8>)
    requires offset <= |b| && b[offset..] == e + rest
    ensures offset + |e| <= |b| && b[offset..offset + |e|] == e && b[offset + |e|..] == rest
  {
    assert b[offset..offset + |e|] == b[offset..][..|e|];
    assert b[offset + |e|..] == b[offset..][|e|..];
  }

  /** The loop meets each command of `cs` in turn from `offset`, and the
      buffer ends right after the last one. */
  ghost predicate Stream(read: seq<u8> -> Vertex, size: nat, b: seq<u8>, offset: nat, cs: seq<Command>)
    decreases |cs|
  {
    if cs == [] then offset == |b|
    else Opens(read, size, b, offset, cs[0]) && Stream(read, size, b, offset + Width(cs[0]), cs[1..])
  }

  /** Parsing a stream of known commands draws what the commands describe. */
  lemma {:induction false} ParseStream(read: seq<u8> -> Vertex, size: nat, b: seq<u8>, offset: nat, cs: seq<Command>)
    requires Stream(read, size, b, offset, cs)
    ensures ParseCommands(read, size, b, offset) == DecodeCommands(cs, read, size)
    decreases |cs|
  {
    if cs != [] {
      ParseStream(read, size, b, offset + Width(cs[0]), cs[1..]);
      ParseOne(read, size, b, offset, cs[0]);
    }
  }

  /** The encoding of a command stream is met command by command. */
  lemma {:induction false} EncodedStream(read: seq<u8> -> Vertex, size: nat, b: seq<u8>, offset: nat, cs: seq<Command>)
    requires CommandsFit(cs, size) && offset <= |b| && b[offset..] == EncodeCommands(cs, size)
    ensures Stream(read, size, b, offset, cs)
    decreases |cs|
  {
    if cs == [] {
      assert |b[offset..]| == 0;
    } else {
      var next := offset + Width(cs[0]);
      EncodedOpens(read, size, b, offset, cs, next);
      EncodedStream(read, size, b, next, cs[1..]);
      StreamCons(read, size, b, offset, cs, next);
    }
  }

  lemma {:induction false} StreamCons(read: seq<u8> -> Vertex, size: nat, b: seq<u8>, offset: nat, cs: seq<Command>, next: nat)
    requires cs != [] && next == offset + Width(cs[0])
    requires Opens(read, size, b, offset, cs[0]) && Stream(read, size, b, next, cs[1..])
    ensures Stream(read, size, b, offset, cs)
  {
  }

  /** Parsing an encoded command stream draws what the commands describe. */
  lemma {:induction false} ParseEncoded(read: seq<u8> -> Vertex, size: nat, b: seq<u8>, offset: nat, cs: seq<Command>)
    requires CommandsFit(cs, size) && offset <= |b| && b[offset..] == EncodeCommands(cs, size)
    ensures ParseCommands(read, size, b, offset) == DecodeCommands(cs, read, size)
  {
    EncodedStream(read, size, b, offset, cs);
    ParseStream(read, size, b, offset, cs);
  }

  /** An encoded stream opens with its first command, and the encoding of
      the rest starts right after it. */
  lemma {:induction false} EncodedOpens(read: seq<u8> -> Vertex, size: nat, b: seq<u8>, offset: nat, cs: seq<Command>, next: nat)
    requires cs != [] && CommandsFit(cs, size) && offset <= |b| && b[offset..] == EncodeCommands(cs, size)
    requires next == offset + Width(cs[0])
    ensures Opens(read, size, b, offset, cs[0])
    ensures CommandsFit(cs[1..], size) && next <= |b| && b[next..] == EncodeCommands(cs[1..], size)
  {
    SplitEncoded(b, offset, cs, size);
    OpensEncoded(read, size, b, offset, cs[0]);
  }

  /** A display list written from commands is parsed by `parse_indices` as
      the faces the commands draw. */
  lemma {:induction false} ParseIndicesEncoded(layout: VertexLayout, cs: seq<Command>)
    requires CommandsFit(cs, layout.vectorSize)
    ensures ParseIndices(EncodeCommands(cs, layout.vectorSize), layout)
         == DecodeCommands(cs, VertexReader(layout), layout.vectorSize)
  {
    var b := EncodeCommands(cs, layout.vectorSize);
    assert b[0..] == b;
    ParseEncoded(VertexReader(layout), layout.vectorSize, b, 0, cs);
  }

  // ---------------------------------------------------------------------
  // Colour arrays

  /** A colour with four channels of 0 to 255. */
  datatype ColorVector = ColorVector(r: nat, g: nat, b: nat, a: nat)

  /** The bits of each channel, MSB first, per colour format: RGB565, RGB8,
      RGBX8, RGBA4, RGBA6, RGBA8; a 0 is a channel that is not stored. */
  function ChannelBits(format: nat): (bits: seq<nat>)
    requires format < 6
    ensures |bits| == 4 && Total(bits) <= 8 * DisplayObject.ColorSizes[format]
  {
    [[5, 6, 5, 0], [8, 8, 8, 0], [8, 8, 8, 0], [4, 4, 4, 4], [6, 6, 6, 6], [8, 8, 8, 8]][format]
  }

  function Total(bits: seq<nat>): nat {
    if bits == [] then 0 else bits[0] + Total(bits[1..])
  }

  /** `int(val * 255 / mask)` for an `n`-bit channel. The float quotient of
      two such small integers is never within rounding distance of the next
      integer, so truncating it is integer division. */
  function Scale(v: nat, n: nat): (r: nat)
    requires n > 0 && v < Pow2(n)
    ensures r <= 255
    ensures v == 0 ==> r == 0
    ensures v == Pow2(n) - 1 ==> r == 255
  {
    Pow2Mono(1, n);
    Pow2Values();
    var mask := Pow2(n) - 1;
    ScaleBound(v, mask);
    v * 255 / mask
  }

  lemma {:induction false} ScaleBound(v: nat, mask: nat)
    requires 1 <= mask && v <= mask
    ensures 0 <= v * 255 / mask <= 255
    ensures v == mask ==> v * 255 / mask == 255
  {
    var p := v * 255;
    MulLeMul(v, mask, 255);
    var q := p / mask;
    DivNat(p, mask);
    assert q * mask <= p;
    if q >= 256 {
      MulLeMul(256, q, mask);
    }
    if v == mask {
      DivModUnique(p, mask, 255, 0);
    }
  }

  /** The channels of one entry read MSB first from `shift` down; an
      absent channel is 255. */
  function Channels(x: nat, shift: nat, bits: seq<nat>): (r: seq<nat>)
    requires Total(bits) <= shift
    ensures |r| == |bits|
    ensures forall j :: 0 <= j < |r| ==> r[j] <= 255 && (bits[j] == 0 ==> r[j] == 255)
  {
    if bits == [] then []
    else if bits[0] == 0 then [255] + Channels(x, shift, bits[1..])
    else
      var n := bits[0];
      [Scale(Mask(Shr(x, shift - n), n), n)] + Channels(x, shift - n, bits[1..])
  }

  /** Channel `j` is the field just below the bits of the channels before it. */
  lemma {:induction false} ChannelAt(x: nat, shift: nat, bits: seq<nat>, j: nat)
    requires Total(bits) <= shift && j < |bits| && bits[j] > 0
    ensures Total(bits[..j + 1]) <= shift
    ensures Channels(x, shift, bits)[j] == Scale(Mask(Shr(x, shift - Total(bits[..j + 1])), bits[j]), bits[j])
    decreases j
  {
    TotalPrefix(bits, j + 1);
    var pos := shift - Total(bits[..j + 1]);
    if j > 0 {
      var inner := if bits[0] == 0 then shift else shift - bits[0];
      assert Channels(x, shift, bits)[j] == Scale(Mask(Shr(x, pos), bits[j]), bits[j]) by {
        ChannelsTail(x, shift, bits, inner);
        ChannelAt(x, inner, bits[1..], j - 1);
        ChannelStep(x, shift, bits, j, inner, pos);
      }
    } else {
      assert Channels(x, shift, bits)[j] == Scale(Mask(Shr(x, pos), bits[j]), bits[j]) by {
        ChannelFirst(x, shift, bits);
      }
    }
  }

  /** Channel `j > 0` of `bits` is channel `j - 1` of the rest, read from
      below the first channel. */
  lemma {:induction false} ChannelStep(x: nat, shift: nat, bits: seq<nat>, j: nat, inner: nat, pos: nat)
    requires Total(bits) <= shift && 0 < j < |bits| && bits[j] > 0 && pos == shift - Total(bits[..j + 1])
    requires inner == if bits[0] == 0 then shift else shift - bits[0]
    requires Total(bits[1..]) <= inner && Total(bits[1..][..j]) <= inner
    requires Channels(x, shift, bits)[1..] == Channels(x, inner, bits[1..])
    requires Channels(x, inner, bits[1..])[j - 1]
      == Scale(Mask(Shr(x, inner - Total(bits[1..][..j])), bits[j]), bits[j])
    ensures Channels(x, shift, bits)[j] == Scale(Mask(Shr(x, pos), bits[j]), bits[j])
  {
    var tail := bits[1..];
    assert tail[..j] == bits[..j + 1][1..];
    assert Total(bits[..j + 1]) == bits[0] + Total(tail[..j]);
    assert Channels(x, shift, bits)[j] == Channels(x, shift, bits)[1..][j - 1];
  }

  /** A stored first channel is read from just below `shift`. */
  lemma {:induction false} ChannelFirst(x: nat, shift: nat, bits: seq<nat>)
    requires Total(bits) <= shift && bits != [] && bits[0] > 0
    ensures Total(bits[..1]) == bits[0] <= shift
    ensures Channels(x, shift, bits)[0] == Scale(Mask(Shr(x, shift - bits[0]), bits[0]), bits[0])
  {
    assert bits[..1][1..] == [];
  }

  /** After the first channel, the others are read from below its bits. */
  lemma {:induction false} ChannelsTail(x: nat, shift: nat, bits: seq<nat>, inner: nat)
    requires Total(bits) <= shift && bits != []
    requires inner == if bits[0] == 0 then shift else shift - bits[0]
    ensures Total(bits[1..]) <= inner
    ensures Channels(x, shift, bits)[1..] == Channels(x, inner, bits[1..])
  {
  }

  lemma {:induction false} TotalPrefix(bits: seq<nat>, k: nat)
    requires k <= |bits|
    ensures Total(bits[..k]) <= Total(bits)
    decreases k
  {
    if k > 0 {
      assert bits[..k][1..] == bits[1..][..k - 1];
      TotalPrefix(bits[1..], k - 1);
    }
  }

  function ColorOf(x: nat, format: nat): (c: ColorVector)
    requires format < 6
    ensures c.r <= 255 && c.g <= 255 && c.b <= 255 && c.a <= 255
    ensures format < 3 ==> c.a == 255
  {
    var ch := Channels(x, 8 * DisplayObject.ColorSizes[format], ChannelBits(format));
    ColorVector(ch[0], ch[1], ch[2], ch[3])
  }

  /** `parse_array_values_color`: a format outside 0 to 5 is a ValueError;
      entry `i` is the big-endian integer of the `size` bytes at `i * size`. */
  function ParseColors(b: seq<u8>, entryCount: nat, format: int): (r: Result<seq<ColorVector>>)
    ensures r.Err? <==> format < 0 || format >= 6
    ensures r.Err? ==> r.error == UnknownValue
    ensures r.Ok? ==> |r.value| == entryCount
  {
    if format >= 6 || format < 0 then Err(UnknownValue)
    else
      var size := DisplayObject.ColorSizes[format];
      Ok(seq(entryCount, i requires 0 <= i < entryCount =>
        ColorOf(BigEndian(Compressor.Slice(b, i * size, i * size + size)), format)))
  }

  /** In RGBA8 every channel is its byte. */
  lemma {:induction false} Rgba8Bytes(x: nat)
    requires x < Pow2(32)
    ensures ColorOf(x, 5) == ColorVector(x / 0x100_0000, x / 0x1_0000 % 256, x / 0x100 % 256, x % 256)
  {
    Pow2Values();
    Rgba8Channels(x);
    ByteChannel(x, 24);
    ByteChannel(x, 16);
    ByteChannel(x, 8);
    ByteChannel(x, 0);
    assert x / 0x100_0000 < 256;
  }

  /** The RGBA8 channels are the four bytes, highest first, each scaled. */
  lemma {:induction false} Rgba8Channels(x: nat)
    ensures DisplayObject.ColorSizes[5] == 4
    ensures var ch := Channels(x, 32, ChannelBits(5));
      && ch[0] == Scale(Mask(Shr(x, 24), 8), 8) && ch[1] == Scale(Mask(Shr(x, 16), 8), 8)
      && ch[2] == Scale(Mask(Shr(x, 8), 8), 8) && ch[3] == Scale(Mask(Shr(x, 0), 8), 8)
  {
    var bits := ChannelBits(5);
    Rgba8Totals(bits);
    ChannelAt(x, 32, bits, 0);
    ChannelAt(x, 32, bits, 1);
    ChannelAt(x, 32, bits, 2);
    ChannelAt(x, 32, bits, 3);
  }

  /** The channel prefixes of RGBA8 take 8, 16, 24 and 32 bits. */
  lemma {:induction false} Rgba8Totals(bits: seq<nat>)
    requires bits == [8, 8, 8, 8]
    ensures Total(bits[..1]) == 8 && Total(bits[..2]) == 16 && Total(bits[..3]) == 24 && Total(bits[..4]) == 32
  {
    assert bits[..1] == [8] && bits[..2] == [8, 8] && bits[..3] == [8, 8, 8] && bits[..4] == bits;
    assert Total([8]) == 8 && Total([8, 8]) == 16 && Total([8, 8, 8]) == 24;
  }

  /** An 8-bit channel is the byte itself: `v * 255 / 255 == v`. */
  lemma {:induction false} ByteChannel(x: nat, k: nat)
    ensures Scale(Mask(Shr(x, k), 8), 8) == x / Pow2(k) % 256
  {
    Pow2Values();
    var v := Mask(Shr(x, k), 8);
    DivModUnique(v * 255, 255, v, 0);
  }

  /** In RGBA4 a channel of value `v` becomes `17 * v`, the nibble repeated. */
  lemma {:induction false} Rgba4Scale(v: nat)
    requires v < 16
    ensures Scale(v, 4) == 17 * v
  {
    Pow2Values();
  }
}
