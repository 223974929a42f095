/** The Virgl command stream: what each encoder writes, word by word, and a decoder that walks
    the header lengths back to the commands. */
module VirglCodec {
  import opened MachineWords
  import opened Arithmetic
  import opened Results

  const CREATE_OBJECT := 1
  const BIND_OBJECT := 2
  const DESTROY_OBJECT := 3
  const SET_VIEWPORT_STATE := 4
  const SET_FRAMEBUFFER_STATE := 5
  const SET_VERTEX_BUFFERS := 6
  const CLEAR := 7
  const DRAW_VBO := 8
  const RESOURCE_INLINE_WRITE := 9
  const SET_SAMPLER_VIEWS := 10
  const SET_SCISSOR_STATE := 15
  const BLIT := 16
  const BIND_SAMPLER_STATES := 18
  const SET_SUB_CTX := 28
  const CREATE_SUB_CTX := 29
  const BIND_SHADER := 31

  const OBJECT_BLEND := 1
  const OBJECT_RASTERIZER := 2
  const OBJECT_DSA := 3
  const OBJECT_SHADER := 4
  const OBJECT_VERTEX_ELEMENTS := 5
  const OBJECT_SAMPLER_VIEW := 6
  const OBJECT_SAMPLER_STATE := 7
  const OBJECT_SURFACE := 8

  /** Commands whose payload is their arguments, one word each, in order. */
  datatype Plain =
    | CreateSubCtx | SetSubCtx | CreateSurface | CreateDsa | CreateRasterizer
    | SetViewport | DrawVbo | CreateSamplerState
    | BindObject(objType: u32) | DestroyObject(objType: u32)

  datatype VertexElement = VertexElement(offset: u32, divisor: u32, buffer: u32, format: u32)

  datatype VertexBuffer = VertexBuffer(stride: u32, offset: u32, res: u32)

  datatype Box = Box(x: u32, y: u32, z: u32, w: u32, h: u32, d: u32)

  /** One side of a BLIT. */
  datatype Side = Side(level: u32, format: u32, res: u32, box: seq<u32>)

  /** One encoder call. Floats are their 32-bit patterns, doubles their 64-bit patterns. */
  datatype Cmd =
    | Words(kind: Plain, args: seq<u32>)
    | BindShader(shaderType: u32, handle: u32)
    | CreateBlend(handle: u32, s0: u32, rt0: u32)
    | CreateShader(handle: u32, shaderType: u32, text: seq<u8>)
    | CreateVertexElements(handle: u32, elements: seq<VertexElement>)
    | SetFramebufferState(zsurf: u32, surfaces: seq<u32>)
    | SetVertexBuffers(buffers: seq<VertexBuffer>)
    | SetScissor(slot: u32, minx: u32, miny: u32, maxx: u32, maxy: u32)
    | Clear(buffersMask: u32, color: seq<u32>, depth: u64, stencil: u32)
    | InlineWrite(res: u32, level: u32, usage: u32, stride: u32, layerStride: u32, box: Box, data: seq<u8>)
    | Blit(s0: u32, dst: Side, src: Side)
    | CreateSamplerView(handle: u32, res: u32, format: u32, first: u32, last: u32, swizzle: seq<u32>)
    | SetSamplerViews(shaderType: u32, slot: u32, views: seq<u32>)
    | BindSamplerStates(shaderType: u32, slot: u32, states: seq<u32>)

  function Arity(k: Plain): nat {
    match k
    case CreateSubCtx => 1
    case SetSubCtx => 1
    case CreateSurface => 5
    case CreateDsa => 5
    case CreateRasterizer => 9
    case SetViewport => 7
    case DrawVbo => 12
    case CreateSamplerState => 9
    case BindObject(_) => 1
    case DestroyObject(_) => 1
  }

  function PlainId(k: Plain): (u32, u32) {
    match k
    case CreateSubCtx => (CREATE_SUB_CTX, 0)
    case SetSubCtx => (SET_SUB_CTX, 0)
    case CreateSurface => (CREATE_OBJECT, OBJECT_SURFACE)
    case CreateDsa => (CREATE_OBJECT, OBJECT_DSA)
    case CreateRasterizer => (CREATE_OBJECT, OBJECT_RASTERIZER)
    case SetViewport => (SET_VIEWPORT_STATE, 0)
    case DrawVbo => (DRAW_VBO, 0)
    case CreateSamplerState => (CREATE_OBJECT, OBJECT_SAMPLER_STATE)
    case BindObject(t) => (BIND_OBJECT, t)
    case DestroyObject(t) => (DESTROY_OBJECT, t)
  }

  // ---------------------------------------------------------------- packing

  /** Bytes packed four to a word, the first byte lowest; the last word may be partial. */
  function PackedWords(b: seq<u8>): (ws: seq<u32>)
    ensures |ws| == (|b| + 3) / 4
    decreases |b|
  {
    Spans();
    if b == [] then []
    else if |b| < 4 then [PackedWord(b)]
    else [PackedWord(b[..4])] + PackedWords(b[4..])
  }

  function PackedWord(b: seq<u8>): u32
    requires |b| <= 4
  {
    SpanGrows(|b|);
    Value(b)
  }

  lemma SpanGrows(n: nat)
    requires n <= 4
    ensures Span(n) <= TWO_32
  {
    Spans();
  }

  function UnpackedBytes(ws: seq<u32>): (b: seq<u8>)
    ensures |b| == 4 * |ws|
  {
    if ws == [] then [] else Bytes(ws[0], 4) + UnpackedBytes(ws[1..])
  }

  function Zeros(n: nat): (z: seq<u8>)
    ensures |z| == n
  {
    seq(n, _ => 0)
  }

  /** b, padded with zero bytes to whole words. */
  function Padded(b: seq<u8>): seq<u8> {
    b + Zeros((4 - |b| % 4) % 4)
  }

  lemma LowAndRest(x: int, y: int)
    requires 0 <= x < 0x100
    ensures (x + 0x100 * y) % 0x100 == x && (x + 0x100 * y) / 0x100 == y
  {
  }

  lemma ValueParts(b: seq<u8>)
    requires b != []
    ensures Value(b) % TWO_8 == b[0] && Value(b) / TWO_8 == Value(b[1..])
  {
    hide Span;
    LowAndRest(b[0], Value(b[1..]));
  }

  lemma BytesStep(v: nat, n: nat)
    requires n > 0
    ensures Bytes(v, n) == [v % TWO_8] + Bytes(v / TWO_8, n - 1)
  {
  }

  lemma {:induction false} BytesOfShort(b: seq<u8>, n: nat)
    requires |b| <= n
    ensures Bytes(Value(b), n) == b + Zeros(n - |b|)
  {
    hide Value, Span, Bytes;
    if n == 0 {
      BytesOfNone(Value(b));
    } else {
      BytesStep(Value(b), n);
      if b == [] {
        ValueOfNone();
        BytesOfShort([], n - 1);
        assert Zeros(n) == [0] + Zeros(n - 1);
        assert [] + Zeros(n) == Zeros(n) && [] + Zeros(n - 1) == Zeros(n - 1);
      } else {
        ValueParts(b);
        BytesOfShort(b[1..], n - 1);
        assert b + Zeros(n - |b|) == [b[0]] + (b[1..] + Zeros(n - 1 - |b[1..]|));
      }
    }
  }

  lemma BytesOfNone(v: nat)
    ensures Bytes(v, 0) == []
  {
  }

  lemma ValueOfNone()
    ensures Value([]) == 0
  {
  }

  lemma PaddedStep(b: seq<u8>)
    requires |b| >= 4
    ensures Padded(b) == b[..4] + Padded(b[4..])
  {
    assert (4 - |b| % 4) % 4 == (4 - |b[4..]| % 4) % 4;
    assert b == b[..4] + b[4..];
  }

  lemma UnpackOne(w: u32, ws: seq<u32>)
    ensures UnpackedBytes([w] + ws) == Bytes(w, 4) + UnpackedBytes(ws)
  {
    assert ([w] + ws)[1..] == ws;
  }

  /** Unpacking gives back the bytes, zero-padded to whole words. */
  lemma {:induction false} UnpackPacked(b: seq<u8>)
    ensures UnpackedBytes(PackedWords(b)) == Padded(b)
    decreases |b|
  {
    hide Bytes, Value, Span, UnpackedBytes, Zeros;
    if b == [] {
      assert UnpackedBytes([]) == [];
      assert Padded(b) == b + Zeros(0) && Zeros(0) == [];
    } else if |b| < 4 {
      BytesOfShort(b, 4);
      UnpackOne(PackedWord(b), []);
      assert PackedWords(b) == [PackedWord(b)] + [];
      assert UnpackedBytes([]) == [];
    } else {
      BytesOfShort(b[..4], 4);
      assert Zeros(0) == [];
      UnpackPacked(b[4..]);
      UnpackOne(PackedWord(b[..4]), PackedWords(b[4..]));
      PaddedStep(b);
    }
  }

  // ---------------------------------------------------------------- frames

  /** VIRGL_CMD_HDR for a command and object id of 8 bits; a length of more than 16 bits is cut. */
  function Header(cmd: u32, obj: u32, length: nat): u32
    requires cmd < 256 && obj < 256
  {
    cmd + obj * 0x100 + length % TWO_16 * TWO_16
  }

  datatype Frame = Frame(cmd: u32, obj: u32, payload: seq<u32>)

  function FrameWords(f: Frame): seq<u32>
    requires f.cmd < 256 && f.obj < 256
  {
    [Header(f.cmd, f.obj, |f.payload|)] + f.payload
  }

  predicate Framable(f: Frame) {
    f.cmd < 256 && f.obj < 256 && |f.payload| < TWO_16
  }

  function AllFrameWords(fs: seq<Frame>): seq<u32>
    requires forall f :: f in fs ==> Framable(f)
  {
    if fs == [] then []
    else
      assert fs[0] in fs && Framable(fs[0]);
      FrameWords(fs[0]) + AllFrameWords(fs[1..])
  }

  /** The host's walk over the stream: header, that many words, next header. */
  function Walk(ws: seq<u32>): Option<seq<Frame>>
    decreases |ws|
  {
    if ws == [] then Some([])
    else
      var n := ws[0] / TWO_16;
      if 1 + n > |ws| then None
      else
        match Walk(ws[1 + n..])
        case None => None
        case Some(fs) => Some([Frame(ws[0] % 0x100, ws[0] / 0x100 % 0x100, ws[1..1 + n])] + fs)
  }

  lemma HeaderFields(cmd: u32, obj: u32, length: nat)
    requires cmd < 256 && obj < 256
    ensures Header(cmd, obj, length) % 0x100 == cmd
    ensures Header(cmd, obj, length) / 0x100 % 0x100 == obj
    ensures Header(cmd, obj, length) / TWO_16 == length <==> length < TWO_16
  {
    var cut := length % TWO_16;
    DivModUnique(Header(cmd, obj, length), 0x100, obj + cut * 0x100, cmd);
    DivModUnique(obj + cut * 0x100, 0x100, cut, obj);
    DivModUnique(Header(cmd, obj, length), TWO_16, cut, cmd + obj * 0x100);
  }

  lemma {:induction false} WalkFrames(fs: seq<Frame>)
    requires forall f :: f in fs ==> Framable(f)
    ensures Walk(AllFrameWords(fs)) == Some(fs)
    decreases |fs|
  {
    if fs != [] {
      var f, rest := fs[0], AllFrameWords(fs[1..]);
      var ws := AllFrameWords(fs);
      assert Framable(f);
      assert FrameWords(f) == [Header(f.cmd, f.obj, |f.payload|)] + f.payload;
      HeaderFields(f.cmd, f.obj, |f.payload|);
      assert ws == [Header(f.cmd, f.obj, |f.payload|)] + f.payload + rest;
      assert ws[1..1 + |f.payload|] == f.payload;
      assert ws[1 + |f.payload|..] == rest;
      WalkFrames(fs[1..]);
      assert Frame(ws[0] % 0x100, ws[0] / 0x100 % 0x100, ws[1..1 + |f.payload|]) == f;
      assert Walk(ws) == Some([f] + fs[1..]);
      assert fs == [f] + fs[1..];
    }
  }

  // ---------------------------------------------------------------- commands

  function Cut16(v: u32): u32 {
    v % TWO_16
  }

  /** (a & 0xFFFF) | (b << 16) in 32 bits. */
  function Pair(a: u32, b: u32): u32 {
    Cut16(a) + Cut16(b) * TWO_16
  }

  function SideWords(e: Side): seq<u32> {
    [e.level % 0x100 + Cut16(e.format) * 0x100, e.res] + e.box
  }

  /** Four 3-bit fields. */
  function Swizzle(z: seq<u32>): u32
    requires |z| == 4
  {
    z[0] % 8 + z[1] % 8 * 8 + z[2] % 8 * 64 + z[3] % 8 * 512
  }

  function ElementWords(es: seq<VertexElement>): (ws: seq<u32>)
    ensures |ws| == 4 * |es|
  {
    if es == [] then [] else [es[0].offset, es[0].divisor, es[0].buffer, es[0].format] + ElementWords(es[1..])
  }

  function BufferWords(bs: seq<VertexBuffer>): (ws: seq<u32>)
    ensures |ws| == 3 * |bs|
  {
    if bs == [] then [] else [bs[0].stride, bs[0].offset, bs[0].res] + BufferWords(bs[1..])
  }

  function ElementsOf(ws: seq<u32>): seq<VertexElement> {
    if |ws| < 4 then [] else [VertexElement(ws[0], ws[1], ws[2], ws[3])] + ElementsOf(ws[4..])
  }

  function BuffersOf(ws: seq<u32>): seq<VertexBuffer> {
    if |ws| < 3 then [] else [VertexBuffer(ws[0], ws[1], ws[2])] + BuffersOf(ws[3..])
  }

  /** What the C types and the callers guarantee of an encoder call: the right number of
      arguments, an 8-bit object type, a text without NUL, counts that fit 32 bits. */
  predicate Callable(c: Cmd) {
    match c
    case Words(kind, args) => |args| == Arity(kind) && PlainId(kind).1 < 256
    case CreateShader(_, _, text) => 0 !in text && |text| + 4 < TWO_32
    case CreateVertexElements(_, es) => |es| < TWO_32
    case SetFramebufferState(_, ss) => |ss| < TWO_32
    case Clear(_, color, _, _) => |color| == 4
    case Blit(_, dst, src) => |dst.box| == 6 && |src.box| == 6
    case CreateSamplerView(_, _, _, _, _, z) => |z| == 4
    case _ => true
  }

  /** The words each encoder emits after its header. */
  function Payload(c: Cmd): seq<u32>
    requires Callable(c)
  {
    match c
    case Words(_, args) => args
    case BindShader(shaderType, handle) => [handle, shaderType]
    case CreateBlend(handle, s0, rt0) => [handle, s0, 0, rt0, 0, 0, 0, 0, 0, 0, 0]
    case CreateShader(handle, shaderType, text) =>
      [handle, shaderType, |text| + 1, (|text| + 1 + 3) / 4, 0] + PackedWords(text + [0])
    case CreateVertexElements(handle, es) => [handle] + ElementWords(es)
    case SetFramebufferState(zsurf, ss) => [|ss|, zsurf] + ss
    case SetVertexBuffers(bs) => BufferWords(bs)
    case SetScissor(slot, minx, miny, maxx, maxy) => [slot, Pair(minx, miny), Pair(maxx, maxy)]
    case Clear(mask, color, depth, stencil) => [mask] + color + [depth % TWO_32, depth / TWO_32, stencil]
    case InlineWrite(res, level, usage, stride, layerStride, box, data) =>
      [res, level, usage, stride, layerStride, box.x, box.y, box.z, box.w, box.h, box.d] + PackedWords(data)
    case Blit(s0, dst, src) => [s0] + SideWords(dst) + SideWords(src)
    case CreateSamplerView(handle, res, format, first, last, z) => [handle, res, format, first, last, Swizzle(z)]
    case SetSamplerViews(shaderType, slot, views) => [shaderType, slot] + views
    case BindSamplerStates(shaderType, slot, states) => [shaderType, slot] + states
  }

  function CommandId(c: Cmd): (u32, u32) {
    match c
    case Words(kind, _) => PlainId(kind)
    case BindShader(_, _) => (BIND_SHADER, 0)
    case CreateBlend(_, _, _) => (CREATE_OBJECT, OBJECT_BLEND)
    case CreateShader(_, _, _) => (CREATE_OBJECT, OBJECT_SHADER)
    case CreateVertexElements(_, _) => (CREATE_OBJECT, OBJECT_VERTEX_ELEMENTS)
    case SetFramebufferState(_, _) => (SET_FRAMEBUFFER_STATE, 0)
    case SetVertexBuffers(_) => (SET_VERTEX_BUFFERS, 0)
    case SetScissor(_, _, _, _, _) => (SET_SCISSOR_STATE, 0)
    case Clear(_, _, _, _) => (CLEAR, 0)
    case InlineWrite(_, _, _, _, _, _, _) => (RESOURCE_INLINE_WRITE, 0)
    case Blit(_, _, _) => (BLIT, 0)
    case CreateSamplerView(_, _, _, _, _, _) => (CREATE_OBJECT, OBJECT_SAMPLER_VIEW)
    case SetSamplerViews(_, _, _) => (SET_SAMPLER_VIEWS, 0)
    case BindSamplerStates(_, _, _) => (BIND_SAMPLER_STATES, 0)
  }

  function FrameOf(c: Cmd): Frame
    requires Callable(c)
  {
    Frame(CommandId(c).0, CommandId(c).1, Payload(c))
  }

  function Encode(c: Cmd): seq<u32>
    requires Callable(c)
  {
    [Header(CommandId(c).0, CommandId(c).1, |Payload(c)|)] + Payload(c)
  }

  /** What of a call survives the wire: packed fields are cut to their width, inline data is
      padded to whole words. */
  function Seen(c: Cmd): Cmd {
    match c
    case SetScissor(slot, minx, miny, maxx, maxy) =>
      SetScissor(slot, Cut16(minx), Cut16(miny), Cut16(maxx), Cut16(maxy))
    case InlineWrite(res, level, usage, stride, layerStride, box, data) =>
      InlineWrite(res, level, usage, stride, layerStride, box, Padded(data))
    case Blit(s0, dst, src) => Blit(s0, SeenSide(dst), SeenSide(src))
    case CreateSamplerView(handle, res, format, first, last, z) =>
      CreateSamplerView(handle, res, format, first, last, seq(|z|, i requires 0 <= i < |z| => z[i] % 8))
    case _ => c
  }

  function SeenSide(e: Side): Side {
    e.(level := e.level % 0x100, format := Cut16(e.format))
  }

  /** A call all of whose packed fields fit their width. */
  predicate Exact(c: Cmd) {
    match c
    case SetScissor(_, minx, miny, maxx, maxy) => minx < TWO_16 && miny < TWO_16 && maxx < TWO_16 && maxy < TWO_16
    case InlineWrite(_, _, _, _, _, _, data) => |data| % 4 == 0
    case Blit(_, dst, src) => dst.level < 0x100 && dst.format < TWO_16 && src.level < 0x100 && src.format < TWO_16
    case CreateSamplerView(_, _, _, _, _, z) => forall i :: 0 <= i < |z| ==> z[i] < 8
    case _ => true
  }

  /** Nothing at all is lost of exactly those calls whose fields fit. */
  lemma SeenIff(c: Cmd)
    ensures Seen(c) == c <==> Exact(c)
  {
    match c
    case InlineWrite(_, _, _, _, _, _, data) =>
      assert |Padded(data)| == |data| ==> |data| % 4 == 0;
      if |data| % 4 == 0 { assert Padded(data) == data; }
    case CreateSamplerView(_, _, _, _, _, z) =>
      var z' := seq(|z|, i requires 0 <= i < |z| => z[i] % 8);
      if z' == z { assert forall i :: 0 <= i < |z| ==> z'[i] == z[i] % 8; }
    case _ =>
  }

  // ---------------------------------------------------------------- parsing

  function ParsePlain(k: Plain, p: seq<u32>): Option<Cmd> {
    if |p| == Arity(k) then Some(Words(k, p)) else None
  }

  function ParseShader(p: seq<u32>): Option<Cmd> {
    if |p| < 5 then None
    else
      var bytes := UnpackedBytes(p[5..]);
      if 1 <= p[2] <= |bytes| then Some(CreateShader(p[0], p[1], bytes[..p[2] - 1])) else None
  }

  function ParseSide(p: seq<u32>): Side
    requires |p| == 8
  {
    Side(p[0] % 0x100, p[0] / 0x100, p[1], p[2..])
  }

  // The host knows commands and objects by number, whatever the driver calls them.

  function ParseObject(obj: u32, p: seq<u32>): Option<Cmd> {
    if obj == 8 then ParsePlain(CreateSurface, p)
    else if obj == 3 then ParsePlain(CreateDsa, p)
    else if obj == 2 then ParsePlain(CreateRasterizer, p)
    else if obj == 7 then ParsePlain(CreateSamplerState, p)
    else if obj == 4 then ParseShader(p)
    else if obj == 1 then if |p| == 11 then Some(CreateBlend(p[0], p[1], p[3])) else None
    else if obj == 5 then
      if |p| % 4 == 1 then Some(CreateVertexElements(p[0], ElementsOf(p[1..]))) else None
    else if obj == 6 then
      if |p| == 6 then
        Some(CreateSamplerView(p[0], p[1], p[2], p[3], p[4], [p[5] % 8, p[5] / 8 % 8, p[5] / 64 % 8, p[5] / 512 % 8]))
      else None
    else None
  }

  function Parse(f: Frame): Option<Cmd> {
    var p := f.payload;
    if f.cmd == 1 then ParseObject(f.obj, p)
    else if f.cmd == 2 then ParsePlain(BindObject(f.obj), p)
    else if f.cmd == 3 then ParsePlain(DestroyObject(f.obj), p)
    else if f.cmd == 29 then ParsePlain(CreateSubCtx, p)
    else if f.cmd == 28 then ParsePlain(SetSubCtx, p)
    else if f.cmd == 4 then ParsePlain(SetViewport, p)
    else if f.cmd == 8 then ParsePlain(DrawVbo, p)
    else if f.cmd == 31 then if |p| == 2 then Some(BindShader(p[1], p[0])) else None
    else if f.cmd == 5 then
      if |p| >= 2 && p[0] == |p| - 2 then Some(SetFramebufferState(p[1], p[2..])) else None
    else if f.cmd == 6 then if |p| % 3 == 0 then Some(SetVertexBuffers(BuffersOf(p))) else None
    else if f.cmd == 15 then
      if |p| == 3 then Some(SetScissor(p[0], p[1] % TWO_16, p[1] / TWO_16, p[2] % TWO_16, p[2] / TWO_16)) else None
    else if f.cmd == 7 then
      if |p| == 8 then Some(Clear(p[0], p[1..5], p[5] + p[6] * TWO_32, p[7])) else None
    else if f.cmd == 9 then
      if |p| >= 11 then
        Some(InlineWrite(p[0], p[1], p[2], p[3], p[4], Box(p[5], p[6], p[7], p[8], p[9], p[10]),
                         UnpackedBytes(p[11..])))
      else None
    else if f.cmd == 16 then if |p| == 17 then Some(Blit(p[0], ParseSide(p[1..9]), ParseSide(p[9..]))) else None
    else if f.cmd == 10 then if |p| >= 2 then Some(SetSamplerViews(p[0], p[1], p[2..])) else None
    else if f.cmd == 18 then if |p| >= 2 then Some(BindSamplerStates(p[0], p[1], p[2..])) else None
    else None
  }

  lemma {:induction false} ElementsBack(es: seq<VertexElement>)
    ensures ElementsOf(ElementWords(es)) == es
  {
    if es != [] {
      ElementsBack(es[1..]);
      assert ElementWords(es)[4..] == ElementWords(es[1..]);
    }
  }

  lemma {:induction false} BuffersBack(bs: seq<VertexBuffer>)
    ensures BuffersOf(BufferWords(bs)) == bs
  {
    if bs != [] {
      BuffersBack(bs[1..]);
      assert BufferWords(bs)[3..] == BufferWords(bs[1..]);
    }
  }

  lemma ShaderBack(c: Cmd)
    requires c.CreateShader? && Callable(c)
    ensures ParseShader(Payload(c)) == Some(c)
  {
    var b := c.text + [0];
    UnpackPacked(b);
    assert Payload(c)[5..] == PackedWords(b);
    assert Padded(b)[..|c.text|] == c.text;
  }

  lemma FieldsBack(a: int, b: int, c: int, d: int, w: int)
    requires 0 <= a < 8 && 0 <= b < 8 && 0 <= c < 8 && 0 <= d < 8
    requires w == a + b * 8 + c * 64 + d * 512
    ensures w % 8 == a && w / 8 % 8 == b && w / 64 % 8 == c && w / 512 % 8 == d
  {
    assert w / 8 == b + c * 8 + d * 64;
    assert w / 64 == c + d * 8;
    assert w / 512 == d;
  }

  lemma SwizzleBack(z: seq<u32>)
    requires |z| == 4
    ensures var w := Swizzle(z);
            [w % 8, w / 8 % 8, w / 64 % 8, w / 512 % 8] == seq(|z|, i requires 0 <= i < |z| => z[i] % 8)
  {
    FieldsBack(z[0] % 8, z[1] % 8, z[2] % 8, z[3] % 8, Swizzle(z));
  }

  lemma SideBack(e: Side)
    requires |e.box| == 6
    ensures ParseSide(SideWords(e)) == SeenSide(e)
  {
    assert SideWords(e)[2..] == e.box;
  }

  lemma WordsBack(c: Cmd)
    requires c.Words? && Callable(c)
    ensures Parse(FrameOf(c)) == Some(c)
  {
  }

  lemma ListsBack(c: Cmd)
    requires Callable(c)
    requires c.CreateVertexElements? || c.SetVertexBuffers? || c.SetFramebufferState? || c.SetSamplerViews?
             || c.BindSamplerStates?
    ensures Parse(FrameOf(c)) == Some(c)
  {
    var p := Payload(c);
    if c.CreateVertexElements? {
      ElementsBack(c.elements);
      assert p[1..] == ElementWords(c.elements);
    } else if c.SetVertexBuffers? {
      BuffersBack(c.buffers);
    } else if c.SetFramebufferState? {
      assert p[2..] == c.surfaces;
    } else if c.SetSamplerViews? {
      assert p[2..] == c.views;
    } else {
      assert p[2..] == c.states;
    }
  }

  lemma BytesBack(c: Cmd)
    requires Callable(c) && (c.CreateShader? || c.InlineWrite?)
    ensures Parse(FrameOf(c)) == Some(Seen(c))
  {
    if c.CreateShader? {
      ShaderBack(c);
    } else {
      UnpackPacked(c.data);
      assert Payload(c)[11..] == PackedWords(c.data);
    }
  }

  lemma FieldsAndSidesBack(c: Cmd)
    requires Callable(c) && (c.SetScissor? || c.Clear? || c.Blit? || c.CreateSamplerView?)
    ensures Parse(FrameOf(c)) == Some(Seen(c))
  {
    var p := Payload(c);
    if c.Clear? {
      assert p[1..5] == c.color;
    } else if c.Blit? {
      SideBack(c.dst);
      SideBack(c.src);
      assert p[1..9] == SideWords(c.dst) && p[9..] == SideWords(c.src);
    } else if c.CreateSamplerView? {
      SwizzleBack(c.swizzle);
      hide Swizzle;
    }
  }

  /** Parsing the frame of a call gives back what survives of the call. */
  lemma ParseBack(c: Cmd)
    requires Callable(c)
    ensures Parse(FrameOf(c)) == Some(Seen(c))
  {
    match c
    case Words(_, _) => WordsBack(c);
    case CreateShader(_, _, _) => BytesBack(c);
    case InlineWrite(_, _, _, _, _, _, _) => BytesBack(c);
    case SetScissor(_, _, _, _, _) => FieldsAndSidesBack(c);
    case Clear(_, _, _, _) => FieldsAndSidesBack(c);
    case Blit(_, _, _) => FieldsAndSidesBack(c);
    case CreateSamplerView(_, _, _, _, _, _) => FieldsAndSidesBack(c);
    case BindShader(_, _) =>
    case CreateBlend(_, _, _) =>
    case _ => ListsBack(c);
  }

  // ---------------------------------------------------------------- whole streams

  function EncodeAll(cs: seq<Cmd>): seq<u32>
    requires forall c :: c in cs ==> Callable(c)
  {
    if cs == [] then [] else Encode(cs[0]) + EncodeAll(cs[1..])
  }

  function ParseAll(fs: seq<Frame>): Option<seq<Cmd>> {
    if fs == [] then Some([])
    else
      match (Parse(fs[0]), ParseAll(fs[1..]))
      case (Some(c), Some(cs)) => Some([c] + cs)
      case _ => None
  }

  /** The host's reading of a stream. */
  function Decode(ws: seq<u32>): Option<seq<Cmd>> {
    match Walk(ws)
    case None => None
    case Some(fs) => ParseAll(fs)
  }

  function SeenAll(cs: seq<Cmd>): seq<Cmd> {
    if cs == [] then [] else [Seen(cs[0])] + SeenAll(cs[1..])
  }

  function Frames(cs: seq<Cmd>): seq<Frame>
    requires forall c :: c in cs ==> Callable(c)
  {
    if cs == [] then [] else [FrameOf(cs[0])] + Frames(cs[1..])
  }

  lemma {:induction false} ParseAllBack(cs: seq<Cmd>)
    requires forall c :: c in cs ==> Callable(c)
    ensures ParseAll(Frames(cs)) == Some(SeenAll(cs))
  {
    if cs != [] {
      hide Parse, FrameOf, Seen, Callable;
      assert cs[0] in cs;
      ParseBack(cs[0]);
      ParseAllBack(cs[1..]);
      assert Frames(cs)[1..] == Frames(cs[1..]);
    }
  }

  lemma {:induction false} EncodeAllFrames(cs: seq<Cmd>)
    requires forall c :: c in cs ==> Callable(c) && |Payload(c)| < TWO_16
    ensures forall f :: f in Frames(cs) ==> Framable(f)
    ensures AllFrameWords(Frames(cs)) == EncodeAll(cs)
  {
    if cs != [] {
      hide Payload, CommandId, Callable;
      assert cs[0] in cs;
      EncodeAllFrames(cs[1..]);
      FrameIsFramable(cs[0]);
      assert Frames(cs)[1..] == Frames(cs[1..]);
      assert FrameWords(FrameOf(cs[0])) == Encode(cs[0]);
    }
  }

  lemma FrameIsFramable(c: Cmd)
    requires Callable(c) && |Payload(c)| < TWO_16
    ensures Framable(FrameOf(c))
  {
  }

  /** Any sequence of encoder calls with payloads under 65536 words reads back as that very
      sequence, up to the fields that Seen cuts. */
  lemma DecodeEncoded(cs: seq<Cmd>)
    requires forall c :: c in cs ==> Callable(c) && |Payload(c)| < TWO_16
    ensures Decode(EncodeAll(cs)) == Some(SeenAll(cs))
  {
    hide Payload, Callable, Parse, Framable;
    EncodeAllFrames(cs);
    WalkFrames(Frames(cs));
    ParseAllBack(cs);
  }

  // ---------------------------------------------------------------- streams cut short

  lemma {:induction false} WalkCut(fs: seq<Frame>, k: nat)
    requires forall f :: f in fs ==> Framable(f)
    requires k < |AllFrameWords(fs)|
    ensures var w := Walk(AllFrameWords(fs)[..k]); w.None? || |w.value| < |fs|
    decreases |fs|
  {
    var f, rest := fs[0], AllFrameWords(fs[1..]);
    assert f in fs && Framable(f);
    HeaderFields(f.cmd, f.obj, |f.payload|);
    var ws, m := AllFrameWords(fs), 1 + |f.payload|;
    assert ws == FrameWords(f) + rest;
    if m <= k {
      assert ws[..k][m..] == rest[..k - m];
      assert ws[..k][0] == Header(f.cmd, f.obj, |f.payload|);
      WalkCut(fs[1..], k - m);
    } else if k > 0 {
      assert ws[..k][0] == Header(f.cmd, f.obj, |f.payload|);
    }
  }

  lemma {:induction false} ParseAllLength(fs: seq<Frame>)
    ensures ParseAll(fs).Some? ==> |ParseAll(fs).value| == |fs|
  {
    if fs != [] {
      ParseAllLength(fs[1..]);
    }
  }

  lemma {:induction false} SeenAllLength(cs: seq<Cmd>)
    ensures |SeenAll(cs)| == |cs|
  {
    if cs != [] {
      SeenAllLength(cs[1..]);
    }
  }

  lemma {:induction false} FramesLength(cs: seq<Cmd>)
    requires forall c :: c in cs ==> Callable(c)
    ensures |Frames(cs)| == |cs|
  {
    if cs != [] {
      FramesLength(cs[1..]);
    }
  }

  /** The first k words of a stream read back as the whole sequence of calls exactly when they
      are the whole stream: losing even one word is always visible. */
  lemma DecodeCutIff(cs: seq<Cmd>, k: nat)
    requires forall c :: c in cs ==> Callable(c) && |Payload(c)| < TWO_16
    requires k <= |EncodeAll(cs)|
    ensures Decode(EncodeAll(cs)[..k]) == Some(SeenAll(cs)) <==> k == |EncodeAll(cs)|
  {
    hide Payload, Callable, Parse, Framable, Walk, EncodeAll, AllFrameWords, SeenAll, ParseAll, Frames;
    var ws := EncodeAll(cs);
    if k == |ws| {
      assert ws[..k] == ws;
      DecodeEncoded(cs);
    } else {
      EncodeAllFrames(cs);
      WalkCut(Frames(cs), k);
      var w := Walk(ws[..k]);
      if w.Some? { ParseAllLength(w.value); }
      SeenAllLength(cs);
      FramesLength(cs);
    }
  }
}
