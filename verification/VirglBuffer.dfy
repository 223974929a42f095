/** VirglCmdBuf and the encoders that append to it. */
module VirglBuffer {
  import opened MachineWords
  import opened Arithmetic
  import opened Results
  import opened VirglCodec

  /** A stored word as the little-endian host reads its bytes. */
  function HostWord(stored: u32): u32 {
    Spans();
    Value(BigEndian(stored, 4))
  }

  /** A run of stored words as the host reads it. */
  function HostStream(stored: seq<u32>): (r: seq<u32>)
    ensures |r| == |stored|
  {
    seq(|stored|, i requires 0 <= i < |stored| => HostWord(stored[i]))
  }

  class VirglCmdBuf {
    const buf: array<u32>
    const maxDwords: nat
    var dwords: nat
    ghost var sent: seq<u32>    // every word an encoder has asked for since the last reset

    ghost predicate Valid()
      reads this, buf
    {
      && maxDwords <= buf.Length && dwords == Smaller(|sent|, maxDwords)
      && forall i :: 0 <= i < dwords ==> HostWord(buf[i]) == sent[i]
    }

    /** The stream as the host reads it. */
    ghost function HostWords(): seq<u32>
      reads this, buf
      requires Valid()
    {
      HostStream(buf[..dwords])
    }

    /** virgl_cmd_init. */
    constructor (buf: array<u32>, maxDwords: nat)
      requires maxDwords <= buf.Length
      ensures Valid() && sent == [] && this.buf == buf && this.maxDwords == maxDwords
    {
      this.buf, this.maxDwords, dwords, sent := buf, maxDwords, 0, [];
    }

    method Reset()
      requires Valid()
      modifies this
      ensures Valid() && sent == []
    {
      dwords, sent := 0, [];
    }

    /** What has been asked for and fits is what the host will read. */
    lemma HostReadsSent()
      requires Valid()
      ensures HostWords() == sent[..dwords] && dwords <= maxDwords
      ensures |sent| <= maxDwords ==> HostWords() == sent
    {
    }

    /** virgl_emit_dword: a word past the end is dropped; the index never passes the capacity. */
    method EmitDword(val: u32)
      requires Valid()
      modifies this, buf
      ensures Valid() && sent == old(sent) + [val]
    {
      if dwords < maxDwords {
        Spans();
        DeviceReads(val, 4);
        buf[dwords] := Vr32(true, val);
        dwords := dwords + 1;
      }
      sent := sent + [val];
    }

    /** A run of virgl_emit_dword calls. */
    method Emit(vals: seq<u32>)
      requires Valid()
      modifies this, buf
      ensures Valid() && sent == old(sent) + vals
    {
      for i := 0 to |vals|
        invariant Valid() && sent == old(sent) + vals[..i]
      {
        EmitDword(vals[i]);
        assert vals[..i + 1] == vals[..i] + [vals[i]];
      }
      assert vals[..|vals|] == vals;
    }

    /** Packs up to four bytes, lowest first: virgl_pack_text_word, and the inner loop of
        virgl_cmd_resource_inline_write. */
    method PackWord(bytes: seq<u8>, offset: nat) returns (val: u32)
      requires offset < |bytes|
      ensures val == PackedWord(bytes[offset..Smaller(|bytes|, offset + 4)])
    {
      var v, scale, i := 0, 1, 0;
      ghost var chunk := bytes[offset..Smaller(|bytes|, offset + 4)];
      while i < 4 && offset + i < |bytes|
        invariant i <= |chunk| && scale == Span(i)
        invariant v == Value(chunk[..i])
      {
        assert chunk[i] == bytes[offset + i];
        ValueSnoc(chunk[..i], chunk[i]);
        assert chunk[..i + 1] == chunk[..i] + [chunk[i]];
        v := v + bytes[offset + i] * scale;
        scale := scale * TWO_8;
        i := i + 1;
      }
      assert chunk[..i] == chunk;
      SpanGrows(|chunk|);
      val := v;
    }

    /** Emits bytes packed four to a word. */
    method EmitBytes(bytes: seq<u8>)
      requires Valid()
      modifies this, buf
      ensures Valid() && sent == old(sent) + PackedWords(bytes)
    {
      hide PackedWords, PackedWord;
      var off := 0;
      ghost var goal := sent + PackedWords(bytes);
      while off < |bytes|
        invariant Valid() && sent + PackedWords(After(bytes, off)) == goal
        decreases |bytes| - off
      {
        var word := PackWord(bytes, off);
        PackedStep(bytes, off);
        assert sent + PackedWords(After(bytes, off)) == (sent + [word]) + PackedWords(After(bytes, off + 4));
        EmitDword(word);
        off := off + 4;
      }
      assert PackedWords(After(bytes, off)) == [];
    }

    // ---------------------------------------------------------------- encoders

    method CreateSubCtx(subCtx: u32)
      requires Valid()
      modifies this, buf
      ensures Valid() && sent == old(sent) + Encode(Words(Plain.CreateSubCtx, [subCtx]))
    {
      EmitDword(Header(CREATE_SUB_CTX, 0, 1));
      Emit([subCtx]);
    }

    method SetSubCtx(subCtx: u32)
      requires Valid()
      modifies this, buf
      ensures Valid() && sent == old(sent) + Encode(Words(Plain.SetSubCtx, [subCtx]))
    {
      EmitDword(Header(SET_SUB_CTX, 0, 1));
      Emit([subCtx]);
    }

    method CreateSurface(handle: u32, res: u32, format: u32, first: u32, last: u32)
      requires Valid()
      modifies this, buf
      ensures Valid() && sent == old(sent) + Encode(Words(Plain.CreateSurface, [handle, res, format, first, last]))
    {
      EmitDword(Header(CREATE_OBJECT, OBJECT_SURFACE, 5));
      Emit([handle, res, format, first, last]);
    }

    method CreateDsa(handle: u32, s0: u32, s1Front: u32, s2Back: u32, alphaRef: u32)
      requires Valid()
      modifies this, buf
      ensures Valid() && sent == old(sent) + Encode(Words(Plain.CreateDsa, [handle, s0, s1Front, s2Back, alphaRef]))
    {
      EmitDword(Header(CREATE_OBJECT, OBJECT_DSA, 5));
      Emit([handle, s0, s1Front, s2Back, alphaRef]);
    }

    method CreateRasterizer(handle: u32, s0: u32, pointSize: u32, spriteCoord: u32, s3: u32, lineWidth: u32,
                            offsetUnits: u32, offsetScale: u32, offsetClamp: u32)
      requires Valid()
      modifies this, buf
      ensures Valid()
      ensures sent == old(sent) + Encode(Words(Plain.CreateRasterizer,
                [handle, s0, pointSize, spriteCoord, s3, lineWidth, offsetUnits, offsetScale, offsetClamp]))
    {
      EmitDword(Header(CREATE_OBJECT, OBJECT_RASTERIZER, 9));
      Emit([handle, s0, pointSize, spriteCoord, s3, lineWidth, offsetUnits, offsetScale, offsetClamp]);
    }

    method SetViewport(slot: u32, scaleX: u32, scaleY: u32, scaleZ: u32, transX: u32, transY: u32, transZ: u32)
      requires Valid()
      modifies this, buf
      ensures Valid()
      ensures sent == old(sent) + Encode(Words(Plain.SetViewport,
                [slot, scaleX, scaleY, scaleZ, transX, transY, transZ]))
    {
      EmitDword(Header(SET_VIEWPORT_STATE, 0, 7));
      Emit([slot, scaleX, scaleY, scaleZ, transX, transY, transZ]);
    }

    method DrawVbo(start: u32, count: u32, mode: u32, indexed: u32, instances: u32, indexBias: u32,
                   startInstance: u32, restart: u32, restartIndex: u32, minIndex: u32, maxIndex: u32, cso: u32)
      requires Valid()
      modifies this, buf
      ensures Valid()
      ensures sent == old(sent) + Encode(Words(Plain.DrawVbo,
                [start, count, mode, indexed, instances, indexBias, startInstance, restart, restartIndex,
                 minIndex, maxIndex, cso]))
    {
      EmitDword(Header(DRAW_VBO, 0, 12));
      Emit([start, count, mode, indexed, instances, indexBias, startInstance, restart, restartIndex,
              minIndex, maxIndex, cso]);
    }

    method CreateSamplerState(handle: u32, s0: u32, lodBias: u32, minLod: u32, maxLod: u32, borderR: u32,
                              borderG: u32, borderB: u32, borderA: u32)
      requires Valid()
      modifies this, buf
      ensures Valid()
      ensures sent == old(sent) + Encode(Words(Plain.CreateSamplerState,
                [handle, s0, lodBias, minLod, maxLod, borderR, borderG, borderB, borderA]))
    {
      EmitDword(Header(CREATE_OBJECT, OBJECT_SAMPLER_STATE, 9));
      Emit([handle, s0, lodBias, minLod, maxLod, borderR, borderG, borderB, borderA]);
    }

    method BindObject(objType: u32, handle: u32)
      requires Valid() && objType < 256
      modifies this, buf
      ensures Valid() && sent == old(sent) + Encode(Words(Plain.BindObject(objType), [handle]))
    {
      EmitDword(Header(BIND_OBJECT, objType, 1));
      EmitDword(handle);
    }

    method DestroyObject(objType: u32, handle: u32)
      requires Valid() && objType < 256
      modifies this, buf
      ensures Valid() && sent == old(sent) + Encode(Words(Plain.DestroyObject(objType), [handle]))
    {
      EmitDword(Header(DESTROY_OBJECT, objType, 1));
      EmitDword(handle);
    }

    method BindShader(shaderType: u32, handle: u32)
      requires Valid()
      modifies this, buf
      ensures Valid() && sent == old(sent) + Encode(Cmd.BindShader(shaderType, handle))
    {
      Emit([Header(BIND_SHADER, 0, 2), handle, shaderType]);
    }

    method CreateBlend(handle: u32, s0: u32, rt0: u32)
      requires Valid()
      modifies this, buf
      ensures Valid() && sent == old(sent) + Encode(Cmd.CreateBlend(handle, s0, rt0))
    {
      hide Header;
      var front := [Header(CREATE_OBJECT, OBJECT_BLEND, 11), handle, s0, 0, rt0];
      Emit(front);
      ghost var before := sent;
      for i := 1 to 8
        invariant Valid() && sent == before + seq(i - 1, _ => 0)
      {
        EmitDword(0);
      }
      ghost var zeros: seq<u32> := seq(7, _ => 0);
      Joined(old(sent), front, zeros);
      assert Encode(Cmd.CreateBlend(handle, s0, rt0)) == front + zeros;
    }

    /** The text is NUL-terminated on the wire. */
    method CreateShader(handle: u32, shaderType: u32, text: seq<u8>)
      requires Valid() && 0 !in text && |text| + 4 < TWO_32
      modifies this, buf
      ensures Valid() && sent == old(sent) + Encode(Cmd.CreateShader(handle, shaderType, text))
    {
      hide Header, PackedWords;
      var textWithNul := |text| + 1;
      var textWords := (textWithNul + 3) / 4;
      var front := [Header(CREATE_OBJECT, OBJECT_SHADER, 5 + textWords), handle, shaderType, textWithNul, textWords, 0];
      Emit(front);
      EmitBytes(text + [0]);
      Joined(old(sent), front, PackedWords(text + [0]));
      assert Encode(Cmd.CreateShader(handle, shaderType, text)) == front + PackedWords(text + [0]);
    }

    method EmitElements(elements: seq<VertexElement>)
      requires Valid()
      modifies this, buf
      ensures Valid() && sent == old(sent) + ElementWords(elements)
    {
      hide ElementWords;
      for i := 0 to |elements|
        invariant Valid() && sent == old(sent) + ElementWords(elements[..i])
      {
        ElementSnoc(elements, i);
        Joined(old(sent), ElementWords(elements[..i]), OneElement(elements[i]));
        Emit(OneElement(elements[i]));
      }
      assert elements[..|elements|] == elements;
    }

    method CreateVertexElements(handle: u32, elements: seq<VertexElement>)
      requires Valid() && |elements| < TWO_32
      modifies this, buf
      ensures Valid() && sent == old(sent) + Encode(Cmd.CreateVertexElements(handle, elements))
    {
      hide Header, ElementWords;
      var front := [Header(CREATE_OBJECT, OBJECT_VERTEX_ELEMENTS, 1 + |elements| * 4), handle];
      Emit(front);
      EmitElements(elements);
      Joined(old(sent), front, ElementWords(elements));
      assert Encode(Cmd.CreateVertexElements(handle, elements)) == front + ElementWords(elements);
    }

    method SetFramebufferState(zsurf: u32, surfaces: seq<u32>)
      requires Valid() && |surfaces| < TWO_32
      modifies this, buf
      ensures Valid() && sent == old(sent) + Encode(Cmd.SetFramebufferState(zsurf, surfaces))
    {
      hide Header;
      var front := [Header(SET_FRAMEBUFFER_STATE, 0, 2 + |surfaces|), |surfaces|, zsurf];
      Emit(front);
      Emit(surfaces);
      Joined(old(sent), front, surfaces);
      assert Encode(Cmd.SetFramebufferState(zsurf, surfaces)) == front + surfaces;
    }

    method EmitBuffers(buffers: seq<VertexBuffer>)
      requires Valid()
      modifies this, buf
      ensures Valid() && sent == old(sent) + BufferWords(buffers)
    {
      hide BufferWords;
      for i := 0 to |buffers|
        invariant Valid() && sent == old(sent) + BufferWords(buffers[..i])
      {
        BufferSnoc(buffers, i);
        Joined(old(sent), BufferWords(buffers[..i]), OneBuffer(buffers[i]));
        Emit(OneBuffer(buffers[i]));
      }
      assert buffers[..|buffers|] == buffers;
    }

    method SetVertexBuffers(buffers: seq<VertexBuffer>)
      requires Valid()
      modifies this, buf
      ensures Valid() && sent == old(sent) + Encode(Cmd.SetVertexBuffers(buffers))
    {
      hide Header, BufferWords;
      var front := [Header(SET_VERTEX_BUFFERS, 0, |buffers| * 3)];
      Emit(front);
      EmitBuffers(buffers);
      Joined(old(sent), front, BufferWords(buffers));
      assert Encode(Cmd.SetVertexBuffers(buffers)) == front + BufferWords(buffers);
    }

    method SetScissorState(slot: u32, minx: u32, miny: u32, maxx: u32, maxy: u32)
      requires Valid()
      modifies this, buf
      ensures Valid() && sent == old(sent) + Encode(SetScissor(slot, minx, miny, maxx, maxy))
    {
      Emit([Header(SET_SCISSOR_STATE, 0, 3), slot, Pair(minx, miny), Pair(maxx, maxy)]);
    }

    method ClearBuffers(mask: u32, r: u32, g: u32, b: u32, a: u32, depth: u64, stencil: u32)
      requires Valid()
      modifies this, buf
      ensures Valid() && sent == old(sent) + Encode(Clear(mask, [r, g, b, a], depth, stencil))
    {
      hide Header;
      Emit([Header(CLEAR, 0, 8), mask, r, g, b, a, depth % TWO_32, depth / TWO_32, stencil]);
    }

    method ResourceInlineWrite(res: u32, level: u32, usage: u32, stride: u32, layerStride: u32, box: Box, data: seq<u8>)
      requires Valid()
      modifies this, buf
      ensures Valid() && sent == old(sent) + Encode(InlineWrite(res, level, usage, stride, layerStride, box, data))
    {
      hide Header, PackedWords;
      var dataWords := (|data| + 3) / 4;
      var front := [Header(RESOURCE_INLINE_WRITE, 0, 11 + dataWords), res, level, usage, stride, layerStride,
                    box.x, box.y, box.z, box.w, box.h, box.d];
      Emit(front);
      EmitBytes(data);
      Joined(old(sent), front, PackedWords(data));
      assert Encode(InlineWrite(res, level, usage, stride, layerStride, box, data)) == front + PackedWords(data);
    }

    method BlitRegion(s0: u32, dst: Side, src: Side)
      requires Valid() && |dst.box| == 6 && |src.box| == 6
      modifies this, buf
      ensures Valid() && sent == old(sent) + Encode(Blit(s0, dst, src))
    {
      hide Header, SideWords;
      assert |SideWords(dst)| == 8 && |SideWords(src)| == 8 by { SideLength(dst); SideLength(src); }
      var front := [Header(BLIT, 0, 17), s0] + SideWords(dst);
      Emit(front);
      Emit(SideWords(src));
      Joined(old(sent), front, SideWords(src));
      assert Encode(Blit(s0, dst, src)) == front + SideWords(src);
    }

    method CreateSamplerView(handle: u32, res: u32, format: u32, first: u32, last: u32, r: u32, g: u32, b: u32, a: u32)
      requires Valid()
      modifies this, buf
      ensures Valid()
              && sent == old(sent) + Encode(Cmd.CreateSamplerView(handle, res, format, first, last, [r, g, b, a]))
    {
      Emit([Header(CREATE_OBJECT, OBJECT_SAMPLER_VIEW, 6), handle, res, format, first, last, Swizzle([r, g, b, a])]);
    }

    method SetSamplerViews(shaderType: u32, slot: u32, views: seq<u32>)
      requires Valid()
      modifies this, buf
      ensures Valid() && sent == old(sent) + Encode(Cmd.SetSamplerViews(shaderType, slot, views))
    {
      hide Header;
      var front := [Header(SET_SAMPLER_VIEWS, 0, 2 + |views|), shaderType, slot];
      Emit(front);
      Emit(views);
      Joined(old(sent), front, views);
      assert Encode(Cmd.SetSamplerViews(shaderType, slot, views)) == front + views;
    }

    method BindSamplerStates(shaderType: u32, slot: u32, states: seq<u32>)
      requires Valid()
      modifies this, buf
      ensures Valid() && sent == old(sent) + Encode(Cmd.BindSamplerStates(shaderType, slot, states))
    {
      hide Header;
      var front := [Header(BIND_SAMPLER_STATES, 0, 2 + |states|), shaderType, slot];
      Emit(front);
      Emit(states);
      Joined(old(sent), front, states);
      assert Encode(Cmd.BindSamplerStates(shaderType, slot, states)) == front + states;
    }

    // ---------------------------------------------------------------- runs of encoder calls

    /** The encoder call for one of the commands whose payload is its argument list. */
    method IssuePlain(k: Plain, a: seq<u32>)
      requires Valid() && |a| == Arity(k) && PlainId(k).1 < 256
      modifies this, buf
      ensures Valid() && sent == old(sent) + Encode(Words(k, a))
    {
      hide Encode;
      match k
      case CreateSubCtx => assert a == [a[0]]; CreateSubCtx(a[0]);
      case SetSubCtx => assert a == [a[0]]; SetSubCtx(a[0]);
      case CreateSurface =>
        assert a == [a[0], a[1], a[2], a[3], a[4]];
        CreateSurface(a[0], a[1], a[2], a[3], a[4]);
      case CreateDsa =>
        assert a == [a[0], a[1], a[2], a[3], a[4]];
        CreateDsa(a[0], a[1], a[2], a[3], a[4]);
      case CreateRasterizer =>
        assert a == [a[0], a[1], a[2], a[3], a[4], a[5], a[6], a[7], a[8]];
        CreateRasterizer(a[0], a[1], a[2], a[3], a[4], a[5], a[6], a[7], a[8]);
      case SetViewport =>
        assert a == [a[0], a[1], a[2], a[3], a[4], a[5], a[6]];
        SetViewport(a[0], a[1], a[2], a[3], a[4], a[5], a[6]);
      case DrawVbo =>
        assert a == [a[0], a[1], a[2], a[3], a[4], a[5], a[6], a[7], a[8], a[9], a[10], a[11]];
        DrawVbo(a[0], a[1], a[2], a[3], a[4], a[5], a[6], a[7], a[8], a[9], a[10], a[11]);
      case CreateSamplerState =>
        assert a == [a[0], a[1], a[2], a[3], a[4], a[5], a[6], a[7], a[8]];
        CreateSamplerState(a[0], a[1], a[2], a[3], a[4], a[5], a[6], a[7], a[8]);
      case BindObject(t) => assert a == [a[0]]; BindObject(t, a[0]);
      case DestroyObject(t) => assert a == [a[0]]; DestroyObject(t, a[0]);
    }

    /** The encoder call that a command stands for. */
    method Issue(c: Cmd)
      requires Valid() && Callable(c)
      modifies this, buf
      ensures Valid() && sent == old(sent) + Encode(c)
    {
      hide Encode;
      match c
      case Words(kind, args) => IssuePlain(kind, args);
      case BindShader(shaderType, handle) => BindShader(shaderType, handle);
      case CreateBlend(handle, s0, rt0) => CreateBlend(handle, s0, rt0);
      case CreateShader(handle, shaderType, text) => CreateShader(handle, shaderType, text);
      case CreateVertexElements(handle, es) => CreateVertexElements(handle, es);
      case SetFramebufferState(zsurf, ss) => SetFramebufferState(zsurf, ss);
      case SetVertexBuffers(bs) => SetVertexBuffers(bs);
      case SetScissor(slot, minx, miny, maxx, maxy) => SetScissorState(slot, minx, miny, maxx, maxy);
      case Clear(mask, color, depth, stencil) =>
        assert color == [color[0], color[1], color[2], color[3]];
        ClearBuffers(mask, color[0], color[1], color[2], color[3], depth, stencil);
      case InlineWrite(res, level, usage, stride, layerStride, box, data) =>
        ResourceInlineWrite(res, level, usage, stride, layerStride, box, data);
      case Blit(s0, dst, src) => BlitRegion(s0, dst, src);
      case CreateSamplerView(handle, res, format, first, last, z) =>
        assert z == [z[0], z[1], z[2], z[3]];
        CreateSamplerView(handle, res, format, first, last, z[0], z[1], z[2], z[3]);
      case SetSamplerViews(shaderType, slot, views) => SetSamplerViews(shaderType, slot, views);
      case BindSamplerStates(shaderType, slot, states) => BindSamplerStates(shaderType, slot, states);
    }

    /** Any sequence of encoder calls into an empty buffer, each with a payload under 65536 words:
        the host decodes that very sequence exactly when every word fitted. */
    method Play(cs: seq<Cmd>)
      requires Valid() && sent == []
      requires forall c :: c in cs ==> Callable(c) && |Payload(c)| < TWO_16
      modifies this, buf
      ensures Valid() && dwords <= maxDwords && sent == EncodeAll(cs)
      ensures Decode(HostWords()) == Some(SeenAll(cs)) <==> |EncodeAll(cs)| <= maxDwords
    {
      hide Encode, Callable, Payload, Decode;
      for i := 0 to |cs|
        invariant Valid() && sent == EncodeAll(cs[..i])
      {
        EncodeSnoc(cs, i);
        Issue(cs[i]);
      }
      assert cs[..|cs|] == cs;
      HostReadsSent();
      DecodeCutIff(cs, dwords);
    }
  }

  lemma {:induction false} EncodeConcat(a: seq<Cmd>, b: seq<Cmd>)
    requires forall c :: c in a + b ==> Callable(c)
    ensures forall c :: c in a || c in b ==> Callable(c)
    ensures EncodeAll(a + b) == EncodeAll(a) + EncodeAll(b)
  {
    hide Encode, Callable;
    assert forall c :: c in a || c in b ==> c in a + b;
    if a == [] {
      assert a + b == b;
    } else {
      assert (a + b)[1..] == a[1..] + b;
      EncodeConcat(a[1..], b);
      Joined(Encode(a[0]), EncodeAll(a[1..]), EncodeAll(b));
    }
  }

  lemma EncodeSnoc(cs: seq<Cmd>, i: nat)
    requires i < |cs| && forall c :: c in cs ==> Callable(c)
    ensures EncodeAll(cs[..i + 1]) == EncodeAll(cs[..i]) + Encode(cs[i])
  {
    hide Encode, Callable;
    assert cs[..i + 1] == cs[..i] + [cs[i]];
    EncodeConcat(cs[..i], [cs[i]]);
    assert EncodeAll([cs[i]]) == Encode(cs[i]) + EncodeAll([]);
  }

  lemma Joined(s: seq<u32>, a: seq<u32>, b: seq<u32>)
    ensures (s + a) + b == s + (a + b)
  {
  }

  function OneElement(e: VertexElement): seq<u32> {
    [e.offset, e.divisor, e.buffer, e.format]
  }

  function OneBuffer(b: VertexBuffer): seq<u32> {
    [b.stride, b.offset, b.res]
  }

  lemma {:induction false} ElementsConcat(a: seq<VertexElement>, b: seq<VertexElement>)
    ensures ElementWords(a + b) == ElementWords(a) + ElementWords(b)
  {
    if a == [] {
      assert a + b == b;
    } else {
      ElementsConcat(a[1..], b);
      assert (a + b)[1..] == a[1..] + b;
      Joined(OneElement(a[0]), ElementWords(a[1..]), ElementWords(b));
    }
  }

  lemma ElementSnoc(es: seq<VertexElement>, i: nat)
    requires i < |es|
    ensures ElementWords(es[..i + 1]) == ElementWords(es[..i]) + OneElement(es[i])
  {
    assert es[..i + 1] == es[..i] + [es[i]];
    ElementsConcat(es[..i], [es[i]]);
    assert ElementWords([es[i]]) == OneElement(es[i]) + ElementWords([]);
  }

  lemma {:induction false} BuffersConcat(a: seq<VertexBuffer>, b: seq<VertexBuffer>)
    ensures BufferWords(a + b) == BufferWords(a) + BufferWords(b)
  {
    if a == [] {
      assert a + b == b;
    } else {
      BuffersConcat(a[1..], b);
      assert (a + b)[1..] == a[1..] + b;
      Joined(OneBuffer(a[0]), BufferWords(a[1..]), BufferWords(b));
    }
  }

  lemma BufferSnoc(bs: seq<VertexBuffer>, i: nat)
    requires i < |bs|
    ensures BufferWords(bs[..i + 1]) == BufferWords(bs[..i]) + OneBuffer(bs[i])
  {
    assert bs[..i + 1] == bs[..i] + [bs[i]];
    BuffersConcat(bs[..i], [bs[i]]);
    assert BufferWords([bs[i]]) == OneBuffer(bs[i]) + BufferWords([]);
  }

  lemma SideLength(e: Side)
    ensures |SideWords(e)| == 2 + |e.box|
  {
  }

  function After(bytes: seq<u8>, off: nat): (r: seq<u8>)
    ensures off == 0 ==> r == bytes
    ensures off >= |bytes| ==> r == []
  {
    if off < |bytes| then bytes[off..] else []
  }

  lemma PackedStep(bytes: seq<u8>, off: nat)
    requires off < |bytes|
    ensures PackedWords(After(bytes, off))
            == [PackedWord(bytes[off..Smaller(|bytes|, off + 4)])] + PackedWords(After(bytes, off + 4))
  {
    var b := bytes[off..];
    if |b| < 4 {
      assert bytes[off..Smaller(|bytes|, off + 4)] == b;
    } else {
      assert b[..4] == bytes[off..off + 4];
      assert b[4..] == After(bytes, off + 4);
    }
  }

  lemma {:induction false} ValueSnoc(b: seq<u8>, x: u8)
    ensures Value(b + [x]) == Value(b) + x * Span(|b|)
  {
    if b == [] {
      assert [x][1..] == [];
    } else {
      ValueSnoc(b[1..], x);
      assert (b + [x])[1..] == b[1..] + [x];
      var v, p := Value(b[1..]), Span(|b| - 1);
      assert Value(b + [x]) == b[0] + TWO_8 * (v + x * p);
      assert TWO_8 * (x * p) == x * (TWO_8 * p);
    }
  }
}
