/** Submission of a Virgl buffer, and the strip-wise upload of a 32-bit bitmap to a host texture. */
module StripUpload {
  import opened MachineWords
  import opened Arithmetic
  import opened Results
  import opened VirglCodec
  import opened VirglBuffer

  const STAGING_WORDS := 16384          // the 64 KB of cmd3d_buf
  const MAX_PIXELS_PER_SUBMIT := 15000
  const MAX_BUFFER_WORDS := 16000

  // ---------------------------------------------------------------- the host

  /** The texels of every host resource, as 32-bit numbers: resource, column, row. */
  type Texels = (u32, int, int) -> u32

  /** The texel at byte o of inline data. */
  function DataTexel(data: seq<u8>, o: int): Option<u32> {
    Spans();
    if 0 <= o && o + 4 <= |data| then Some(Value(data[o..o + 4])) else None
  }

  function InBox(b: Box, x: int, y: int): bool {
    b.x <= x < b.x + b.w && b.y <= y < b.y + b.h
  }

  /** The texel at (x, y) of resource r once inline data has been written over a box of res. */
  function Overlaid(t: Texels, res: u32, box: Box, stride: u32, data: seq<u8>, r: u32, x: int, y: int): u32 {
    if r == res && InBox(box, x, y)
    then DataTexel(data, (y - box.y) * stride + 4 * (x - box.x)).GetOr(t(r, x, y))
    else t(r, x, y)
  }

  function WrittenOver(t: Texels, res: u32, box: Box, stride: u32, data: seq<u8>): Texels {
    (r: u32, x: int, y: int) => Overlaid(t, res, box, stride, data, r, x, y)
  }

  /** The host's texels after one command: RESOURCE_INLINE_WRITE writes its box. */
  function Applied(t: Texels, c: Cmd): Texels {
    if c.InlineWrite? && c.level == 0 && c.box.z == 0 && c.box.d == 1
    then WrittenOver(t, c.res, c.box, c.stride, c.data)
    else t
  }

  function AllApplied(t: Texels, cs: seq<Cmd>): Texels {
    if cs == [] then t else AllApplied(Applied(t, cs[0]), cs[1..])
  }

  /** A stream that does not decode is not carried out. */
  function Received(t: Texels, ws: seq<u32>, o: Outcome): Texels {
    if o.Refused? || Decode(ws).None? then t else AllApplied(t, Decode(ws).value)
  }

  // ---------------------------------------------------------------- submission

  class Gpu {
    const cmd3d: array?<u32>              // null until 3D is initialised
    const outcome: nat -> Outcome         // of the n-th transaction
    var transactions: nat
    var ctxError: bool
    ghost var texels: Texels

    ghost predicate Valid()
      reads this
    {
      cmd3d != null ==> cmd3d.Length == STAGING_WORDS
    }

    /** chip_Submit3D on a non-empty stream of whole words. */
    method Submit3D(buf: array<u32>, dwords: nat) returns (ok: bool)
      requires Valid() && dwords <= buf.Length && buf != cmd3d
      modifies this`transactions, this`texels, cmd3d
      ensures var goes := cmd3d != null && 0 < dwords <= 16384;
              var ws := HostStream(buf[..dwords]);
              && transactions == old(transactions) + (if goes then 1 else 0)
              && ok == (goes && outcome(old(transactions)).Completed? && Decode(ws).Some?)
              && texels == if goes then Received(old(texels), ws, outcome(old(transactions))) else old(texels)
    {
      hide Decode, HostStream, Received;
      if cmd3d == null || dwords == 0 || dwords > STAGING_WORDS { return false; }
      for i := 0 to dwords
        modifies cmd3d
        invariant cmd3d[..i] == buf[..i]
      {
        cmd3d[i] := buf[i];
      }
      var ws := HostStream(cmd3d[..dwords]);
      texels := Received(texels, ws, outcome(transactions));
      ok := outcome(transactions).Completed? && Decode(ws).Some?;
      transactions := transactions + 1;
    }

    /** virgl_submit: a failed submission poisons the context, and a poisoned context sends
        nothing more. The buffer is empty afterwards. */
    method Submit(cbuf: VirglCmdBuf) returns (ok: bool)
      requires Valid() && cbuf.Valid() && cbuf.buf != cmd3d
      modifies this, cmd3d, cbuf
      ensures cbuf.Valid() && cbuf.sent == []
      ensures var ws := old(cbuf.HostWords());
              var goes := !old(ctxError) && cmd3d != null && 0 < |ws| <= 16384;
              && transactions == old(transactions) + (if goes then 1 else 0)
              && ok == (ws == [] || (goes && outcome(old(transactions)).Completed? && Decode(ws).Some?))
              && texels == (if goes then Received(old(texels), ws, outcome(old(transactions))) else old(texels))
              && ctxError == (old(ctxError) || !ok)
    {
      hide Decode, HostStream, Received;
      if cbuf.dwords == 0 {
        cbuf.Reset();
        return true;
      }
      if ctxError {
        cbuf.Reset();
        return false;
      }
      ok := Submit3D(cbuf.buf, cbuf.dwords);
      cbuf.Reset();
      if !ok { ctxError := true; }
    }
  }

  // ---------------------------------------------------------------- the source bitmap

  /** The big-endian word at offset o of guest memory. */
  function ReadWord(mem: seq<u8>, o: nat): u32
    requires o + 4 <= |mem|
  {
    Spans();
    Value(Reversed(mem[o..o + 4]))
  }

  /** Four bytes as a number, the first of them highest. */
  function FourAt(mem: seq<u8>, o: int): int {
    if 0 <= o <= |mem| - 4
    then 0x100_0000 * mem[o] as int + 0x1_0000 * mem[o + 1] as int + 0x100 * mem[o + 2] as int + mem[o + 3]
    else 0
  }

  lemma WordRead(mem: seq<u8>, o: nat)
    requires o + 4 <= |mem|
    ensures ReadWord(mem, o) == FourAt(mem, o)
  {
    var b := mem[o..o + 4];
    assert b == [b[0], b[1], b[2], b[3]];
    FourReversed(b[0], b[1], b[2], b[3]);
  }

  lemma FourReversed(b0: u8, b1: u8, b2: u8, b3: u8)
    ensures Value(Reversed([b0, b1, b2, b3])) == 0x100_0000 * b0 + 0x1_0000 * b1 + 0x100 * b2 + b3
  {
    var r := Reversed([b0, b1, b2, b3]);
    ReversedAt([b0, b1, b2, b3], 0);
    ReversedAt([b0, b1, b2, b3], 1);
    ReversedAt([b0, b1, b2, b3], 2);
    ReversedAt([b0, b1, b2, b3], 3);
    assert r == [b3, b2, b1, b0];
    FourBytes(b3, b2, b1, b0);
  }

  lemma FourBytes(a: u8, b: u8, c: u8, d: u8)
    ensures Value([a, b, c, d]) == a + 0x100 * b + 0x1_0000 * c + 0x100_0000 * d
  {
    assert [a, b, c, d][1..] == [b, c, d] && [b, c, d][1..] == [c, d] && [c, d][1..] == [d] && [d][1..] == [];
    assert Value([d]) == d && Value([c, d]) == c + 256 * d && Value([b, c, d]) == b + 256 * (c + 256 * d);
  }

  /** Every pixel of a w by h bitmap at src with bpr bytes to a row lies in mem. */
  predicate InMemory(mem: seq<u8>, src: nat, bpr: nat, w: nat, h: nat) {
    h == 0 || w == 0 || src + (h - 1) * bpr + 4 * w <= |mem|
  }

  datatype Bitmap = Bitmap(mem: seq<u8>, src: nat, bpr: nat, w: nat, h: nat) {
    predicate Valid() {
      w > 0 && InMemory(mem, src, bpr, w, h)
    }

    /** The pixel at column i, row j. */
    function At(i: nat, j: nat): u32
      requires Valid() && i < w && j < h
    {
      PixelInMemory(this, i, j);
      ReadWord(mem, src + j * bpr + 4 * i)
    }

    /** The pixels in row-major order. */
    function Flat(k: nat): u32
      requires Valid() && k < w * h
    {
      FlatRow(k, w, h);
      At(k % w, k / w)
    }

    /** Pixels from to to in row-major order. */
    function Run(from: nat, to: nat): (r: seq<u32>)
      requires Valid() && from <= to <= w * h
      ensures |r| == to - from
    {
      seq<u32>(to - from, k requires 0 <= k < to - from && Valid() => Flat(from + k))
    }
  }

  lemma FlatRow(k: nat, w: nat, h: nat)
    requires k < w * h && w > 0
    ensures k / w < h
  {
    var q, r := k / w, k % w;
    assert k == q * w + r;
    if q >= h {
      MulMonotone(h, q, w);
    }
  }

  lemma PixelInMemory(b: Bitmap, i: nat, j: nat)
    requires b.Valid() && i < b.w && j < b.h
    ensures 0 <= j * b.bpr && b.src + j * b.bpr + 4 * i + 4 <= |b.mem|
  {
    MulMonotone(j, b.h - 1, b.bpr);
  }

  /** Column i of row j is pixel j * w + i. */
  lemma FlatAt(b: Bitmap, i: nat, j: nat)
    requires b.Valid() && i < b.w && j < b.h
    ensures j * b.w + i < b.w * b.h && b.Flat(j * b.w + i) == b.At(i, j)
  {
    MulMonotone(j + 1, b.h, b.w);
    DivModUnique(j * b.w + i, b.w, j, i);
  }

  // ---------------------------------------------------------------- words and bytes

  lemma {:induction false} PackUnpacked(ws: seq<u32>)
    ensures PackedWords(UnpackedBytes(ws)) == ws
  {
    hide Value, Bytes, Span;
    if ws != [] {
      PackUnpacked(ws[1..]);
      Spans();
      ValueOfBytes(ws[0], 4);
      var b := UnpackedBytes(ws);
      assert b[..4] == Bytes(ws[0], 4) && b[4..] == UnpackedBytes(ws[1..]);
    }
  }

  lemma {:induction false} UnpackedAt(ws: seq<u32>, k: nat)
    requires k < |ws|
    ensures UnpackedBytes(ws)[4 * k..4 * k + 4] == Bytes(ws[k], 4)
  {
    var b := UnpackedBytes(ws);
    if k == 0 {
      assert b[..4] == Bytes(ws[0], 4);
    } else {
      UnpackedAt(ws[1..], k - 1);
      assert b[4..] == UnpackedBytes(ws[1..]);
      assert b[4..][4 * (k - 1)..4 * (k - 1) + 4] == b[4 * k..4 * k + 4];
    }
  }

  /** The host finds word k of the stream's payload as its k-th texel. */
  lemma TexelOfWord(ws: seq<u32>, k: nat, o: nat)
    requires k < |ws| && o == 4 * k
    ensures DataTexel(UnpackedBytes(ws), o) == Some(ws[k])
  {
    UnpackedAt(ws, k);
    Spans();
    ValueOfBytes(ws[k], 4);
  }

  // ---------------------------------------------------------------- one strip

  /** A call that writes rows from to from + rows of a bitmap at (x, y) of a texture. */
  function StripCmd(res: u32, x: u32, y: u32, bm: Bitmap, from: nat, rows: nat): (c: Cmd)
    requires bm.Valid() && Addressable(x, y, bm) && from + rows <= bm.h
    ensures Callable(c)
  {
    RowsInside(bm, from, rows);
    InlineWrite(res, 0, 0, 4 * bm.w, 0, Box(x, y + from, 0, bm.w, rows, 1),
                UnpackedBytes(bm.Run(from * bm.w, (from + rows) * bm.w)))
  }

  /** The 32-bit arguments of the uploader do not wrap. */
  predicate Addressable(x: u32, y: u32, bm: Bitmap) {
    x + bm.w < TWO_32 && y + bm.h < TWO_32 && 4 * bm.w < TWO_32
  }

  lemma RowsInside(bm: Bitmap, from: nat, rows: nat)
    requires from + rows <= bm.h
    ensures 0 <= from * bm.w <= (from + rows) * bm.w <= bm.w * bm.h
  {
    MulMonotone(0, from, bm.w);
    MulMonotone(from, from + rows, bm.w);
    MulMonotone(from + rows, bm.h, bm.w);
  }

  /** t1 is t0 with rows from to to of the bitmap drawn at (x, y) of res, and nothing else. */
  ghost predicate Shows(t1: Texels, t0: Texels, res: u32, x: u32, y: u32, bm: Bitmap, from: nat, to: nat)
    requires bm.Valid() && to <= bm.h
  {
    forall r: u32, a: int, b: int ::
      t1(r, a, b) == if r == res && x <= a < x + bm.w && y + from <= b < y + to then bm.At(a - x, b - y)
                     else t0(r, a, b)
  }

  /** Byte and word offset of column i, row j of a strip that starts at row from. */
  lemma StripOffset(w: nat, from: nat, rows: nat, i: nat, j: nat)
    requires i < w && j < rows
    ensures 0 <= j * w && 0 <= from * w && j * w + i < (from + rows) * w - from * w
    ensures j * (4 * w) + 4 * i == 4 * (j * w + i)
    ensures from * w + (j * w + i) == (from + j) * w + i
  {
    MulMonotone(j + 1, rows, w);
    assert (from + rows) * w == from * w + rows * w;
  }

  lemma StripTexel(bm: Bitmap, from: nat, rows: nat, i: nat, j: nat)
    requires bm.Valid() && from + rows <= bm.h && i < bm.w && j < rows
    ensures 0 <= from * bm.w <= (from + rows) * bm.w <= bm.w * bm.h
    ensures DataTexel(UnpackedBytes(bm.Run(from * bm.w, (from + rows) * bm.w)), j * (4 * bm.w) + 4 * i)
            == Some(bm.At(i, from + j))
  {
    hide UnpackedBytes, Bitmap.At, Bitmap.Flat, DataTexel;
    RowsInside(bm, from, rows);
    StripOffset(bm.w, from, rows, i, j);
    TexelOfWord(bm.Run(from * bm.w, (from + rows) * bm.w), j * bm.w + i, j * (4 * bm.w) + 4 * i);
    FlatAt(bm, i, from + j);
  }

  lemma StripDrawn(t: Texels, res: u32, x: u32, y: u32, bm: Bitmap, from: nat, rows: nat)
    requires bm.Valid() && Addressable(x, y, bm) && from + rows <= bm.h
    ensures Shows(Applied(t, StripCmd(res, x, y, bm, from, rows)), t, res, x, y, bm, from, from + rows)
  {
    hide UnpackedBytes, Bitmap.At, Bitmap.Run, DataTexel;
    RowsInside(bm, from, rows);
    var w := bm.w;
    var data := UnpackedBytes(bm.Run(from * w, (from + rows) * w));
    var t1 := Applied(t, StripCmd(res, x, y, bm, from, rows));
    forall r: u32, a: int, b: int
      ensures t1(r, a, b) == if r == res && x <= a < x + w && y + from <= b < y + from + rows then bm.At(a - x, b - y)
                             else t(r, a, b)
    {
      if r == res && x <= a < x + w && y + from <= b < y + from + rows {
        StripTexel(bm, from, rows, a - x, b - (y + from));
      }
    }
  }

  lemma ShowsMore(t2: Texels, t1: Texels, t0: Texels, res: u32, x: u32, y: u32, bm: Bitmap, mid: nat, to: nat)
    requires bm.Valid() && mid <= to <= bm.h
    requires Shows(t1, t0, res, x, y, bm, 0, mid) && Shows(t2, t1, res, x, y, bm, mid, to)
    ensures Shows(t2, t0, res, x, y, bm, 0, to)
  {
    hide Bitmap.At;
  }

  lemma RunGrows(bm: Bitmap, j: nat, i: nat)
    requires bm.Valid() && i < bm.w && j < bm.h
    ensures 0 <= j * bm.w && j * bm.w + i < bm.w * bm.h
    ensures bm.Run(j * bm.w, j * bm.w + i + 1) == bm.Run(j * bm.w, j * bm.w + i) + [bm.At(i, j)]
  {
    RowsInside(bm, 0, j);
    FlatAt(bm, i, j);
  }

  lemma RunsJoin(bm: Bitmap, a: nat, b: nat, c: nat, s: seq<u32>)
    requires bm.Valid() && a <= b <= c <= bm.w * bm.h
    ensures (s + bm.Run(a, b)) + bm.Run(b, c) == s + bm.Run(a, c)
  {
    assert bm.Run(a, b) + bm.Run(b, c) == bm.Run(a, c);
  }

  /** The inner pixel loop of the uploader. */
  method EmitRow(cbuf: VirglCmdBuf, bm: Bitmap, row: nat)
    requires cbuf.Valid() && bm.Valid() && row < bm.h
    modifies cbuf, cbuf.buf
    ensures cbuf.Valid() && 0 <= row * bm.w <= row * bm.w + bm.w <= bm.w * bm.h
    ensures cbuf.sent == old(cbuf.sent) + bm.Run(row * bm.w, row * bm.w + bm.w)
  {
    hide Bitmap.Run, InMemory, ReadWord, Bitmap.Flat;
    var rowSrc := bm.src + row * bm.bpr;
    RunGrows(bm, row, 0);
    ghost var first := row * bm.w;
    assert bm.Run(first, first) == [];
    for col := 0 to bm.w
      invariant cbuf.Valid() && first + col <= bm.w * bm.h
      invariant cbuf.sent == old(cbuf.sent) + bm.Run(first, first + col)
    {
      PixelInMemory(bm, col, row);
      RunGrows(bm, row, col);
      cbuf.EmitDword(ReadWord(bm.mem, rowSrc + 4 * col));
    }
  }

  /** The pixel loops of the uploader: every row of the strip, stepping by bpr bytes. */
  method EmitPixels(cbuf: VirglCmdBuf, bm: Bitmap, from: nat, rows: nat)
    requires cbuf.Valid() && bm.Valid() && from + rows <= bm.h
    modifies cbuf, cbuf.buf
    ensures cbuf.Valid() && 0 <= from * bm.w <= (from + rows) * bm.w <= bm.w * bm.h
    ensures cbuf.sent == old(cbuf.sent) + bm.Run(from * bm.w, (from + rows) * bm.w)
  {
    hide Bitmap.Run, InMemory;
    var w := bm.w;
    ghost var first := from * w;
    RowsInside(bm, from, rows);
    assert bm.Run(first, first) == [];
    for row := 0 to rows
      invariant cbuf.Valid() && first <= (from + row) * w <= w * bm.h
      invariant cbuf.sent == old(cbuf.sent) + bm.Run(first, (from + row) * w)
    {
      ghost var start := (from + row) * w;
      assert (from + row + 1) * w == start + w;
      EmitRow(cbuf, bm, from + row);
      RunsJoin(bm, first, start, start + w, old(cbuf.sent));
    }
  }

  /** The header and arguments of a strip's INLINE_WRITE. */
  function StripFront(res: u32, x: u32, y: u32, bm: Bitmap, from: nat, rows: nat): seq<u32>
    requires Addressable(x, y, bm) && from + rows <= bm.h
  {
    [Header(RESOURCE_INLINE_WRITE, 0, 11 + bm.w * rows), res, 0, 0, 4 * bm.w, 0, x, y + from, 0, bm.w, rows, 1]
  }

  lemma StripEncodes(res: u32, x: u32, y: u32, bm: Bitmap, from: nat, rows: nat)
    requires bm.Valid() && Addressable(x, y, bm) && from + rows <= bm.h
    ensures 0 <= from * bm.w <= (from + rows) * bm.w <= bm.w * bm.h
    ensures Encode(StripCmd(res, x, y, bm, from, rows))
            == StripFront(res, x, y, bm, from, rows) + bm.Run(from * bm.w, (from + rows) * bm.w)
  {
    hide Header, PackedWords, UnpackedBytes, Bitmap.Flat, Bitmap.Valid;
    RowsInside(bm, from, rows);
    var ws := bm.Run(from * bm.w, (from + rows) * bm.w);
    PackUnpacked(ws);
    assert |ws| == bm.w * rows by { assert (from + rows) * bm.w == from * bm.w + rows * bm.w; }
  }

  /** The INLINE_WRITE of one strip, into an empty buffer. */
  method EmitStrip(cbuf: VirglCmdBuf, res: u32, x: u32, y: u32, bm: Bitmap, from: nat, rows: nat)
    requires cbuf.Valid() && cbuf.sent == []
    requires bm.Valid() && Addressable(x, y, bm) && from + rows <= bm.h
    modifies cbuf, cbuf.buf
    ensures cbuf.Valid() && cbuf.sent == Encode(StripCmd(res, x, y, bm, from, rows))
  {
    hide Header, Encode, StripCmd, StripFront, Bitmap.Run, Bitmap.Valid;
    StripEncodes(res, x, y, bm, from, rows);
    cbuf.Emit(StripFront(res, x, y, bm, from, rows));
    EmitPixels(cbuf, bm, from, rows);
    assert [] + StripFront(res, x, y, bm, from, rows) == StripFront(res, x, y, bm, from, rows);
  }

  lemma StripDecodes(c: Cmd)
    requires Callable(c) && c.InlineWrite? && |c.data| % 4 == 0 && 11 + |c.data| / 4 < TWO_16
    ensures Decode(Encode(c)) == Some([c])
  {
    hide Decode, Seen, Encode, Callable;
    assert |Payload(c)| < TWO_16;
    SeenIff(c);
    DecodeEncoded([c]);
    assert [c][1..] == [];
    assert EncodeAll([c]) == Encode(c) + EncodeAll([]) == Encode(c);
    assert SeenAll([c]) == [Seen(c)] + SeenAll([]) == [c];
  }

  /** One pass of the upload loop, with room for the whole strip. */
  method SendStrip(gs: Gpu, cmdWords: array<u32>, size: nat, res: u32, x: u32, y: u32, bm: Bitmap, from: nat, rows: nat)
    returns (ok: bool)
    requires gs.Valid() && cmdWords != gs.cmd3d && 0 < rows
    requires bm.Valid() && Addressable(x, y, bm) && from + rows <= bm.h
    requires 12 + bm.w * rows <= size <= cmdWords.Length && 12 + bm.w * rows <= STAGING_WORDS
    modifies gs, gs.cmd3d, cmdWords
    ensures var goes := !old(gs.ctxError) && gs.cmd3d != null;
            && ok == (goes && gs.outcome(old(gs.transactions)).Completed?)
            && gs.transactions == old(gs.transactions) + (if goes then 1 else 0)
            && gs.ctxError == (old(gs.ctxError) || !ok)
            && (goes && !gs.outcome(old(gs.transactions)).Refused?
                ==> Shows(gs.texels, old(gs.texels), res, x, y, bm, from, from + rows))
            && (!(goes && !gs.outcome(old(gs.transactions)).Refused?) ==> gs.texels == old(gs.texels))
  {
    hide Encode, Decode, Shows, StripCmd, Callable, Applied;
    var cbuf := new VirglCmdBuf(cmdWords, size);
    EmitStrip(cbuf, res, x, y, bm, from, rows);
    ghost var c := StripCmd(res, x, y, bm, from, rows);
    StripShape(res, x, y, bm, from, rows);
    StripDecodes(c);
    cbuf.HostReadsSent();
    ghost var t := gs.texels;
    AppliedOne(t, c);
    StripDrawn(t, res, x, y, bm, from, rows);
    ok := gs.Submit(cbuf);
  }

  lemma AppliedOne(t: Texels, c: Cmd)
    ensures AllApplied(t, [c]) == Applied(t, c)
  {
    assert AllApplied(Applied(t, c), []) == Applied(t, c);
    assert [c][1..] == [];
  }

  lemma StripShape(res: u32, x: u32, y: u32, bm: Bitmap, from: nat, rows: nat)
    requires bm.Valid() && Addressable(x, y, bm) && from + rows <= bm.h
    ensures var c := StripCmd(res, x, y, bm, from, rows);
            c.InlineWrite? && |c.data| == 4 * (bm.w * rows) && |Encode(c)| == 12 + bm.w * rows
  {
    hide Encode, Header, PackedWords, Bitmap.Flat, InMemory;
    StripEncodes(res, x, y, bm, from, rows);
    assert (from + rows) * bm.w == from * bm.w + rows * bm.w;
  }

  // ---------------------------------------------------------------- the whole bitmap

  /** Rows to a strip. */
  function MaxRows(w: nat, h: nat): (m: nat)
    requires w > 0
    ensures h > 0 ==> 0 < m <= h
  {
    var m := MAX_PIXELS_PER_SUBMIT / w;
    Smaller(if m == 0 then 1 else m, h)
  }

  /** Words allocated for the command buffer. */
  function UploadWords(w: nat, h: nat): nat
    requires w > 0
  {
    Smaller(12 + w * MaxRows(w, h) + 16, MAX_BUFFER_WORDS)
  }

  /** No word of a full strip is dropped by the buffer bound exactly when one row and its header
      fit 16000 words; such a strip also fits the 64 KB of one submission and its header's
      16-bit length. */
  lemma StripFitsIff(w: nat, h: nat)
    requires w > 0 && h > 0
    ensures 12 + w * MaxRows(w, h) <= UploadWords(w, h) <==> w <= 15988
    ensures w <= 15988 ==> 12 + w * MaxRows(w, h) <= STAGING_WORDS
  {
    var m := MAX_PIXELS_PER_SUBMIT / w;
    assert m * w <= MAX_PIXELS_PER_SUBMIT;
    if m > 0 {
      MulMonotone(MaxRows(w, h), m, w);
    } else {
      assert MaxRows(w, h) == 1;
    }
  }

  /** Submissions that a bitmap of h rows takes, m rows at a time. */
  function Strips(h: nat, m: nat): nat
    requires m > 0
  {
    if h == 0 then 0 else if h <= m then 1 else 1 + Strips(h - m, m)
  }

  /** chip_comp_upload_pixels_32bpp. The rows shown grow strip by strip from the top: on success
      all h rows are on the host, on failure some first rows are, and no other texel of any
      resource has changed. It succeeds exactly when the buffer is there and every one of its
      submissions is answered OK: none is held back for its size. */
  method UploadPixels(gs: Gpu, res: u32, bm: Bitmap, x: u32, y: u32, memory: bool) returns (ok: bool, ghost shown: nat)
    requires gs.Valid() && bm.Valid() && bm.w <= 15988 && Addressable(x, y, bm)
    modifies gs, gs.cmd3d
    ensures shown <= bm.h && Shows(gs.texels, old(gs.texels), res, x, y, bm, 0, shown)
    ensures ok ==> shown == bm.h
    ensures ok ==> forall a, b :: x <= a < x + bm.w && y <= b < y + bm.h ==>
              gs.texels(res, a, b) == FourAt(bm.mem, bm.src + (b - y) * bm.bpr + 4 * (a - x))
    ensures forall r: u32, a, b :: r != res || !(x <= a < x + bm.w && y <= b < y + bm.h) ==>
              gs.texels(r, a, b) == old(gs.texels)(r, a, b)
    ensures bm.h > 0 ==>
      var m := if bm.w > 15000 then 1 else 15000 / bm.w;
      var n := (bm.h + m - 1) / m;
      ok <==> && memory && !old(gs.ctxError) && gs.cmd3d != null
              && forall k :: old(gs.transactions) <= k < old(gs.transactions) + n ==> gs.outcome(k).Completed?
    ensures bm.h == 0 ==> ok == memory
    ensures memory && !ok ==> gs.ctxError
    ensures ok ==> gs.ctxError == old(gs.ctxError)
  {
    hide Shows, Strips, MaxRows, UploadWords, InMemory, Addressable, FourAt;
    shown := 0;
    ShowsNothing(gs.texels, res, x, y, bm);
    if !memory { return false, 0; }
    var maxRows := MaxRows(bm.w, bm.h);
    var size := UploadWords(bm.w, bm.h);
    var cmdWords := new u32[size];
    ok := true;
    var rowsDone := 0;
    ghost var first, n, sent, bad := gs.transactions, if bm.h > 0 then Strips(bm.h, maxRows) else 0, 0, 0;
    while rowsDone < bm.h && ok
      modifies gs, gs.cmd3d, cmdWords
      invariant rowsDone <= bm.h && shown <= bm.h && sent <= n
      invariant Shows(gs.texels, old(gs.texels), res, x, y, bm, 0, shown)
      invariant ok ==> shown == rowsDone && gs.ctxError == old(gs.ctxError) && gs.transactions == first + sent
      invariant ok && bm.h > 0 ==> sent + Strips(bm.h - rowsDone, maxRows) == n
      invariant ok && rowsDone > 0 ==> !old(gs.ctxError) && gs.cmd3d != null
      invariant ok ==> forall k :: first <= k < first + sent ==> gs.outcome(k).Completed?
      invariant rowsDone == 0 ==> ok
      invariant !ok ==> gs.ctxError
      invariant !ok ==>
          old(gs.ctxError) || gs.cmd3d == null || (first <= bad < first + n && !gs.outcome(bad).Completed?)
      decreases bm.h - rowsDone
    {
      var rows := Smaller(bm.h - rowsDone, maxRows);
      StripFitsIff(bm.w, bm.h);
      MulMonotone(rows, maxRows, bm.w);
      StripsStep(bm.h - rowsDone, maxRows);
      ghost var t, goes := gs.texels, !gs.ctxError && gs.cmd3d != null;
      bad := gs.transactions;
      ok := SendStrip(gs, cmdWords, size, res, x, y, bm, rowsDone, rows);
      if goes && !gs.outcome(bad).Refused? {
        ShowsMore(gs.texels, t, old(gs.texels), res, x, y, bm, rowsDone, rowsDone + rows);
        shown := rowsDone + rows;
      }
      rowsDone, sent := rowsDone + rows, if ok then sent + 1 else sent;
    }
    if bm.h > 0 { StripsCount(bm.w, bm.h); }
    if ok && bm.h > 0 { StripsEnd(maxRows); }
    ShowsBytes(gs.texels, old(gs.texels), res, x, y, bm, shown);
  }

  /** What Shows says of each texel, byte by byte of guest memory. */
  lemma ShowsBytes(t1: Texels, t0: Texels, res: u32, x: u32, y: u32, bm: Bitmap, shown: nat)
    requires bm.Valid() && shown <= bm.h && Shows(t1, t0, res, x, y, bm, 0, shown)
    ensures shown == bm.h ==> forall a, b :: x <= a < x + bm.w && y <= b < y + bm.h ==>
              t1(res, a, b) == FourAt(bm.mem, bm.src + (b - y) * bm.bpr + 4 * (a - x))
    ensures forall r: u32, a, b :: r != res || !(x <= a < x + bm.w && y <= b < y + bm.h) ==>
              t1(r, a, b) == t0(r, a, b)
  {
    hide ReadWord, FourAt, InMemory;
    if shown == bm.h {
      forall a, b | x <= a < x + bm.w && y <= b < y + bm.h
        ensures t1(res, a, b) == FourAt(bm.mem, bm.src + (b - y) * bm.bpr + 4 * (a - x))
      {
        PixelInMemory(bm, a - x, b - y);
        WordRead(bm.mem, bm.src + (b - y) * bm.bpr + 4 * (a - x));
        assert t1(res, a, b) == bm.At(a - x, b - y);
      }
    }
  }

  /** As many strips as it takes, of as many rows as 15000 pixels make, at least one. */
  lemma StripsCount(w: nat, h: nat)
    requires w > 0 && h > 0
    ensures var m := if w > 15000 then 1 else 15000 / w;
            m > 0 && Strips(h, MaxRows(w, h)) == (h + m - 1) / m
  {
    var m := if w > 15000 then 1 else 15000 / w;
    if w <= 15000 { DivModUnique(15000, w, 15000 / w, 15000 % w); }
    if m <= h {
      StripsCeiling(h, m);
    } else {
      DivModUnique(h + m - 1, m, 1, h - 1);
      StripsStep(h, h);
      StripsEnd(h);
    }
  }

  lemma {:induction false} StripsCeiling(h: nat, m: nat)
    requires m > 0
    ensures Strips(h, m) == (h + m - 1) / m
  {
    if h > m {
      StripsCeiling(h - m, m);
      var q, r := (h - m + m - 1) / m, (h - m + m - 1) % m;
      DivModUnique(h + m - 1, m, q + 1, r);
    } else if h > 0 {
      DivModUnique(h + m - 1, m, 1, h - 1);
    } else {
      DivModUnique(m - 1, m, 0, m - 1);
    }
  }

  lemma StripsStep(h: nat, m: nat)
    requires h > 0 && m > 0
    ensures Strips(h, m) == 1 + Strips(h - Smaller(h, m), m)
  {
    if h <= m { StripsEnd(m); }
  }

  lemma StripsEnd(m: nat)
    requires m > 0
    ensures Strips(0, m) == 0
  {
  }

  lemma ShowsNothing(t: Texels, res: u32, x: u32, y: u32, bm: Bitmap)
    requires bm.Valid()
    ensures Shows(t, t, res, x, y, bm, 0, 0)
  {
  }
}
