/** Presentation of board memory: the per-format conversion of the panned bitmap into the
    framebuffer, and its transfer to the host and the display. */
module Flush {
  import opened MachineWords
  import opened Arithmetic
  import opened Results

  datatype Format =
    | CLUT | R8G8B8 | B8G8R8 | R5G6B5PC | R5G5B5PC | R5G6B5 | R5G5B5 | B5G6R5PC | B5G5R5PC
    | A8R8G8B8 | A8B8G8R8 | R8G8B8A8 | B8G8R8A8

  /** chip_format_bpp. */
  function Bpp(f: Format): (n: nat)
    ensures 1 <= n <= 4
  {
    match f
    case CLUT => 1
    case R8G8B8 | B8G8R8 => 3
    case R5G6B5PC | R5G5B5PC | R5G6B5 | R5G5B5 | B5G6R5PC | B5G5R5PC => 2
    case A8R8G8B8 | A8B8G8R8 | R8G8B8A8 | B8G8R8A8 => 4
  }

  /** The formats chip_pick_row_converter has a converter for. */
  predicate Supported(f: Format) {
    f in {CLUT, R5G6B5, R5G5B5, A8R8G8B8, B8G8R8A8, R8G8B8A8, A8B8G8R8}
  }

  /** Bytes to a pixel, and which formats have no converter: the 24-bit and the little-endian ones. */
  lemma PixelSizes(f: Format)
    ensures f == CLUT <==> Bpp(f) == 1
    ensures f == R8G8B8 || f == B8G8R8 <==> Bpp(f) == 3
    ensures f == A8R8G8B8 || f == A8B8G8R8 || f == R8G8B8A8 || f == B8G8R8A8 <==> Bpp(f) == 4
    ensures !Supported(f) <==>
              Bpp(f) == 3 || f == R5G6B5PC || f == R5G5B5PC || f == B5G6R5PC || f == B5G5R5PC
  {
  }

  // ---------------------------------------------------------------- one pixel

  datatype Colour = Colour(r: bv8, g: bv8, b: bv8)

  function Low(x: bv32): bv8 {
    (x & 0xFF) as bv8
  }

  /** Byte k of a word as it lies in memory, the highest first. */
  function Byte(w: bv32, k: nat): bv8 {
    if k == 0 then Low(w >> 24) else if k == 1 then Low(w >> 16) else if k == 2 then Low(w >> 8) else Low(w)
  }

  /** What a host resource of format B8G8R8X8 shows for a word the guest stored. */
  function ColourOf(word: bv32): Colour {
    Colour(Byte(word, 2), Byte(word, 1), Byte(word, 0))
  }

  function Load16(hi: bv8, lo: bv8): bv32 {
    ((hi as bv32) << 8) | (lo as bv32)
  }

  function Load32(b0: bv8, b1: bv8, b2: bv8, b3: bv8): bv32 {
    ((b0 as bv32) << 24) | ((b1 as bv32) << 16) | ((b2 as bv32) << 8) | (b3 as bv32)
  }

  function Pack(r: bv32, g: bv32, b: bv32): bv32 {
    (b << 24) | (g << 16) | (r << 8)
  }

  function Conv565(v: bv32): bv32 {
    var (r, g, b) := ((v >> 11) & 0x1F, (v >> 5) & 0x3F, v & 0x1F);
    Pack((r << 3) | (r >> 2), (g << 2) | (g >> 4), (b << 3) | (b >> 2))
  }

  function Conv555(v: bv32): bv32 {
    var (r, g, b) := ((v >> 10) & 0x1F, (v >> 5) & 0x1F, v & 0x1F);
    Pack((r << 3) | (r >> 2), (g << 3) | (g >> 2), (b << 3) | (b >> 2))
  }

  function ConvARGB(s: bv32): bv32 {
    (s << 24) | ((s & 0x0000FF00) << 8) | ((s & 0x00FF0000) >> 8) | (s >> 24)
  }

  function ConvRGBA(s: bv32): bv32 {
    (s & 0x00FF00FF) | ((s & 0x0000FF00) << 16) | ((s & 0xFF000000) >> 16)
  }

  function ConvABGR(s: bv32): bv32 {
    (s << 8) | (s >> 24)
  }

  type Palette = p: seq<bv32> | |p| == 256 witness seq(256, _ => 0)

  /** The inner statement of each row converter, on the bytes of one source pixel. */
  function ConvWord(f: Format, px: seq<bv8>, palette: Palette): bv32
    requires Supported(f) && |px| == Bpp(f)
  {
    if f == CLUT then palette[px[0] as nat]
    else if f == R5G6B5 then Conv565(Load16(px[0], px[1]))
    else if f == R5G5B5 then Conv555(Load16(px[0], px[1]))
    else
      var s := Load32(px[0], px[1], px[2], px[3]);
      if f == A8R8G8B8 then ConvARGB(s)
      else if f == R8G8B8A8 then ConvRGBA(s)
      else if f == A8B8G8R8 then ConvABGR(s)
      else s
  }

  /** A 5-bit channel widened to 8 bits, and a 6-bit one. */
  function Widen5(v: bv8): bv8 {
    (v << 3) | (v >> 2)
  }

  function Widen6(v: bv8): bv8 {
    (v << 2) | (v >> 4)
  }

  /** The colour a source pixel stands for, byte by byte as its format lays it out. */
  function Meaning(f: Format, px: seq<bv8>, palette: Palette): Colour
    requires Supported(f) && |px| == Bpp(f)
  {
    if f == CLUT then ColourOf(palette[px[0] as nat])
    else if f == R5G6B5 then
      Colour(Widen5(px[0] >> 3), Widen6(((px[0] & 7) << 3) | (px[1] >> 5)), Widen5(px[1] & 0x1F))
    else if f == R5G5B5 then
      Colour(Widen5((px[0] >> 2) & 0x1F), Widen5(((px[0] & 3) << 3) | (px[1] >> 5)), Widen5(px[1] & 0x1F))
    else if f == A8R8G8B8 then Colour(px[1], px[2], px[3])
    else if f == R8G8B8A8 then Colour(px[0], px[1], px[2])
    else if f == A8B8G8R8 then Colour(px[3], px[2], px[1])
    else Colour(px[2], px[1], px[0])
  }

  lemma Shows16(hi: bv8, lo: bv8)
    ensures ColourOf(Conv565(Load16(hi, lo)))
            == Colour(Widen5(hi >> 3), Widen6(((hi & 7) << 3) | (lo >> 5)), Widen5(lo & 0x1F))
    ensures ColourOf(Conv555(Load16(hi, lo)))
            == Colour(Widen5((hi >> 2) & 0x1F), Widen5(((hi & 3) << 3) | (lo >> 5)), Widen5(lo & 0x1F))
  {
  }

  lemma LoadedBytes(b0: bv8, b1: bv8, b2: bv8, b3: bv8)
    ensures var w := Load32(b0, b1, b2, b3);
            Byte(w, 0) == b0 && Byte(w, 1) == b1 && Byte(w, 2) == b2 && Byte(w, 3) == b3
  {
  }

  lemma ReversedBytes(w: bv32)
    ensures var v := ConvARGB(w); Byte(v, 0) == Byte(w, 3) && Byte(v, 1) == Byte(w, 2) && Byte(v, 2) == Byte(w, 1)
  {
  }

  lemma SwappedBytes(w: bv32)
    ensures var v := ConvRGBA(w); Byte(v, 0) == Byte(w, 2) && Byte(v, 1) == Byte(w, 1) && Byte(v, 2) == Byte(w, 0)
  {
  }

  lemma RotatedBytes(w: bv32)
    ensures var v := ConvABGR(w); Byte(v, 0) == Byte(w, 1) && Byte(v, 1) == Byte(w, 2) && Byte(v, 2) == Byte(w, 3)
  {
  }

  lemma Shows32(b0: bv8, b1: bv8, b2: bv8, b3: bv8)
    ensures var w := Load32(b0, b1, b2, b3);
            && ColourOf(ConvARGB(w)) == Colour(b1, b2, b3) && ColourOf(ConvRGBA(w)) == Colour(b0, b1, b2)
            && ColourOf(ConvABGR(w)) == Colour(b3, b2, b1) && ColourOf(w) == Colour(b2, b1, b0)
  {
    hide Load32, ConvARGB, ConvRGBA, ConvABGR, Byte;
    var w := Load32(b0, b1, b2, b3);
    LoadedBytes(b0, b1, b2, b3);
    ReversedBytes(w);
    SwappedBytes(w);
    RotatedBytes(w);
  }

  /** Every converter shows the colour its source pixel stands for. */
  lemma ConvShows(f: Format, px: seq<bv8>, palette: Palette)
    requires Supported(f) && |px| == Bpp(f)
    ensures ColourOf(ConvWord(f, px, palette)) == Meaning(f, px, palette)
  {
    hide Byte, Load16, Load32, Conv565, Conv555, ConvARGB, ConvRGBA, ConvABGR, Widen5, Widen6;
    if f == R5G6B5 || f == R5G5B5 {
      Shows16(px[0], px[1]);
    } else if f != CLUT {
      Shows32(px[0], px[1], px[2], px[3]);
    }
  }

  /** A pixel without its alpha byte or unused bit. */
  function Significant(f: Format, px: seq<bv8>): seq<bv8>
    requires Supported(f) && |px| == Bpp(f)
  {
    match f
    case R5G5B5 => [px[0] & 0x7F, px[1]]
    case A8R8G8B8 | A8B8G8R8 => px[1..]
    case R8G8B8A8 | B8G8R8A8 => px[..3]
    case _ => px
  }

  lemma Widened565(h: bv8, l: bv8, h': bv8, l': bv8)
    requires Widen5(h >> 3) == Widen5(h' >> 3) && Widen5(l & 0x1F) == Widen5(l' & 0x1F)
    requires Widen6(((h & 7) << 3) | (l >> 5)) == Widen6(((h' & 7) << 3) | (l' >> 5))
    ensures h == h' && l == l'
  {
  }

  lemma Widened555(h: bv8, l: bv8, h': bv8, l': bv8)
    ensures (&& Widen5((h >> 2) & 0x1F) == Widen5((h' >> 2) & 0x1F) && Widen5(l & 0x1F) == Widen5(l' & 0x1F)
             && Widen5(((h & 3) << 3) | (l >> 5)) == Widen5(((h' & 3) << 3) | (l' >> 5)))
            <==> (h & 0x7F == h' & 0x7F && l == l')
  {
  }

  lemma SameColour(a: Colour, b: Colour)
    ensures a == b <==> a.r == b.r && a.g == b.g && a.b == b.b
  {
  }

  lemma SamePair(p: seq<bv8>, q: seq<bv8>)
    requires |p| == |q| == 2
    ensures p == q <==> p[0] == q[0] && p[1] == q[1]
  {
  }

  lemma LookAlike565Iff(p: seq<bv8>, q: seq<bv8>, palette: Palette)
    requires |p| == |q| == 2
    ensures Meaning(R5G6B5, p, palette) == Meaning(R5G6B5, q, palette) <==> p == q
  {
    hide Widen5, Widen6;
    SameColour(Meaning(R5G6B5, p, palette), Meaning(R5G6B5, q, palette));
    SamePair(p, q);
    if Meaning(R5G6B5, p, palette) == Meaning(R5G6B5, q, palette) {
      Widened565(p[0], p[1], q[0], q[1]);
    }
  }

  lemma LookAlike555Iff(p: seq<bv8>, q: seq<bv8>, palette: Palette)
    requires |p| == |q| == 2
    ensures Meaning(R5G5B5, p, palette) == Meaning(R5G5B5, q, palette)
            <==> Significant(R5G5B5, p) == Significant(R5G5B5, q)
  {
    hide Widen5, Widen6;
    SameColour(Meaning(R5G5B5, p, palette), Meaning(R5G5B5, q, palette));
    SamePair(Significant(R5G5B5, p), Significant(R5G5B5, q));
    Widened555(p[0], p[1], q[0], q[1]);
  }

  /** No colour is lost: two pixels of a direct-colour format look alike exactly when they differ
      in alpha or unused bits only. */
  lemma LookAlikeIff(f: Format, p: seq<bv8>, q: seq<bv8>, palette: Palette)
    requires Supported(f) && f != CLUT && |p| == |q| == Bpp(f)
    ensures Meaning(f, p, palette) == Meaning(f, q, palette) <==> Significant(f, p) == Significant(f, q)
  {
    hide Widen5, Widen6, Byte;
    if f == R5G6B5 {
      LookAlike565Iff(p, q, palette);
    } else if f == R5G5B5 {
      LookAlike555Iff(p, q, palette);
    } else {
      assert p[1..] == [p[1], p[2], p[3]] && q[1..] == [q[1], q[2], q[3]];
      assert p[..3] == [p[0], p[1], p[2]] && q[..3] == [q[0], q[1], q[2]];
    }
  }

  // ---------------------------------------------------------------- what is visible

  /** The part of guest memory that a flush converts: w by h pixels of a bitmap at base, seen
      from (panX, panY). */
  datatype View = View(format: Format, base: nat, stride: nat, panX: nat, panY: nat, w: nat, h: nat) {
    function Offset(r: nat, c: nat): nat {
      base + (r + panY) * stride + (c + panX) * Bpp(format)
    }

    /** Every visible pixel lies in size bytes of memory. */
    predicate InMemory(size: nat) {
      w == 0 || h == 0 || Offset(h - 1, w - 1) + Bpp(format) <= size
    }

    function Pixel(board: seq<bv8>, r: nat, c: nat): (px: seq<bv8>)
      requires InMemory(|board|) && r < h && c < w
      ensures |px| == Bpp(format)
    {
      PixelInMemory(this, |board|, r, c);
      board[Offset(r, c)..Offset(r, c) + Bpp(format)]
    }
  }

  lemma PixelInMemory(v: View, size: nat, r: nat, c: nat)
    requires v.InMemory(size) && r < v.h && c < v.w
    ensures v.Offset(r, c) + Bpp(v.format) <= size
  {
    MulMonotone(r + v.panY, v.h - 1 + v.panY, v.stride);
    MulMonotone(c + v.panX, v.w - 1 + v.panX, Bpp(v.format));
  }

  /** The clamped pan offset: as asked when all of the visible part lies inside the limit, else
      the furthest offset for which it does (0 if there is none). */
  function ClampPan(asked: int, visible: nat, limit: nat): nat {
    var pan := if asked > 0 then asked else 0;
    if pan + visible > limit then (if limit > visible then limit - visible else 0) else pan
  }

  /** What is seen from the clamped offset lies inside the limit, if it can, and no offset for which it
      does is nearer to the one asked for. */
  lemma ClampPanInside(asked: int, visible: nat, limit: nat, other: nat)
    ensures visible <= limit ==> ClampPan(asked, visible, limit) + visible <= limit
    ensures visible > limit ==> ClampPan(asked, visible, limit) == 0
    ensures other + visible <= limit ==>
              (if other < asked then other <= ClampPan(asked, visible, limit) <= asked
               else asked <= ClampPan(asked, visible, limit) <= other)
    ensures visible <= limit ==>
              (ClampPan(asked, visible, limit) == asked <==> 0 <= asked && asked + visible <= limit)
  {
  }

  // ---------------------------------------------------------------- the framebuffer

  /** Word c of row r of a framebuffer w words wide. */
  function WordAt(fb: seq<bv32>, w: nat, r: int, c: int): bv32 {
    var p := r * w + c;
    if 0 <= p < |fb| then fb[p] else 0
  }

  /** What the visible pixel at row r, column c converts to. */
  function Want(v: View, board: seq<bv8>, palette: Palette, r: int, c: int): bv32 {
    if Supported(v.format) && v.InMemory(|board|) && 0 <= r < v.h && 0 <= c < v.w
    then ConvWord(v.format, v.Pixel(board, r, c), palette) else 0
  }

  /** fb is fb0 with rows y to y2 and columns x to x2 converted from memory, and nothing else. */
  ghost predicate Converted(fb0: seq<bv32>, fb: seq<bv32>, w: nat, h: nat, v: View, board: seq<bv8>, palette: Palette,
                            x: nat, x2: nat, y: nat, y2: nat) {
    && |fb| == |fb0| == h * w
    && forall r, c :: 0 <= r < h && 0 <= c < w ==>
         WordAt(fb, w, r, c) == if y <= r < y2 && x <= c < x2 then Want(v, board, palette, r, c)
                                else WordAt(fb0, w, r, c)
  }

  lemma NothingConverted(fb: seq<bv32>, w: nat, h: nat, v: View, board: seq<bv8>, palette: Palette,
                         x: nat, x2: nat, y: nat)
    requires |fb| == h * w
    ensures Converted(fb, fb, w, h, v, board, palette, x, x2, y, y)
    ensures Converted(fb, fb, w, h, v, board, palette, x, x, y, y + 1)
  {
    hide Want, WordAt;
  }

  lemma GridIndex(w: nat, h: nat, r: nat, c: nat)
    requires r < h && c < w
    ensures 0 <= r * w + c < h * w
  {
    MulMonotone(0, r, w);
    MulMonotone(r + 1, h, w);
  }

  lemma Stored(fb: seq<bv32>, w: nat, h: nat, r: nat, c: nat, val: bv32, q: nat, d: nat)
    requires |fb| == h * w && r < h && c < w && q < h && d < w
    ensures 0 <= r * w + c < |fb|
    ensures WordAt(fb[r * w + c := val], w, q, d) == if q == r && d == c then val else WordAt(fb, w, q, d)
  {
    GridIndex(w, h, r, c);
    GridIndex(w, h, q, d);
    DivModUnique(r * w + c, w, r, c);
    DivModUnique(q * w + d, w, q, d);
  }

  /** One more word of row r. */
  lemma WordJoins(fb0: seq<bv32>, fb: seq<bv32>, w: nat, h: nat, v: View, board: seq<bv8>, palette: Palette,
                  x: nat, c: nat, r: nat)
    requires r < h && x <= c < w && Converted(fb0, fb, w, h, v, board, palette, x, c, r, r + 1)
    ensures 0 <= r * w + c < |fb|
    ensures Converted(fb0, fb[r * w + c := Want(v, board, palette, r, c)], w, h, v, board, palette, x, c + 1, r, r + 1)
  {
    hide Want, WordAt;
    GridIndex(w, h, r, c);
    forall q, d | 0 <= q < h && 0 <= d < w
      ensures WordAt(fb[r * w + c := Want(v, board, palette, r, c)], w, q, d)
              == if r <= q < r + 1 && x <= d < c + 1 then Want(v, board, palette, q, d) else WordAt(fb0, w, q, d)
    {
      Stored(fb, w, h, r, c, Want(v, board, palette, r, c), q, d);
    }
  }

  /** One more row. */
  lemma RowJoins(fb0: seq<bv32>, fb1: seq<bv32>, fb2: seq<bv32>, w: nat, h: nat, v: View,
                 board: seq<bv8>, palette: Palette,
                 x: nat, x2: nat, y: nat, r: nat)
    requires y <= r && Converted(fb0, fb1, w, h, v, board, palette, x, x2, y, r)
    requires Converted(fb1, fb2, w, h, v, board, palette, x, x2, r, r + 1)
    ensures Converted(fb0, fb2, w, h, v, board, palette, x, x2, y, r + 1)
  {
    hide Want, WordAt;
  }

  // ---------------------------------------------------------------- the driver and the host

  /** Host pixels after a transfer of w by h words of backing from word offset from on, to (x, y). */
  function Transferred(t: (int, int) -> bv32, backing: seq<bv32>, width: nat, x: nat, y: nat, w: nat, h: nat, from: nat)
    : (int, int) -> bv32
  {
    (a: int, b: int) =>
      if x <= a < x + w && y <= b < y + h then WordAt(backing, width, b - y, from + a - x) else t(a, b)
  }

  function Displayed(t: (int, int) -> Colour, pixels: (int, int) -> bv32, x: nat, y: nat, w: nat, h: nat)
    : (int, int) -> Colour
  {
    (a: int, b: int) => if x <= a < x + w && y <= b < y + h then ColourOf(pixels(a, b)) else t(a, b)
  }

  class Screen {
    const board: array<bv8>            // guest memory
    const boardMem: nat                // where board_mem starts in it
    var panMem: Option<nat>            // panning_mem
    var panWidth: u16
    var panX: int
    var panY: int
    var activeW: u16
    var activeH: u16
    var format: Format
    var palette: Palette
    const fb: array<bv32>              // fb_mem, and the backing of the host resource
    const fbW: u16
    const fbH: u16
    ghost var host: (int, int) -> bv32      // pixels of the host resource
    ghost var display: (int, int) -> Colour // what scanout 0 shows

    function PitchPixels(): nat
      reads this
    {
      if panWidth != 0 then panWidth else activeW
    }

    /** The clamps of chip_convert_rect. */
    function Visible(): View
      reads this
    {
      var w, h := Smaller(activeW, fbW), Smaller(activeH, fbH);
      View(format, panMem.GetOr(boardMem), PitchPixels() * Bpp(format),
           ClampPan(panX, w, PitchPixels()), ClampPan(panY, h, fbH), w, h)
    }

    /** The part that a flush shows: as much as mode and resource both have, of the panned bitmap or of
        board memory, in rows of panWidth pixels, or of activeW if that is not set; from where the panning
        asks if that is inside, else from where the view just stays inside. */
    lemma VisiblePart()
      ensures var v, pitch := Visible(), if panWidth > 0 then panWidth else activeW;
              && v.format == format && v.base == (if panMem.Some? then panMem.value else boardMem)
              && v.w <= activeW && v.w <= fbW && (v.w == activeW || v.w == fbW)
              && v.h <= activeH && v.h <= fbH && (v.h == activeH || v.h == fbH)
              && v.stride == pitch * Bpp(format)
              && (0 <= panX && panX + v.w <= pitch ==> v.panX == panX) && (panX < 0 && v.w <= pitch ==> v.panX == 0)
              && (panX + v.w > pitch >= v.w && panX >= 0 ==> v.panX + v.w == pitch) && (v.w > pitch ==> v.panX == 0)
              && (0 <= panY && panY + v.h <= fbH ==> v.panY == panY) && (panY < 0 ==> v.panY == 0)
              && (panY + v.h > fbH && panY >= 0 ==> v.panY + v.h == fbH)
    {
    }

    ghost predicate Valid()
      reads this
    {
      fb.Length == fbH * fbW && Visible().InMemory(board.Length)
    }

    /** The framebuffer after columns x to x2 of rows y to y2 have been converted. */
    twostate predicate ConvertedTo(x: nat, x2: nat, y: nat, y2: nat)
      reads this, fb, board
    {
      Converted(old(fb[..]), fb[..], fbW, fbH, Visible(), board[..], palette, x, x2, y, y2)
    }

    /** conv_row_*: n pixels of row r from column x on. */
    method ConvRow(r: nat, x: nat, n: nat)
      requires Valid() && Supported(format) && r < Visible().h && x + n <= Visible().w
      modifies fb
      ensures ConvertedTo(x, x + n, r, r + 1)
    {
      hide Converted, Want, WordAt, ConvWord, ClampPan;
      var v := Visible();
      ghost var fb0, bytes := fb[..], board[..];
      NothingConverted(fb0, fbW, fbH, v, bytes, palette, x, x, r);
      for col := 0 to n
        modifies fb
        invariant Converted(fb0, fb[..], fbW, fbH, v, bytes, palette, x, x + col, r, r + 1)
      {
        PixelInMemory(v, board.Length, r, x + col);
        var src := v.Offset(r, x + col);
        WordJoins(fb0, fb[..], fbW, fbH, v, bytes, palette, x, x + col, r);
        var word := ConvWord(format, board[src..src + Bpp(format)], palette);
        assert word == Want(v, bytes, palette, r, x + col) by { WantIs(v, bytes, palette, r, x + col); }
        fb[r * fbW + x + col] := word;
      }
    }

    method ConvertRect(x: nat, y: nat, w0: nat, h0: nat)
      requires Valid() && x <= Visible().w && y <= Visible().h
      modifies fb
      ensures var v := Visible();
              if Supported(format) then ConvertedTo(x, Smaller(x + w0, v.w), y, Smaller(y + h0, v.h))
              else fb[..] == old(fb[..])
    {
      hide Converted, View.InMemory;
      var v := Visible();
      var w, h := w0, h0;
      if !Supported(format) { return; }
      if x + w > v.w { w := v.w - x; }
      if y + h > v.h { h := v.h - y; }
      ghost var fb0, bytes := fb[..], board[..];
      NothingConverted(fb0, fbW, fbH, v, bytes, palette, x, x + w, y);
      for row := y to y + h
        modifies fb
        invariant Converted(fb0, fb[..], fbW, fbH, v, bytes, palette, x, x + w, y, row)
      {
        ghost var fb1 := fb[..];
        ConvRow(row, x, w);
        RowJoins(fb0, fb1, fb[..], fbW, fbH, v, bytes, palette, x, x + w, y, row);
      }
    }

    method TransferToHost2D(x: nat, y: nat, w: nat, h: nat, offset: nat, o: Outcome) returns (ok: bool)
      modifies this`host
      ensures ok == o.Completed?
      ensures host == if o.Refused? then old(host) else Transferred(old(host), fb[..], fbW, x, y, w, h, offset / 4)
    {
      if !o.Refused? { host := Transferred(host, fb[..], fbW, x, y, w, h, offset / 4); }
      ok := o.Completed?;
    }

    method ResourceFlush(x: nat, y: nat, w: nat, h: nat, o: Outcome) returns (ok: bool)
      modifies this`display
      ensures ok == o.Completed?
      ensures display == if o.Refused? then old(display) else Displayed(old(display), host, x, y, w, h)
    {
      if !o.Refused? { display := Displayed(display, host, x, y, w, h); }
      ok := o.Completed?;
    }

    /** chip_flush_all, single-buffer path. Once both commands have reached the host, the display
        shows at every visible place the colour that the panned pixel of guest memory stands for,
        and nothing else on it has changed. */
    method FlushAll(transfer: Outcome, flush: Outcome)
      requires Valid()
      modifies fb, this`host, this`display
      ensures Supported(format) && Visible().w > 0 && Visible().h > 0
              ==> ConvertedTo(0, Visible().w, 0, Visible().h)
      ensures !(Supported(format) && Visible().w > 0 && Visible().h > 0) ==> fb[..] == old(fb[..])
      ensures Supported(format) && transfer.Completed? && !flush.Refused?
              ==> forall a, b :: display(a, b)
                    == if 0 <= a < Visible().w && 0 <= b < Visible().h
                       then Meaning(format, Visible().Pixel(board[..], b, a), palette)
                       else old(display)(a, b)
    {
      hide Converted, WordAt, ConvWord, Meaning, ColourOf, ClampPan;
      var v := Visible();
      if v.w == 0 || v.h == 0 { return; }
      ConvertRect(0, 0, v.w, v.h);
      var ok := TransferToHost2D(0, 0, v.w, v.h, 0, transfer);
      if ok {
        var _ := ResourceFlush(0, 0, v.w, v.h, flush);
      }
      if Supported(format) && transfer.Completed? && !flush.Refused? {
        forall a, b | 0 <= a < v.w && 0 <= b < v.h
          ensures display(a, b) == Meaning(format, v.Pixel(board[..], b, a), palette)
        {
          PixelShown(old(fb[..]), fb[..], fbW, fbH, v, board[..], palette, b, a);
        }
      }
    }
  }

  /** A converted word shows the colour of its source pixel. */
  lemma PixelShown(fb0: seq<bv32>, fb: seq<bv32>, w: nat, h: nat, v: View, board: seq<bv8>, palette: Palette,
                   r: nat, c: nat)
    requires Supported(v.format) && v.InMemory(|board|) && r < v.h <= h && c < v.w <= w
    requires Converted(fb0, fb, w, h, v, board, palette, 0, v.w, 0, v.h)
    ensures ColourOf(WordAt(fb, w, r, c)) == Meaning(v.format, v.Pixel(board, r, c), palette)
  {
    hide ConvWord, Meaning, ColourOf;
    assert WordAt(fb, w, r, c) == Want(v, board, palette, r, c);
    ConvShows(v.format, v.Pixel(board, r, c), palette);
  }

  lemma WantIs(v: View, board: seq<bv8>, palette: Palette, r: nat, c: nat)
    requires Supported(v.format) && v.InMemory(|board|) && r < v.h && c < v.w
    ensures v.Offset(r, c) + Bpp(v.format) <= |board|
    ensures Want(v, board, palette, r, c)
            == ConvWord(v.format, board[v.Offset(r, c)..v.Offset(r, c) + Bpp(v.format)], palette)
  {
    PixelInMemory(v, |board|, r, c);
  }
}
