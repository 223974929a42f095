/** chip_DrawLine: Bresenham's algorithm in 16-bit arithmetic, with a line pattern. */
module Line {
  import opened MachineWords
  import opened Arithmetic
  import opened Flush
  import opened Fill

  /** The parts of struct ChipLine that the loop uses. */
  datatype LineSpec = LineSpec(
    x: int, y: int, length: nat, dx: int, dy: int,
    sDelta: int, lDelta: int, twoSDminusLD: int,
    horizontal: bool, pattern: u16, shift: nat,
    fg: bv32, bg: bv32, drawMode: nat)

  /** Assignment to a WORD. */
  function Word(v: int): (w: int)
    ensures -32768 <= v <= 32767 ==> w == v
  {
    (v + 32768) % 65536 - 32768
  }

  /** Minor steps taken before pixel i: sDelta * i / lDelta, rounded, halves down. */
  function Minor(sd: nat, ld: nat, i: nat): nat
    requires ld > 0
  {
    (2 * sd * i + ld - 1) / (2 * ld)
  }

  /** Minor(i) is the one number m of steps that leaves pixel i within half a pixel of the ideal line,
      m * lDelta between sDelta * i - lDelta / 2 (which it may reach) and sDelta * i + lDelta / 2 (which
      it may not). */
  lemma MinorIsHalfPixel(sd: nat, ld: nat, i: nat, m: int)
    requires ld > 0
    ensures 2 * sd * i - ld <= m * (2 * ld) < 2 * sd * i + ld <==> m == Minor(sd, ld, i)
  {
    var n := 2 * sd * i + ld - 1;
    var q := n / (2 * ld);
    assert n == q * (2 * ld) + n % (2 * ld);
    if 2 * sd * i - ld <= m * (2 * ld) < 2 * sd * i + ld {
      DivModUnique(n, 2 * ld, m, n - m * (2 * ld));
    }
  }

  /** After lDelta pixels the line has gone exactly sDelta aside. */
  lemma LineReachesEnd(sd: nat, ld: nat)
    requires ld > 0
    ensures Minor(sd, ld, ld) == sd && Minor(sd, ld, 0) == 0
  {
    assert sd * (2 * ld) - 2 * sd * ld == 0;
    MinorIsHalfPixel(sd, ld, ld, sd);
    MinorIsHalfPixel(sd, ld, 0, 0);
  }

  predicate Regular(l: LineSpec) {
    && 0 <= l.sDelta <= l.lDelta <= 16383 && l.lDelta > 0
    && l.twoSDminusLD == 2 * l.sDelta - l.lDelta
  }

  function Sign(d: int): int {
    if d >= 0 then 1 else -1
  }

  function PixelX(l: LineSpec, i: nat): int
    requires Regular(l)
  {
    l.x + Sign(l.dx) * (if l.horizontal then i else Minor(l.sDelta, l.lDelta, i))
  }

  function PixelY(l: LineSpec, i: nat): int
    requires Regular(l)
  {
    l.y + Sign(l.dy) * (if l.horizontal then Minor(l.sDelta, l.lDelta, i) else i)
  }

  function Abs(v: int): nat {
    if v < 0 then -v else v
  }

  /** The caller's deltas are those of the segment from (x, y) to (x + dx, y + dy): lDelta along its
      longer axis. */
  predicate OfSegment(l: LineSpec) {
    if l.horizontal then l.lDelta == Abs(l.dx) && l.sDelta == Abs(l.dy)
    else l.lDelta == Abs(l.dy) && l.sDelta == Abs(l.dx)
  }

  /** The line starts at one end of the segment and reaches the other after lDelta pixels. Pixel i is i
      steps along the longer axis, lies between the ends, and is at most half a pixel aside: its
      distance from the segment, measured along the shorter axis and multiplied by lDelta, is at most
      lDelta / 2. */
  lemma OnSegment(l: LineSpec, i: nat)
    requires Regular(l) && OfSegment(l) && i <= l.lDelta
    ensures PixelX(l, 0) == l.x && PixelY(l, 0) == l.y
    ensures PixelX(l, l.lDelta) == l.x + l.dx && PixelY(l, l.lDelta) == l.y + l.dy
    ensures if l.dx >= 0 then l.x <= PixelX(l, i) <= l.x + l.dx else l.x + l.dx <= PixelX(l, i) <= l.x
    ensures if l.dy >= 0 then l.y <= PixelY(l, i) <= l.y + l.dy else l.y + l.dy <= PixelY(l, i) <= l.y
    ensures l.horizontal ==>
              && (PixelX(l, i) - l.x) * l.lDelta == i * l.dx
              && -l.lDelta <= 2 * ((PixelY(l, i) - l.y) * l.lDelta - i * l.dy) <= l.lDelta
    ensures !l.horizontal ==>
              && (PixelY(l, i) - l.y) * l.lDelta == i * l.dy
              && -l.lDelta <= 2 * ((PixelX(l, i) - l.x) * l.lDelta - i * l.dx) <= l.lDelta
  {
    hide Minor, Sign;
    if l.horizontal {
      LongAxis(l.dx, l.lDelta, i);
      ShortAxis(l.dy, l.sDelta, l.lDelta, i);
    } else {
      LongAxis(l.dy, l.lDelta, i);
      ShortAxis(l.dx, l.sDelta, l.lDelta, i);
    }
  }

  lemma MeetsEnds(l: LineSpec)
    requires Regular(l) && OfSegment(l)
    ensures PixelX(l, 0) == l.x && PixelX(l, l.lDelta) == l.x + l.dx
    ensures PixelY(l, 0) == l.y && PixelY(l, l.lDelta) == l.y + l.dy
  {
    OnSegment(l, 0);
  }

  lemma LongAxis(d: int, ld: int, i: nat)
    requires ld == Abs(d) && i <= ld
    ensures Sign(d) * 0 == 0 && Sign(d) * ld == d
    ensures if d >= 0 then 0 <= Sign(d) * i <= d else d <= Sign(d) * i <= 0
    ensures Sign(d) * i * ld == i * d
  {
  }

  lemma ShortAxis(d: int, sd: int, ld: int, i: nat)
    requires sd == Abs(d) && 0 < ld && i <= ld
    ensures var m := Sign(d) * Minor(sd, ld, i);
            && (if d >= 0 then 0 <= m <= d else d <= m <= 0)
            && -ld <= 2 * (m * ld - i * d) <= ld
    ensures Sign(d) * Minor(sd, ld, ld) == d && Sign(d) * Minor(sd, ld, 0) == 0
  {
    hide Minor;
    LineReachesEnd(sd, ld);
    MinorBetween(sd, ld, i);
    var m := Minor(sd, ld, i);
    if d < 0 { assert (-1 * m) * ld == -(m * ld) && i * d == -(i * sd); }
  }

  lemma MinorBetween(sd: nat, ld: int, i: nat)
    requires 0 < ld && i <= ld
    ensures 0 <= Minor(sd, ld, i) <= sd
    ensures -ld <= 2 * (Minor(sd, ld, i) * ld - i * sd) <= ld
  {
    hide Minor;
    MinorIsHalfPixel(sd, ld, i, Minor(sd, ld, i));
    HalfBounds(sd, ld, i, Minor(sd, ld, i));
  }

  lemma HalfBounds(sd: nat, ld: int, i: nat, m: int)
    requires 0 < ld && i <= ld && 2 * sd * i - ld <= m * (2 * ld) < 2 * sd * i + ld
    ensures 0 <= m <= sd && -ld <= 2 * (m * ld - i * sd) <= ld
  {
    Twice(m, ld);
    Twice(sd, i);
    StepsBetween(sd, ld, i, m, m * ld, i * sd);
  }

  lemma Twice(a: int, b: int)
    ensures a * (2 * b) == 2 * (a * b) && 2 * a * b == 2 * (b * a)
  {
  }

  lemma StepsBetween(sd: nat, ld: int, i: nat, m: int, p: int, q: int)
    requires 0 < ld && i <= ld && p == m * ld && q == i * sd && 2 * q - ld <= 2 * p < 2 * q + ld
    ensures 0 <= m <= sd
  {
    MulMonotone(i, ld, sd);
    MulMonotone(0, i, sd);
    assert (sd + 1) * ld == ld * sd + ld;
    if m > sd { MulMonotone(sd + 1, m, ld); }
    if m < 0 { MulMonotone(m, -1, ld); }
  }

  function Pow2(k: nat): (r: nat)
    ensures r > 0
  {
    if k == 0 then 1 else 2 * Pow2(k - 1)
  }

  /** The pattern bit for pixel i, most significant bit first, repeating every 16 pixels. */
  predicate Drawn(l: LineSpec, i: nat) {
    l.pattern / Pow2(15 - (l.shift + i) % 16) % 2 == 1
  }

  /** The first n pixels read as a binary number, first pixel first, 1 for one that is drawn. */
  function FirstPixels(l: LineSpec, n: nat): nat {
    if n == 0 then 0 else 2 * FirstPixels(l, n - 1) + if Drawn(l, n - 1) then 1 else 0
  }

  lemma Pow2Step(k: nat)
    ensures Pow2(k + 1) == 2 * Pow2(k)
  {
  }

  lemma Pow2Of16()
    ensures Pow2(16) == 65536
  {
    assert Pow2(8) == 256;
  }

  lemma PixelBit(l: LineSpec, n: nat)
    requires l.shift == 0 && n < 16
    ensures Drawn(l, n) <==> l.pattern / Pow2(15 - n) % 2 == 1
  {
    hide Pow2;
  }

  /** With no shift the first n pixels are the n highest bits of the pattern. */
  lemma {:induction false} HighBits(l: LineSpec, n: nat)
    requires l.shift == 0 && n <= 16
    ensures FirstPixels(l, n) == l.pattern / Pow2(16 - n)
  {
    hide Pow2, Drawn;
    if n == 0 {
      Pow2Of16();
    } else {
      HighBits(l, n - 1);
      Pow2Step(16 - n);
      PixelBit(l, n - 1);
      Halved(l.pattern, Pow2(16 - n));
    }
  }

  lemma Halved(v: nat, p: nat)
    requires p > 0
    ensures v / p == 2 * (v / (2 * p)) + v / p % 2
  {
    var q, r := v / (2 * p), v % (2 * p);
    assert v == q * (2 * p) + r && q * (2 * p) == 2 * q * p;
    if r < p { DivModUnique(v, p, 2 * q, r); } else { DivModUnique(v, p, 2 * q + 1, r - p); }
  }

  /** With no shift the first sixteen pixels spell the pattern. */
  lemma PatternSpelt(l: LineSpec)
    requires l.shift == 0
    ensures FirstPixels(l, 16) == l.pattern
  {
    hide FirstPixels;
    HighBits(l, 16);
  }

  /** A shift starts as many pixels further on, and the pattern repeats every sixteen. */
  lemma PatternRepeats(l: LineSpec, i: nat)
    ensures Drawn(l, i) == Drawn(l.(shift := 0), (l.shift + i) % 16)
  {
    hide Pow2;
    DivModUnique((l.shift + i) % 16, 16, 0, (l.shift + i) % 16);
  }

  function Flipped(px: seq<bv8>): (r: seq<bv8>)
    ensures |r| == |px|
  {
    seq(|px|, k requires 0 <= k < |px| => px[k] ^ 0xFF)
  }

  /** What pixel i of the line makes of the pixel under it. */
  function Effect(l: LineSpec, f: Format, i: nat, px: seq<bv8>): (r: seq<bv8>)
    requires |px| == Bpp(f) != 3
    ensures |r| == Bpp(f)
  {
    if Drawn(l, i) then (if l.drawMode / 2 % 2 == 1 then Flipped(px) else Pen(f, l.fg))
    else if l.drawMode % 4 == 1 then Pen(f, l.bg)
    else px
  }

  /** The draw modes by number: JAM1 draws with the pen and lets gaps be, JAM2 fills them with the
      background pen, COMPLEMENT (with or without JAM2) inverts every bit under a drawn pixel and lets
      gaps be. */
  lemma DrawModes(l: LineSpec, f: Format, i: nat, px: seq<bv8>, k: nat)
    requires |px| == Bpp(f) != 3 && k < |px| && l.drawMode < 4
    ensures l.drawMode == 0 ==> Effect(l, f, i, px) == if Drawn(l, i) then Pen(f, l.fg) else px
    ensures l.drawMode == 1 ==> Effect(l, f, i, px) == if Drawn(l, i) then Pen(f, l.fg) else Pen(f, l.bg)
    ensures l.drawMode >= 2 ==> Effect(l, f, i, px)[k] == if Drawn(l, i) then px[k] ^ 0xFF else px[k]
  {
    hide Drawn, Pen;
  }

  /** The error term before step i, when m minor steps have been taken. */
  function Error(l: LineSpec, i: nat, m: int): int {
    2 * l.sDelta * i + 2 * l.sDelta - l.lDelta - m * (2 * l.lDelta)
  }

  /** The error bound, and what one step makes of it without leaving 16 bits. */
  lemma ErrorStep(l: LineSpec, i: nat, m: nat)
    requires Regular(l) && m == Minor(l.sDelta, l.lDelta, i)
    ensures 2 * l.sDelta - 2 * l.lDelta < Error(l, i, m) <= 2 * l.sDelta
    ensures var m' := if Error(l, i, m) > 0 then m + 1 else m;
            && m' == Minor(l.sDelta, l.lDelta, i + 1)
            && Error(l, i + 1, m') == Error(l, i, m) + 2 * l.sDelta - (if Error(l, i, m) > 0 then 2 * l.lDelta else 0)
  {
    var sd, ld := l.sDelta, l.lDelta;
    MinorIsHalfPixel(sd, ld, i, m);
    var m' := if Error(l, i, m) > 0 then m + 1 else m;
    assert (m + 1) * (2 * ld) == m * (2 * ld) + 2 * ld;
    assert 2 * sd * (i + 1) == 2 * sd * i + 2 * sd;
    MinorIsHalfPixel(sd, ld, i + 1, m');
  }

  predicate FitsWord(v: int) {
    -32768 <= v <= 32767
  }

  /** Every pixel of the line is on the screen, and the point after the last still has WORD
      coordinates. */
  ghost predicate OnScreen(l: LineSpec, width: nat, height: nat)
    requires Regular(l)
  {
    && (forall i :: 0 <= i < l.length ==> 0 <= PixelX(l, i) < width && 0 <= PixelY(l, i) < height)
    && (forall i :: 0 <= i <= l.length ==> FitsWord(PixelX(l, i)) && FitsWord(PixelY(l, i)))
  }

  lemma PixelsDiffer(l: LineSpec, i: nat, j: nat)
    requires Regular(l) && i != j
    ensures PixelX(l, i) != PixelX(l, j) || PixelY(l, i) != PixelY(l, j)
  {
  }

  /** The box handed to chip_flush. */
  datatype Box = Box(x: int, y: int, w: int, h: int)

  predicate InBox(b: Box, x: int, y: int) {
    b.x <= x < b.x + b.w && b.y <= y < b.y + b.h
  }

  // ---------------------------------------------------------------- pixels in memory

  /** Byte p belongs to column c of row q. */
  predicate InPixel(bm: View, q: nat, c: nat, p: int) {
    InRow(bm, c, c + 1, q, p)
  }

  /** Different pixels have no byte in common. */
  lemma PixelsApart(bm: View, size: nat, q: nat, c: nat, r: nat, d: nat, p: int)
    requires Sound(bm, size) && c < bm.w && d < bm.w && (q != r || c != d) && InPixel(bm, q, c, p)
    ensures !InPixel(bm, r, d, p)
  {
    hide Sound, View.Offset, InRow;
    if q != r {
      RowsApartInBitmap(bm, size, q, r, p, c, c + 1);
      WholeRow(bm, d, d + 1, r, p);
    } else {
      PixelsInRow(bm, q, c, d, d + 1, p);
    }
  }

  /** A store of one pixel. */
  lemma PixelStored(m: seq<bv8>, bm: View, q: nat, c: nat, px: seq<bv8>)
    requires bm.InMemory(|m|) && q < bm.h && c < bm.w && |px| == Bpp(bm.format)
    ensures bm.Offset(q, c) + |px| <= |m|
    ensures var m2 := Put(m, bm.Offset(q, c), px);
            bm.Pixel(m2, q, c) == px && forall p :: 0 <= p < |m| && !InPixel(bm, q, c, p) ==> m2[p] == m[p]
  {
    hide View.Offset, View.InMemory, View.Pixel;
    NothingPainted(m, bm, c, c, q, px);
    PixelJoins(m, m, bm, c, c, q, px);
  }

  /** Pixel i of the line covers byte p. */
  predicate Covers(bm: View, l: LineSpec, i: nat, p: int)
    requires Regular(l)
  {
    PixelX(l, i) >= 0 && PixelY(l, i) >= 0 && InPixel(bm, PixelY(l, i), PixelX(l, i), p)
  }

  /** The first n pixels of the line have received their effect, and no other byte has changed. */
  ghost predicate LineDrawn(m0: seq<bv8>, m: seq<bv8>, bm: View, l: LineSpec, n: nat)
    requires Regular(l) && OnScreen(l, bm.w, bm.h) && n <= l.length && bm.InMemory(|m0|) && Bpp(bm.format) != 3
  {
    && |m| == |m0|
    && (forall i :: 0 <= i < n ==>
          bm.Pixel(m, PixelY(l, i), PixelX(l, i)) == Effect(l, bm.format, i, bm.Pixel(m0, PixelY(l, i), PixelX(l, i))))
    && (forall p :: 0 <= p < |m| && (forall i :: 0 <= i < n ==> !Covers(bm, l, i, p)) ==> m[p] == m0[p])
  }

  lemma NoneDrawn(m: seq<bv8>, bm: View, l: LineSpec)
    requires Regular(l) && OnScreen(l, bm.w, bm.h) && bm.InMemory(|m|) && Bpp(bm.format) != 3
    ensures LineDrawn(m, m, bm, l, 0)
  {
  }

  /** The next pixel of the line is still as it was. */
  lemma NextUntouched(m0: seq<bv8>, m: seq<bv8>, bm: View, l: LineSpec, n: nat)
    requires Regular(l) && OnScreen(l, bm.w, bm.h) && n < l.length && Sound(bm, |m0|) && Bpp(bm.format) != 3
    requires LineDrawn(m0, m, bm, l, n)
    ensures bm.Pixel(m, PixelY(l, n), PixelX(l, n)) == bm.Pixel(m0, PixelY(l, n), PixelX(l, n))
  {
    hide PixelX, PixelY, Effect, View.Pixel, View.Offset, View.InMemory, InPixel;
    var q, c := PixelY(l, n), PixelX(l, n);
    forall p | InRow(bm, c, c + 1, q, p) && 0 <= p < |m| ensures m[p] == m0[p] {
      forall i | 0 <= i < n ensures !Covers(bm, l, i, p) {
        PixelsDiffer(l, i, n);
        InPixelIs(bm, q, c, p);
        PixelsApart(bm, |m|, q, c, PixelY(l, i), PixelX(l, i), p);
      }
    }
    PixelKept(m0, m, bm, q, c);
  }

  lemma InPixelIs(bm: View, q: nat, c: nat, p: int)
    ensures InPixel(bm, q, c, p) == InRow(bm, c, c + 1, q, p)
  {
  }

  /** One more pixel of the line. */
  lemma LineJoins(m0: seq<bv8>, m: seq<bv8>, bm: View, l: LineSpec, n: nat)
    requires Regular(l) && OnScreen(l, bm.w, bm.h) && n < l.length && Sound(bm, |m0|) && Bpp(bm.format) != 3
    requires LineDrawn(m0, m, bm, l, n)
    ensures var q, c := PixelY(l, n), PixelX(l, n);
            && bm.Offset(q, c) + Bpp(bm.format) <= |m|
            && LineDrawn(m0, Put(m, bm.Offset(q, c), Effect(l, bm.format, n, bm.Pixel(m, q, c))), bm, l, n + 1)
  {
    hide PixelX, PixelY, Effect, View.Pixel, View.Offset, View.InMemory, InRow, InPixel, Put;
    var q, c := PixelY(l, n), PixelX(l, n);
    var px := Effect(l, bm.format, n, bm.Pixel(m, q, c));
    NextUntouched(m0, m, bm, l, n);
    PixelStored(m, bm, q, c, px);
    var m2 := Put(m, bm.Offset(q, c), px);
    forall i | 0 <= i < n ensures bm.Pixel(m2, PixelY(l, i), PixelX(l, i)) == bm.Pixel(m, PixelY(l, i), PixelX(l, i)) {
      var r, d := PixelY(l, i), PixelX(l, i);
      PixelsDiffer(l, i, n);
      forall p | InRow(bm, d, d + 1, r, p) && 0 <= p < |m| ensures m2[p] == m[p] {
        InPixelIs(bm, r, d, p);
        PixelsApart(bm, |m|, r, d, q, c, p);
      }
      PixelKept(m, m2, bm, r, d);
    }
    forall p | 0 <= p < |m2| && (forall i :: 0 <= i < n + 1 ==> !Covers(bm, l, i, p)) ensures m2[p] == m0[p] {
      assert !Covers(bm, l, n, p);
    }
  }

  /** One pixel: the store the pattern and draw mode call for. */
  method Plot(mem: array<bv8>, bm: View, l: LineSpec, i: nat, px: nat, py: nat)
    requires bm.InMemory(mem.Length) && Bpp(bm.format) != 3 && px < bm.w && py < bm.h
    modifies mem
    ensures bm.Offset(py, px) + Bpp(bm.format) <= mem.Length
    ensures mem[..] == Put(old(mem[..]), bm.Offset(py, px), Effect(l, bm.format, i, bm.Pixel(old(mem[..]), py, px)))
  {
    hide Pow2, View.InMemory;
    PixelInMemory(bm, mem.Length, py, px);
    var pixel := bm.base + (py + bm.panY) * bm.stride + (px + bm.panX) * Bpp(bm.format);
    ghost var before, was := mem[..], bm.Pixel(mem[..], py, px);
    assert Put(before, pixel, was) == before;
    if Drawn(l, i) {
      if l.drawMode / 2 % 2 == 1 {
        StorePixel(mem, pixel, Flipped(mem[pixel..pixel + Bpp(bm.format)]));
      } else {
        StorePixel(mem, pixel, Pen(bm.format, l.fg));
      }
    } else if l.drawMode % 4 == 1 {
      StorePixel(mem, pixel, Pen(bm.format, l.bg));
    }
  }

  /** The second half of the loop body: to the next pixel, in WORD arithmetic. */
  method Advance(l: LineSpec, i: nat, px: int, py: int, err: int, ghost m: nat) returns (px': int, py': int, err': int)
    requires Regular(l) && FitsWord(PixelX(l, i + 1)) && FitsWord(PixelY(l, i + 1))
    requires m == Minor(l.sDelta, l.lDelta, i) && err == Error(l, i, m)
    requires px == PixelX(l, i) && py == PixelY(l, i)
    ensures px' == PixelX(l, i + 1) && py' == PixelY(l, i + 1)
    ensures err' == Error(l, i + 1, Minor(l.sDelta, l.lDelta, i + 1))
  {
    ErrorStep(l, i, m);
    hide Minor, Error;
    px', py', err' := px, py, err;
    if l.horizontal {
      px' := Word(px' + Sign(l.dx));
      if err > 0 {
        py' := Word(py' + Sign(l.dy));
        err' := Word(err' - 2 * l.lDelta);
      }
      err' := Word(err' + 2 * l.sDelta);
    } else {
      py' := Word(py' + Sign(l.dy));
      if err > 0 {
        px' := Word(px' + Sign(l.dx));
        err' := Word(err' - 2 * l.lDelta);
      }
      err' := Word(err' + 2 * l.sDelta);
    }
  }

  /** Each pixel of the ideal line, rounded, gets its effect; no other byte changes; the flushed box is
      the smallest that holds every pixel of the line and the point after the last. The WORD arithmetic
      of the error never wraps. */
  method DrawLine(mem: array<bv8>, bm: View, l: LineSpec) returns (box: Box)
    requires Regular(l) && OnScreen(l, bm.w, bm.h) && Sound(bm, mem.Length) && Bpp(bm.format) != 3
    modifies mem
    ensures LineDrawn(old(mem[..]), mem[..], bm, l, l.length)
    ensures forall i :: 0 <= i <= l.length ==> InBox(box, PixelX(l, i), PixelY(l, i))
    ensures exists i: nat, j: nat :: i <= l.length && j <= l.length
              && PixelX(l, i) == box.x && PixelX(l, j) == box.x + box.w - 1
    ensures exists i: nat, j: nat :: i <= l.length && j <= l.length
              && PixelY(l, i) == box.y && PixelY(l, j) == box.y + box.h - 1
    ensures OfSegment(l) ==>
              && PixelX(l, 0) == l.x && PixelX(l, l.lDelta) == l.x + l.dx
              && PixelY(l, 0) == l.y && PixelY(l, l.lDelta) == l.y + l.dy
  {
    hide Effect, PixelX, PixelY, Error, LineDrawn, View.InMemory, View.Pixel, View.Offset, OfSegment;
    if OfSegment(l) { MeetsEnds(l); }
    var px, py := l.x, l.y;
    var err := l.twoSDminusLD;
    var minX, maxX, minY, maxY := px, px, py, py;
    ghost var atMinX: nat, atMaxX: nat, atMinY: nat, atMaxY: nat := 0, 0, 0, 0;
    FirstPixel(l);
    ghost var m0 := mem[..];
    NoneDrawn(m0, bm, l);
    for i := 0 to l.length
      modifies mem
      invariant err == Error(l, i, Minor(l.sDelta, l.lDelta, i))
      invariant px == PixelX(l, i) && py == PixelY(l, i)
      invariant forall j :: 0 <= j <= i ==> minX <= PixelX(l, j) <= maxX && minY <= PixelY(l, j) <= maxY
      invariant atMinX <= i && atMaxX <= i && PixelX(l, atMinX) == minX && PixelX(l, atMaxX) == maxX
      invariant atMinY <= i && atMaxY <= i && PixelY(l, atMinY) == minY && PixelY(l, atMaxY) == maxY
      invariant LineDrawn(m0, mem[..], bm, l, i)
    {
      LineJoins(m0, mem[..], bm, l, i);
      Plot(mem, bm, l, i, px, py);
      px, py, err := Advance(l, i, px, py, err, Minor(l.sDelta, l.lDelta, i));
      if px < minX { minX, atMinX := px, i + 1; }
      if px > maxX { maxX, atMaxX := px, i + 1; }
      if py < minY { minY, atMinY := py, i + 1; }
      if py > maxY { maxY, atMaxY := py, i + 1; }
    }
    box := Box(minX, minY, maxX - minX + 1, maxY - minY + 1);
  }

  lemma FirstPixel(l: LineSpec)
    requires Regular(l)
    ensures PixelX(l, 0) == l.x && PixelY(l, 0) == l.y
    ensures l.twoSDminusLD == Error(l, 0, Minor(l.sDelta, l.lDelta, 0))
  {
    LineReachesEnd(l.sDelta, l.lDelta);
  }
}
