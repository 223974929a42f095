/** FillRect on board memory, and what a flush after it shows. */
module Fill {
  import opened MachineWords
  import opened Arithmetic
  import opened Results
  import opened Flush

  /** The bytes a pixel store of color leaves in memory, for pixels of 1, 2 or 4 bytes. */
  function Pen(f: Format, color: bv32): (px: seq<bv8>)
    requires Bpp(f) != 3
    ensures |px| == Bpp(f)
  {
    if Bpp(f) == 1 then [Byte(color, 3)]
    else if Bpp(f) == 2 then [Byte(color, 2), Byte(color, 3)]
    else [Byte(color, 0), Byte(color, 1), Byte(color, 2), Byte(color, 3)]
  }

  lemma LowByte(c: bv32)
    ensures Byte(c, 3) as bv32 == c & 0xFF
  {
  }

  lemma LowHalf(c: bv32)
    ensures Load16(Byte(c, 2), Byte(c, 3)) == c & 0xFFFF
  {
  }

  lemma WholeWord(c: bv32)
    ensures Load32(Byte(c, 0), Byte(c, 1), Byte(c, 2), Byte(c, 3)) == c
  {
  }

  /** A pixel of one byte is the low byte of the colour; a wider one, loaded as a big-endian word, is
      the low half of the colour, or all of it. */
  lemma PenLoads(f: Format, color: bv32)
    requires Bpp(f) != 3
    ensures Bpp(f) == 1 ==> Pen(f, color)[0] as bv32 == color & 0xFF
    ensures Bpp(f) == 2 ==> Load16(Pen(f, color)[0], Pen(f, color)[1]) == color & 0xFFFF
    ensures Bpp(f) == 4 ==>
              Load32(Pen(f, color)[0], Pen(f, color)[1], Pen(f, color)[2], Pen(f, color)[3]) == color
  {
    hide Byte, Load16, Load32;
    LowByte(color);
    LowHalf(color);
    WholeWord(color);
  }

  lemma Fields565(c: bv32)
    ensures var (h, k) := (Byte(c, 2), Byte(c, 3));
            && h >> 3 == Low((c >> 11) & 0x1F) && ((h & 7) << 3) | (k >> 5) == Low((c >> 5) & 0x3F)
            && k & 0x1F == Low(c & 0x1F)
  {
  }

  lemma Fields555(c: bv32)
    ensures var (h, k) := (Byte(c, 2), Byte(c, 3));
            && (h >> 2) & 0x1F == Low((c >> 10) & 0x1F) && ((h & 3) << 3) | (k >> 5) == Low((c >> 5) & 0x1F)
            && k & 0x1F == Low(c & 0x1F)
  {
  }

  /** The colour that a 32-bit pen stands for is that of its bytes, highest first, as the format's name
      lists them. */
  lemma PenShows32(f: Format, c: bv32, palette: Palette)
    requires Supported(f) && Bpp(f) == 4
    ensures var (l, m, n, o) := (Low(c >> 24), Low(c >> 16), Low(c >> 8), Low(c));
            && (f == A8R8G8B8 ==> Meaning(f, Pen(f, c), palette) == Colour(m, n, o))
            && (f == A8B8G8R8 ==> Meaning(f, Pen(f, c), palette) == Colour(o, n, m))
            && (f == R8G8B8A8 ==> Meaning(f, Pen(f, c), palette) == Colour(l, m, n))
            && (f == B8G8R8A8 ==> Meaning(f, Pen(f, c), palette) == Colour(n, m, l))
  {
    hide Low, Widen5, Widen6;
  }

  /** The same for the bit fields of a 16-bit pen, widened to 8 bits. */
  lemma PenShows16(f: Format, c: bv32, palette: Palette)
    requires f == R5G6B5 || f == R5G5B5
    ensures Meaning(f, Pen(f, c), palette)
            == if f == R5G6B5
               then Colour(Widen5(Low((c >> 11) & 0x1F)), Widen6(Low((c >> 5) & 0x3F)), Widen5(Low(c & 0x1F)))
               else Colour(Widen5(Low((c >> 10) & 0x1F)), Widen5(Low((c >> 5) & 0x1F)), Widen5(Low(c & 0x1F)))
  {
    hide Low, Byte, Widen5, Widen6, Meaning, Pen;
    PenOf16(f, c);
    if f == R5G6B5 {
      Fields565(c);
      MeaningOf565(Byte(c, 2), Byte(c, 3), palette);
    } else {
      Fields555(c);
      MeaningOf555(Byte(c, 2), Byte(c, 3), palette);
    }
  }

  lemma MeaningOf565(h: bv8, k: bv8, palette: Palette)
    ensures Meaning(R5G6B5, [h, k], palette)
            == Colour(Widen5(h >> 3), Widen6(((h & 7) << 3) | (k >> 5)), Widen5(k & 0x1F))
  {
    hide Widen5, Widen6;
  }

  lemma MeaningOf555(h: bv8, k: bv8, palette: Palette)
    ensures Meaning(R5G5B5, [h, k], palette)
            == Colour(Widen5((h >> 2) & 0x1F), Widen5(((h & 3) << 3) | (k >> 5)), Widen5(k & 0x1F))
  {
    hide Widen5, Widen6;
  }

  lemma PenOf16(f: Format, c: bv32)
    requires f == R5G6B5 || f == R5G5B5
    ensures Pen(f, c) == [Byte(c, 2), Byte(c, 3)]
  {
  }

  /** m with px stored at o. */
  function Put(m: seq<bv8>, o: nat, px: seq<bv8>): (r: seq<bv8>)
    requires o + |px| <= |m|
    ensures |r| == |m|
  {
    m[..o] + px + m[o + |px|..]
  }

  /** The rows of a bitmap do not overlap, and all lie in size bytes of memory. */
  predicate Sound(bm: View, size: nat) {
    bm.InMemory(size) && (bm.panX + bm.w) * Bpp(bm.format) <= bm.stride
  }

  predicate InRow(bm: View, x: nat, x2: nat, q: nat, p: int) {
    bm.Offset(q, x) <= p < bm.Offset(q, x2)
  }

  /** Pixels x to x2 of row q hold the pen, and no byte outside them has changed. */
  ghost predicate RowPainted(m0: seq<bv8>, m: seq<bv8>, bm: View, x: nat, x2: nat, q: nat, pen: seq<bv8>) {
    && |m| == |m0| && bm.InMemory(|m|) && x <= x2 <= bm.w && q < bm.h
    && (forall c :: x <= c < x2 ==> bm.Pixel(m, q, c) == pen)
    && (forall p :: 0 <= p < |m| && !InRow(bm, x, x2, q, p) ==> m[p] == m0[p])
  }

  /** The same for rows y to y2. */
  ghost predicate Painted(m0: seq<bv8>, m: seq<bv8>, bm: View, x: nat, x2: nat, y: nat, y2: nat, pen: seq<bv8>) {
    && |m| == |m0| && bm.InMemory(|m|) && x <= x2 <= bm.w && y <= y2 <= bm.h
    && (forall q, c :: y <= q < y2 && x <= c < x2 ==> bm.Pixel(m, q, c) == pen)
    && (forall p :: 0 <= p < |m| && (forall q :: y <= q < y2 ==> !InRow(bm, x, x2, q, p)) ==> m[p] == m0[p])
  }

  lemma NothingPainted(m: seq<bv8>, bm: View, x: nat, x2: nat, y: nat, pen: seq<bv8>)
    requires bm.InMemory(|m|) && x <= x2 <= bm.w && y <= bm.h
    ensures Painted(m, m, bm, x, x2, y, y, pen)
    ensures y < bm.h ==> RowPainted(m, m, bm, x, x, y, pen)
  {
  }

  lemma NextColumn(bm: View, q: nat, c: nat)
    ensures bm.Offset(q, c + 1) == bm.Offset(q, c) + Bpp(bm.format)
  {
  }

  lemma ColumnsInOrder(bm: View, q: nat, c: nat, d: nat)
    requires c <= d
    ensures bm.Offset(q, c) + (d - c) * Bpp(bm.format) == bm.Offset(q, d)
    ensures bm.Offset(q, c) <= bm.Offset(q, d)
  {
    MulMonotone(0, d - c, Bpp(bm.format));
    assert (d + bm.panX) * Bpp(bm.format) == (c + bm.panX) * Bpp(bm.format) + (d - c) * Bpp(bm.format);
  }

  /** Storing the pen at the next column paints one more pixel. */
  lemma PixelJoins(m0: seq<bv8>, m: seq<bv8>, bm: View, x: nat, c: nat, q: nat, pen: seq<bv8>)
    requires RowPainted(m0, m, bm, x, c, q, pen) && c < bm.w && |pen| == Bpp(bm.format)
    ensures bm.Offset(q, c) + |pen| <= |m|
    ensures RowPainted(m0, Put(m, bm.Offset(q, c), pen), bm, x, c + 1, q, pen)
  {
    hide View.Offset, View.InMemory;
    PixelInMemory(bm, |m|, q, c);
    NextColumn(bm, q, c);
    ColumnsInOrder(bm, q, x, c);
    var o := bm.Offset(q, c);
    var m2 := Put(m, o, pen);
    forall d | x <= d < c + 1 ensures bm.Pixel(m2, q, d) == pen {
      PixelInMemory(bm, |m|, q, d);
      if d < c {
        ColumnsInOrder(bm, q, d + 1, c);
        NextColumn(bm, q, d);
        var a := bm.Offset(q, d);
        assert m2[a..a + Bpp(bm.format)] == m[a..a + Bpp(bm.format)];
        assert bm.Pixel(m, q, d) == pen;
      } else {
        assert m2[o..o + |pen|] == pen;
      }
    }
  }

  lemma RowBounds(bm: View, size: nat, q: nat, x: nat)
    requires Sound(bm, size) && x <= bm.w
    ensures bm.base + (q + bm.panY) * bm.stride <= bm.Offset(q, x) <= bm.base + (q + bm.panY + 1) * bm.stride
  {
    hide View.InMemory;
    var b := Bpp(bm.format);
    MulMonotone(0, x + bm.panX, b);
    MulMonotone(x + bm.panX, bm.panX + bm.w, b);
    assert (q + bm.panY + 1) * bm.stride == (q + bm.panY) * bm.stride + bm.stride;
  }

  /** Different rows have no byte in common. */
  lemma RowsApartInBitmap(bm: View, size: nat, q: nat, r: nat, p: int, x: nat, x2: nat)
    requires Sound(bm, size) && q != r && x <= x2 <= bm.w && InRow(bm, x, x2, q, p)
    ensures !InRow(bm, 0, bm.w, r, p)
  {
    hide View.Offset, Sound;
    RowBounds(bm, size, q, x);
    RowBounds(bm, size, q, x2);
    RowBounds(bm, size, r, 0);
    RowBounds(bm, size, r, bm.w);
    if q < r {
      MulMonotone(q + bm.panY + 1, r + bm.panY, bm.stride);
    } else {
      MulMonotone(r + bm.panY + 1, q + bm.panY, bm.stride);
    }
  }

  /** A pixel none of whose bytes changed is the same. */
  lemma PixelKept(m0: seq<bv8>, m: seq<bv8>, bm: View, q: nat, c: nat)
    requires |m| == |m0| && bm.InMemory(|m|) && q < bm.h && c < bm.w
    requires forall p :: InRow(bm, c, c + 1, q, p) && 0 <= p < |m| ==> m[p] == m0[p]
    ensures bm.Pixel(m, q, c) == bm.Pixel(m0, q, c)
  {
    hide View.Offset, View.InMemory;
    PixelInMemory(bm, |m|, q, c);
    NextColumn(bm, q, c);
    var o := bm.Offset(q, c);
    forall p | o <= p < o + Bpp(bm.format) ensures m[p] == m0[p] { assert InRow(bm, c, c + 1, q, p); }
  }

  lemma PixelsInRow(bm: View, q: nat, c: nat, x: nat, x2: nat, p: int)
    requires InRow(bm, c, c + 1, q, p)
    ensures x <= c < x2 ==> InRow(bm, x, x2, q, p)
    ensures !(x <= c < x2) ==> !InRow(bm, x, x2, q, p)
  {
    hide View.Offset;
    if x <= c < x2 {
      ColumnsInOrder(bm, q, x, c);
      ColumnsInOrder(bm, q, c + 1, x2);
    } else if c < x {
      ColumnsInOrder(bm, q, c + 1, x);
    } else {
      ColumnsInOrder(bm, q, x2, c);
    }
  }

  /** Painting row r leaves the painted rows before it as they are. */
  lemma RowJoins(m0: seq<bv8>, m1: seq<bv8>, m2: seq<bv8>, bm: View, x: nat, x2: nat, y: nat, r: nat, pen: seq<bv8>)
    requires Painted(m0, m1, bm, x, x2, y, r, pen) && RowPainted(m1, m2, bm, x, x2, r, pen) && Sound(bm, |m0|)
    ensures Painted(m0, m2, bm, x, x2, y, r + 1, pen)
  {
    hide View.Offset, View.InMemory, View.Pixel, InRow, Sound;
    forall q, c | y <= q < r + 1 && x <= c < x2 ensures bm.Pixel(m2, q, c) == pen {
      if q < r {
        forall p | InRow(bm, c, c + 1, q, p) && 0 <= p < |m2| ensures m2[p] == m1[p] {
          RowsApartInBitmap(bm, |m0|, q, r, p, c, c + 1);
          WholeRow(bm, x, x2, r, p);
        }
        PixelKept(m1, m2, bm, q, c);
        assert bm.Pixel(m1, q, c) == pen;
      }
    }
    forall p | 0 <= p < |m2| && (forall q :: y <= q < r + 1 ==> !InRow(bm, x, x2, q, p)) ensures m2[p] == m0[p] {
      assert !InRow(bm, x, x2, r, p);
      assert m2[p] == m1[p];
    }
  }

  lemma WholeRow(bm: View, x: nat, x2: nat, q: nat, p: int)
    requires x <= x2 <= bm.w && !InRow(bm, 0, bm.w, q, p)
    ensures !InRow(bm, x, x2, q, p)
  {
    hide View.Offset;
    ColumnsInOrder(bm, q, 0, x);
    ColumnsInOrder(bm, q, x2, bm.w);
  }

  // ---------------------------------------------------------------- the loops

  lemma PutSnoc(m: seq<bv8>, o: nat, px: seq<bv8>, k: nat)
    requires o + |px| <= |m| && k < |px|
    ensures Put(m, o, px[..k])[o + k := px[k]] == Put(m, o, px[..k + 1])
  {
  }

  /** A store of a pixel. */
  method StorePixel(mem: array<bv8>, o: nat, px: seq<bv8>)
    requires o + |px| <= mem.Length
    modifies mem
    ensures mem[..] == Put(old(mem[..]), o, px)
  {
    assert Put(mem[..], o, px[..0]) == mem[..];
    for k := 0 to |px|
      modifies mem
      invariant mem[..] == Put(old(mem[..]), o, px[..k])
    {
      PutSnoc(old(mem[..]), o, px, k);
      mem[o + k] := px[k];
    }
    assert px[..|px|] == px;
  }

  /** A word store of four 8-bit pixels of the same pen. */
  lemma FourPixels(m0: seq<bv8>, m: seq<bv8>, bm: View, x: nat, c: nat, q: nat, v: bv8)
    requires RowPainted(m0, m, bm, x, c, q, [v]) && c + 4 <= bm.w && Bpp(bm.format) == 1
    ensures bm.Offset(q, c) + 4 <= |m|
    ensures RowPainted(m0, Put(m, bm.Offset(q, c), [v, v, v, v]), bm, x, c + 4, q, [v])
  {
    hide View.Offset, View.InMemory, RowPainted;
    var o := bm.Offset(q, c);
    NextColumn(bm, q, c);
    NextColumn(bm, q, c + 1);
    NextColumn(bm, q, c + 2);
    PixelJoins(m0, m, bm, x, c, q, [v]);
    var m1 := Put(m, o, [v]);
    PixelJoins(m0, m1, bm, x, c + 1, q, [v]);
    var m2 := Put(m1, o + 1, [v]);
    PixelJoins(m0, m2, bm, x, c + 2, q, [v]);
    var m3 := Put(m2, o + 2, [v]);
    PixelJoins(m0, m3, bm, x, c + 3, q, [v]);
    PutFour(m, o, v);
  }

  lemma PutFour(m: seq<bv8>, o: nat, v: bv8)
    requires o + 4 <= |m|
    ensures Put(Put(Put(Put(m, o, [v]), o + 1, [v]), o + 2, [v]), o + 3, [v]) == Put(m, o, [v, v, v, v])
  {
  }

  /** chip_lfill on a row of 8-bit pixels: whole words where the row starts on a word, then the
      tail byte by byte. base is the address of the first byte of memory. */
  method FillBytes(mem: array<bv8>, base: nat, bm: View, q: nat, x: nat, n: nat, v: bv8)
    requires bm.InMemory(mem.Length) && q < bm.h && x + n <= bm.w && Bpp(bm.format) == 1
    modifies mem
    ensures RowPainted(old(mem[..]), mem[..], bm, x, x + n, q, [v])
  {
    hide View.Offset, RowPainted;
    ghost var m0 := mem[..];
    NothingPainted(m0, bm, x, x, q, [v]);
    var dst := bm.Offset(q, x);
    var i := 0;
    if (base + dst) % 4 == 0 {
      var longs := n / 4;
      for j := 0 to longs
        modifies mem
        invariant RowPainted(m0, mem[..], bm, x, x + 4 * j, q, [v])
      {
        ColumnsInOrder(bm, q, x, x + 4 * j);
        FourPixels(m0, mem[..], bm, x, x + 4 * j, q, v);
        StorePixel(mem, dst + 4 * j, [v, v, v, v]);
      }
      i := 4 * longs;
    }
    while i < n
      modifies mem
      invariant i <= n && RowPainted(m0, mem[..], bm, x, x + i, q, [v])
    {
      ColumnsInOrder(bm, q, x, x + i);
      PixelJoins(m0, mem[..], bm, x, x + i, q, [v]);
      StorePixel(mem, dst + i, [v]);
      i := i + 1;
    }
  }

  /** The 2- and 4-byte loops of chip_FillRect, one row. */
  method FillPixels(mem: array<bv8>, bm: View, q: nat, x: nat, n: nat, pen: seq<bv8>)
    requires bm.InMemory(mem.Length) && q < bm.h && x + n <= bm.w && |pen| == Bpp(bm.format)
    modifies mem
    ensures RowPainted(old(mem[..]), mem[..], bm, x, x + n, q, pen)
  {
    hide View.Offset, RowPainted;
    ghost var m0 := mem[..];
    NothingPainted(m0, bm, x, x, q, pen);
    for col := 0 to n
      modifies mem
      invariant RowPainted(m0, mem[..], bm, x, x + col, q, pen)
    {
      PixelJoins(m0, mem[..], bm, x, x + col, q, pen);
      StorePixel(mem, bm.Offset(q, x + col), pen);
    }
  }

  /** Where the pixel r rows below and c columns right of another lies. */
  lemma PlaceOf(bm: View, y: nat, x: nat, r: nat, c: nat)
    ensures bm.Offset(y + r, x + c) == bm.Offset(y, x) + r * bm.stride + c * Bpp(bm.format)
  {
    Distributes(y + bm.panY, r, bm.stride);
    Distributes(x + bm.panX, c, Bpp(bm.format));
  }

  lemma Distributes(a: int, b: int, d: int)
    ensures (a + b) * d == a * d + b * d
  {
  }

  lemma PaintedByte(m0: seq<bv8>, m: seq<bv8>, bm: View, x: nat, x2: nat, y: nat, y2: nat, pen: seq<bv8>,
                    q: nat, c: nat, k: nat)
    requires Painted(m0, m, bm, x, x2, y, y2, pen) && y <= q < y2 && x <= c < x2 && k < Bpp(bm.format)
    ensures 0 <= bm.Offset(q, c) + k < |m| && k < |pen| && m[bm.Offset(q, c) + k] == pen[k]
  {
    hide View.InMemory, View.Offset;
    PixelInMemory(bm, |m|, q, c);
    assert bm.Pixel(m, q, c) == pen;
    assert bm.Pixel(m, q, c)[k] == pen[k];
  }

  lemma ColumnOf(o: nat, w: nat, b: nat)
    requires o < w * b
    ensures b > 0 && 0 <= o / b < w && o == o / b * b + o % b
  {
    if o / b >= w { MulMonotone(w, o / b, b); }
  }

  lemma RowBeside(bm: View, size: nat, x: nat, w: nat, y: nat, h: nat, q: nat, p: int)
    requires Sound(bm, size) && x + w <= bm.w && y <= q < y + h
    requires Beside(p, bm.Offset(y, x), bm.stride, w * Bpp(bm.format), h)
    ensures !InRow(bm, x, x + w, q, p)
  {
    hide View.Offset, View.InMemory, Beside;
    MulMonotone(w, bm.panX + bm.w, Bpp(bm.format));
    ColumnsInOrder(bm, q, x, x + w);
    PlaceOf(bm, y, x, q - y, 0);
    if InRow(bm, x, x + w, q, p) {
      ByteOfRow(bm.Offset(y, x), bm.stride, w * Bpp(bm.format), h, q - y, p - bm.Offset(q, x));
    }
  }

  /** What every byte of memory is after painting w by h pixels from row y, column x on. */
  lemma PaintedBytes(m0: seq<bv8>, m: seq<bv8>, bm: View, x: nat, w: nat, y: nat, h: nat, pen: seq<bv8>, p: nat)
    requires Painted(m0, m, bm, x, x + w, y, y + h, pen) && Sound(bm, |m0|) && |pen| == Bpp(bm.format) && p < |m|
    ensures var first := bm.Offset(y, x);
            && p < |m0| && m[p] == if Beside(p, first, bm.stride, w * |pen|, h) then m0[p]
                                   else pen[(p - first) % bm.stride % |pen|]
  {
    hide View.InMemory, View.Offset, Sound, InRow;
    var b, first, x2 := |pen|, bm.Offset(y, x), x + w;
    if Beside(p, first, bm.stride, w * b, h) {
      forall q | y <= q < y + h ensures !InRow(bm, x, x2, q, p) { RowBeside(bm, |m0|, x, w, y, h, q, p); }
    } else {
      RowOfByte(p, first, bm.stride, w * b, h);
      var r, o := (p - first) / bm.stride, (p - first) % bm.stride;
      ColumnOf(o, w, b);
      PlaceOf(bm, y, x, r, o / b);
      PaintedByte(m0, m, bm, x, x2, y, y + h, pen, y + r, x + o / b, o % b);
    }
  }

  /** Every byte of memory: w by h pixels from column x, row y on hold the pen, and no other byte has
      changed. */
  ghost predicate BytesPainted(m0: seq<bv8>, m: seq<bv8>, bm: View, x: nat, y: nat, w: nat, h: nat, pen: seq<bv8>) {
    var first := bm.base + (y + bm.panY) * bm.stride + (x + bm.panX) * |pen|;
    && |m| == |m0|
    && (forall p :: 0 <= p < |m| && Beside(p, first, bm.stride, w * |pen|, h) ==> m[p] == m0[p])
    && (forall p :: 0 <= p < |m| && !Beside(p, first, bm.stride, w * |pen|, h) ==>
          |pen| > 0 && m[p] == pen[(p - first) % bm.stride % |pen|])
  }

  lemma PaintedInFull(m0: seq<bv8>, m: seq<bv8>, bm: View, x: nat, y: nat, w: nat, h: nat, pen: seq<bv8>)
    requires Painted(m0, m, bm, x, x + w, y, y + h, pen) && Sound(bm, |m0|) && |pen| == Bpp(bm.format)
    ensures BytesPainted(m0, m, bm, x, y, w, h, pen)
  {
    hide View.InMemory;
    assert bm.Offset(y, x) == bm.base + (y + bm.panY) * bm.stride + (x + bm.panX) * |pen|;
    forall p | 0 <= p < |m| && Beside(p, bm.Offset(y, x), bm.stride, w * |pen|, h) ensures m[p] == m0[p] {
      PaintedBytes(m0, m, bm, x, w, y, h, pen, p);
    }
    forall p | 0 <= p < |m| && !Beside(p, bm.Offset(y, x), bm.stride, w * |pen|, h)
      ensures m[p] == pen[(p - bm.Offset(y, x)) % bm.stride % |pen|]
    {
      PaintedBytes(m0, m, bm, x, w, y, h, pen, p);
    }
  }

  /** chip_FillRect up to its flush, on a rectangle of a bitmap with pixels of 1, 2 or 4 bytes. */
  method FillRect(mem: array<bv8>, base: nat, bm: View, x: nat, y: nat, w: nat, h: nat, color: bv32)
    requires Bpp(bm.format) != 3 && Sound(bm, mem.Length) && x + w <= bm.w && y + h <= bm.h
    modifies mem
    ensures Painted(old(mem[..]), mem[..], bm, x, x + w, y, y + h, Pen(bm.format, color))
    ensures BytesPainted(old(mem[..]), mem[..], bm, x, y, w, h, Pen(bm.format, color))
  {
    hide RowPainted, Painted, View.Offset, View.InMemory, Byte, BytesPainted;
    ghost var m0, pen := mem[..], Pen(bm.format, color);
    NothingPainted(m0, bm, x, x + w, y, pen);
    for row := y to y + h
      modifies mem
      invariant Painted(m0, mem[..], bm, x, x + w, y, row, pen)
    {
      ghost var m1 := mem[..];
      if bm.format == CLUT {
        FillBytes(mem, base, bm, row, x, w, Byte(color, 3));
      } else {
        FillPixels(mem, bm, row, x, w, Pen(bm.format, color));
      }
      RowJoins(m0, m1, mem[..], bm, x, x + w, y, row, pen);
    }
    PaintedInFull(m0, mem[..], bm, x, y, w, h, pen);
  }

  // ---------------------------------------------------------------- what is seen

  /** After painting a rectangle, every pixel of the bitmap holds the pen inside the rectangle
      and its old value outside. */
  lemma PaintedPixel(m0: seq<bv8>, m: seq<bv8>, bm: View, x: nat, x2: nat, y: nat, y2: nat, pen: seq<bv8>,
                     q: nat, c: nat)
    requires Painted(m0, m, bm, x, x2, y, y2, pen) && Sound(bm, |m0|) && q < bm.h && c < bm.w
    ensures bm.Pixel(m, q, c) == if y <= q < y2 && x <= c < x2 then pen else bm.Pixel(m0, q, c)
  {
    hide View.Offset, View.InMemory, View.Pixel, InRow, Sound;
    if !(y <= q < y2 && x <= c < x2) {
      forall p | InRow(bm, c, c + 1, q, p) && 0 <= p < |m| ensures m[p] == m0[p] {
        forall r | y <= r < y2 ensures !InRow(bm, x, x2, r, p) {
          if r != q {
            RowsApartInBitmap(bm, |m0|, q, r, p, c, c + 1);
            WholeRow(bm, x, x2, r, p);
          } else {
            PixelsInRow(bm, q, c, x, x2, p);
          }
        }
      }
      PixelKept(m0, m, bm, q, c);
    }
  }

  /** The bitmap that a view looks at, w by h pixels of it. */
  function Bitmap(v: View, w: nat, h: nat): View {
    v.(panX := 0, panY := 0, w := w, h := h)
  }

  /** A visible pixel after the bitmap has been painted on. */
  lemma VisiblePixel(m0: seq<bv8>, m: seq<bv8>, v: View, w: nat, h: nat, x: nat, x2: nat, y: nat, y2: nat,
                     pen: seq<bv8>, r: nat, c: nat)
    requires Painted(m0, m, Bitmap(v, w, h), x, x2, y, y2, pen) && Sound(Bitmap(v, w, h), |m0|)
    requires v.panX + v.w <= w && v.panY + v.h <= h && r < v.h && c < v.w && v.InMemory(|m0|) && |m| == |m0|
    ensures v.Pixel(m, r, c)
            == if x <= c + v.panX < x2 && y <= r + v.panY < y2 then pen else v.Pixel(m0, r, c)
  {
    hide Painted, View.InMemory;
    var bm := Bitmap(v, w, h);
    PaintedPixel(m0, m, bm, x, x2, y, y2, pen, r + v.panY, c + v.panX);
    assert bm.Offset(r + v.panY, c + v.panX) == v.Offset(r, c);
  }

  /** A fill of a rectangle of the displayed bitmap and the flush after it: the visible part of
      the rectangle shows the pen's colour, and every other visible pixel what it showed of
      memory before. */
  method FillThenFlush(screen: Screen, base: nat, w: nat, h: nat, x: nat, y: nat, dx: nat, dy: nat, color: bv32,
                       transfer: Outcome, flush: Outcome)
    requires screen.Valid() && Supported(screen.format)
    requires var v := screen.Visible();
             v.panX + v.w <= w && v.panY + v.h <= h && Sound(Bitmap(v, w, h), screen.board.Length)
    requires x + dx <= w && y + dy <= h && transfer.Completed? && !flush.Refused?
    modifies screen.board, screen.fb, screen`host, screen`display
    ensures var v := screen.Visible();
            forall a, b :: 0 <= a < v.w && 0 <= b < v.h ==>
              screen.display(a, b)
              == if x <= a + v.panX < x + dx && y <= b + v.panY < y + dy
                 then Meaning(screen.format, Pen(screen.format, color), screen.palette)
                 else Meaning(screen.format, v.Pixel(old(screen.board[..]), b, a), screen.palette)
  {
    hide Painted, Meaning, Pen, BytesPainted, View.Offset, View.Pixel;
    var v := screen.Visible();
    var bm := Bitmap(v, w, h);
    ghost var m0 := screen.board[..];
    FillRect(screen.board, base, bm, x, y, dx, dy, color);
    screen.FlushAll(transfer, flush);
    forall a, b | 0 <= a < v.w && 0 <= b < v.h
      ensures v.Pixel(screen.board[..], b, a)
              == if x <= a + v.panX < x + dx && y <= b + v.panY < y + dy then Pen(screen.format, color)
                 else v.Pixel(m0, b, a)
    {
      VisiblePixel(m0, screen.board[..], v, w, h, x, x + dx, y, y + dy, Pen(screen.format, color), b, a);
    }
  }
}
