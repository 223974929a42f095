/** Rectangle copy and raster operations on board memory: an array of bytes in which a bitmap
    is a base offset and a row stride. */
module Blit {
  import opened Arithmetic

  const SRC_COPY := 0xC
  const CLEAR := 0x0
  const SET := 0xF
  const DST_INVERT := 0x5
  const SRC_XOR_DST := 0x6

  // ------------------------------------------------------------------ raster operations

  /** Result bits of a raster operation for source and destination bits 11, 10, 01 and 00. */
  datatype Table = Table(t11: bool, t10: bool, t01: bool, t00: bool)

  /** Bit 2*S + D of the 4-bit operation is the result for source bit S and destination bit D. */
  function TableOf(rop: nat): Table {
    Table(rop / 8 % 2 == 1, rop / 4 % 2 == 1, rop / 2 % 2 == 1, rop % 2 == 1)
  }

  /** The raster operation on a byte of source and a byte of destination. */
  function RopByte(rop: nat, s: bv8, d: bv8): bv8 {
    Combine(TableOf(rop), s, d)
  }

  function Combine(t: Table, s: bv8, d: bv8): bv8 {
    (if t.t11 then s & d else 0) | (if t.t10 then s & !d else 0)
    | (if t.t01 then !s & d else 0) | (if t.t00 then !s & !d else 0)
  }

  function Mask(k: nat): bv8 {
    if k == 0 then 1 else if k == 1 then 2 else if k == 2 then 4 else if k == 3 then 8
    else if k == 4 then 16 else if k == 5 then 32 else if k == 6 then 64 else 128
  }

  predicate Bit(x: bv8, k: nat) {
    x & Mask(k) != 0
  }

  function TableBit(t: Table, s: bool, d: bool): bool {
    if s then (if d then t.t11 else t.t10) else (if d then t.t01 else t.t00)
  }

  lemma Minterms(t11: bool, t10: bool, t01: bool, t00: bool, s: bv8, d: bv8, m: bv8, a: bv8, b: bv8, e: bv8, f: bv8)
    requires m == 1 || m == 2 || m == 4 || m == 8 || m == 16 || m == 32 || m == 64 || m == 128
    requires a == (if t11 then s & d else 0) && b == (if t10 then s & !d else 0)
    requires e == (if t01 then !s & d else 0) && f == (if t00 then !s & !d else 0)
    ensures (a | b | e | f) & m != 0
            <==> if s & m != 0 then (if d & m != 0 then t11 else t10) else (if d & m != 0 then t01 else t00)
  {
  }

  lemma CombineBits(t: Table, s: bv8, d: bv8, m: bv8)
    requires m == 1 || m == 2 || m == 4 || m == 8 || m == 16 || m == 32 || m == 64 || m == 128
    ensures (Combine(t, s, d) & m != 0) == TableBit(t, s & m != 0, d & m != 0)
  {
    var a, b := if t.t11 then s & d else 0, if t.t10 then s & !d else 0;
    var e, f := if t.t01 then !s & d else 0, if t.t00 then !s & !d else 0;
    Minterms(t.t11, t.t10, t.t01, t.t00, s, d, m, a, b, e, f);
  }

  /** Every bit of the result is the table's answer for the source and destination bits there. */
  lemma RopByteBits(rop: nat, s: bv8, d: bv8, k: nat)
    ensures Bit(RopByte(rop, s, d), k) == TableBit(TableOf(rop), Bit(s, k), Bit(d, k))
  {
    hide Combine, TableOf, TableBit;
    CombineBits(TableOf(rop), s, d, Mask(k));
  }

  /** What chip_BlitRectNoMaskComplete computes per byte: five operations, and source copy for
      the other eleven. */
  function CodeByte(rop: nat, s: bv8, d: bv8): bv8 {
    if rop == CLEAR then 0
    else if rop == SET then 0xFF
    else if rop == DST_INVERT then d ^ 0xFF
    else if rop == SRC_XOR_DST then d ^ s
    else s
  }

  predicate Handled(rop: nat) {
    rop == SRC_COPY || rop == CLEAR || rop == SET || rop == DST_INVERT || rop == SRC_XOR_DST
  }

  /** The code computes the raster operation for exactly the five it handles. */
  lemma CodeByteIff(rop: nat)
    requires rop < 16
    ensures (forall s, d :: CodeByte(rop, s, d) == RopByte(rop, s, d))
            <==> rop == 12 || rop == 0 || rop == 15 || rop == 5 || rop == 6
    ensures !Handled(rop) ==> forall s, d :: CodeByte(rop, s, d) == s
  {
    assert CodeByte(rop, 0, 0) == RopByte(rop, 0, 0) && CodeByte(rop, 0, 0xFF) == RopByte(rop, 0, 0xFF)
           && CodeByte(rop, 0xFF, 0) == RopByte(rop, 0xFF, 0) && CodeByte(rop, 0xFF, 0xFF) == RopByte(rop, 0xFF, 0xFF)
           ==> Handled(rop);
    if Handled(rop) {
      forall s: bv8, d: bv8 ensures CodeByte(rop, s, d) == RopByte(rop, s, d) {
        HandledByte(rop, s, d);
      }
    }
  }

  lemma HandledByte(rop: nat, s: bv8, d: bv8)
    requires Handled(rop)
    ensures CodeByte(rop, s, d) == RopByte(rop, s, d)
  {
    hide Combine;
    if rop == SRC_COPY { CopyOp(s, d); }
    else if rop == CLEAR { ConstantOps(s, d); }
    else if rop == SET { ConstantOps(s, d); }
    else if rop == DST_INVERT { InvertOp(s, d); }
    else { XorOp(s, d); }
  }

  lemma CopyOp(s: bv8, d: bv8)
    ensures Combine(Table(true, true, false, false), s, d) == s
  {
  }

  lemma ConstantOps(s: bv8, d: bv8)
    ensures Combine(Table(false, false, false, false), s, d) == 0
    ensures Combine(Table(true, true, true, true), s, d) == 0xFF
  {
  }

  lemma InvertOp(s: bv8, d: bv8)
    ensures Combine(Table(false, true, false, true), s, d) == d ^ 0xFF
  {
  }

  lemma XorOp(s: bv8, d: bv8)
    ensures Combine(Table(false, true, true, false), s, d) == d ^ s
  {
  }

  /** Both encodings of the opcode: the operation itself, or in the high nibble of a byte. */
  function Rop(opcode: nat): nat {
    if opcode > 0x0F then opcode / 16 else opcode
  }

  // ------------------------------------------------------------------ rectangles

  /** Where row r starts, for a rectangle whose first byte is at o. */
  function RowAt(o: nat, stride: nat, r: nat): nat {
    o + r * stride
  }

  lemma RowsIncrease(o: nat, stride: nat, a: nat, b: nat)
    requires a < b
    ensures RowAt(o, stride, a) + stride <= RowAt(o, stride, b)
  {
    MulMonotone(a + 1, b, stride);
    assert (a + 1) * stride == a * stride + stride;
  }

  /** A rectangle of h rows of len bytes, starting at o, inside size bytes of memory. */
  datatype Rect = Rect(o: nat, stride: nat, len: nat, h: nat)

  predicate Inside(t: Rect, size: nat) {
    t.len <= t.stride && forall r :: 0 <= r < t.h ==> RowAt(t.o, t.stride, r) + t.len <= size
  }

  predicate InRow(t: Rect, r: nat, p: int) {
    RowAt(t.o, t.stride, r) <= p < RowAt(t.o, t.stride, r) + t.len
  }

  /** Row a of s and row b of d have no byte in common. */
  predicate RowsApart(s: Rect, a: nat, d: Rect, b: nat) {
    || RowAt(s.o, s.stride, a) + s.len <= RowAt(d.o, d.stride, b)
    || RowAt(d.o, d.stride, b) + d.len <= RowAt(s.o, s.stride, a)
  }

  /** Byte c of row r. */
  function ByteAt(m: seq<bv8>, t: Rect, r: nat, c: nat): bv8 {
    var p := RowAt(t.o, t.stride, r) + c;
    if p < |m| then m[p] else 0
  }

  /** Rows lo .. hi-1 of d have received the operation applied to the initial source and
      destination bytes; nothing else has changed. */
  ghost predicate Applied(m0: seq<bv8>, m: seq<bv8>, s: Rect, d: Rect, rop: nat, lo: nat, hi: nat) {
    && |m| == |m0| && Inside(s, |m0|) && Inside(d, |m0|) && s.len == d.len && s.h == d.h && lo <= hi <= d.h
    && (forall r, c :: lo <= r < hi && 0 <= c < d.len ==>
          ByteAt(m, d, r, c) == CodeByte(rop, ByteAt(m0, s, r, c), ByteAt(m0, d, r, c)))
    && (forall p :: 0 <= p < |m| && (forall r :: lo <= r < hi ==> !InRow(d, r, p)) ==> m[p] == m0[p])
  }

  /** Row r has received the operation; nothing else has changed. */
  ghost predicate RowApplied(m: seq<bv8>, m': seq<bv8>, s: Rect, d: Rect, rop: nat, r: nat) {
    && |m'| == |m|
    && (forall c :: 0 <= c < d.len ==> ByteAt(m', d, r, c) == CodeByte(rop, ByteAt(m, s, r, c), ByteAt(m, d, r, c)))
    && (forall p :: 0 <= p < |m| && !InRow(d, r, p) ==> m'[p] == m[p])
  }

  /** The operation ignores the source, or row r of the source is clear of the rows done. */
  ghost predicate SourceIntact(s: Rect, d: Rect, rop: nat, r: nat, lo: nat, hi: nat) {
    SourceUnused(rop) || forall q :: lo <= q < hi ==> RowsApart(s, r, d, q)
  }

  /** A byte of row r is in no other row of the same rectangle. */
  lemma OneRow(d: Rect, r: nat, q: nat, p: int)
    requires d.len <= d.stride && q != r && InRow(d, r, p)
    ensures !InRow(d, q, p)
  {
    if q < r { RowsIncrease(d.o, d.stride, q, r); } else { RowsIncrease(d.o, d.stride, r, q); }
  }

  /** What row r reads and overwrites is still as it was at the start. */
  lemma RowStillInitial(m0: seq<bv8>, m: seq<bv8>, s: Rect, d: Rect, rop: nat, lo: nat, hi: nat, r: nat, c: nat)
    requires Applied(m0, m, s, d, rop, lo, hi) && r < d.h && (r < lo || r >= hi) && c < d.len
    requires SourceIntact(s, d, rop, r, lo, hi)
    ensures CodeByte(rop, ByteAt(m, s, r, c), ByteAt(m, d, r, c))
            == CodeByte(rop, ByteAt(m0, s, r, c), ByteAt(m0, d, r, c))
  {
    hide RowAt;
    var sp, dp := RowAt(s.o, s.stride, r) + c, RowAt(d.o, d.stride, r) + c;
    forall q | lo <= q < hi ensures !InRow(d, q, dp) { OneRow(d, r, q, dp); }
    if !SourceUnused(rop) {
      forall q | lo <= q < hi ensures !InRow(d, q, sp) { assert RowsApart(s, r, d, q); }
    }
  }

  lemma RowJoins(m0: seq<bv8>, m: seq<bv8>, m': seq<bv8>, s: Rect, d: Rect, rop: nat, lo: nat, hi: nat, r: nat)
    requires Applied(m0, m, s, d, rop, lo, hi)
    requires r < d.h && (r == hi || r + 1 == lo)
    requires SourceIntact(s, d, rop, r, lo, hi)
    requires RowApplied(m, m', s, d, rop, r)
    ensures Applied(m0, m', s, d, rop, if r == hi then lo else r, if r == hi then r + 1 else hi)
  {
    hide RowAt, CodeByte, RowsApart, SourceIntact;
    var lo', hi' := if r == hi then lo else r, if r == hi then r + 1 else hi;
    forall q, c | lo' <= q < hi' && 0 <= c < d.len
      ensures ByteAt(m', d, q, c) == CodeByte(rop, ByteAt(m0, s, q, c), ByteAt(m0, d, q, c))
    {
      if q != r {
        OneRow(d, q, r, RowAt(d.o, d.stride, q) + c);
        assert ByteAt(m', d, q, c) == ByteAt(m, d, q, c);
      } else {
        RowStillInitial(m0, m, s, d, rop, lo, hi, r, c);
      }
    }
    forall p | 0 <= p < |m| && forall q :: lo' <= q < hi' ==> !InRow(d, q, p) ensures m'[p] == m0[p] {
      assert !InRow(d, r, p);
      assert forall q :: lo <= q < hi ==> !InRow(d, q, p);
    }
  }

  // ------------------------------------------------------------------ one row

  /** len bytes at d have received the operation from the len bytes at s; nothing else changed. */
  ghost predicate Moved(m: seq<bv8>, m': seq<bv8>, s: nat, d: nat, len: nat, rop: nat) {
    && |m'| == |m| && s + len <= |m| && d + len <= |m|
    && (forall p :: d <= p < d + len ==> m'[p] == CodeByte(rop, m[p - d + s], m[p]))
    && (forall p :: 0 <= p < |m| && !(d <= p < d + len) ==> m'[p] == m[p])
  }

  lemma SourceIgnored(rop: nat, x: bv8, y: bv8, d: bv8)
    requires SourceUnused(rop)
    ensures CodeByte(rop, x, d) == CodeByte(rop, y, d)
  {
  }

  /** One more byte at the upper end, read where nothing has been written yet. */
  lemma MovedUp(m: seq<bv8>, now: seq<bv8>, s: nat, d: nat, n: nat, rop: nat, v: bv8)
    requires Moved(m, now, s, d, n, rop) && s + n < |m| && d + n < |m|
    requires SourceUnused(rop) || d <= s || s + n < d
    requires v == CodeByte(rop, now[s + n], now[d + n])
    ensures Moved(m, now[d + n := v], s, d, n + 1, rop)
  {
    assert d + n - d + s == s + n;
  }

  /** One more byte at the lower end. */
  lemma MovedDown(m: seq<bv8>, now: seq<bv8>, s: nat, d: nat, n: nat, rop: nat, v: bv8)
    requires Moved(m, now, s + 1, d + 1, n, rop)
    requires s <= d
    requires v == CodeByte(rop, now[s], now[d])
    ensures Moved(m, now[d := v], s, d, n + 1, rop)
  {
    hide CodeByte;
    forall p | d <= p < d + n + 1
      ensures now[d := v][p] == CodeByte(rop, m[p - d + s], m[p])
    {
      assert p - (d + 1) + (s + 1) == p - d + s;
    }
  }

  predicate SourceUnused(rop: nat) {
    rop == CLEAR || rop == SET || rop == DST_INVERT
  }

  lemma MovedNone(m: seq<bv8>, s: nat, d: nat, len: nat, rop: nat)
    requires s + len <= |m| && d + len <= |m|
    ensures Moved(m, m, s, d, 0, rop) && Moved(m, m, s + len, d + len, 0, rop)
  {
  }

  function Four(m: seq<bv8>, t: nat, v0: bv8, v1: bv8, v2: bv8, v3: bv8): seq<bv8>
    requires t + 4 <= |m|
  {
    m[t := v0][t + 1 := v1][t + 2 := v2][t + 3 := v3]
  }

  /** What is read ahead of the bytes written is still initial, where it matters. */
  lemma ReadAhead(m: seq<bv8>, now: seq<bv8>, s: nat, d: nat, n: nat, rop: nat, k: nat)
    requires Moved(m, now, s, d, n, rop) && s + n + k < |m| && d + n + k < |m|
    requires SourceUnused(rop) || d <= s || s + n + k < d
    ensures CodeByte(rop, now[s + n + k], now[d + n + k]) == CodeByte(rop, m[s + n + k], m[d + n + k])
  {
    hide CodeByte;
    if SourceUnused(rop) { SourceIgnored(rop, now[s + n + k], m[s + n + k], m[d + n + k]); }
  }

  /** A word operation is four byte operations that read before they write. */
  lemma MovedWordUp(m: seq<bv8>, now: seq<bv8>, s: nat, d: nat, n: nat, rop: nat, v0: bv8, v1: bv8, v2: bv8, v3: bv8)
    requires Moved(m, now, s, d, n, rop) && s + n + 4 <= |m| && d + n + 4 <= |m|
    requires SourceUnused(rop) || d <= s || s + n + 4 <= d
    requires v0 == CodeByte(rop, now[s + n], now[d + n]) && v1 == CodeByte(rop, now[s + n + 1], now[d + n + 1])
    requires v2 == CodeByte(rop, now[s + n + 2], now[d + n + 2]) && v3 == CodeByte(rop, now[s + n + 3], now[d + n + 3])
    ensures Moved(m, Four(now, d + n, v0, v1, v2, v3), s, d, n + 4, rop)
  {
    hide CodeByte, Moved;
    MovedBounds(m, now, s, d, n, rop);
    ReadAhead(m, now, s, d, n, rop, 0);
    ReadAhead(m, now, s, d, n, rop, 1);
    ReadAhead(m, now, s, d, n, rop, 2);
    ReadAhead(m, now, s, d, n, rop, 3);
    MovedOne(m, now, s, d, n, rop, v0);
    var n1 := now[d + n := v0];
    MovedOne(m, n1, s, d, n + 1, rop, v1);
    var n2 := n1[d + n + 1 := v1];
    MovedOne(m, n2, s, d, n + 2, rop, v2);
    MovedOne(m, n2[d + n + 2 := v2], s, d, n + 3, rop, v3);
  }

  lemma MovedBounds(m: seq<bv8>, now: seq<bv8>, s: nat, d: nat, n: nat, rop: nat)
    requires Moved(m, now, s, d, n, rop)
    ensures |now| == |m| && s + n <= |m| && d + n <= |m|
  {
  }

  lemma MovedOne(m: seq<bv8>, now: seq<bv8>, s: nat, d: nat, n: nat, rop: nat, v: bv8)
    requires Moved(m, now, s, d, n, rop) && s + n < |m| && d + n < |m| && v == CodeByte(rop, m[s + n], m[d + n])
    ensures |now| == |m| && Moved(m, now[d + n := v], s, d, n + 1, rop)
  {
    hide CodeByte;
    assert d + n - d + s == s + n;
  }

  lemma MovedWordDown(m: seq<bv8>, now: seq<bv8>, s: nat, d: nat, n: nat, rop: nat, v0: bv8, v1: bv8, v2: bv8, v3: bv8)
    requires Moved(m, now, s + 4, d + 4, n, rop)
    requires s <= d
    requires v0 == CodeByte(rop, now[s], now[d]) && v1 == CodeByte(rop, now[s + 1], now[d + 1])
    requires v2 == CodeByte(rop, now[s + 2], now[d + 2]) && v3 == CodeByte(rop, now[s + 3], now[d + 3])
    ensures |now| == |m| && Moved(m, Four(now, d, v0, v1, v2, v3), s, d, n + 4, rop)
  {
    hide CodeByte, Moved;
    MovedBounds(m, now, s + 4, d + 4, n, rop);
    var n3 := now[d + 3 := v3];
    MovedDown(m, now, s + 3, d + 3, n, rop, v3);
    var n2 := n3[d + 2 := v2];
    MovedDown(m, n3, s + 2, d + 2, n + 1, rop, v2);
    var n1 := n2[d + 1 := v1];
    MovedDown(m, n2, s + 1, d + 1, n + 2, rop, v1);
    MovedDown(m, n1, s, d, n + 3, rop, v0);
    assert Four(now, d, v0, v1, v2, v3) == n1[d := v0];
  }

  /** A 32-bit store, as the four bytes it covers. */
  method StoreWord(mem: array<bv8>, t: nat, v0: bv8, v1: bv8, v2: bv8, v3: bv8)
    requires t + 4 <= mem.Length
    modifies mem
    ensures mem[..] == Four(old(mem[..]), t, v0, v1, v2, v3)
  {
    mem[t], mem[t + 1], mem[t + 2], mem[t + 3] := v0, v1, v2, v3;
  }

  lemma MovedIsRow(m: seq<bv8>, m': seq<bv8>, s: Rect, d: Rect, rop: nat, r: nat)
    requires s.len == d.len
    requires Moved(m, m', RowAt(s.o, s.stride, r), RowAt(d.o, d.stride, r), d.len, rop)
    ensures RowApplied(m, m', s, d, rop, r)
  {
    hide RowAt, CodeByte;
    var sr, dr := RowAt(s.o, s.stride, r), RowAt(d.o, d.stride, r);
    forall c | 0 <= c < d.len
      ensures ByteAt(m', d, r, c) == CodeByte(rop, ByteAt(m, s, r, c), ByteAt(m, d, r, c))
    {
      var p := dr + c;
      assert p - dr + sr == sr + c;
      assert m'[p] == CodeByte(rop, m[p - dr + sr], m[p]);
    }
  }

  // ---------------------------------------------------------------- an xor that reads what it wrote

  /** len bytes at d, above s, have been xored from the bottom up: each with its source byte as that
      is in the end. Nothing else changed. */
  ghost predicate Running(m: seq<bv8>, m': seq<bv8>, s: nat, d: nat, len: nat) {
    && |m'| == |m| && s < d && d + len <= |m|
    && (forall p :: d <= p < d + len ==> m'[p] == m[p] ^ m'[p - d + s])
    && (forall p :: 0 <= p < |m| && !(d <= p < d + len) ==> m'[p] == m[p])
  }

  lemma RunningNone(m: seq<bv8>, s: nat, d: nat)
    requires s < d <= |m|
    ensures Running(m, m, s, d, 0)
  {
  }

  lemma RunningUp(m: seq<bv8>, now: seq<bv8>, s: nat, d: nat, n: nat, v: bv8)
    requires Running(m, now, s, d, n) && d + n < |m| && v == now[d + n] ^ now[s + n]
    ensures |now| == |m| && Running(m, now[d + n := v], s, d, n + 1)
  {
    assert d + n - d + s == s + n;
  }

  lemma RunningWordUp(m: seq<bv8>, now: seq<bv8>, s: nat, d: nat, n: nat, v0: bv8, v1: bv8, v2: bv8, v3: bv8)
    requires Running(m, now, s, d, n) && d + n + 4 <= |m| && s + 4 <= d
    requires v0 == now[d + n] ^ now[s + n] && v1 == now[d + n + 1] ^ now[s + n + 1]
    requires v2 == now[d + n + 2] ^ now[s + n + 2] && v3 == now[d + n + 3] ^ now[s + n + 3]
    ensures |now| == |m| && Running(m, Four(now, d + n, v0, v1, v2, v3), s, d, n + 4)
  {
    hide Running;
    RunningLength(m, now, s, d, n);
    RunningUp(m, now, s, d, n, v0);
    var n1 := now[d + n := v0];
    RunningUp(m, n1, s, d, n + 1, v1);
    var n2 := n1[d + n + 1 := v1];
    RunningUp(m, n2, s, d, n + 2, v2);
    RunningUp(m, n2[d + n + 2 := v2], s, d, n + 3, v3);
  }

  lemma RunningLength(m: seq<bv8>, now: seq<bv8>, s: nat, d: nat, n: nat)
    requires Running(m, now, s, d, n)
    ensures |now| == |m| && s < d
  {
  }

  // ---------------------------------------------------------------- the row loops

  /** exec's CopyMem and CopyMemQuick, which promise nothing for overlapping ranges; one that is known
      to go upwards also copies down onto its own source. */
  method CopyMem(mem: array<bv8>, s: nat, d: nat, len: nat, ascending: bool)
    requires s + len <= mem.Length && d + len <= mem.Length
    requires s + len <= d || d + len <= s || (ascending && d <= s)
    modifies mem
    ensures Moved(old(mem[..]), mem[..], s, d, len, SRC_COPY)
  {
    ghost var m := mem[..];
    for i := 0 to len
      invariant Moved(m, mem[..], s, d, i, SRC_COPY)
    {
      ghost var now := mem[..];
      MovedUp(m, now, s, d, i, SRC_COPY, mem[s + i]);
      mem[d + i] := mem[s + i];
      assert mem[..] == now[d + i := now[s + i]];
    }
  }

  /** The pointers and the length are all multiples of 4. */
  predicate WordAligned(base: nat, s: nat, d: nat, len: nat) {
    (base + s) % 4 == 0 && (base + d) % 4 == 0 && len % 4 == 0
  }

  /** chip_lmemmove, or the byte loops beside it: upwards when d < s, else downwards. */
  method MoveRow(mem: array<bv8>, base: nat, s: nat, d: nat, len: nat)
    requires s + len <= mem.Length && d + len <= mem.Length
    modifies mem
    ensures Moved(old(mem[..]), mem[..], s, d, len, SRC_COPY)
  {
    hide Moved;
    ghost var m := mem[..];
    MovedNone(m, s, d, len, SRC_COPY);
    if WordAligned(base, s, d, len) {
      MoveWords(mem, s, d, len / 4, d < s);
    } else if d < s {
      for b := 0 to len
        invariant Moved(m, mem[..], s, d, b, SRC_COPY)
      {
        ghost var now := mem[..];
        MovedUp(m, now, s, d, b, SRC_COPY, mem[s + b]);
        mem[d + b] := mem[s + b];
        assert mem[..] == now[d + b := now[s + b]];
      }
    } else {
      for b := len downto 0
        invariant Moved(m, mem[..], s + b, d + b, len - b, SRC_COPY)
      {
        ghost var now := mem[..];
        MovedDown(m, now, s + b, d + b, len - b - 1, SRC_COPY, mem[s + b]);
        mem[d + b] := mem[s + b];
        assert mem[..] == now[d + b := now[s + b]];
      }
    }
  }

  method MoveWords(mem: array<bv8>, s: nat, d: nat, longs: nat, forward: bool)
    requires s + 4 * longs <= mem.Length && d + 4 * longs <= mem.Length
    requires forward == (d < s)
    modifies mem
    ensures Moved(old(mem[..]), mem[..], s, d, 4 * longs, SRC_COPY)
  {
    hide Moved, Four;
    ghost var m := mem[..];
    MovedNone(m, s, d, 4 * longs, SRC_COPY);
    if forward {
      for i := 0 to longs
        invariant Moved(m, mem[..], s, d, 4 * i, SRC_COPY)
      {
        var f, t := s + 4 * i, d + 4 * i;
        ghost var now := mem[..];
        MovedWordUp(m, now, s, d, 4 * i, SRC_COPY, mem[f], mem[f + 1], mem[f + 2], mem[f + 3]);
        StoreWord(mem, t, mem[f], mem[f + 1], mem[f + 2], mem[f + 3]);
      }
    } else {
      for i := longs downto 0
        invariant Moved(m, mem[..], s + 4 * i, d + 4 * i, 4 * (longs - i), SRC_COPY)
      {
        var f, t := s + 4 * i, d + 4 * i;
        ghost var now := mem[..];
        MovedWordDown(m, now, f, t, 4 * (longs - i - 1), SRC_COPY, mem[f], mem[f + 1], mem[f + 2], mem[f + 3]);
        StoreWord(mem, t, mem[f], mem[f + 1], mem[f + 2], mem[f + 3]);
      }
    }
  }

  /** The operation reads no source byte of the row that it has already written. */
  predicate Clear(s: nat, d: nat, len: nat, rop: nat) {
    rop == SRC_XOR_DST ==> d <= s || s + len <= d
  }

  /** The long-word part of a row. */
  method OperateWords(mem: array<bv8>, base: nat, s: nat, d: nat, longs: nat, rop: nat)
    requires s + 4 * longs <= mem.Length && d + 4 * longs <= mem.Length
    requires rop == CLEAR || rop == SET || rop == DST_INVERT || rop == SRC_XOR_DST
    requires (base + d) % 4 == 0 && (rop == SRC_XOR_DST ==> (base + s) % 4 == 0)
    modifies mem
    ensures Done(old(mem[..]), mem[..], s, d, 4 * longs, 4 * longs, rop)
  {
    hide CodeByte, Moved, Four, Running;
    ghost var m, clear, after := mem[..], Clear(s, d, 4 * longs, rop), rop == SRC_XOR_DST && s < d;
    MovedNone(m, s, d, 4 * longs, rop);
    if after { RunningNone(m, s, d); }
    for j := 0 to longs
      invariant clear ==> Moved(m, mem[..], s, d, 4 * j, rop)
      invariant after ==> Running(m, mem[..], s, d, 4 * j)
    {
      var f, t := s + 4 * j, d + 4 * j;
      ghost var now := mem[..];
      var v0, v1 := RowByte(rop, mem[f], mem[t]), RowByte(rop, mem[f + 1], mem[t + 1]);
      var v2, v3 := RowByte(rop, mem[f + 2], mem[t + 2]), RowByte(rop, mem[f + 3], mem[t + 3]);
      if clear { MovedWordUp(m, now, s, d, 4 * j, rop, v0, v1, v2, v3); }
      if after { RunningWordUp(m, now, s, d, 4 * j, v0, v1, v2, v3); }
      StoreWord(mem, t, v0, v1, v2, v3);
    }
  }

  /** The first n bytes of a row are done, of memory m. */
  ghost predicate Done(m: seq<bv8>, now: seq<bv8>, s: nat, d: nat, n: nat, len: nat, rop: nat) {
    && (Clear(s, d, len, rop) ==> Moved(m, now, s, d, n, rop))
    && (rop == SRC_XOR_DST && s < d ==> Running(m, now, s, d, n))
  }

  lemma DoneUp(m: seq<bv8>, now: seq<bv8>, s: nat, d: nat, n: nat, len: nat, rop: nat, v: bv8)
    requires Done(m, now, s, d, n, len, rop) && n < len && s + len <= |m| && d + len <= |m| == |now|
    requires v == CodeByte(rop, now[s + n], now[d + n]) && (rop == SRC_XOR_DST ==> v == now[d + n] ^ now[s + n])
    requires SourceUnused(rop) || rop == SRC_XOR_DST
    ensures Done(m, now[d + n := v], s, d, n + 1, len, rop)
  {
    hide Moved, Running, CodeByte;
    if Clear(s, d, len, rop) { MovedUp(m, now, s, d, n, rop, v); }
    if rop == SRC_XOR_DST && s < d { RunningUp(m, now, s, d, n, v); }
  }

  lemma NoneDone(m: seq<bv8>, s: nat, d: nat, len: nat, rop: nat)
    requires s + len <= |m| && d + len <= |m|
    ensures Done(m, m, s, d, 0, len, rop)
  {
    MovedNone(m, s, d, len, rop);
    if s < d { RunningNone(m, s, d); }
  }

  /** The row loops of chip_lfill, chip_xor_rect_with_const and chip_xor_rect_with_src: whole
      words when the pointers are aligned, then the tail byte by byte. */
  method OperateRow(mem: array<bv8>, base: nat, s: nat, d: nat, len: nat, rop: nat)
    requires s + len <= mem.Length && d + len <= mem.Length
    requires rop == CLEAR || rop == SET || rop == DST_INVERT || rop == SRC_XOR_DST
    modifies mem
    ensures Done(old(mem[..]), mem[..], s, d, len, len, rop)
  {
    hide CodeByte, Done, RowByte;
    ghost var m := mem[..];
    NoneDone(m, s, d, len, rop);
    var i := 0;
    if (base + d) % 4 == 0 && (rop == SRC_XOR_DST ==> (base + s) % 4 == 0) {
      var longs := len / 4;
      OperateWords(mem, base, s, d, longs, rop);
      i := 4 * longs;
      WordsDone(m, mem[..], s, d, i, len, rop);
    }
    while i < len
      invariant i <= len && Done(m, mem[..], s, d, i, len, rop)
    {
      ghost var now := mem[..];
      var v := RowByte(rop, mem[s + i], mem[d + i]);
      DoneUp(m, now, s, d, i, len, rop, v);
      mem[d + i] := v;
      assert mem[..] == now[d + i := v];
      i := i + 1;
    }
  }

  lemma WordsDone(m: seq<bv8>, now: seq<bv8>, s: nat, d: nat, n: nat, len: nat, rop: nat)
    requires n <= len && Done(m, now, s, d, n, n, rop)
    ensures Done(m, now, s, d, n, len, rop)
  {
  }

  /** What the inner statement of each row loop stores. */
  function RowByte(rop: nat, s: bv8, d: bv8): (v: bv8)
    requires rop == CLEAR || rop == SET || rop == DST_INVERT || rop == SRC_XOR_DST
    ensures v == CodeByte(rop, s, d)
    ensures rop != SRC_XOR_DST ==> forall x :: v == CodeByte(rop, x, d)
    ensures rop == SRC_XOR_DST ==> v == d ^ s
  {
    if rop == CLEAR then 0x00 else if rop == SET then 0xFF else if rop == DST_INVERT then d ^ 0xFF else d ^ s
  }

  // ------------------------------------------------------------------ rectangles of one bitmap

  /** A rectangle of h rows of len bytes whose first byte is byte xb of row y of a bitmap. */
  function InBitmap(memory: nat, stride: nat, xb: nat, y: nat, len: nat, h: nat): Rect {
    Rect(memory + y * stride + xb, stride, len, h)
  }

  lemma RowInBitmap(memory: nat, stride: nat, xb: nat, y: nat, len: nat, h: nat, r: nat)
    ensures RowAt(InBitmap(memory, stride, xb, y, len, h).o, stride, r) == RowAt(memory, stride, y + r) + xb
  {
    assert (y + r) * stride == y * stride + r * stride;
  }

  /** Rows of two rectangles of one bitmap that lie on different lines are apart. */
  lemma LinesApart(memory: nat, stride: nat, xb: nat, y: nat, dxb: nat, dy: nat, len: nat, h: nat, a: nat, b: nat)
    requires xb + len <= stride && dxb + len <= stride && y + a != dy + b
    ensures RowsApart(InBitmap(memory, stride, xb, y, len, h), a, InBitmap(memory, stride, dxb, dy, len, h), b)
  {
    RowInBitmap(memory, stride, xb, y, len, h, a);
    RowInBitmap(memory, stride, dxb, dy, len, h, b);
    if y + a < dy + b {
      RowsIncrease(memory, stride, y + a, dy + b);
    } else {
      RowsIncrease(memory, stride, dy + b, y + a);
    }
  }

  /** Rows of s and d may be processed from the top down: no row of s is overwritten before it is read. */
  ghost predicate SafeDownwards(s: Rect, d: Rect) {
    forall a, b :: 0 <= b < a < d.h ==> RowsApart(s, a, d, b)
  }

  ghost predicate SafeUpwards(s: Rect, d: Rect) {
    forall a, b :: 0 <= a < b < d.h ==> RowsApart(s, a, d, b)
  }

  ghost predicate SameRowsApart(s: Rect, d: Rect) {
    forall a :: 0 <= a < d.h ==> RowsApart(s, a, d, a)
  }

  lemma NothingApplied(m: seq<bv8>, s: Rect, d: Rect, rop: nat, k: nat)
    requires Inside(s, |m|) && Inside(d, |m|) && s.len == d.len && s.h == d.h && k <= d.h
    ensures Applied(m, m, s, d, rop, k, k)
  {
  }

  /** The two rectangles fit in memory and have the same shape. */
  predicate Alike(s: Rect, d: Rect, size: nat) {
    Inside(s, size) && Inside(d, size) && s.len == d.len && s.h == d.h
  }

  /** Each row is at or below the address of its source. */
  predicate Below(s: Rect, d: Rect) {
    s.stride == d.stride && d.o <= s.o
  }

  /** chip_copy_rect. */
  method CopyRect(mem: array<bv8>, s: Rect, d: Rect, ascending: bool)
    requires Alike(s, d, mem.Length) && SafeDownwards(s, d) && (SameRowsApart(s, d) || (ascending && Below(s, d)))
    modifies mem
    ensures Applied(old(mem[..]), mem[..], s, d, SRC_COPY, 0, d.h)
  {
    hide Applied, Moved, RowApplied, CodeByte, RowAt;
    ghost var m := mem[..];
    NothingApplied(m, s, d, SRC_COPY, 0);
    for r := 0 to d.h
      invariant Applied(m, mem[..], s, d, SRC_COPY, 0, r)
    {
      ghost var now := mem[..];
      if SameRowsApart(s, d) { assert RowsApart(s, r, d, r); } else { RowBelow(s, d, r); }
      CopyMem(mem, RowAt(s.o, s.stride, r), RowAt(d.o, d.stride, r), d.len, ascending);
      MovedIsRow(now, mem[..], s, d, SRC_COPY, r);
      RowJoins(m, now, mem[..], s, d, SRC_COPY, 0, r, r);
    }
  }

  /** Rows from the last to the first, each moved in the direction its pointers ask for. */
  method CopyRectUpwards(mem: array<bv8>, base: nat, s: Rect, d: Rect)
    requires Alike(s, d, mem.Length) && SafeUpwards(s, d)
    modifies mem
    ensures Applied(old(mem[..]), mem[..], s, d, SRC_COPY, 0, d.h)
  {
    hide Applied, Moved, RowApplied, CodeByte, RowAt;
    ghost var m := mem[..];
    NothingApplied(m, s, d, SRC_COPY, d.h);
    for r := d.h downto 0
      invariant Applied(m, mem[..], s, d, SRC_COPY, r, d.h)
    {
      ghost var now := mem[..];
      MoveRow(mem, base, RowAt(s.o, s.stride, r), RowAt(d.o, d.stride, r), d.len);
      MovedIsRow(now, mem[..], s, d, SRC_COPY, r);
      RowJoins(m, now, mem[..], s, d, SRC_COPY, r + 1, d.h, r);
    }
  }

  /** The dy == y loop of chip_BlitRect. */
  method CopyRectSameRows(mem: array<bv8>, base: nat, s: Rect, d: Rect)
    requires Alike(s, d, mem.Length) && SafeDownwards(s, d)
    modifies mem
    ensures Applied(old(mem[..]), mem[..], s, d, SRC_COPY, 0, d.h)
  {
    hide Applied, Moved, RowApplied, CodeByte, RowAt;
    ghost var m := mem[..];
    NothingApplied(m, s, d, SRC_COPY, 0);
    for r := 0 to d.h
      invariant Applied(m, mem[..], s, d, SRC_COPY, 0, r)
    {
      ghost var now := mem[..];
      MoveRow(mem, base, RowAt(s.o, s.stride, r), RowAt(d.o, d.stride, r), d.len);
      MovedIsRow(now, mem[..], s, d, SRC_COPY, r);
      RowJoins(m, now, mem[..], s, d, SRC_COPY, 0, r, r);
    }
  }

  lemma RowBelow(s: Rect, d: Rect, r: nat)
    requires s.stride == d.stride
    ensures RowAt(d.o, d.stride, r) - RowAt(s.o, s.stride, r) == d.o - s.o
  {
  }

  /** The first n rows of d, a rectangle that starts above s with the same stride, have been xored in
      order: each byte with its source byte as that is in the end. Nothing else changed. */
  ghost predicate RectRunning(m0: seq<bv8>, m: seq<bv8>, s: Rect, d: Rect, n: nat) {
    && |m| == |m0| && Inside(s, |m0|) && Inside(d, |m0|) && s.len == d.len && s.h == d.h && n <= d.h
    && s.stride == d.stride && s.o < d.o
    && (forall r, c :: 0 <= r < n && 0 <= c < d.len ==> ByteAt(m, d, r, c) == ByteAt(m0, d, r, c) ^ ByteAt(m, s, r, c))
    && (forall p :: 0 <= p < |m| && (forall r :: 0 <= r < n ==> !InRow(d, r, p)) ==> m[p] == m0[p])
  }

  lemma RectRunningNone(m: seq<bv8>, s: Rect, d: Rect)
    requires Alike(s, d, |m|) && s.stride == d.stride && s.o < d.o
    ensures RectRunning(m, m, s, d, 0)
  {
  }

  /** A source byte of an earlier row is below the row being done. */
  lemma SourceBelowRow(s: Rect, d: Rect, q: nat, c: nat, r: nat)
    requires s.stride == d.stride && s.o < d.o && d.len <= d.stride && q < r && c < d.len
    ensures !InRow(d, r, RowAt(s.o, s.stride, q) + c) && !InRow(d, r, RowAt(d.o, d.stride, q) + c)
  {
    RowsIncrease(d.o, d.stride, q, r);
    RowBelow(s, d, q);
  }

  /** An earlier row stays as it is. */
  lemma RunningKeeps(m0: seq<bv8>, m: seq<bv8>, m': seq<bv8>, s: Rect, d: Rect, r: nat, q: nat, c: nat)
    requires RectRunning(m0, m, s, d, r) && r < d.h && q < r && c < d.len
    requires Running(m, m', RowAt(s.o, s.stride, r), RowAt(d.o, d.stride, r), d.len)
    ensures ByteAt(m', d, q, c) == ByteAt(m0, d, q, c) ^ ByteAt(m', s, q, c)
  {
    hide RowAt;
    SourceBelowRow(s, d, q, c, r);
    assert ByteAt(m', d, q, c) == ByteAt(m, d, q, c) && ByteAt(m', s, q, c) == ByteAt(m, s, q, c);
  }

  lemma RunningRow(m0: seq<bv8>, m: seq<bv8>, m': seq<bv8>, s: Rect, d: Rect, r: nat, c: nat)
    requires RectRunning(m0, m, s, d, r) && r < d.h && c < d.len
    requires Running(m, m', RowAt(s.o, s.stride, r), RowAt(d.o, d.stride, r), d.len)
    ensures ByteAt(m', d, r, c) == ByteAt(m0, d, r, c) ^ ByteAt(m', s, r, c)
  {
    hide RowAt;
    var sr, dr := RowAt(s.o, s.stride, r), RowAt(d.o, d.stride, r);
    var p := dr + c;
    assert p - dr + sr == sr + c && m'[p] == m[p] ^ m'[p - dr + sr];
    forall k | 0 <= k < r ensures !InRow(d, k, p) { OneRow(d, r, k, p); }
    assert m[p] == m0[p];
  }

  lemma RunningJoins(m0: seq<bv8>, m: seq<bv8>, m': seq<bv8>, s: Rect, d: Rect, r: nat)
    requires RectRunning(m0, m, s, d, r) && r < d.h
    requires Running(m, m', RowAt(s.o, s.stride, r), RowAt(d.o, d.stride, r), d.len)
    ensures RectRunning(m0, m', s, d, r + 1)
  {
    hide RowAt, ByteAt, Inside;
    forall q, c | 0 <= q < r + 1 && 0 <= c < d.len
      ensures ByteAt(m', d, q, c) == ByteAt(m0, d, q, c) ^ ByteAt(m', s, q, c)
    {
      if q < r {
        RunningKeeps(m0, m, m', s, d, r, q, c);
      } else {
        RunningRow(m0, m, m', s, d, r, c);
      }
    }
    forall p | 0 <= p < |m'| && (forall k :: 0 <= k < r + 1 ==> !InRow(d, k, p)) ensures m'[p] == m0[p] {
      assert !InRow(d, r, p);
    }
  }

  /** The operation reads no source byte of the rectangle that it has already written. */
  ghost predicate RectClear(s: Rect, d: Rect, rop: nat) {
    rop == SRC_XOR_DST ==>
      && SafeDownwards(s, d)
      && forall r :: 0 <= r < d.h ==> RowAt(d.o, d.stride, r) <= RowAt(s.o, s.stride, r) || RowsApart(s, r, d, r)
  }

  /** chip_fill_rect_bytes with 0x00 or 0xFF, chip_xor_rect_with_const, chip_xor_rect_with_src. */
  method OperateRect(mem: array<bv8>, base: nat, s: Rect, d: Rect, rop: nat)
    requires Alike(s, d, mem.Length) && (SourceUnused(rop) || rop == SRC_XOR_DST)
    modifies mem
    ensures RectClear(s, d, rop) ==> Applied(old(mem[..]), mem[..], s, d, rop, 0, d.h)
    ensures rop == SRC_XOR_DST && s.stride == d.stride && s.o < d.o ==> RectRunning(old(mem[..]), mem[..], s, d, d.h)
  {
    hide Applied, Moved, RowApplied, CodeByte, RowAt, Running, RectRunning;
    ghost var m, clear := mem[..], RectClear(s, d, rop);
    ghost var after := rop == SRC_XOR_DST && s.stride == d.stride && s.o < d.o;
    NothingApplied(m, s, d, rop, 0);
    if after { RectRunningNone(m, s, d); }
    for r := 0 to d.h
      invariant clear ==> Applied(m, mem[..], s, d, rop, 0, r)
      invariant after ==> RectRunning(m, mem[..], s, d, r)
    {
      ghost var now := mem[..];
      OperateRow(mem, base, RowAt(s.o, s.stride, r), RowAt(d.o, d.stride, r), d.len, rop);
      if clear {
        MovedIsRow(now, mem[..], s, d, rop, r);
        RowJoins(m, now, mem[..], s, d, rop, 0, r, r);
      }
      if after {
        RowBelow(s, d, r);
        RunningJoins(m, now, mem[..], s, d, r);
      }
    }
  }

  /** What Applied says of every byte of memory. */
  lemma AppliedByte(m0: seq<bv8>, m: seq<bv8>, s: Rect, d: Rect, rop: nat, p: nat)
    requires Applied(m0, m, s, d, rop, 0, d.h) && p < |m|
    ensures p < |m0| && (Beside(p, d.o, d.stride, d.len, d.h) ==> m[p] == m0[p])
    ensures !Beside(p, d.o, d.stride, d.len, d.h) ==>
              var q := Counterpart(p, d.o, d.stride, s.o, s.stride);
              0 <= q < |m0| && m[p] == CodeByte(rop, m0[q], m0[p])
  {
    hide CodeByte, Beside;
    if Beside(p, d.o, d.stride, d.len, d.h) {
      forall r | 0 <= r < d.h ensures !InRow(d, r, p) { NotInRow(d, r, p); }
    } else {
      RowOfByte(p, d.o, d.stride, d.len, d.h);
      var r, k := (p - d.o) / d.stride, (p - d.o) % d.stride;
      MulMonotone(0, r, s.stride);
      assert RowAt(s.o, s.stride, r) + s.len <= |m0|;
      assert ByteAt(m, d, r, k) == CodeByte(rop, ByteAt(m0, s, r, k), ByteAt(m0, d, r, k));
    }
  }

  lemma NotInRow(d: Rect, r: nat, p: int)
    requires d.len <= d.stride && r < d.h && Beside(p, d.o, d.stride, d.len, d.h)
    ensures !InRow(d, r, p)
  {
    hide Beside;
    if InRow(d, r, p) { ByteOfRow(d.o, d.stride, d.len, d.h, r, p - RowAt(d.o, d.stride, r)); }
  }

  /** What RectRunning says of every byte of memory. */
  lemma RunningByte(m0: seq<bv8>, m: seq<bv8>, s: Rect, d: Rect, p: nat)
    requires RectRunning(m0, m, s, d, d.h) && p < |m|
    ensures p < |m0| && (Beside(p, d.o, d.stride, d.len, d.h) ==> m[p] == m0[p])
    ensures !Beside(p, d.o, d.stride, d.len, d.h) ==>
              0 <= p - d.o + s.o < p && m[p] == m0[p] ^ m[p - d.o + s.o]
  {
    hide Beside;
    if Beside(p, d.o, d.stride, d.len, d.h) {
      forall r | 0 <= r < d.h ensures !InRow(d, r, p) { NotInRow(d, r, p); }
    } else {
      RowOfByte(p, d.o, d.stride, d.len, d.h);
      var r, k := (p - d.o) / d.stride, (p - d.o) % d.stride;
      MulMonotone(0, r, s.stride);
      assert ByteAt(m, d, r, k) == ByteAt(m0, d, r, k) ^ ByteAt(m, s, r, k);
    }
  }

  /** A bitmap in board memory, as its RenderInfo describes it. */
  datatype Bitmap = Bitmap(memory: nat, bytesPerRow: nat)

  function RectOf(b: Bitmap, x: nat, y: nat, w: nat, h: nat, bpp: nat): Rect {
    InBitmap(b.memory, b.bytesPerRow, x * bpp, y, w * bpp, h)
  }

  /** The rectangle lies within the rows of the bitmap. */
  predicate Fits(b: Bitmap, x: nat, w: nat, bpp: nat) {
    x * bpp + w * bpp <= b.bytesPerRow
  }

  lemma SameBitmap(b: Bitmap, x: nat, y: nat, dx: nat, dy: nat, w: nat, h: nat, bpp: nat)
    requires Fits(b, x, w, bpp) && Fits(b, dx, w, bpp)
    ensures dy <= y ==> SafeDownwards(RectOf(b, x, y, w, h, bpp), RectOf(b, dx, dy, w, h, bpp))
    ensures dy >= y ==> SafeUpwards(RectOf(b, x, y, w, h, bpp), RectOf(b, dx, dy, w, h, bpp))
    ensures dy == y ==> SafeDownwards(RectOf(b, x, y, w, h, bpp), RectOf(b, dx, dy, w, h, bpp))
    ensures dy != y ==> SameRowsApart(RectOf(b, x, y, w, h, bpp), RectOf(b, dx, dy, w, h, bpp))
  {
    forall a: nat, c: nat | y + a != dy + c
      ensures RowsApart(RectOf(b, x, y, w, h, bpp), a, RectOf(b, dx, dy, w, h, bpp), c)
    {
      LinesApart(b.memory, b.bytesPerRow, x * bpp, y, dx * bpp, dy, w * bpp, h, a, c);
    }
  }

  /** chip_BlitRect: for every overlap of the two rectangles the result is that of a
      simultaneous copy, and no byte outside the destination changes. */
  method BlitRect(mem: array<bv8>, base: nat, b: Bitmap, x: nat, y: nat, dx: nat, dy: nat, w: nat, h: nat, bpp: nat)
    requires Fits(b, x, w, bpp) && Fits(b, dx, w, bpp)
    requires Inside(RectOf(b, x, y, w, h, bpp), mem.Length) && Inside(RectOf(b, dx, dy, w, h, bpp), mem.Length)
    modifies mem
    ensures var from, to := b.memory + y * b.bytesPerRow + x * bpp, b.memory + dy * b.bytesPerRow + dx * bpp;
            && (forall p :: 0 <= p < mem.Length && Beside(p, to, b.bytesPerRow, w * bpp, h) ==> mem[p] == old(mem[p]))
            && (forall p :: 0 <= p < mem.Length && !Beside(p, to, b.bytesPerRow, w * bpp, h) ==>
                  0 <= p - to + from < mem.Length && mem[p] == old(mem[p - to + from]))
  {
    hide Beside, Applied, SafeDownwards, SafeUpwards, SameRowsApart, Inside, Fits;
    var s, d := RectOf(b, x, y, w, h, bpp), RectOf(b, dx, dy, w, h, bpp);
    ghost var m := mem[..];
    SameBitmap(b, x, y, dx, dy, w, h, bpp);
    if w == 0 || h == 0 {
      NothingToDo(m, s, d, SRC_COPY);
    } else if dy < y {
      CopyRect(mem, s, d, false);
    } else if dy > y {
      CopyRectUpwards(mem, base, s, d);
    } else {
      CopyRectSameRows(mem, base, s, d);
    }
    CopiedBytes(m, mem[..], s, d);
    assert forall p :: 0 <= p < mem.Length ==> mem[p] == mem[..][p];
  }

  lemma CopiedBytes(m0: seq<bv8>, m: seq<bv8>, s: Rect, d: Rect)
    requires Applied(m0, m, s, d, SRC_COPY, 0, d.h) && s.stride == d.stride
    ensures |m| == |m0|
    ensures forall p :: 0 <= p < |m| && Beside(p, d.o, d.stride, d.len, d.h) ==> m[p] == m0[p]
    ensures forall p :: 0 <= p < |m| && !Beside(p, d.o, d.stride, d.len, d.h) ==>
              0 <= p - d.o + s.o < |m| && m[p] == m0[p - d.o + s.o]
  {
    hide Beside, Applied;
    AppliedLength(m0, m, s, d, SRC_COPY);
    forall p | 0 <= p < |m| && Beside(p, d.o, d.stride, d.len, d.h) ensures m[p] == m0[p] {
      CopiedByte(m0, m, s, d, p);
    }
    forall p | 0 <= p < |m| && !Beside(p, d.o, d.stride, d.len, d.h)
      ensures 0 <= p - d.o + s.o < |m| && m[p] == m0[p - d.o + s.o]
    {
      CopiedByte(m0, m, s, d, p);
    }
  }

  lemma CopiedByte(m0: seq<bv8>, m: seq<bv8>, s: Rect, d: Rect, p: nat)
    requires Applied(m0, m, s, d, SRC_COPY, 0, d.h) && s.stride == d.stride && p < |m|
    ensures p < |m0|
    ensures if Beside(p, d.o, d.stride, d.len, d.h) then m[p] == m0[p]
            else 0 <= p - d.o + s.o < |m0| && m[p] == m0[p - d.o + s.o]
  {
    hide Applied;
    AppliedByte(m0, m, s, d, SRC_COPY, p);
    if !Beside(p, d.o, d.stride, d.len, d.h) {
      RowOfByte(p, d.o, d.stride, d.len, d.h);
      assert s.o + (p - d.o) / d.stride * s.stride + (p - d.o) % d.stride == p - d.o + s.o;
    }
  }

  lemma AppliedLength(m0: seq<bv8>, m: seq<bv8>, s: Rect, d: Rect, rop: nat)
    requires Applied(m0, m, s, d, rop, 0, d.h)
    ensures |m| == |m0|
  {
  }

  lemma NothingToDo(m: seq<bv8>, s: Rect, d: Rect, rop: nat)
    requires Alike(s, d, |m|) && (d.len == 0 || d.h == 0)
    ensures Applied(m, m, s, d, rop, 0, d.h)
  {
  }

  /** No row of one rectangle meets any row of the other. */
  ghost predicate Disjoint(s: Rect, d: Rect) {
    forall a, b :: 0 <= a < s.h && 0 <= b < d.h ==> RowsApart(s, a, d, b)
  }

  /** Which rectangles the operation is asked for: two bitmaps do not overlap unless they are the same
      one; and within one bitmap a copy to the left along its own lines, which is left to CopyMem, does
      not overlap its source unless CopyMem is known to go upwards. */
  ghost predicate Acceptable(src: Bitmap, dst: Bitmap, s: Rect, d: Rect, x: nat, y: nat, dx: nat, dy: nat, rop: nat,
                             ascending: bool) {
    || Disjoint(s, d) || SourceUnused(rop)
    || (src == dst && (rop == SRC_XOR_DST || ascending || dy != y || dx > x))
  }

  /** In one bitmap the destination starts at or before its source. */
  predicate Earlier(x: nat, y: nat, dx: nat, dy: nat) {
    dy < y || (dy == y && dx <= x)
  }

  /** Byte by byte of memory: what operation code makes of w by h pixels of dst at (dx, dy) from those of
      src at (x, y). */
  ghost predicate BytesOperated(m0: seq<bv8>, m: seq<bv8>, src: Bitmap, dst: Bitmap, x: nat, y: nat, dx: nat, dy: nat,
                                w: nat, h: nat, bpp: nat, code: nat)
  {
    var from, to := src.memory + y * src.bytesPerRow + x * bpp, dst.memory + dy * dst.bytesPerRow + dx * bpp;
    && |m| == |m0|
    && (forall p :: 0 <= p < |m| && Beside(p, to, dst.bytesPerRow, w * bpp, h) ==> m[p] == m0[p])
    && (forall p :: 0 <= p < |m| && !Beside(p, to, dst.bytesPerRow, w * bpp, h) ==>
          var q := Counterpart(p, to, dst.bytesPerRow, from, src.bytesPerRow);
          0 <= q < |m| && m[p] == CodeByte(code, m0[q], m0[p]))
  }

  /** The same for an xor, row by row from the top, onto a later part of its own bitmap: each byte meets its
      source byte as that is in the end. */
  ghost predicate BytesRun(m0: seq<bv8>, m: seq<bv8>, b: Bitmap, x: nat, y: nat, dx: nat, dy: nat, w: nat, h: nat,
                           bpp: nat)
  {
    var from, to := b.memory + y * b.bytesPerRow + x * bpp, b.memory + dy * b.bytesPerRow + dx * bpp;
    && |m| == |m0|
    && (forall p :: 0 <= p < |m| && Beside(p, to, b.bytesPerRow, w * bpp, h) ==> m[p] == m0[p])
    && (forall p :: 0 <= p < |m| && !Beside(p, to, b.bytesPerRow, w * bpp, h) ==>
          0 <= p - to + from < p && m[p] == m0[p] ^ m[p - to + from])
  }

  /** chip_BlitRectNoMaskComplete: every destination byte gets the operation applied to the
      initial source and destination bytes, and nothing else changes; except that an xor onto a later
      part of the same bitmap reads what it has written, as RectRunning says. */
  method BlitRectNoMaskComplete(mem: array<bv8>, base: nat, src: Bitmap, dst: Bitmap, ascending: bool,
                                x: nat, y: nat, dx: nat, dy: nat, w: nat, h: nat, opcode: nat, bpp: nat)
    requires Fits(src, x, w, bpp) && Fits(dst, dx, w, bpp) && opcode < 256 && bpp > 0
    requires Inside(RectOf(src, x, y, w, h, bpp), mem.Length) && Inside(RectOf(dst, dx, dy, w, h, bpp), mem.Length)
    requires src.memory == dst.memory ==> src == dst
    requires Acceptable(src, dst, RectOf(src, x, y, w, h, bpp), RectOf(dst, dx, dy, w, h, bpp),
                        x, y, dx, dy, Rop(opcode), ascending)
    modifies mem
    ensures var s, d := RectOf(src, x, y, w, h, bpp), RectOf(dst, dx, dy, w, h, bpp);
            Rop(opcode) != SRC_XOR_DST || Disjoint(s, d) || Earlier(x, y, dx, dy)
            ==> Applied(old(mem[..]), mem[..], s, d, Rop(opcode), 0, h)
    ensures var s, d := RectOf(src, x, y, w, h, bpp), RectOf(dst, dx, dy, w, h, bpp);
            Rop(opcode) == SRC_XOR_DST && src == dst && !Earlier(x, y, dx, dy) && w > 0 && h > 0
            ==> RectRunning(old(mem[..]), mem[..], s, d, h)
    ensures var code := if opcode < 16 then opcode else opcode / 16;
            code != 6 || Disjoint(RectOf(src, x, y, w, h, bpp), RectOf(dst, dx, dy, w, h, bpp)) || dy < y
            || (dy == y && dx <= x) ==>
              BytesOperated(old(mem[..]), mem[..], src, dst, x, y, dx, dy, w, h, bpp, code)
    ensures var code := if opcode < 16 then opcode else opcode / 16;
            code == 6 && src == dst && (dy > y || (dy == y && dx > x)) && w > 0 && h > 0 ==>
              BytesRun(old(mem[..]), mem[..], src, x, y, dx, dy, w, h, bpp)
  {
    hide Applied, RowAt, RectRunning, RectClear, Inside, Fits, BytesOperated, BytesRun;
    var s, d := RectOf(src, x, y, w, h, bpp), RectOf(dst, dx, dy, w, h, bpp);
    var rop := Rop(opcode);
    ghost var m := mem[..];
    if w == 0 || h == 0 {
      NothingToDo(m, s, d, rop);
      OperatedBytes(m, m, src, dst, x, y, dx, dy, w, h, bpp, rop);
      assert Disjoint(s, d) by { EmptyApart(s, d); }
      return;
    }
    if src == dst { SameBitmap(src, x, y, dx, dy, w, h, bpp); }
    var reverse := src.memory == dst.memory && (dy > y || (dy == y && dx > x));
    if SourceUnused(rop) || rop == SRC_XOR_DST {
      XorMayRun(src, dst, x, y, dx, dy, w, h, bpp, rop, ascending);
      OperateRect(mem, base, s, d, rop);
    } else {
      if !reverse {
        if dy == y && src == dst { LeftIsBelow(src, x, y, dx, w, h, bpp); }
        CopyRect(mem, s, d, ascending);
      } else {
        CopyRectUpwards(mem, base, s, d);
      }
      AppliedAsCopy(m, mem[..], s, d, rop, h);
    }
    if rop != SRC_XOR_DST || Disjoint(s, d) || Earlier(x, y, dx, dy) {
      OperatedBytes(m, mem[..], src, dst, x, y, dx, dy, w, h, bpp, rop);
    }
    if rop == SRC_XOR_DST && src == dst && !Earlier(x, y, dx, dy) {
      RunningBytes(m, mem[..], src, x, y, dx, dy, w, h, bpp);
    }
  }

  lemma EmptyApart(s: Rect, d: Rect)
    requires s.len == d.len == 0 || d.h == 0
    ensures Disjoint(s, d)
  {
  }

  lemma OperatedBytes(m0: seq<bv8>, m: seq<bv8>, src: Bitmap, dst: Bitmap, x: nat, y: nat, dx: nat, dy: nat,
                      w: nat, h: nat, bpp: nat, code: nat)
    requires Applied(m0, m, RectOf(src, x, y, w, h, bpp), RectOf(dst, dx, dy, w, h, bpp), code, 0, h)
    ensures BytesOperated(m0, m, src, dst, x, y, dx, dy, w, h, bpp, code)
  {
    hide Applied, CodeByte, Beside, Counterpart;
    var s, d := RectOf(src, x, y, w, h, bpp), RectOf(dst, dx, dy, w, h, bpp);
    AppliedLength(m0, m, s, d, code);
    forall p | 0 <= p < |m| && Beside(p, d.o, d.stride, d.len, h) ensures m[p] == m0[p] {
      AppliedByte(m0, m, s, d, code, p);
    }
    forall p | 0 <= p < |m| && !Beside(p, d.o, d.stride, d.len, h)
      ensures var q := Counterpart(p, d.o, d.stride, s.o, s.stride);
              0 <= q < |m| && m[p] == CodeByte(code, m0[q], m0[p])
    {
      AppliedByte(m0, m, s, d, code, p);
    }
  }

  lemma RunningBytes(m0: seq<bv8>, m: seq<bv8>, b: Bitmap, x: nat, y: nat, dx: nat, dy: nat, w: nat, h: nat, bpp: nat)
    requires RectRunning(m0, m, RectOf(b, x, y, w, h, bpp), RectOf(b, dx, dy, w, h, bpp), h)
    ensures BytesRun(m0, m, b, x, y, dx, dy, w, h, bpp)
  {
    hide RectRunning, Beside;
    var s, d := RectOf(b, x, y, w, h, bpp), RectOf(b, dx, dy, w, h, bpp);
    RectRunningLength(m0, m, s, d, h);
    forall p | 0 <= p < |m| && Beside(p, d.o, d.stride, d.len, h) ensures m[p] == m0[p] {
      RunningByte(m0, m, s, d, p);
    }
    forall p | 0 <= p < |m| && !Beside(p, d.o, d.stride, d.len, h)
      ensures 0 <= p - d.o + s.o < p && m[p] == m0[p] ^ m[p - d.o + s.o]
    {
      RunningByte(m0, m, s, d, p);
    }
  }

  lemma RectRunningLength(m0: seq<bv8>, m: seq<bv8>, s: Rect, d: Rect, n: nat)
    requires RectRunning(m0, m, s, d, n)
    ensures |m| == |m0|
  {
  }

  lemma LeftIsBelow(b: Bitmap, x: nat, y: nat, dx: nat, w: nat, h: nat, bpp: nat)
    ensures dx <= x ==> Below(RectOf(b, x, y, w, h, bpp), RectOf(b, dx, y, w, h, bpp))
  {
    if dx <= x { MulMonotone(dx, x, bpp); }
  }

  lemma XorMayRun(src: Bitmap, dst: Bitmap, x: nat, y: nat, dx: nat, dy: nat, w: nat, h: nat, bpp: nat, rop: nat,
                  ascending: bool)
    requires Fits(src, x, w, bpp) && Fits(dst, dx, w, bpp) && w > 0 && bpp > 0
    requires Acceptable(src, dst, RectOf(src, x, y, w, h, bpp), RectOf(dst, dx, dy, w, h, bpp),
                        x, y, dx, dy, rop, ascending)
    requires SourceUnused(rop) || rop == SRC_XOR_DST
    ensures var s, d := RectOf(src, x, y, w, h, bpp), RectOf(dst, dx, dy, w, h, bpp);
            && (rop != SRC_XOR_DST || Disjoint(s, d) || Earlier(x, y, dx, dy) ==> RectClear(s, d, rop))
            && (src == dst && !Earlier(x, y, dx, dy) ==> s.stride == d.stride && s.o < d.o)
  {
    var s, d := RectOf(src, x, y, w, h, bpp), RectOf(dst, dx, dy, w, h, bpp);
    if src == dst {
      SameBitmap(src, x, y, dx, dy, w, h, bpp);
      if dy == y && dx <= x { LeftIsBelow(src, x, y, dx, w, h, bpp); }
      if !Earlier(x, y, dx, dy) { LaterIsAbove(src, x, y, dx, dy, w, h, bpp); }
    }
  }

  lemma LaterIsAbove(b: Bitmap, x: nat, y: nat, dx: nat, dy: nat, w: nat, h: nat, bpp: nat)
    requires Fits(b, x, w, bpp) && w > 0 && bpp > 0 && !Earlier(x, y, dx, dy)
    ensures RectOf(b, x, y, w, h, bpp).o < RectOf(b, dx, dy, w, h, bpp).o
  {
    MulMonotone(1, w, bpp);
    if dy > y {
      RowsIncrease(b.memory, b.bytesPerRow, y, dy);
      MulMonotone(0, dx, bpp);
    } else {
      MulMonotone(x + 1, dx, bpp);
    }
  }

  lemma AppliedAsCopy(m: seq<bv8>, m': seq<bv8>, s: Rect, d: Rect, rop: nat, h: nat)
    requires Applied(m, m', s, d, SRC_COPY, 0, h) && !SourceUnused(rop) && rop != SRC_XOR_DST
    ensures Applied(m, m', s, d, rop, 0, h)
  {
  }
}
