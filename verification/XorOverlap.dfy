/** When an xor onto a later part of its own bitmap is right: RectRunning against the simultaneous
    operation. */
module XorOverlap {
  import opened Arithmetic
  import opened Blit

  lemma XorByte(s: bv8, d: bv8)
    ensures CodeByte(SRC_XOR_DST, s, d) == d ^ s
  {
  }

  lemma XorCancels(a: bv8, s: bv8, t: bv8)
    ensures a ^ s == a ^ t <==> s == t
  {
  }

  ghost predicate SourceKept(m0: seq<bv8>, m: seq<bv8>, s: Rect) {
    forall r, c :: 0 <= r < s.h && 0 <= c < s.len ==> ByteAt(m, s, r, c) == ByteAt(m0, s, r, c)
  }

  /** For given memory the result is that of the simultaneous xor exactly when no source byte has
      changed in the end. */
  lemma RunningIsAppliedIff(m0: seq<bv8>, m: seq<bv8>, s: Rect, d: Rect)
    requires RectRunning(m0, m, s, d, d.h)
    ensures Applied(m0, m, s, d, SRC_XOR_DST, 0, d.h) <==> SourceKept(m0, m, s)
  {
    hide CodeByte, ByteAt, InRow, Inside;
    if Applied(m0, m, s, d, SRC_XOR_DST, 0, d.h) {
      forall r, c | 0 <= r < s.h && 0 <= c < s.len ensures ByteAt(m, s, r, c) == ByteAt(m0, s, r, c) {
        XorByte(ByteAt(m0, s, r, c), ByteAt(m0, d, r, c));
        XorCancels(ByteAt(m0, d, r, c), ByteAt(m, s, r, c), ByteAt(m0, s, r, c));
      }
    }
    if SourceKept(m0, m, s) {
      forall r, c | 0 <= r < d.h && 0 <= c < d.len
        ensures ByteAt(m, d, r, c) == CodeByte(SRC_XOR_DST, ByteAt(m0, s, r, c), ByteAt(m0, d, r, c))
      {
        XorByte(ByteAt(m0, s, r, c), ByteAt(m0, d, r, c));
      }
    }
  }

  predicate InRect(d: Rect, p: int) {
    exists r: nat :: r < d.h && InRow(d, r, p)
  }

  /** s and d are rectangles of one bitmap of size bytes, d starting later. */
  predicate Later(s: Rect, d: Rect, size: nat) {
    Alike(s, d, size) && s.stride == d.stride && s.o < d.o
  }

  /** A byte of d has its source byte the same distance below it. */
  lemma SourceOf(s: Rect, d: Rect, size: nat, r: nat, p: int)
    requires Later(s, d, size) && r < d.h && InRow(d, r, p)
    ensures 0 <= p - (d.o - s.o) < p < size && InRow(s, r, p - (d.o - s.o))
  {
    RowBelow(s, d, r);
    MulMonotone(0, r, s.stride);
  }

  lemma SourceInside(s: Rect, d: Rect, size: nat, p: int)
    requires Later(s, d, size) && InRect(d, p)
    ensures 0 <= p - (d.o - s.o) < p < size
  {
    var r: nat :| r < d.h && InRow(d, r, p);
    SourceOf(s, d, size, r, p);
  }

  /** What the xor leaves at p of memory m0. */
  ghost function Final(m0: seq<bv8>, s: Rect, d: Rect, p: nat): bv8
    requires Later(s, d, |m0|) && p < |m0|
    decreases p
  {
    if InRect(d, p) then
      SourceInside(s, d, |m0|, p);
      m0[p] ^ Final(m0, s, d, p - (d.o - s.o))
    else m0[p]
  }

  ghost function FinalMemory(m0: seq<bv8>, s: Rect, d: Rect): (m: seq<bv8>)
    requires Later(s, d, |m0|)
    ensures |m| == |m0| && forall p :: 0 <= p < |m| ==> m[p] == Final(m0, s, d, p)
  {
    seq(|m0|, p requires 0 <= p < |m0| && Later(s, d, |m0|) => Final(m0, s, d, p))
  }

  lemma FinalRuns(m0: seq<bv8>, s: Rect, d: Rect)
    requires Later(s, d, |m0|)
    ensures RectRunning(m0, FinalMemory(m0, s, d), s, d, d.h)
  {
    hide Final, RowAt;
    var m := FinalMemory(m0, s, d);
    forall r, c | 0 <= r < d.h && 0 <= c < d.len
      ensures ByteAt(m, d, r, c) == ByteAt(m0, d, r, c) ^ ByteAt(m, s, r, c)
    {
      var p := RowAt(d.o, d.stride, r) + c;
      assert InRow(d, r, p);
      SourceOf(s, d, |m0|, r, p);
      RowBelow(s, d, r);
      FinalIn(m0, s, d, p);
    }
    forall p | 0 <= p < |m| && (forall r :: 0 <= r < d.h ==> !InRow(d, r, p)) ensures m[p] == m0[p] {
      FinalOut(m0, s, d, p);
    }
  }

  lemma FinalIn(m0: seq<bv8>, s: Rect, d: Rect, p: nat)
    requires Later(s, d, |m0|) && p < |m0| && InRect(d, p)
    ensures 0 <= p - (d.o - s.o) < p && Final(m0, s, d, p) == m0[p] ^ Final(m0, s, d, p - (d.o - s.o))
  {
    SourceInside(s, d, |m0|, p);
  }

  lemma FinalOut(m0: seq<bv8>, s: Rect, d: Rect, p: nat)
    requires Later(s, d, |m0|) && p < |m0| && !InRect(d, p)
    ensures Final(m0, s, d, p) == m0[p]
  {
  }

  /** Following sources back from p to a byte that the xor does not write. */
  ghost function Root(s: Rect, d: Rect, size: nat, p: nat): (x: nat)
    requires Later(s, d, size) && p < size
    ensures x < size && !InRect(d, x)
    decreases p
  {
    if InRect(d, p) then
      SourceInside(s, d, size, p);
      Root(s, d, size, p - (d.o - s.o))
    else p
  }

  /** Memory that is zero but for one byte that is 1. */
  function OneAt(size: nat, x: nat): (m: seq<bv8>)
    ensures |m| == size && forall p :: 0 <= p < size ==> m[p] == if p == x then 1 else 0
  {
    seq(size, p requires 0 <= p < size => if p == x then 1 else 0)
  }

  lemma {:induction false} OneSpreads(s: Rect, d: Rect, size: nat, x: nat, p: nat)
    requires Later(s, d, size) && p < size && x < size && !InRect(d, x)
    ensures Final(OneAt(size, x), s, d, p) == if Root(s, d, size, p) == x then 1 else 0
    decreases p
  {
    if InRect(d, p) {
      SourceInside(s, d, size, p);
      OneSpreads(s, d, size, x, p - (d.o - s.o));
      ZeroXor(Final(OneAt(size, x), s, d, p - (d.o - s.o)));
    }
  }

  lemma ZeroXor(v: bv8)
    ensures 0 ^ v == v
  {
  }

  /** Rows that are not apart share a byte. */
  lemma SharedByte(s: Rect, a: nat, d: Rect, b: nat) returns (p: int)
    requires !RowsApart(s, a, d, b) && s.len == d.len
    ensures InRow(s, a, p) && InRow(d, b, p)
  {
    var sr, dr := RowAt(s.o, s.stride, a), RowAt(d.o, d.stride, b);
    p := if sr < dr then dr else sr;
  }

  /** The xor of this memory goes wrong. */
  ghost predicate GoesWrong(m0: seq<bv8>, s: Rect, d: Rect)
    requires Later(s, d, |m0|)
  {
    !Applied(m0, FinalMemory(m0, s, d), s, d, SRC_XOR_DST, 0, d.h)
  }

  lemma OverlapGoesWrong(s: Rect, d: Rect, size: nat)
    requires Later(s, d, size) && !Disjoint(s, d)
    ensures exists m0: seq<bv8> :: |m0| == size && GoesWrong(m0, s, d)
  {
    var a: nat, b: nat :| a < s.h && b < d.h && !RowsApart(s, a, d, b);
    var p := SharedByte(s, a, d, b);
    assert InRect(d, p);
    SourceInside(s, d, size, p);
    var x := Root(s, d, size, p);
    var m0 := OneAt(size, x);
    OneSpreads(s, d, size, x, p);
    FinalRuns(m0, s, d);
    var m := FinalMemory(m0, s, d);
    assert m[p] == 1 && m0[p] == 0;
    var c := p - RowAt(s.o, s.stride, a);
    assert ByteAt(m, s, a, c) != ByteAt(m0, s, a, c);
    RunningIsAppliedIff(m0, m, s, d);
  }

  lemma DisjointIsRight(m0: seq<bv8>, m: seq<bv8>, s: Rect, d: Rect)
    requires Disjoint(s, d) && RectRunning(m0, m, s, d, d.h)
    ensures Applied(m0, m, s, d, SRC_XOR_DST, 0, d.h)
  {
    hide RowAt, CodeByte;
    forall r, c | 0 <= r < d.h && 0 <= c < d.len ensures ByteAt(m, s, r, c) == ByteAt(m0, s, r, c) {
      var p := RowAt(s.o, s.stride, r) + c;
      forall q | 0 <= q < d.h ensures !InRow(d, q, p) { assert RowsApart(s, r, d, q); }
    }
    RunningIsAppliedIff(m0, m, s, d);
  }

  /** An xor onto a later part of the same bitmap is right for all memory exactly when the two
      rectangles share no byte. */
  lemma XorRightIff(s: Rect, d: Rect, size: nat)
    requires Later(s, d, size)
    ensures (forall m0: seq<bv8>, m: seq<bv8> :: |m0| == size && RectRunning(m0, m, s, d, d.h) ==>
               Applied(m0, m, s, d, SRC_XOR_DST, 0, d.h))
            <==> Disjoint(s, d)
  {
    if Disjoint(s, d) {
      forall m0: seq<bv8>, m: seq<bv8> | |m0| == size && RectRunning(m0, m, s, d, d.h)
        ensures Applied(m0, m, s, d, SRC_XOR_DST, 0, d.h)
      {
        DisjointIsRight(m0, m, s, d);
      }
    } else {
      OverlapGoesWrong(s, d, size);
      var m0: seq<bv8> :| |m0| == size && GoesWrong(m0, s, d);
      FinalRuns(m0, s, d);
    }
  }
}
