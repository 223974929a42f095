/** Fixed-width words as the big-endian PowerPC guest holds them, the bytes they
    occupy in memory, and the byte-order helpers of the vring. */
module MachineWords {
  import opened Arithmetic

  const TWO_8 := 0x100
  const TWO_16 := 0x1_0000
  const TWO_32 := 0x1_0000_0000
  const TWO_64 := 0x1_0000_0000_0000_0000

  type u8 = x: int | 0 <= x < TWO_8
  type u16 = x: int | 0 <= x < TWO_16
  type u32 = x: int | 0 <= x < TWO_32
  type u64 = x: int | 0 <= x < TWO_64

  /** 256 to the n: one more than the largest value of n bytes. */
  function Span(n: nat): (r: nat)
    ensures r > 0
  {
    if n == 0 then 1 else TWO_8 * Span(n - 1)
  }

  /** The n low bytes of v, least significant first. */
  function Bytes(v: nat, n: nat): (b: seq<u8>)
    ensures |b| == n
  {
    if n == 0 then [] else [v % TWO_8] + Bytes(v / TWO_8, n - 1)
  }

  /** The number a little-endian reader makes of bytes, lowest address first. */
  function Value(b: seq<u8>): (v: nat)
    ensures v < Span(|b|)
  {
    if b == [] then 0 else b[0] + TWO_8 * Value(b[1..])
  }

  function Reversed<T>(s: seq<T>): (r: seq<T>)
    ensures |r| == |s|
  {
    if s == [] then [] else Reversed(s[1..]) + [s[0]]
  }

  /** What a big-endian store of v leaves in n bytes of memory, lowest address first. */
  function BigEndian(v: nat, n: nat): (b: seq<u8>)
    ensures |b| == n
  {
    Reversed(Bytes(v, n))
  }

  /** __builtin_bswap of an n-byte word. */
  function Swap(v: nat, n: nat): (r: nat)
    ensures r < Span(n)
  {
    Value(BigEndian(v, n))
  }

  lemma Spans()
    ensures Span(2) == TWO_16 && Span(4) == TWO_32 && Span(8) == TWO_64
  {
    assert Span(4) == TWO_32;
    assert Span(6) == TWO_32 * TWO_16;
  }

  /** vr16, vr32 and vr64: a modern queue swaps, a legacy queue does not. */
  function Vr16(modern: bool, v: u16): u16 {
    Spans();
    if modern then Swap(v, 2) else v
  }

  function Vr32(modern: bool, v: u32): u32 {
    Spans();
    if modern then Swap(v, 4) else v
  }

  function Vr64(modern: bool, v: u64): u64 {
    Spans();
    if modern then Swap(v, 8) else v
  }

  lemma {:induction false} ValueOfBytes(v: nat, n: nat)
    requires v < Span(n)
    ensures Value(Bytes(v, n)) == v
  {
    if n > 0 {
      ValueOfBytes(v / TWO_8, n - 1);
      assert Bytes(v, n)[1..] == Bytes(v / TWO_8, n - 1);
    }
  }

  lemma {:induction false} BytesOfValue(b: seq<u8>)
    ensures Bytes(Value(b), |b|) == b
  {
    if b != [] {
      BytesOfValue(b[1..]);
    }
  }

  lemma {:induction false} ReversedConcat<T>(a: seq<T>, b: seq<T>)
    ensures Reversed(a + b) == Reversed(b) + Reversed(a)
  {
    if a == [] {
      assert a + b == b;
    } else {
      ReversedConcat(a[1..], b);
      assert (a + b)[1..] == a[1..] + b;
    }
  }

  lemma {:induction false} ReversedTwice<T>(s: seq<T>)
    ensures Reversed(Reversed(s)) == s
  {
    if s != [] {
      ReversedTwice(s[1..]);
      ReversedConcat(Reversed(s[1..]), [s[0]]);
      assert Reversed([s[0]]) == [s[0]];
    }
  }

  /** Swapping twice restores the word. */
  lemma SwapTwice(v: nat, n: nat)
    requires v < Span(n)
    ensures Swap(Swap(v, n), n) == v
  {
    BytesOfValue(BigEndian(v, n));
    ReversedTwice(Bytes(v, n));
    ValueOfBytes(v, n);
  }

  /** A little-endian device reads back the very number that the big-endian
      guest put through bswap before its store. */
  lemma DeviceReads(v: nat, n: nat)
    requires v < Span(n)
    ensures Value(BigEndian(Swap(v, n), n)) == v
  {
    SwapTwice(v, n);
  }

  /** Byte k counts multiples of 256 to the k. */
  lemma {:induction false} BytesWhere(v: nat, n: nat, k: nat)
    requires k < n
    ensures Bytes(v, n)[k] == v / Span(k) % TWO_8
  {
    if k > 0 {
      BytesWhere(v / TWO_8, n - 1, k - 1);
      DivTwice(v, Span(k - 1));
    }
  }

  lemma DivTwice(v: nat, s: nat)
    requires s > 0
    ensures v / TWO_8 / s == v / (TWO_8 * s)
  {
    var q := v / TWO_8;
    var a, b := q / s, q % s;
    assert q == a * s + b && a * (TWO_8 * s) == TWO_8 * (a * s);
    DivModUnique(v, TWO_8 * s, a, TWO_8 * b + v % TWO_8);
  }

  lemma {:induction false} ReversedAt<T>(s: seq<T>, k: nat)
    requires k < |s|
    ensures Reversed(s)[k] == s[|s| - 1 - k]
  {
    if k < |s| - 1 {
      ReversedAt(s[1..], k);
    }
  }

  /** A big-endian store puts the most significant byte first. */
  lemma MemoryOrder(v: nat, n: nat, k: nat)
    requires k < n
    ensures BigEndian(v, n)[k] == v / Span(n - 1 - k) % TWO_8
  {
    ReversedAt(Bytes(v, n), k);
    BytesWhere(v, n, n - 1 - k);
  }

  // ---------------------------------------------------------------- the device's side of a word

  /** What the device makes of the n bytes that a guest's store of w leaves in a queue: a modern device
      takes the lowest address as least significant, a legacy one as most significant. */
  function DeviceLoad(modern: bool, w: nat, n: nat): (v: nat)
    ensures v < Span(n)
  {
    Value(if modern then BigEndian(w, n) else Reversed(BigEndian(w, n)))
  }

  /** What the guest loads after the device has stored v: a modern device puts the least significant
      byte first. */
  function DeviceStore(modern: bool, v: nat, n: nat): (w: nat)
    ensures w < Span(n)
  {
    Value(Reversed(if modern then Bytes(v, n) else BigEndian(v, n)))
  }

  lemma Vr16Twice(modern: bool, v: u16)
    ensures Vr16(modern, Vr16(modern, v)) == v
  {
    Spans();
    SwapTwice(v, 2);
  }

  lemma Vr32Twice(modern: bool, v: u32)
    ensures Vr32(modern, Vr32(modern, v)) == v
  {
    Spans();
    SwapTwice(v, 4);
  }

  lemma Vr64Twice(modern: bool, v: u64)
    ensures Vr64(modern, Vr64(modern, v)) == v
  {
    Spans();
    SwapTwice(v, 8);
  }

  /** vr16 is the change of byte order between guest and device, both ways: what the guest has put
      through vr16 is read by the device as it was, and what the device stores is read by the guest,
      through vr16, as it was. */
  lemma Vr16Meets(modern: bool, v: u16)
    ensures DeviceLoad(modern, Vr16(modern, v), 2) == v && Vr16(modern, DeviceStore(modern, v, 2)) == v
    ensures DeviceLoad(modern, v, 2) == Vr16(modern, v) && DeviceStore(modern, v, 2) == Vr16(modern, v)
  {
    Spans();
    LoadedBack(v, 2);
    LoadedBack(Vr16(modern, v), 2);
    SwapTwice(v, 2);
    SwapStored(v, 2);
  }

  lemma Vr32Meets(modern: bool, v: u32)
    ensures DeviceLoad(modern, Vr32(modern, v), 4) == v && Vr32(modern, DeviceStore(modern, v, 4)) == v
    ensures DeviceLoad(modern, v, 4) == Vr32(modern, v) && DeviceStore(modern, v, 4) == Vr32(modern, v)
  {
    Spans();
    LoadedBack(v, 4);
    LoadedBack(Vr32(modern, v), 4);
    SwapTwice(v, 4);
    SwapStored(v, 4);
  }

  lemma Vr64Meets(modern: bool, v: u64)
    ensures DeviceLoad(modern, Vr64(modern, v), 8) == v && Vr64(modern, DeviceStore(modern, v, 8)) == v
    ensures DeviceLoad(modern, v, 8) == Vr64(modern, v) && DeviceStore(modern, v, 8) == Vr64(modern, v)
  {
    Spans();
    LoadedBack(v, 8);
    LoadedBack(Vr64(modern, v), 8);
    SwapTwice(v, 8);
    SwapStored(v, 8);
  }

  /** A device in the guest's own order loads and stores words as they are. */
  lemma LoadedBack(v: nat, n: nat)
    requires v < Span(n)
    ensures DeviceLoad(false, v, n) == v && DeviceStore(false, v, n) == v
    ensures DeviceLoad(true, v, n) == Swap(v, n)
  {
    ReversedTwice(Bytes(v, n));
    ValueOfBytes(v, n);
  }

  lemma SwapStored(v: nat, n: nat)
    ensures DeviceStore(true, v, n) == Swap(v, n)
  {
  }

  lemma Vr16OfZero(modern: bool)
    ensures Vr16(modern, 0) == 0
  {
    var b := Bytes(0, 2);
    assert b == [0, 0] by { assert Bytes(0, 1) == [0]; }
    assert Reversed(b) == b by { assert b[1..] == [0]; assert Reversed([0]) == [0]; }
    ValueOfBytes(0, 2);
  }
}
