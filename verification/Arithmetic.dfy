/** Facts about products, quotients and remainders, and about rows of bytes laid out by a stride. */
module Arithmetic {

  function Smaller(a: nat, b: nat): nat {
    if a < b then a else b
  }

  lemma MulMonotone(a: int, b: int, d: int)
    requires a <= b && 0 <= d
    ensures a * d <= b * d
  {
  }

  /** The quotient and remainder of Euclidean division are unique. */
  lemma DivModUnique(n: int, d: int, q: int, r: int)
    requires 0 <= r < d && n == q * d + r
    ensures n / d == q && n % d == r
  {
    var q' := n / d;
    if q' < q {
      MulMonotone(q' + 1, q, d);
    } else if q' > q {
      MulMonotone(q + 1, q', d);
    }
  }

  lemma ModOfMultiple(a: int, k: int, d: int)
    requires 0 < d
    ensures (a + k * d) % d == a % d
  {
    assert a == (a / d) * d + a % d;
    assert a + k * d == (a / d + k) * d + a % d;
    DivModUnique(a + k * d, d, a / d + k, a % d);
  }

  /** Byte p is in none of h rows of len bytes that start stride bytes apart, the first row at first. */
  predicate Beside(p: int, first: int, stride: nat, len: nat, h: nat) {
    stride == 0 || p < first || (p - first) / stride >= h || (p - first) % stride >= len
  }

  /** The byte at the same place of the same row of rows that start at from, sp bytes apart. */
  function Counterpart(p: int, first: int, stride: nat, from: int, sp: nat): int {
    if stride == 0 then from else from + (p - first) / stride * sp + (p - first) % stride
  }

  /** Byte k of row r: it is not beside the rows, and r and k can be told from its place. */
  lemma ByteOfRow(first: int, stride: nat, len: nat, h: nat, r: nat, k: nat)
    requires len <= stride && r < h && k < len
    ensures var p := first + r * stride + k;
            !Beside(p, first, stride, len, h) && (p - first) / stride == r && (p - first) % stride == k
  {
    MulMonotone(0, r, stride);
    DivModUnique(r * stride + k, stride, r, k);
  }

  /** Every byte not beside the rows is such a byte. */
  lemma RowOfByte(p: int, first: int, stride: nat, len: nat, h: nat)
    requires !Beside(p, first, stride, len, h)
    ensures var r, k := (p - first) / stride, (p - first) % stride;
            0 <= r < h && 0 <= k < len && p == first + r * stride + k
  {
  }
}
