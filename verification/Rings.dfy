/** Rings: arrays indexed by a running counter modulo their length. */
module Rings {
  import opened Arithmetic
  import opened MachineWords

  /** Queue sizes allowed by section 2.7 of VirtIO 1.2: powers of two up to 32768. */
  predicate RingSize(num: nat) {
    || num == 1 || num == 2 || num == 4 || num == 8 || num == 16 || num == 32
    || num == 64 || num == 128 || num == 256 || num == 512 || num == 1024 || num == 2048
    || num == 4096 || num == 8192 || num == 16384 || num == 32768
  }

  /** The slot of the i-th item from start in a ring of num slots. */
  function Slot(start: nat, i: nat, num: nat): (s: nat)
    requires num > 0
    ensures s < num
  {
    (start + i) % num
  }

  /** items lie in ring from position start on, wrapping round. */
  ghost predicate RingHolds<T>(ring: seq<T>, start: nat, items: seq<T>) {
    && |items| <= |ring|
    && forall i :: 0 <= i < |items| ==> ring[Slot(start, i, |ring|)] == items[i]
  }

  /** Two positions less than a ring apart are different slots. */
  lemma SlotsDiffer(start: nat, i: nat, j: nat, num: nat)
    requires i < j < i + num
    ensures Slot(start, i, num) != Slot(start, j, num)
  {
    var a, b := start + i, start + j;
    var qa, qb := a / num, b / num;
    assert a == qa * num + a % num && b == qb * num + b % num;
    if a % num == b % num {
      if qb <= qa {
        MulMonotone(qb, qa, num);
      } else {
        MulMonotone(qa + 1, qb, num);
      }
    }
  }

  /** Storing at the next slot overwrites no waiting item. */
  lemma RingPush<T>(ring: seq<T>, start: nat, items: seq<T>, x: T)
    requires |items| < |ring| && RingHolds(ring, start, items)
    ensures RingHolds(ring[Slot(start, |items|, |ring|) := x], start, items + [x])
  {
    forall i | 0 <= i < |items| ensures Slot(start, i, |ring|) != Slot(start, |items|, |ring|) {
      SlotsDiffer(start, i, |items|, |ring|);
    }
  }

  lemma RingPop<T>(ring: seq<T>, start: nat, items: seq<T>)
    requires items != [] && RingHolds(ring, start, items)
    ensures ring[start % |ring|] == items[0]
    ensures RingHolds(ring, start + 1, items[1..])
  {
    assert ring[Slot(start, 0, |ring|)] == items[0];
    forall i | 0 <= i < |items| - 1 ensures ring[Slot(start + 1, i, |ring|)] == items[1..][i] {
      assert ring[Slot(start, i + 1, |ring|)] == items[i + 1];
      assert start + (i + 1) == start + 1 + i;
    }
  }

  lemma SlotKept(n: nat, num: nat)
    requires num > 0 && TWO_16 % num == 0
    ensures (n % TWO_16) % num == n % num
  {
    var k, m := TWO_16 / num, n / TWO_16;
    assert n == m * TWO_16 + n % TWO_16 && TWO_16 == k * num;
    assert m * TWO_16 == (m * k) * num by { assert m * (k * num) == (m * k) * num; }
    ModOfMultiple(n % TWO_16, m * k, num);
  }

  /** A ring whose size does not divide 65536 jumps when the counter wraps. */
  lemma SlotJumps(num: nat)
    requires num > 0 && TWO_16 % num != 0
    ensures exists n: nat :: (n % TWO_16) % num != n % num
  {
    var n: nat := TWO_16;
    assert n % TWO_16 == 0;
    DivModUnique(0, num, 0, 0);
    assert (n % TWO_16) % num != n % num;
  }

  /** Cutting the running counter to 16 bits keeps every slot for exactly those sizes that
      divide 65536; a ring of any other size jumps to a wrong slot when the counter wraps. */
  lemma SlotAfterWrapIff(num: nat)
    requires num > 0
    ensures (forall n: nat :: (n % TWO_16) % num == n % num) <==> TWO_16 % num == 0
  {
    if TWO_16 % num == 0 {
      forall n: nat ensures (n % TWO_16) % num == n % num { SlotKept(n, num); }
    } else {
      SlotJumps(num);
    }
  }

  lemma SlotAfterWrap(n: nat, num: nat)
    requires RingSize(num)
    ensures (n % TWO_16) % num == n % num
  {
    assert TWO_16 % num == 0;
    SlotKept(n, num);
  }
}
