/** The board-memory slot table as a value, and what allocation and freeing make of it. */
module BoardModel {
  import opened MachineWords
  import opened Results

  const MAX_BOARD_ALLOCS := 512
  const ALIGNMENT := 16

  datatype Slot = Slot(offset: u32, size: u32, used: bool)

  /** board_alloc's rounding in 32-bit arithmetic: (size + 15) & ~15, and 16 for nothing. */
  function RoundUp(size: u32): (n: u32)
    ensures n > 0 && n % ALIGNMENT == 0
  {
    var n := (size + 15) % TWO_32 / ALIGNMENT * ALIGNMENT;
    if n == 0 then 16 else n
  }

  /** What RoundUp makes of a size is the least multiple of 16 bytes that covers it, or 16 bytes for
      none; except within 15 bytes of 4 GB, where the sum wraps and the block is of 16 bytes. So a
      request is covered exactly when it is not that large. */
  lemma RoundUpCovers(size: u32, m: nat)
    ensures RoundUp(size) >= size <==> size <= 0xFFFF_FFF0
    ensures 0 < size <= 0xFFFF_FFF0 && m % 16 == 0 && m >= size ==> RoundUp(size) <= m
    ensures size == 0 || size > 0xFFFF_FFF0 ==> RoundUp(size) == 16
  {
  }

  function EndOf(x: Slot): nat {
    x.offset + x.size
  }

  function Top(s: seq<Slot>): nat {
    if s == [] then 0 else EndOf(s[|s| - 1])
  }

  /** Slots of positive multiples of 16 follow each other without a gap from offset from on. */
  ghost predicate TilingFrom(s: seq<Slot>, from: nat) {
    && (s != [] ==> s[0].offset == from)
    && (forall i :: 0 <= i < |s| ==> s[i].size > 0 && s[i].size % ALIGNMENT == 0)
    && (forall i :: 0 <= i < |s| - 1 ==> s[i + 1].offset == EndOf(s[i]))
  }

  ghost predicate NoTwoFree(s: seq<Slot>) {
    forall i :: 0 <= i < |s| - 1 ==> s[i].used || s[i + 1].used
  }

  ghost predicate LastUsed(s: seq<Slot>) {
    s != [] ==> s[|s| - 1].used
  }

  ghost predicate Compact(s: seq<Slot>, from: nat) {
    TilingFrom(s, from) && NoTwoFree(s) && LastUsed(s)
  }

  /** The invariant of board_allocs. */
  ghost predicate Board(s: seq<Slot>, memSize: nat) {
    Compact(s, 0) && |s| <= MAX_BOARD_ALLOCS && Top(s) <= memSize
  }

  /** The blocks handed out and not yet freed. */
  function Live(s: seq<Slot>): set<Slot> {
    set x | x in s && x.used
  }

  // ---------------------------------------------------------------- tilings

  lemma {:induction false} OffsetsGrow(s: seq<Slot>, from: nat, i: nat, j: nat)
    requires TilingFrom(s, from) && i <= j < |s|
    ensures from <= s[i].offset && (i < j ==> EndOf(s[i]) <= s[j].offset)
    ensures s[j].offset <= Top(s) - s[j].size
    decreases j
  {
    if i < j {
      OffsetsGrow(s, from, i, j - 1);
    } else if i > 0 {
      OffsetsGrow(s, from, i - 1, i - 1);
    }
    TopAbove(s, from, j);
  }

  lemma {:induction false} TopAbove(s: seq<Slot>, from: nat, j: nat)
    requires TilingFrom(s, from) && j < |s|
    ensures EndOf(s[j]) <= Top(s)
    decreases |s| - j
  {
    if j + 1 < |s| {
      TopAbove(s, from, j + 1);
    }
  }

  lemma {:induction false} OffsetsAligned(s: seq<Slot>, i: nat)
    requires TilingFrom(s, 0) && i < |s|
    ensures s[i].offset % ALIGNMENT == 0
  {
    if i > 0 {
      OffsetsAligned(s, i - 1);
    }
  }

  /** Live blocks are aligned, inside board memory, and do not overlap. */
  lemma LiveBlocksApart(s: seq<Slot>, memSize: nat, x: Slot, y: Slot)
    requires Board(s, memSize) && x in Live(s) && y in Live(s)
    ensures x.offset % ALIGNMENT == 0 && EndOf(x) <= memSize && x.size > 0
    ensures x == y || EndOf(x) <= y.offset || EndOf(y) <= x.offset
  {
    var i :| 0 <= i < |s| && s[i] == x;
    var j :| 0 <= j < |s| && s[j] == y;
    OffsetsAligned(s, i);
    TopAbove(s, 0, i);
    if i < j {
      OffsetsGrow(s, 0, i, j);
    } else if j < i {
      OffsetsGrow(s, 0, j, i);
    }
  }

  // ---------------------------------------------------------------- canonical form

  lemma LiveTail(s: seq<Slot>, from: nat)
    requires s != [] && TilingFrom(s, from)
    ensures Live(s[1..]) == Live(s) - {s[0]}
    ensures TilingFrom(s[1..], EndOf(s[0]))
    ensures NoTwoFree(s) ==> NoTwoFree(s[1..])
    ensures LastUsed(s) ==> LastUsed(s[1..])
  {
    forall x | x in s[1..] ensures x != s[0] {
      var j :| 0 <= j < |s[1..]| && s[1..][j] == x;
      OffsetsGrow(s, from, 0, j + 1);
    }
    assert s == [s[0]] + s[1..];
  }

  lemma SomeLive(s: seq<Slot>, from: nat)
    requires s != [] && Compact(s, from)
    ensures Live(s) != {}
  {
    assert s[|s| - 1] in Live(s);
  }

  /** A table is determined by its set of live blocks. */
  lemma {:induction false} CanonicalFrom(s: seq<Slot>, t: seq<Slot>, from: nat)
    requires Compact(s, from) && Compact(t, from) && Live(s) == Live(t)
    ensures s == t
    decreases |s|
  {
    if s == [] || t == [] {
      if s != [] { SomeLive(s, from); }
      if t != [] { SomeLive(t, from); }
    } else {
      FirstSlots(s, t, from);
      FirstSlots(t, s, from);
      LiveTail(s, from);
      LiveTail(t, from);
      CanonicalFrom(s[1..], t[1..], EndOf(s[0]));
      assert s == [s[0]] + s[1..] && t == [t[0]] + t[1..];
    }
  }

  lemma FirstSlots(s: seq<Slot>, t: seq<Slot>, from: nat)
    requires Compact(s, from) && Compact(t, from) && Live(s) == Live(t) && s != [] && t != []
    ensures s[0].used ==> s[0] == t[0]
    ensures !s[0].used && !t[0].used ==> EndOf(s[0]) >= EndOf(t[0])
  {
    if s[0].used {
      assert s[0] in Live(t);
      var j :| 0 <= j < |t| && t[j] == s[0];
      if j > 0 { OffsetsGrow(t, from, 0, j); }
    } else if !t[0].used {
      assert s[1].used && s[1] in Live(t);
      var j :| 0 <= j < |t| && t[j] == s[1];
      OffsetsGrow(t, from, 0, j);
    }
  }

  lemma Canonical(s: seq<Slot>, t: seq<Slot>, memSize: nat)
    requires Board(s, memSize) && Board(t, memSize) && Live(s) == Live(t)
    ensures s == t
  {
    CanonicalFrom(s, t, 0);
  }

  // ---------------------------------------------------------------- what the calls do

  /** The live blocks other than the one at offset. */
  function Without(live: set<Slot>, offset: nat): set<Slot> {
    set x | x in live && x.offset != offset
  }

  /** Slot k is a hole of at least n bytes. */
  predicate Fits(s: seq<Slot>, k: nat, n: u32)
    requires k < |s|
  {
    !s[k].used && s[k].size >= n
  }

  ghost predicate NoFit(s: seq<Slot>, n: u32) {
    forall k :: 0 <= k < |s| ==> !Fits(s, k, n)
  }

  ghost predicate FirstFit(s: seq<Slot>, k: nat, n: u32) {
    k < |s| && Fits(s, k, n) && forall j :: 0 <= j < k ==> !Fits(s, j, n)
  }

  /** The block carved from the hole at k: n bytes, or the whole hole when no slot is left for
      the remainder. */
  function Carved(s: seq<Slot>, k: nat, n: u32): Slot
    requires k < |s|
  {
    Slot(s[k].offset, if |s| < MAX_BOARD_ALLOCS then n else s[k].size, true)
  }

  /** board_alloc's test for growing at the top, with its 32-bit sum. */
  predicate Grows(s: seq<Slot>, n: u32, memSize: u32) {
    (Top(s) + n) % TWO_32 <= memSize && |s| < MAX_BOARD_ALLOCS
  }

  /** No hole holds n bytes, and they cannot go on top either: no slot is left, or the sum, cut to 32
      bits, lies beyond board memory. */
  ghost predicate NoRoom(s: seq<Slot>, n: u32, memSize: u32) {
    && (forall j :: 0 <= j < |s| ==> s[j].used || s[j].size < n)
    && (|s| >= 512 || (Top(s) + n) % TWO_32 > memSize)
  }

  /** What a request for n rounded bytes makes of table s, in so many words: none exactly when no hole
      holds it and there is no slot or no memory left at the top; else the front of the first hole that
      holds it (all of the hole, if the table is full); else a new slot at the top. */
  ghost predicate Allocated(s: seq<Slot>, t: seq<Slot>, n: u32, memSize: u32, result: Option<u32>) {
    var above := if s == [] then 0 else s[|s| - 1].offset + s[|s| - 1].size;
    && (result == None <==>
          && (forall j :: 0 <= j < |s| ==> s[j].used || s[j].size < n)
          && (|s| == 512 || (above + n) % 0x1_0000_0000 > memSize))
    && (forall k :: 0 <= k < |s| && !s[k].used && s[k].size >= n
                    && (forall j :: 0 <= j < k ==> s[j].used || s[j].size < n) ==>
          && result == Some(s[k].offset)
          && Live(t) == Live(s) + {Slot(s[k].offset, if |s| < 512 then n else s[k].size, true)})
    && (result != None && (forall j :: 0 <= j < |s| ==> s[j].used || s[j].size < n) ==>
          result == Some(above) && t == s + [Slot(above, n, true)])
    && (result == None ==> t == s)
  }

  lemma RefusedWithoutRoom(s: seq<Slot>, t: seq<Slot>, n: u32, memSize: u32, result: Option<u32>)
    requires Allocated(s, t, n, memSize, result) && |s| <= MAX_BOARD_ALLOCS
    ensures result == None <==> NoRoom(s, n, memSize)
  {
  }

  /** The 32-bit sum wraps to something small: the table grows past the end of board memory. */
  ghost predicate Overruns(s: seq<Slot>, n: u32, memSize: u32) {
    NoFit(s, n) && Grows(s, n, memSize) && Top(s) + n > memSize
  }

  /** A request overruns board memory exactly when no hole fits, a slot is left, and the top plus
      the rounded size reaches 4 GB by no more than the size of board memory. */
  lemma OverrunIff(s: seq<Slot>, n: u32, memSize: u32)
    requires Board(s, memSize)
    ensures Overruns(s, n, memSize) <==>
              NoFit(s, n) && |s| < MAX_BOARD_ALLOCS && 0 <= Top(s) + n - TWO_32 <= memSize
  {
    hide NoFit, Compact;
  }

  /** With 16 bytes in use of 128 MB, a request 16 bytes short of 4 GB overruns. */
  lemma OverrunHappens()
    ensures var s := [Slot(0, 16, true)];
            Board(s, 0x800_0000) && RoundUp(0xFFFF_FFF0) == 0xFFFF_FFF0 && Overruns(s, RoundUp(0xFFFF_FFF0), 0x800_0000)
  {
    var s := [Slot(0, 16, true)];
    assert Top(s) + RoundUp(0xFFFF_FFF0) == TWO_32;
  }

  /** First fit takes the hole of lowest offset among those that fit. */
  lemma FirstFitIsLowest(s: seq<Slot>, k: nat, n: u32, j: nat)
    requires TilingFrom(s, 0) && FirstFit(s, k, n) && j < |s| && Fits(s, j, n)
    ensures s[k].offset <= s[j].offset
  {
    OffsetsGrow(s, 0, k, j);
  }

  /** Freeing the block just allocated restores the very table, entry by entry, and its top. */
  lemma AllocThenFree(s: seq<Slot>, s1: seq<Slot>, s2: seq<Slot>, x: Slot, memSize: nat)
    requires Board(s, memSize) && Board(s1, memSize) && Board(s2, memSize)
    requires x !in Live(s) && Live(s1) == Live(s) + {x}
    requires Live(s2) == Without(Live(s1), x.offset)
    ensures s2 == s
  {
    forall y | y in Live(s) ensures y.offset != x.offset {
      LiveBlocksApart(s1, memSize, x, y);
    }
    assert Live(s2) == Live(s);
    Canonical(s2, s, memSize);
  }

  /** The order of frees does not matter. */
  lemma FreesCommute(s: seq<Slot>, a: nat, b: nat, sa: seq<Slot>, sab: seq<Slot>, sb: seq<Slot>, sba: seq<Slot>,
                     memSize: nat)
    requires Board(s, memSize) && Board(sab, memSize) && Board(sba, memSize)
    requires Live(sa) == Without(Live(s), a) && Live(sab) == Without(Live(sa), b)
    requires Live(sb) == Without(Live(s), b) && Live(sba) == Without(Live(sb), a)
    ensures sab == sba
  {
    assert Live(sab) == Live(sba);
    Canonical(sab, sba, memSize);
  }

  /** Freeing everything leaves no slot at all, not even a hole. */
  lemma NothingLive(s: seq<Slot>, memSize: nat)
    requires Board(s, memSize) && Live(s) == {}
    ensures s == [] && Top(s) == 0
  {
    if s != [] { SomeLive(s, 0); }
  }

  /** Holes never outnumber live blocks. */
  lemma {:induction false} HalfLive(s: seq<Slot>, from: nat)
    requires Compact(s, from)
    ensures 2 * |Live(s)| >= |s|
    decreases |s|
  {
    if s != [] {
      LiveTail(s, from);
      var t := s[1..];
      if s[0].used {
        HalfLive(t, EndOf(s[0]));
        assert |Live(s)| == 1 + |Live(t)|;
      } else {
        LiveTail(t, EndOf(s[0]));
        HalfLive(t[1..], EndOf(t[0]));
        assert t[0] in Live(t);
        assert |Live(t)| == 1 + |Live(t[1..])|;
        assert Live(t) == Live(s);
      }
    }
  }

  /** board_alloc runs out of slots only with at least 256 live blocks. */
  lemma FullTableIsBusy(s: seq<Slot>, memSize: nat)
    requires Board(s, memSize) && |s| == MAX_BOARD_ALLOCS
    ensures |Live(s)| >= 256
  {
    HalfLive(s, 0);
  }

  // ---------------------------------------------------------------- the edits

  lemma LiveSplice(a: seq<Slot>, m: seq<Slot>, b: seq<Slot>)
    ensures Live(a + m + b) == Live(a) + Live(m) + Live(b)
  {
  }

  function Merged(s: seq<Slot>, i: nat): (t: seq<Slot>)
    requires i + 1 < |s| && EndOf(s[i + 1]) < TWO_32 && s[i + 1].offset == EndOf(s[i])
    ensures |t| == |s| - 1
  {
    s[..i] + [Slot(s[i].offset, s[i].size + s[i + 1].size, s[i].used)] + s[i + 2..]
  }

  /** A tiling whose only adjacent holes involve slot i, itself a hole. */
  ghost predicate HoleAt(s: seq<Slot>, i: nat) {
    && TilingFrom(s, 0) && Top(s) < TWO_32 && i < |s| && !s[i].used
    && forall k :: 0 <= k < |s| - 1 && k != i && k + 1 != i ==> s[k].used || s[k + 1].used
  }

  lemma HoleFacts(s: seq<Slot>, i: nat)
    requires HoleAt(s, i)
    ensures TilingFrom(s, 0) && Top(s) < TWO_32 && i < |s| && !s[i].used
    ensures i + 1 < |s| && s[i + 1].used && i > 0 && s[i - 1].used ==> NoTwoFree(s)
    ensures i + 1 >= |s| && i > 0 && s[i - 1].used ==> NoTwoFree(s)
    ensures i == 0 && (i + 1 < |s| ==> s[i + 1].used) ==> NoTwoFree(s)
  {
  }

  lemma Releases(s: seq<Slot>, i: nat)
    requires Compact(s, 0) && Top(s) < TWO_32 && i < |s| && s[i].used
    ensures var t := s[i := s[i].(used := false)];
            HoleAt(t, i) && Live(t) == Without(Live(s), s[i].offset) && Top(t) == Top(s)
  {
    var t := s[i := s[i].(used := false)];
    assert s == s[..i] + [s[i]] + s[i + 1..];
    assert t == s[..i] + [t[i]] + s[i + 1..];
    forall j | 0 <= j < |s| && j != i ensures s[j].offset != s[i].offset {
      OffsetsGrow(s, 0, if i < j then i else j, if i < j then j else i);
    }
    assert Live(t) == Without(Live(s), s[i].offset);
  }

  lemma MergeLive(s: seq<Slot>, i: nat)
    requires i + 1 < |s| && !s[i].used && !s[i + 1].used
    requires EndOf(s[i + 1]) < TWO_32 && s[i + 1].offset == EndOf(s[i])
    ensures Live(Merged(s, i)) == Live(s)
  {
    var t := Merged(s, i);
    LiveSplice(s[..i], [s[i], s[i + 1]], s[i + 2..]);
    assert s == s[..i] + [s[i], s[i + 1]] + s[i + 2..];
    LiveSplice(s[..i], [t[i]], s[i + 2..]);
  }

  lemma MergeKeeps(s: seq<Slot>, i: nat)
    requires TilingFrom(s, 0) && Top(s) < TWO_32 && i + 1 < |s| && !s[i].used && !s[i + 1].used
    ensures EndOf(s[i + 1]) < TWO_32
    ensures TilingFrom(Merged(s, i), 0) && Top(Merged(s, i)) == Top(s) && Live(Merged(s, i)) == Live(s)
  {
    hide Live;
    TopAbove(s, 0, i + 1);
    MergeTiles(s, i);
    MergeLive(s, i);
  }

  lemma MergeTiles(s: seq<Slot>, i: nat)
    requires TilingFrom(s, 0) && i + 1 < |s| && EndOf(s[i + 1]) < TWO_32
    ensures TilingFrom(Merged(s, i), 0) && Top(Merged(s, i)) == Top(s)
  {
    var t := Merged(s, i);
    assert t[i] == Slot(s[i].offset, s[i].size + s[i + 1].size, s[i].used);
    assert forall k :: i < k < |t| ==> t[k] == s[k + 1];
    assert forall k :: 0 <= k < i ==> t[k] == s[k];
    forall k | 0 <= k < |t| - 1 ensures t[k + 1].offset == EndOf(t[k]) {
      if k + 1 < i {} else if k + 1 == i {} else if k == i {} else { assert t[k] == s[k + 1] && t[k + 1] == s[k + 2]; }
    }
  }

  /** Merging with the hole above leaves a used slot above. */
  lemma MergeAbove(s: seq<Slot>, i: nat)
    requires HoleAt(s, i) && i + 1 < |s| && !s[i + 1].used
    ensures EndOf(s[i + 1]) < TWO_32
    ensures var t := Merged(s, i); HoleAt(t, i) && (i + 1 < |t| ==> t[i + 1].used)
  {
    MergeKeeps(s, i);
    var t := Merged(s, i);
    assert forall k :: i < k < |t| ==> t[k] == s[k + 1];
    assert forall k :: 0 <= k < i ==> t[k] == s[k];
    if i + 2 < |s| { assert s[i + 1].used || s[i + 2].used; }
  }

  /** Merging with the hole below as well leaves no two holes adjacent. */
  lemma MergeBelow(s: seq<Slot>, i: nat)
    requires HoleAt(s, i) && (i + 1 < |s| ==> s[i + 1].used) && 0 < i && !s[i - 1].used
    ensures EndOf(s[i]) < TWO_32
    ensures NoTwoFree(Merged(s, i - 1))
  {
    MergeKeeps(s, i - 1);
    var t := Merged(s, i - 1);
    assert forall k :: i - 1 < k < |t| ==> t[k] == s[k + 1];
    assert forall k :: 0 <= k < i - 1 ==> t[k] == s[k];
    if i > 1 { assert s[i - 2].used; }
  }

  lemma DropLast(s: seq<Slot>)
    requires s != [] && TilingFrom(s, 0) && NoTwoFree(s) && !s[|s| - 1].used
    ensures var t := s[..|s| - 1]; TilingFrom(t, 0) && NoTwoFree(t) && Live(t) == Live(s) && Top(t) <= Top(s)
  {
    var t := s[..|s| - 1];
    assert s == t + [s[|s| - 1]];
  }

  lemma TakesHole(s: seq<Slot>, i: nat)
    requires Compact(s, 0) && i < |s| && !s[i].used
    ensures var t := s[i := s[i].(used := true)];
            && Compact(t, 0) && Top(t) == Top(s)
            && Live(t) == Live(s) + {Slot(s[i].offset, s[i].size, true)}
  {
    var t := s[i := s[i].(used := true)];
    assert s == s[..i] + [s[i]] + s[i + 1..];
    assert t == s[..i] + [t[i]] + s[i + 1..];
  }

  function Split(s: seq<Slot>, i: nat, n: u32): seq<Slot>
    requires i < |s| && n < s[i].size && EndOf(s[i]) < TWO_32
  {
    s[..i] + [Slot(s[i].offset, n, true), Slot(s[i].offset + n, s[i].size - n, false)] + s[i + 1..]
  }

  lemma SplitLive(s: seq<Slot>, i: nat, n: u32)
    requires i < |s| && !s[i].used && EndOf(s[i]) < TWO_32 && n < s[i].size
    ensures Live(Split(s, i, n)) == Live(s) + {Slot(s[i].offset, n, true)}
  {
    var t := Split(s, i, n);
    LiveSplice(s[..i], [s[i]], s[i + 1..]);
    assert s == s[..i] + [s[i]] + s[i + 1..];
    LiveSplice(s[..i], [t[i], t[i + 1]], s[i + 1..]);
  }

  lemma SplitsHole(s: seq<Slot>, i: nat, n: u32)
    requires Compact(s, 0) && i < |s| && !s[i].used && EndOf(s[i]) < TWO_32
    requires 0 < n < s[i].size && n % ALIGNMENT == 0
    ensures var t := Split(s, i, n);
            && Compact(t, 0) && Top(t) == Top(s) && |t| == |s| + 1
            && Live(t) == Live(s) + {Slot(s[i].offset, n, true)}
  {
    hide Live;
    var t := Split(s, i, n);
    forall k | 0 <= k < |t| - 1
      ensures t[k + 1].offset == EndOf(t[k]) && (t[k].used || t[k + 1].used)
    {
      if k < i {
        assert t[k] == s[k] && (s[k].used || s[k + 1].used);
      } else if k > i {
        assert t[k + 1] == s[k] && (s[k - 1].used || s[k].used);
      }
    }
    forall k | 0 <= k < |t| ensures t[k].size > 0 && t[k].size % ALIGNMENT == 0 {
      assert k < i ==> t[k] == s[k];
      assert k > i + 1 ==> t[k] == s[k - 1];
    }
    assert i + 1 < |s| ==> t[|t| - 1] == s[|s| - 1];
    SplitLive(s, i, n);
  }

  lemma Appends(s: seq<Slot>, n: u32)
    requires Compact(s, 0) && n > 0 && n % ALIGNMENT == 0 && Top(s) < TWO_32
    ensures var x := Slot(Top(s), n, true);
            && Compact(s + [x], 0) && Top(s + [x]) == Top(s) + n && Live(s + [x]) == Live(s) + {x}
            && x !in Live(s)
  {
    var x := Slot(Top(s), n, true);
    if x in Live(s) {
      var j :| 0 <= j < |s| && s[j] == x;
      TopAbove(s, 0, j);
    }
  }

  /** A hole is not among the live blocks. */
  lemma HoleNotLive(s: seq<Slot>, i: nat, x: Slot)
    requires TilingFrom(s, 0) && i < |s| && !s[i].used && x.offset == s[i].offset && x.used
    ensures x !in Live(s)
  {
    if x in Live(s) {
      var j :| 0 <= j < |s| && s[j] == x;
      OffsetsGrow(s, 0, if i < j then i else j, if i < j then j else i);
    }
  }

  /** A table has a first fit from slot i on, or no fit there at all. */
  ghost function FirstFitFrom(s: seq<Slot>, n: u32, i: nat): (k: nat)
    requires i <= |s| && forall j :: 0 <= j < i ==> !Fits(s, j, n)
    ensures k <= |s| && (k < |s| ==> FirstFit(s, k, n)) && (k == |s| ==> NoFit(s, n))
    decreases |s| - i
  {
    if i == |s| || Fits(s, i, n) then i else FirstFitFrom(s, n, i + 1)
  }

  /** The block board_alloc adds is new. */
  lemma BlockIsNew(s: seq<Slot>, n: u32, k: nat)
    requires Compact(s, 0) && Top(s) < TWO_32 && n > 0 && n % ALIGNMENT == 0
    ensures Slot(Top(s), n, true) !in Live(s)
    ensures Live(s + [Slot(Top(s), n, true)]) == Live(s) + {Slot(Top(s), n, true)}
    ensures k < |s| && Fits(s, k, n) ==> Carved(s, k, n) !in Live(s)
  {
    Appends(s, n);
    if k < |s| && Fits(s, k, n) {
      HoleNotLive(s, k, Carved(s, k, n));
    }
  }

  // ---------------------------------------------------------------- runs of calls

  datatype Call = AllocCall(size: u32) | FreeCall(offset: u32)

  datatype Answer = Block(offset: Option<u32>) | Freed(found: bool)

  /** The one table that has these live blocks, if there is any. */
  ghost function TableOf(live: set<Slot>, memSize: u32): (s: seq<Slot>)
    ensures Board(s, memSize)
  {
    if exists s :: Board(s, memSize) && Live(s) == live then
      var s :| Board(s, memSize) && Live(s) == live;
      s
    else []
  }

  lemma TableOfLive(s: seq<Slot>, memSize: u32)
    requires Board(s, memSize)
    ensures TableOf(Live(s), memSize) == s
  {
    Canonical(s, TableOf(Live(s), memSize), memSize);
  }

  /** The block that a request for n rounded bytes gets: from the lowest hole that fits, else at
      the top, else none. */
  ghost function BlockFor(s: seq<Slot>, n: u32, memSize: u32): Option<Slot>
    requires Board(s, memSize)
  {
    var k := FirstFitFrom(s, n, 0);
    if k < |s| then Some(Carved(s, k, n))
    else if Grows(s, n, memSize) then Some(Slot(Top(s), n, true))
    else None
  }

  ghost function LiveAfter(live: set<Slot>, c: Call, memSize: u32): set<Slot> {
    match c
    case AllocCall(size) =>
      var b := BlockFor(TableOf(live, memSize), RoundUp(size), memSize);
      if b.Some? then live + {b.value} else live
    case FreeCall(offset) => Without(live, offset)
  }

  ghost function AnswerTo(live: set<Slot>, c: Call, memSize: u32): Answer {
    match c
    case AllocCall(size) =>
      var b := BlockFor(TableOf(live, memSize), RoundUp(size), memSize);
      Block(if b.Some? then Some(b.value.offset) else None)
    case FreeCall(offset) => Freed(exists x :: x in live && x.offset == offset)
  }

  ghost function LiveAfterAll(live: set<Slot>, calls: seq<Call>, memSize: u32): set<Slot>
    decreases |calls|
  {
    if calls == [] then live else LiveAfterAll(LiveAfter(live, calls[0], memSize), calls[1..], memSize)
  }

  ghost function AnswersTo(live: set<Slot>, calls: seq<Call>, memSize: u32): seq<Answer>
    decreases |calls|
  {
    if calls == [] then []
    else [AnswerTo(live, calls[0], memSize)] + AnswersTo(LiveAfter(live, calls[0], memSize), calls[1..], memSize)
  }

  ghost predicate Overrunning(live: set<Slot>, c: Call, memSize: u32) {
    c.AllocCall? && Overruns(TableOf(live, memSize), RoundUp(c.size), memSize)
  }

  ghost predicate NoneOverruns(live: set<Slot>, calls: seq<Call>, memSize: u32)
    decreases |calls|
  {
    calls == []
    || (!Overrunning(live, calls[0], memSize) && NoneOverruns(LiveAfter(live, calls[0], memSize), calls[1..], memSize))
  }

  lemma {:induction false} AnswersAt(live: set<Slot>, calls: seq<Call>, memSize: u32, i: nat)
    requires i < |calls|
    ensures |AnswersTo(live, calls, memSize)| == |calls|
    ensures AnswersTo(live, calls, memSize)[i] == AnswerTo(LiveAfterAll(live, calls[..i], memSize), calls[i], memSize)
    decreases |calls|
  {
    hide AnswerTo, LiveAfter;
    var next := LiveAfter(live, calls[0], memSize);
    if i > 0 {
      AnswersAt(next, calls[1..], memSize, i - 1);
      assert calls[..i][1..] == calls[1..][..i - 1];
    } else if |calls| > 1 {
      AnswersAt(next, calls[1..], memSize, 0);
    }
  }

  /** A request is refused exactly when there is no room. */
  lemma RefusedIff(live: set<Slot>, size: u32, memSize: u32)
    ensures AnswerTo(live, AllocCall(size), memSize) == Block(None)
            <==> NoRoom(TableOf(live, memSize), RoundUp(size), memSize)
  {
    hide RoundUp, Compact;
    var s, n := TableOf(live, memSize), RoundUp(size);
    var k := FirstFitFrom(s, n, 0);
    assert k < |s| ==> Fits(s, k, n);
    if k == |s| {
      forall j | 0 <= j < |s| ensures s[j].used || s[j].size < n { assert !Fits(s, j, n); }
    }
  }

  /** When every request rounds to less than 4 GB less the size of board memory, nothing overruns. */
  lemma {:induction false} SmallRequestsNeverOverrun(live: set<Slot>, calls: seq<Call>, memSize: u32)
    requires forall c :: c in calls && c.AllocCall? ==> RoundUp(c.size) + memSize < TWO_32
    ensures NoneOverruns(live, calls, memSize)
    decreases |calls|
  {
    if calls != [] {
      assert calls[0] in calls;
      if calls[0].AllocCall? { OverrunIff(TableOf(live, memSize), RoundUp(calls[0].size), memSize); }
      SmallRequestsNeverOverrun(LiveAfter(live, calls[0], memSize), calls[1..], memSize);
    }
  }
}
