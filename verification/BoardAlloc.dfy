/** The board-memory allocator: a slot table kept sorted in place. Board memory starts at
    offset 0 here; the driver adds its base address to every offset it hands out. */
module BoardAlloc {
  import opened MachineWords
  import opened BoardModel
  import opened Results

  class BoardAllocator {
    const memSize: u32
    const slots: array<Slot>
    var count: nat
    var top: u32              // board_alloc_offset

    ghost predicate Shape()
      reads this
    {
      slots.Length == MAX_BOARD_ALLOCS && count <= MAX_BOARD_ALLOCS
    }

    ghost function Table(): seq<Slot>
      reads this, slots
      requires Shape()
    {
      slots[..count]
    }

    ghost predicate Valid()
      reads this, slots
    {
      Shape() && Board(Table(), memSize) && top == Top(Table())
    }

    constructor (memSize: u32)
      ensures Valid() && Table() == [] && this.memSize == memSize && fresh(slots)
    {
      this.memSize := memSize;
      slots := new Slot[MAX_BOARD_ALLOCS](_ => Slot(0, 0, false));
      count, top := 0, 0;
    }

    /** The shifting loop of board_coalesce_at. */
    method RemoveAt(i: nat)
      requires Shape() && i < count
      modifies this`count, slots
      ensures Shape() && Table() == old(Table())[..i] + old(Table())[i + 1..]
    {
      ghost var s := Table();
      for j := i to count - 1
        modifies slots
        invariant forall k :: i <= k < j ==> slots[k] == s[k + 1]
        invariant forall k :: 0 <= k < count && !(i <= k < j) ==> slots[k] == s[k]
      {
        slots[j] := slots[j + 1];
      }
      count := count - 1;
    }

    /** Absorbs slot i + 1 into slot i. */
    method MergeNext(i: nat)
      requires Shape() && TilingFrom(Table(), 0) && Top(Table()) < TWO_32
      requires i + 1 < count && !slots[i].used && !slots[i + 1].used
      modifies this`count, slots
      ensures Shape() && EndOf(old(Table())[i + 1]) < TWO_32 && Table() == Merged(old(Table()), i)
    {
      ghost var s := Table();
      TopAbove(s, 0, i + 1);
      slots[i] := slots[i].(size := slots[i].size + slots[i + 1].size);
      assert Table() == s[i := slots[i]];
      RemoveAt(i + 1);
    }

    method RecalcTop()
      requires Shape() && Top(Table()) < TWO_32
      modifies this`top
      ensures top == Top(Table())
    {
      if count == 0 {
        top := 0;
        return;
      }
      var last := count - 1;
      top := slots[last].offset + slots[last].size;
    }

    /** Drops trailing holes: the end of board_coalesce_at. */
    method DropTrailing()
      requires Shape() && TilingFrom(Table(), 0) && NoTwoFree(Table()) && Top(Table()) <= memSize
      modifies this`count, this`top
      ensures Valid() && Live(Table()) == Live(old(Table()))
    {
      hide Live, TilingFrom, NoTwoFree;
      while count > 0 && !slots[count - 1].used
        modifies this`count
        invariant Shape() && TilingFrom(Table(), 0) && NoTwoFree(Table()) && Top(Table()) <= memSize
        invariant Live(Table()) == Live(old(Table()))
      {
        DropLast(Table());
        assert slots[..count - 1] == Table()[..count - 1];
        count := count - 1;
      }
      RecalcTop();
    }

    /** board_coalesce_at: slot i has just been released. */
    method CoalesceAt(i: nat)
      requires Shape() && HoleAt(Table(), i) && Top(Table()) <= memSize
      modifies this`count, this`top, slots
      ensures Valid() && Live(Table()) == Live(old(Table()))
    {
      hide Live, HoleAt, Merged, TilingFrom, NoTwoFree, LastUsed;
      HoleFacts(Table(), i);
      if i + 1 < count && !slots[i + 1].used {
        MergeAbove(Table(), i);
        MergeKeeps(Table(), i);
        MergeNext(i);
        HoleFacts(Table(), i);
      }
      if i > 0 && !slots[i - 1].used {
        MergeBelow(Table(), i);
        MergeKeeps(Table(), i - 1);
        MergeNext(i - 1);
      }
      DropTrailing();
    }

    /** board_free, on the offset of the block it is given. */
    method Free(target: u32) returns (found: bool)
      requires Valid()
      modifies this`count, this`top, slots
      ensures Valid()
      ensures found <==> exists x :: x in old(Live(Table())) && x.offset == target
      ensures Live(Table()) == Without(old(Live(Table())), target)
      ensures !found ==> Table() == old(Table())
    {
      ghost var s := Table();
      for i := 0 to count
        invariant Table() == s && Valid()
        invariant forall k :: 0 <= k < i ==> !(s[k].used && s[k].offset == target)
      {
        if slots[i].offset == target && slots[i].used {
          Releases(s, i);
          slots[i] := slots[i].(used := false);
          assert Table() == s[i := s[i].(used := false)];
          CoalesceAt(i);
          assert s[i] in Live(s);
          return true;
        }
      }
      found := false;
    }

    /** Makes room for one more slot at i, duplicating slot i: the shifting loop of board_alloc. */
    method OpenAt(i: nat)
      requires Shape() && i < count < MAX_BOARD_ALLOCS
      modifies this`count, slots
      ensures Shape() && Table() == old(Table())[..i + 1] + old(Table())[i..]
    {
      ghost var s := Table();
      var j := count;
      while j > i
        modifies slots
        invariant i <= j <= count
        invariant forall k :: 0 <= k <= j && k < count ==> slots[k] == s[k]
        invariant forall k :: j < k <= count ==> slots[k] == s[k - 1]
      {
        slots[j] := slots[j - 1];
        j := j - 1;
      }
      count := count + 1;
    }

    /** Hands out the hole at i, split if it is larger than n and a slot is left for the rest. */
    method TakeHole(i: nat, n: u32)
      requires Valid() && i < count && Fits(Table(), i, n) && n > 0 && n % ALIGNMENT == 0
      modifies this`count, slots
      ensures Valid()
      ensures Live(Table()) == old(Live(Table())) + {Carved(old(Table()), i, n)}
    {
      hide Live, TilingFrom, NoTwoFree, LastUsed;
      ghost var s := Table();
      TopAbove(s, 0, i);
      TakesHole(s, i);
      if slots[i].size == n {
        slots[i] := slots[i].(used := true);
        assert Table() == s[i := s[i].(used := true)];
      } else if count < MAX_BOARD_ALLOCS {
        SplitsHole(s, i, n);
        OpenAt(i);
        ghost var widened := Table();
        slots[i] := slots[i].(size := n, used := true);
        slots[i + 1] := slots[i + 1].(offset := slots[i + 1].offset + n, size := slots[i + 1].size - n);
        assert Table() == widened[i := slots[i]][i + 1 := slots[i + 1]];
        assert Table() == Split(s, i, n);
      } else {
        slots[i] := slots[i].(used := true);
        assert Table() == s[i := s[i].(used := true)];
      }
    }

    /** board_alloc. The result is the block's offset. */
    method Alloc(size: u32) returns (result: Option<u32>)
      requires Valid()
      modifies this`count, this`top, slots
      ensures Shape()
      ensures Valid() <==> !Overruns(old(Table()), RoundUp(size), memSize)
      ensures forall k: nat :: FirstFit(old(Table()), k, RoundUp(size)) ==>
                && result == Some(old(Table())[k].offset)
                && Live(Table()) == old(Live(Table())) + {Carved(old(Table()), k, RoundUp(size))}
      ensures NoFit(old(Table()), RoundUp(size)) && Grows(old(Table()), RoundUp(size), memSize) ==>
                && result == Some(old(Top(Table())))
                && Table() == old(Table()) + [Slot(old(Top(Table())), RoundUp(size), true)]
      ensures NoFit(old(Table()), RoundUp(size)) && !Grows(old(Table()), RoundUp(size), memSize) ==>
                result == None && Table() == old(Table())
      ensures Allocated(old(Table()), Table(), RoundUp(size), memSize, result)
    {
      hide RoundUp, TilingFrom, NoTwoFree, LastUsed, Live;
      var n := RoundUp(size);
      ghost var s := Table();
      for i := 0 to count
        invariant Table() == s && Valid()
        invariant forall k :: 0 <= k < i ==> !Fits(s, k, n)
      {
        if !slots[i].used && slots[i].size >= n {
          var offset := slots[i].offset;
          assert Fits(s, i, n) && FirstFit(s, i, n);
          assert forall k: nat :: FirstFit(s, k, n) ==> k == i;
          TakeHole(i, n);
          return Some(offset);
        }
      }
      if (top + n) % TWO_32 > memSize {
        return None;
      }
      if count >= MAX_BOARD_ALLOCS {
        return None;
      }
      var offset := top;
      Appends(s, n);
      slots[count] := Slot(offset, n, true);
      count := count + 1;
      assert Table() == s + [Slot(offset, n, true)];
      top := (offset + n) % TWO_32;
      result := Some(offset);
    }
  }

  /** AllocCardMem followed by FreeCardMem of what it returned: the table is back, slot by slot. */
  method AllocThenFreeRestores(a: BoardAllocator, size: u32) returns (result: Option<u32>)
    requires a.Valid() && !Overruns(a.Table(), RoundUp(size), a.memSize)
    modifies a, a.slots
    ensures a.Valid() && a.Table() == old(a.Table()) && a.top == old(a.top)
    ensures result == None <==> NoRoom(old(a.Table()), RoundUp(size), a.memSize)
  {
    hide RoundUp, TilingFrom, NoTwoFree, LastUsed, Live, Grows, Allocated;
    ghost var s, n := a.Table(), RoundUp(size);
    ghost var k := FirstFitFrom(s, n, 0);
    BlockIsNew(s, n, k);
    result := a.Alloc(size);
    RefusedWithoutRoom(s, a.Table(), n, a.memSize, result);
    if result.Some? {
      ghost var s1 := a.Table();
      ghost var x := if k < |s| then Carved(s, k, n) else Slot(Top(s), n, true);
      var _ := a.Free(result.value);
      AllocThenFree(s, s1, a.Table(), x, a.memSize);
    }
  }

  /** One call. */
  method Perform(a: BoardAllocator, c: Call) returns (answer: Answer)
    requires a.Valid()
    modifies a, a.slots
    ensures a.Shape() && Live(a.Table()) == LiveAfter(old(Live(a.Table())), c, a.memSize)
    ensures answer == AnswerTo(old(Live(a.Table())), c, a.memSize)
    ensures a.Valid() <==> !Overrunning(old(Live(a.Table())), c, a.memSize)
  {
    hide RoundUp, Compact, Live, Grows, TableOf, Allocated;
    ghost var s := a.Table();
    TableOfLive(s, a.memSize);
    match c
    case AllocCall(size) =>
      ghost var n := RoundUp(size);
      ghost var k := FirstFitFrom(s, n, 0);
      FitOrNot(s, n, k);
      BlockIsNew(s, n, k);
      var offset := a.Alloc(size);
      answer := Block(offset);
    case FreeCall(offset) =>
      var found := a.Free(offset);
      answer := Freed(found);
  }

  lemma FitOrNot(s: seq<Slot>, n: u32, k: nat)
    requires k == FirstFitFrom(s, n, 0)
    ensures k < |s| ==> FirstFit(s, k, n)
    ensures k == |s| ==> NoFit(s, n)
  {
  }

  /** Any sequence of calls: answers and live blocks are those of the calls one after the other.
      The table is again a compact tiling of board memory exactly when no call overruns; the table
      an overrun leaves behind is not followed further. */
  method Play(a: BoardAllocator, calls: seq<Call>) returns (answers: seq<Answer>)
    requires a.Valid()
    requires calls != [] ==> NoneOverruns(Live(a.Table()), calls[..|calls| - 1], a.memSize)
    modifies a, a.slots
    ensures a.Shape() && Live(a.Table()) == LiveAfterAll(old(Live(a.Table())), calls, a.memSize)
    ensures answers == AnswersTo(old(Live(a.Table())), calls, a.memSize)
    ensures a.Valid() <==> NoneOverruns(old(Live(a.Table())), calls, a.memSize)
    ensures |answers| == |calls|
    ensures forall i :: 0 <= i < |calls| && calls[i].AllocCall? ==>
              (answers[i] == Block(None) <==>
                 var before := LiveAfterAll(old(Live(a.Table())), calls[..i], a.memSize);
                 NoRoom(TableOf(before, a.memSize), RoundUp(calls[i].size), a.memSize))
  {
    hide Board, Live, LiveAfter, AnswerTo, Overrunning, NoRoom, TableOf;
    answers := [];
    ghost var live0, n := Live(a.Table()), |calls|;
    assert calls[0..] == calls;
    for i := 0 to |calls|
      invariant a.Shape() && (i < n ==> a.Valid())
      invariant LiveAfterAll(Live(a.Table()), calls[i..], a.memSize) == LiveAfterAll(live0, calls, a.memSize)
      invariant answers + AnswersTo(Live(a.Table()), calls[i..], a.memSize) == AnswersTo(live0, calls, a.memSize)
      invariant i < n ==> NoneOverruns(Live(a.Table()), calls[i..n - 1], a.memSize)
      invariant i < n ==>
          (NoneOverruns(Live(a.Table()), calls[i..], a.memSize) <==> NoneOverruns(live0, calls, a.memSize))
      invariant i == n ==> (a.Valid() <==> NoneOverruns(live0, calls, a.memSize))
    {
      assert calls[i..][1..] == calls[i + 1..];
      if i + 1 < n { assert calls[i..n - 1][1..] == calls[i + 1..n - 1]; }
      ghost var live := Live(a.Table());
      var answer := Perform(a, calls[i]);
      ghost var rest := AnswersTo(Live(a.Table()), calls[i + 1..], a.memSize);
      assert AnswersTo(live, calls[i..], a.memSize) == [answer] + rest;
      assert (answers + [answer]) + rest == answers + ([answer] + rest);
      answers := answers + [answer];
    }
    RefusalsIn(live0, calls, a.memSize);
  }

  /** Which requests of a run are refused. */
  lemma RefusalsIn(live: set<Slot>, calls: seq<Call>, memSize: u32)
    ensures |AnswersTo(live, calls, memSize)| == |calls|
    ensures forall i :: 0 <= i < |calls| && calls[i].AllocCall? ==>
              (AnswersTo(live, calls, memSize)[i] == Block(None) <==>
                 NoRoom(TableOf(LiveAfterAll(live, calls[..i], memSize), memSize), RoundUp(calls[i].size), memSize))
  {
    hide RoundUp, AnswerTo, LiveAfter, TableOf, NoRoom;
    if calls != [] { AnswersAt(live, calls, memSize, 0); }
    forall i | 0 <= i < |calls| && calls[i].AllocCall?
      ensures AnswersTo(live, calls, memSize)[i] == Block(None) <==>
                NoRoom(TableOf(LiveAfterAll(live, calls[..i], memSize), memSize), RoundUp(calls[i].size), memSize)
    {
      AnswersAt(live, calls, memSize, i);
      assert calls[i] == AllocCall(calls[i].size);
      RefusedIff(LiveAfterAll(live, calls[..i], memSize), calls[i].size, memSize);
    }
  }
}
