/** The detailed-timing parser of chip_GetEDID. */
module Edid {
  import opened MachineWords

  const MAX_DTDS := 16

  datatype Timing = Timing(w: u16, h: u16)

  /** A descriptor is a timing if its pixel clock is not zero. */
  predicate HasClock(edid: seq<u8>, off: nat)
    requires off + 8 <= |edid|
  {
    edid[off] as int + edid[off + 1] as int * 0x100 != 0
  }

  /** Active pixels or lines: 8 low bits, and 4 high bits in the upper nibble of another byte. */
  function Active(low: nat, high: nat): (r: nat)
    requires low < 0x100 && high < 0x100
    ensures r < 0x1000
  {
    low + high / 16 * 0x100
  }

  function TimingAt(edid: seq<u8>, off: nat): Timing
    requires off + 8 <= |edid|
  {
    Timing(Active(edid[off + 2], edid[off + 4]), Active(edid[off + 5], edid[off + 7]))
  }

  /** The timings of the base block from its i-th descriptor on. */
  function BaseTimings(edid: seq<u8>, i: nat): seq<Timing>
    decreases 4 - i
  {
    var off := 54 + 18 * i;
    if i >= 4 || off + 8 > |edid| then []
    else (if HasClock(edid, off) then [TimingAt(edid, off)] else []) + BaseTimings(edid, i + 1)
  }

  /** The timings of one extension from off on: up to the first descriptor without a clock. */
  function RunTimings(edid: seq<u8>, off: nat, end: nat): seq<Timing>
    requires end <= |edid|
    decreases |edid| - off
  {
    if off + 18 > end || !HasClock(edid, off) then []
    else [TimingAt(edid, off)] + RunTimings(edid, off + 18, end)
  }

  /** The timings of the extension at base, if it is a CEA-861 block with a sensible offset. */
  function BlockTimings(edid: seq<u8>, base: nat): seq<Timing>
    requires base + 128 <= |edid|
  {
    if edid[base] != 0x02 || edid[base + 2] < 4 || edid[base + 2] > 125 then []
    else RunTimings(edid, base + edid[base + 2], base + 126)
  }

  /** The timings of extensions e, e+1, ... of count, as far as the blob reaches. */
  function ExtensionTimings(edid: seq<u8>, e: nat, count: nat): seq<Timing>
    decreases count - e
  {
    var base := 128 * (e + 1);
    if e >= count || base + 128 > |edid| then []
    else BlockTimings(edid, base) + ExtensionTimings(edid, e + 1, count)
  }

  /** Every timing in scan order: base block, then extensions. */
  function AllTimings(edid: seq<u8>): seq<Timing> {
    BaseTimings(edid, 0) + if |edid| >= 128 then ExtensionTimings(edid, 0, edid[126]) else []
  }

  // ---------------------------------------------------------------- the selection

  /** The list after ADD_DTD. */
  function Added(list: seq<Timing>, t: Timing): seq<Timing> {
    if t.w > 0 && t.h > 0 && |list| < MAX_DTDS && t !in list then list + [t] else list
  }

  function AddedAll(list: seq<Timing>, ts: seq<Timing>): seq<Timing>
    decreases |ts|
  {
    if ts == [] then list else AddedAll(Added(list, ts[0]), ts[1..])
  }

  /** The non-zero timings of ts that are not in seen, each once, in order of first occurrence. */
  function Distinct(ts: seq<Timing>, seen: seq<Timing>): seq<Timing>
    decreases |ts|
  {
    if ts == [] then []
    else if ts[0].w > 0 && ts[0].h > 0 && ts[0] !in seen then [ts[0]] + Distinct(ts[1..], seen + [ts[0]])
    else Distinct(ts[1..], seen)
  }

  function FirstFew(s: seq<Timing>, n: nat): seq<Timing> {
    if |s| <= n then s else s[..n]
  }

  lemma {:induction false} AddedAllIsPrefix(list: seq<Timing>, ts: seq<Timing>)
    requires |list| <= MAX_DTDS
    ensures AddedAll(list, ts) == FirstFew(list + Distinct(ts, list), MAX_DTDS)
    decreases |ts|
  {
    if ts != [] {
      var t := ts[0];
      AddedAllIsPrefix(Added(list, t), ts[1..]);
      if t.w > 0 && t.h > 0 && t !in list {
        if |list| < MAX_DTDS {
          assert list + Distinct(ts, list) == (list + [t]) + Distinct(ts[1..], list + [t]);
        } else {
          assert FirstFew(list + Distinct(ts, list), MAX_DTDS) == list;
          assert FirstFew(list + Distinct(ts[1..], list), MAX_DTDS) == list;
        }
      }
    }
  }

  /** What Distinct keeps: no duplicates, nothing seen, nothing but non-zero timings of ts, and
      every one of those. */
  lemma {:induction false} DistinctMeans(ts: seq<Timing>, seen: seq<Timing>)
    ensures forall i, j :: 0 <= i < j < |Distinct(ts, seen)| ==> Distinct(ts, seen)[i] != Distinct(ts, seen)[j]
    ensures forall t :: t in Distinct(ts, seen) <==> t in ts && t.w > 0 && t.h > 0 && t !in seen
    decreases |ts|
  {
    if ts != [] {
      var t := ts[0];
      assert ts == [t] + ts[1..];
      if t.w > 0 && t.h > 0 && t !in seen {
        DistinctMeans(ts[1..], seen + [t]);
        var rest := Distinct(ts[1..], seen + [t]);
        assert Distinct(ts, seen) == [t] + rest;
        assert t !in rest;
      } else {
        DistinctMeans(ts[1..], seen);
      }
    }
  }

  /** The list the parser builds: the first 16 or fewer distinct non-zero timings in scan order. */
  lemma ParsedList(edid: seq<u8>)
    ensures AddedAll([], AllTimings(edid)) == FirstFew(Distinct(AllTimings(edid), []), MAX_DTDS)
  {
    AddedAllIsPrefix([], AllTimings(edid));
    assert [] + Distinct(AllTimings(edid), []) == Distinct(AllTimings(edid), []);
  }

  lemma {:induction false} AddedAllConcat(list: seq<Timing>, a: seq<Timing>, b: seq<Timing>)
    ensures AddedAll(list, a + b) == AddedAll(AddedAll(list, a), b)
    decreases |a|
  {
    if a == [] {
      assert a + b == b;
    } else {
      assert (a + b)[1..] == a[1..] + b;
      AddedAllConcat(Added(list, a[0]), a[1..], b);
    }
  }

  lemma AddedNone(list: seq<Timing>)
    ensures AddedAll(list, []) == list
  {
  }

  lemma AddedOne(list: seq<Timing>, t: Timing)
    ensures AddedAll(list, [t]) == Added(list, t)
  {
    assert [t][1..] == [];
  }

  /** Where t first occurs in ts. */
  function First(ts: seq<Timing>, t: Timing): nat {
    if ts == [] || ts[0] == t then 0 else 1 + First(ts[1..], t)
  }

  /** What is kept is in order of first occurrence. */
  lemma {:induction false} DistinctInOrder(ts: seq<Timing>, seen: seq<Timing>, i: nat, j: nat)
    requires i < j < |Distinct(ts, seen)|
    ensures First(ts, Distinct(ts, seen)[i]) < First(ts, Distinct(ts, seen)[j])
    decreases |ts|
  {
    var t, d := ts[0], Distinct(ts, seen);
    DistinctMeans(ts, seen);
    assert d[i] in d && d[j] in d && d[i] != d[j];
    if t.w > 0 && t.h > 0 && t !in seen {
      var rest := Distinct(ts[1..], seen + [t]);
      assert d == [t] + rest;
      assert d[0] != d[j] && (i > 0 ==> d[0] != d[i]);
      if i > 0 { DistinctInOrder(ts[1..], seen + [t], i - 1, j - 1); }
    } else {
      DistinctInOrder(ts[1..], seen, i, j);
    }
  }

  // ---------------------------------------------------------------- where timings are found

  /** The descriptor at off gives t: bytes 2 and 5 are the low bytes of its width and height, the upper
      halves of bytes 4 and 7 what is above them. */
  predicate Gives(edid: seq<u8>, off: nat, t: Timing) {
    && off + 8 <= |edid|
    && t.w % 256 == edid[off + 2] && t.w / 256 == edid[off + 4] / 16
    && t.h % 256 == edid[off + 5] && t.h / 256 == edid[off + 7] / 16
  }

  /** The j-th descriptor from off on has a clock: its first two bytes are not both zero. */
  predicate ClockAt(edid: seq<u8>, off: nat, j: nat) {
    off + 18 * j + 8 <= |edid| && (edid[off + 18 * j] != 0 || edid[off + 18 * j + 1] != 0)
  }

  /** The k-th descriptor of the base block has a clock and gives t. */
  predicate InBase(edid: seq<u8>, k: nat, t: Timing) {
    k < 4 && ClockAt(edid, 54, k) && Gives(edid, 54 + 18 * k, t)
  }

  lemma GivesIff(edid: seq<u8>, off: nat, t: Timing)
    requires off + 8 <= |edid|
    ensures Gives(edid, off, t) <==> TimingAt(edid, off) == t
    ensures ClockAt(edid, off, 0) <==> HasClock(edid, off)
  {
    PartsOf(edid[off + 2], edid[off + 4], t.w);
    PartsOf(edid[off + 5], edid[off + 7], t.h);
  }

  lemma PartsOf(low: u8, high: u8, v: u16)
    ensures v == Active(low, high) <==> v % 256 == low && v / 256 == high / 16
  {
  }

  /** The j-th descriptor from off on lies before end and holds t, and all up to it have a clock. */
  predicate InRun(edid: seq<u8>, off: nat, end: nat, j: nat, t: Timing) {
    && off + 18 * j + 18 <= end <= |edid| && (forall i :: 0 <= i <= j ==> ClockAt(edid, off, i))
    && Gives(edid, off + 18 * j, t)
  }

  /** Extension e is counted and complete, and is a CEA-861 block whose j-th descriptor holds t. */
  predicate InExtension(edid: seq<u8>, e: nat, j: nat, t: Timing) {
    && |edid| >= 128 && e < edid[126] && 128 * (e + 2) <= |edid|
    && var base := 128 * (e + 1);
    && edid[base] == 0x02 && 4 <= edid[base + 2] <= 125
    && InRun(edid, base + edid[base + 2], base + 126, j, t)
  }

  lemma {:induction false} BaseIff(edid: seq<u8>, i: nat, t: Timing)
    ensures t in BaseTimings(edid, i) <==> exists k: nat :: i <= k && InBase(edid, k, t)
    decreases 4 - i
  {
    if i < 4 && 54 + 18 * i + 8 <= |edid| {
      BaseIff(edid, i + 1, t);
      GivesIff(edid, 54 + 18 * i, t);
      assert InBase(edid, i, t) <==> HasClock(edid, 54 + 18 * i) && TimingAt(edid, 54 + 18 * i) == t;
    }
  }

  lemma ClocksShift(edid: seq<u8>, off: nat, end: nat, j: nat, t: Timing)
    requires ClockAt(edid, off, 0)
    ensures InRun(edid, off, end, j + 1, t) <==> InRun(edid, off + 18, end, j, t)
  {
    var next := off + 18;
    if InRun(edid, next, end, j, t) {
      forall i | 0 <= i <= j + 1 ensures ClockAt(edid, off, i) {
        if i > 0 { assert ClockAt(edid, next, i - 1); }
      }
    }
    if InRun(edid, off, end, j + 1, t) {
      forall i | 0 <= i <= j ensures ClockAt(edid, next, i) { assert ClockAt(edid, off, i + 1); }
    }
  }

  lemma RunStarts(edid: seq<u8>, off: nat, end: nat, j: nat, t: Timing)
    ensures InRun(edid, off, end, j, t) ==> off + 18 <= end && ClockAt(edid, off, 0)
  {
  }

  lemma {:induction false} RunIff(edid: seq<u8>, off: nat, end: nat, t: Timing)
    requires end <= |edid|
    ensures t in RunTimings(edid, off, end) <==> exists j: nat :: InRun(edid, off, end, j, t)
    decreases |edid| - off
  {
    if off + 18 <= end { GivesIff(edid, off, t); }
    if off + 18 > end || !HasClock(edid, off) {
      forall j: nat ensures !InRun(edid, off, end, j, t) { RunStarts(edid, off, end, j, t); }
    } else {
      var next := off + 18;
      RunIff(edid, next, end, t);
      assert ClockAt(edid, off, 0);
      forall j: nat ensures InRun(edid, next, end, j, t) <==> InRun(edid, off, end, j + 1, t) {
        ClocksShift(edid, off, end, j, t);
      }
      if t in RunTimings(edid, next, end) {
        var j: nat :| InRun(edid, next, end, j, t);
        assert InRun(edid, off, end, j + 1, t);
      } else if t == TimingAt(edid, off) {
        assert InRun(edid, off, end, 0, t);
      } else {
        forall j: nat ensures !InRun(edid, off, end, j, t) {
          if j > 0 { assert !InRun(edid, next, end, j - 1, t); }
        }
      }
    }
  }

  /** Extension e contributes t. */
  predicate InSome(edid: seq<u8>, e: nat, t: Timing) {
    exists j: nat :: j < 128 && InExtension(edid, e, j, t)
  }

  lemma {:induction false} ExtensionIff(edid: seq<u8>, e: nat, t: Timing)
    requires |edid| >= 128
    ensures t in ExtensionTimings(edid, e, edid[126]) <==> exists f: nat :: e <= f && InSome(edid, f, t)
    decreases edid[126] - e
  {
    hide InSome, BlockTimings;
    if e < edid[126] && 128 * (e + 2) <= |edid| {
      ExtensionIff(edid, e + 1, t);
      BlockIff(edid, e, t);
    } else {
      forall f: nat | e <= f ensures !InSome(edid, f, t) { NotPastTheEnd(edid, f, t); }
    }
  }

  lemma NotPastTheEnd(edid: seq<u8>, e: nat, t: Timing)
    ensures InSome(edid, e, t) ==> |edid| >= 128 && e < edid[126] && 128 * (e + 2) <= |edid|
  {
  }

  lemma BlockIff(edid: seq<u8>, e: nat, t: Timing)
    requires |edid| >= 128 && e < edid[126] && 128 * (e + 2) <= |edid|
    ensures t in BlockTimings(edid, 128 * (e + 1)) <==> InSome(edid, e, t)
  {
    hide RunTimings, ClockAt, InRun;
    var base := 128 * (e + 1);
    if edid[base] == 0x02 && 4 <= edid[base + 2] <= 125 {
      var off, end := base + edid[base + 2], base + 126;
      RunIff(edid, off, end, t);
      if j: nat :| InRun(edid, off, end, j, t) {
        RunIsShort(edid, off, base, j, t);
        assert InExtension(edid, e, j, t);
      }
    }
  }

  lemma RunIsShort(edid: seq<u8>, off: nat, base: nat, j: nat, t: Timing)
    requires InRun(edid, off, base + 126, j, t) && off >= base
    ensures j < 128
  {
  }

  /** A timing is scanned exactly if a descriptor of the base block with a clock holds it, or one of a
      counted, complete CEA-861 extension with a clock there and in all descriptors before it. */
  lemma TimingIff(edid: seq<u8>, t: Timing)
    ensures t in AllTimings(edid) <==> (exists k: nat :: InBase(edid, k, t)) || (exists e: nat :: InSome(edid, e, t))
  {
    hide InSome;
    BaseIff(edid, 0, t);
    if |edid| >= 128 {
      ExtensionIff(edid, 0, t);
    } else {
      forall e: nat ensures !InSome(edid, e, t) { NotPastTheEnd(edid, e, t); }
    }
  }

  // ---------------------------------------------------------------- the order of the scan

  /** ts are the timings of the descriptors at offs, which go upwards from lo and stay below hi. */
  ghost predicate Scanned(edid: seq<u8>, offs: seq<nat>, ts: seq<Timing>, lo: nat, hi: nat) {
    && |offs| == |ts|
    && (forall i :: 0 <= i < |offs| ==> lo <= offs[i] < hi && Gives(edid, offs[i], ts[i]))
    && (forall i, j :: 0 <= i < j < |offs| ==> offs[i] < offs[j])
  }

  lemma ScannedConcat(edid: seq<u8>, o: seq<nat>, ts: seq<Timing>, o2: seq<nat>, ts2: seq<Timing>,
                      lo: nat, end: nat, start: nat, hi: nat)
    requires Scanned(edid, o, ts, lo, end) && Scanned(edid, o2, ts2, start, hi) && lo <= end <= start <= hi
    ensures Scanned(edid, o + o2, ts + ts2, lo, hi)
  {
    hide Gives;
  }

  lemma ScannedOne(edid: seq<u8>, off: nat)
    requires off + 8 <= |edid|
    ensures Scanned(edid, [off], [TimingAt(edid, off)], off, off + 18)
  {
    GivesIff(edid, off, TimingAt(edid, off));
  }

  lemma {:induction false} BaseScan(edid: seq<u8>, i: nat) returns (offs: seq<nat>)
    requires i <= 4
    ensures Scanned(edid, offs, BaseTimings(edid, i), 54 + 18 * i, 126)
    decreases 4 - i
  {
    hide Scanned;
    var off := 54 + 18 * i;
    NothingScanned(edid, off, 126);
    if i < 4 && off + 8 <= |edid| {
      var rest := BaseScan(edid, i + 1);
      if HasClock(edid, off) {
        ScannedOne(edid, off);
        ScannedConcat(edid, [off], [TimingAt(edid, off)], rest, BaseTimings(edid, i + 1), off, off + 18, off + 18, 126);
        return [off] + rest;
      }
      assert BaseTimings(edid, i) == BaseTimings(edid, i + 1);
      NothingScanned(edid, off, off);
      ScannedConcat(edid, [], [], rest, BaseTimings(edid, i + 1), off, off, off + 18, 126);
      assert [] + rest == rest && [] + BaseTimings(edid, i + 1) == BaseTimings(edid, i + 1);
      return rest;
    }
    return [];
  }

  lemma NothingScanned(edid: seq<u8>, lo: nat, hi: nat)
    ensures Scanned(edid, [], [], lo, hi)
  {
  }

  lemma {:induction false} RunScan(edid: seq<u8>, off: nat, end: nat) returns (offs: seq<nat>)
    requires off <= end <= |edid|
    ensures Scanned(edid, offs, RunTimings(edid, off, end), off, end)
    decreases |edid| - off
  {
    hide Scanned;
    NothingScanned(edid, off, end);
    if off + 18 <= end && HasClock(edid, off) {
      var rest := RunScan(edid, off + 18, end);
      ScannedOne(edid, off);
      ScannedConcat(edid, [off], [TimingAt(edid, off)], rest, RunTimings(edid, off + 18, end),
                    off, off + 18, off + 18, end);
      return [off] + rest;
    }
    return [];
  }

  lemma {:induction false} ExtensionScan(edid: seq<u8>, e: nat, count: nat) returns (offs: seq<nat>)
    ensures Scanned(edid, offs, ExtensionTimings(edid, e, count), 128 * (e + 1), |edid|)
    decreases count - e
  {
    hide Scanned, BlockTimings;
    var base := 128 * (e + 1);
    NothingScanned(edid, base, |edid|);
    if e < count && base + 128 <= |edid| {
      var rest := ExtensionScan(edid, e + 1, count);
      var block := BlockScan(edid, base);
      ScannedConcat(edid, block, BlockTimings(edid, base), rest, ExtensionTimings(edid, e + 1, count),
                    base, base + 128, base + 128, |edid|);
      return block + rest;
    }
    return [];
  }

  /** What is given lies inside the blob. */
  lemma Within(edid: seq<u8>, offs: seq<nat>, ts: seq<Timing>, lo: nat, hi: nat)
    requires Scanned(edid, offs, ts, lo, hi)
    ensures Scanned(edid, offs, ts, lo, |edid|)
  {
  }

  lemma BlockScan(edid: seq<u8>, base: nat) returns (offs: seq<nat>)
    requires base + 128 <= |edid|
    ensures Scanned(edid, offs, BlockTimings(edid, base), base, base + 128)
  {
    if edid[base] != 0x02 || edid[base + 2] < 4 || edid[base + 2] > 125 {
      return [];
    }
    offs := RunScan(edid, base + edid[base + 2], base + 126);
    hide Gives;
  }

  /** The scan goes through the blob upwards: base block first, then the extensions, in each from the
      lowest descriptor on. */
  lemma ScanOrder(edid: seq<u8>)
    ensures exists offs :: Scanned(edid, offs, AllTimings(edid), 54, |edid|)
  {
    hide Scanned, BaseTimings, ExtensionTimings;
    var o := BaseScan(edid, 0);
    if |edid| >= 128 {
      var o2 := ExtensionScan(edid, 0, edid[126]);
      ScannedConcat(edid, o, BaseTimings(edid, 0), o2, ExtensionTimings(edid, 0, edid[126]), 54, 126, 128, |edid|);
      assert Scanned(edid, o + o2, AllTimings(edid), 54, |edid|);
    } else {
      Within(edid, o, BaseTimings(edid, 0), 54, 126);
      assert AllTimings(edid) == BaseTimings(edid, 0);
      assert Scanned(edid, o, AllTimings(edid), 54, |edid|);
    }
  }

  // ---------------------------------------------------------------- the parser

  class DtdList {
    const w: array<u16>
    const h: array<u16>
    var count: nat
    var nativeW: u16
    var nativeH: u16

    ghost predicate Valid()
      reads this
    {
      w.Length == MAX_DTDS && h.Length == MAX_DTDS && w != h && count <= MAX_DTDS
    }

    ghost function List(): (l: seq<Timing>)
      reads this, w, h
      requires Valid()
    {
      seq(count, i requires 0 <= i < count && Valid() reads this, w, h => Timing(w[i], h[i]))
    }

    constructor ()
      ensures Valid() && fresh(w) && fresh(h) && List() == [] && nativeW == nativeH == 0
    {
      w := new u16[MAX_DTDS](_ => 0);
      h := new u16[MAX_DTDS](_ => 0);
      count, nativeW, nativeH := 0, 0, 0;
    }

    /** ADD_DTD. */
    method AddDtd(tw: u16, th: u16)
      requires Valid()
      modifies this`count, w, h
      ensures Valid() && List() == Added(old(List()), Timing(tw, th))
    {
      if tw > 0 && th > 0 && count < MAX_DTDS {
        var dup := false;
        for i := 0 to count
          invariant !dup && Timing(tw, th) !in List()[..i]
        {
          if w[i] == tw && h[i] == th {
            assert List()[i] == Timing(tw, th);
            return;
          }
          assert List()[..i + 1] == List()[..i] + [List()[i]];
        }
        assert List()[..count] == List();
        ghost var before := List();
        w[count] := tw;
        h[count] := th;
        count := count + 1;
        assert List() == before + [Timing(tw, th)];
      }
    }

    method ParseBase(edid: seq<u8>)
      requires Valid()
      modifies this`count, w, h
      ensures Valid() && List() == AddedAll(old(List()), BaseTimings(edid, 0))
    {
      ghost var goal := AddedAll(List(), BaseTimings(edid, 0));
      for i := 0 to 4
        invariant Valid() && AddedAll(List(), BaseTimings(edid, i)) == goal
      {
        var off := 54 + 18 * i;
        if off + 8 > |edid| {
          return;
        }
        if HasClock(edid, off) {
          var t := TimingAt(edid, off);
          AddedAllConcat(List(), [t], BaseTimings(edid, i + 1));
          AddedOne(List(), t);
          AddDtd(t.w, t.h);
        } else {
          assert [] + BaseTimings(edid, i + 1) == BaseTimings(edid, i + 1);
        }
      }
    }

    /** The loop over the descriptors of one CEA-861 extension. */
    method ParseBlock(edid: seq<u8>, first: nat, end: nat)
      requires Valid() && end <= |edid|
      modifies this`count, w, h
      ensures Valid() && List() == AddedAll(old(List()), RunTimings(edid, first, end))
    {
      ghost var goal := AddedAll(List(), RunTimings(edid, first, end));
      var off := first;
      while off + 18 <= end
        invariant Valid() && AddedAll(List(), RunTimings(edid, off, end)) == goal
        decreases |edid| - off
      {
        if !HasClock(edid, off) {
          return;
        }
        var t := TimingAt(edid, off);
        AddedAllConcat(List(), [t], RunTimings(edid, off + 18, end));
        AddedOne(List(), t);
        AddDtd(t.w, t.h);
        off := off + 18;
      }
    }

    method ParseExtension(edid: seq<u8>, base: nat)
      requires Valid() && base + 128 <= |edid|
      modifies this`count, w, h
      ensures Valid() && List() == AddedAll(old(List()), BlockTimings(edid, base))
    {
      if edid[base] != 0x02 {
        return;
      }
      var dtdOff := edid[base + 2];
      if dtdOff < 4 || dtdOff > 125 {
        return;
      }
      ParseBlock(edid, base + dtdOff, base + 126);
    }

    method ParseExtensions(edid: seq<u8>)
      requires Valid() && |edid| >= 128
      modifies this`count, w, h
      ensures Valid() && List() == AddedAll(old(List()), ExtensionTimings(edid, 0, edid[126]))
    {
      hide List, AddedAll, BlockTimings;
      var extCount := edid[126];
      ghost var goal := AddedAll(List(), ExtensionTimings(edid, 0, extCount));
      for e := 0 to extCount
        invariant Valid() && AddedAll(List(), ExtensionTimings(edid, e, extCount)) == goal
      {
        var base := 128 * (e + 1);
        if base + 128 > |edid| {
          AddedNone(List());
          return;
        }
        AddedAllConcat(List(), BlockTimings(edid, base), ExtensionTimings(edid, e + 1, extCount));
        ParseExtension(edid, base);
      }
      AddedNone(List());
    }

    /** For any blob: the list is the first 16 or fewer distinct non-zero timings in scan order,
        and the first of them is the native mode. Every index is checked against the blob. */
    method Parse(edid: seq<u8>)
      requires Valid()
      modifies this, w, h
      ensures Valid() && List() == FirstFew(Distinct(AllTimings(edid), []), 16)
      ensures Timing(nativeW, nativeH) == if List() == [] then Timing(0, 0) else List()[0]
    {
      hide Distinct, BaseTimings, ExtensionTimings;
      nativeW, nativeH, count := 0, 0, 0;
      ParsedList(edid);
      ParseBase(edid);
      if |edid| >= 128 {
        ParseExtensions(edid);
        AddedAllConcat([], BaseTimings(edid, 0), ExtensionTimings(edid, 0, edid[126]));
      } else {
        AddedAllConcat([], BaseTimings(edid, 0), []);
        AddedNone(List());
      }
      if count > 0 {
        nativeW, nativeH := w[0], h[0];
      }
    }
  }
}
