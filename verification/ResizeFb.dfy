/** chip_resize_fb_to_mode: rebuilding the framebuffer at a new size, as a transaction over
    guest memory, DMA mappings, DMA lists and host resources, any step of which may fail. */
module ResizeFb {
  import opened MachineWords
  import opened Arithmetic
  import opened Results

  const MAX_ENTRIES := 254     // what ATTACH_BACKING's 4 KB command buffer holds

  /** The framebuffer fields of the driver state. */
  datatype Bundle = Bundle(
    mem: Option<nat>, width: u32, height: u32, stride: u32, size: u32,
    dmaCount: nat, dmaList: Option<nat>, resource: u32)

  /** Guest memory blocks, DMA mappings and DMA list objects that are live, by address. */
  datatype System = System(memory: map<nat, u32>, mapped: map<nat, u32>, lists: set<nat>)

  /** The pages a host resource reads from: a guest block, and how many entries of its list. */
  datatype Backing = Backing(mem: nat, entries: nat)

  /** How many of count DMA entries ATTACH_BACKING sends. */
  function Attached(count: nat): nat {
    if count <= MAX_ENTRIES then count else MAX_ENTRIES
  }

  datatype Resource = Resource(width: u32, height: u32, backing: Option<Backing>)

  datatype Host = Host(resources: map<u32, Resource>, scanout0: u32)

  /** What the foreign calls of one resize answer: a block and a list where they succeed, a
      DMA entry count (0 for failure), and the host's verdict on each command sent. */
  datatype Outcomes = Outcomes(
    mem: Option<nat>, dmaCount: nat, list: Option<nat>, create: bool, attach: bool, scanout: seq<bool>)

  /** Allocators hand out fresh addresses; SET_SCANOUT is tried up to three times. */
  predicate Possible(o: Outcomes, sys: System) {
    && |o.scanout| == 3
    && (o.mem.Some? ==> o.mem.value !in sys.memory && o.mem.value !in sys.mapped)
    && (o.list.Some? ==> o.list.value !in sys.lists)
  }

  /** The driver's bundle is live in every respect, and scanout 0 shows it. */
  ghost predicate BundleLive(b: Bundle, sys: System, host: Host) {
    && b.mem.Some? && b.dmaList.Some? && b.resource != 0
    && b.mem.value in sys.memory && sys.memory[b.mem.value] == b.size
    && b.mem.value in sys.mapped && sys.mapped[b.mem.value] == b.size
    && b.dmaList.value in sys.lists
    && b.resource in host.resources
    && host.resources[b.resource]
       == Resource(b.width, b.height, Some(Backing(b.mem.value, Attached(b.dmaCount))))
    && host.scanout0 == b.resource
  }

  /** new_h * new_stride in 32-bit arithmetic. */
  function ByteSize(w: u32, h: u32): u32 {
    h * (w * 4 % TWO_32) % TWO_32
  }

  /** The block holds the whole picture exactly when its size fits 32 bits. */
  lemma ByteSizeIff(w: u32, h: u32)
    requires w > 0 && h > 0
    ensures ByteSize(w, h) >= h * (w * 4) <==> h * (w * 4) < TWO_32
    ensures h * (w * 4) < TWO_32 ==> ByteSize(w, h) == h * (w * 4) && w * 4 % TWO_32 == w * 4
  {
    var line := w * 4;
    MulMonotone(1, h, line);
    if h * line < TWO_32 {
      assert line % TWO_32 == line;
    }
  }

  /** The k-th id that chip_alloc_resource_id tries. */
  function IdAt(first: u32, k: nat): u32 {
    (first + k) % TWO_32
  }

  predicate Taken(id: u32, fb: u32, fb2: u32, cursor: u32) {
    id == fb || id == fb2 || id == cursor
  }

  /** The first id from the counter on that neither framebuffer nor the cursor uses. */
  function NextId(next: u32, fb: u32, fb2: u32, cursor: u32): u32 {
    if !Taken(IdAt(next, 0), fb, fb2, cursor) then IdAt(next, 0)
    else if !Taken(IdAt(next, 1), fb, fb2, cursor) then IdAt(next, 1)
    else if !Taken(IdAt(next, 2), fb, fb2, cursor) then IdAt(next, 2)
    else IdAt(next, 3)
  }

  lemma NextIdIs(next: u32, fb: u32, fb2: u32, cursor: u32, k: nat)
    ensures !Taken(NextId(next, fb, fb2, cursor), fb, fb2, cursor)
    ensures k < 4 && !Taken(IdAt(next, k), fb, fb2, cursor)
            && (forall j :: 0 <= j < k ==> Taken(IdAt(next, j), fb, fb2, cursor))
            ==> NextId(next, fb, fb2, cursor) == IdAt(next, k)
  {
    hide IdAt;
    FourDiffer(next);
    if k < 4 && forall j :: 0 <= j < k ==> Taken(IdAt(next, j), fb, fb2, cursor) {
      assert k > 0 ==> Taken(IdAt(next, 0), fb, fb2, cursor);
      assert k > 1 ==> Taken(IdAt(next, 1), fb, fb2, cursor);
      assert k > 2 ==> Taken(IdAt(next, 2), fb, fb2, cursor);
    }
  }

  /** Four ids are always enough: the result is used by neither framebuffer nor the cursor, it is at
      most three behind the counter, which wraps at 32 bits, and every id j before it is used. */
  lemma NextIdIsFirstFree(next: u32, fb: u32, fb2: u32, cursor: u32, j: u32)
    ensures var id := NextId(next, fb, fb2, cursor);
            var k := (id - next) % 0x1_0000_0000;
            && id != fb && id != fb2 && id != cursor && k <= 3
            && ((j - next) % 0x1_0000_0000 < k ==> j == fb || j == fb2 || j == cursor)
  {
    hide IdAt;
    var id := NextId(next, fb, fb2, cursor);
    FourDiffer(next);
    IdOffset(next, 0);
    IdOffset(next, 1);
    IdOffset(next, 2);
    IdOffset(next, 3);
    IdReached(next, j);
  }

  /** How far behind the counter an id is. */
  lemma IdOffset(next: u32, k: nat)
    requires k < 4
    ensures (IdAt(next, k) - next) % 0x1_0000_0000 == k
  {
  }

  lemma IdReached(next: u32, j: u32)
    ensures IdAt(next, (j - next) % 0x1_0000_0000) == j
  {
  }

  // ---------------------------------------------------------------- what a resize does

  /** The state that a resize reads and changes. */
  datatype Panel = Panel(fb: Bundle, fb2: u32, cursor: u32, next: u32, sys: System, host: Host)

  datatype ModeChange = ModeChange(w: u32, h: u32, outcomes: Outcomes)

  /** The guest's own calls all answer. */
  predicate GuestReady(o: Outcomes) {
    o.mem.Some? && o.dmaCount > 0 && o.list.Some?
  }

  /** Every call of the resize answers. */
  predicate AllSucceed(o: Outcomes) {
    GuestReady(o) && o.create && o.attach && true in o.scanout
  }

  predicate SizeChanges(p: Panel, c: ModeChange) {
    c.w != 0 && c.h != 0 && !(c.w == p.fb.width && c.h == p.fb.height)
  }

  function FreshId(p: Panel): u32 {
    NextId(p.next, p.fb.resource, p.fb2, p.cursor)
  }

  /** The host takes the fresh id: it is not 0, and the host does not know it. */
  predicate IdAccepted(p: Panel) {
    FreshId(p) != 0 && FreshId(p) !in p.host.resources
  }

  predicate Succeeds(p: Panel, c: ModeChange) {
    c.w != 0 && c.h != 0 && (SizeChanges(p, c) ==> AllSucceed(c.outcomes) && IdAccepted(p))
  }

  /** The counter moves as soon as an id has been tried. */
  function NextAfter(p: Panel, c: ModeChange): u32 {
    if SizeChanges(p, c) && GuestReady(c.outcomes) then (FreshId(p) + 1) % TWO_32 else p.next
  }

  /** The bundle a successful change of size leaves. */
  function NewBundle(p: Panel, c: ModeChange): Bundle
    requires GuestReady(c.outcomes)
  {
    Bundle(c.outcomes.mem, c.w, c.h, c.w * 4 % TWO_32, ByteSize(c.w, c.h),
           c.outcomes.dmaCount, c.outcomes.list, FreshId(p))
  }

  class Display {
    var fb: Bundle
    var fb2: u32               // fb_resource_id2
    var cursor: u32            // cursor_resource_id
    var nextResourceId: u32
    var sys: System
    var host: Host

    ghost predicate Valid()
      reads this
    {
      BundleLive(fb, sys, host)
    }

    ghost function State(): Panel
      reads this
    {
      Panel(fb, fb2, cursor, nextResourceId, sys, host)
    }

    constructor (fb: Bundle, fb2: u32, cursor: u32, nextId: u32, sys: System, host: Host)
      requires BundleLive(fb, sys, host)
      ensures Valid() && State() == Panel(fb, fb2, cursor, nextId, sys, host)
    {
      this.fb, this.fb2, this.cursor, this.nextResourceId, this.sys, this.host := fb, fb2, cursor, nextId, sys, host;
    }

    // ---------------------------------------------------------------- foreign calls

    method FreeVec(mem: nat)
      requires mem in sys.memory && mem !in sys.mapped
      modifies this`sys
      ensures sys == old(sys).(memory := old(sys).memory - {mem})
    {
      sys := sys.(memory := sys.memory - {mem});
    }

    method EndDMA(mem: nat, size: u32)
      requires mem in sys.mapped && sys.mapped[mem] == size
      modifies this`sys
      ensures sys == old(sys).(mapped := old(sys).mapped - {mem})
    {
      sys := sys.(mapped := sys.mapped - {mem});
    }

    method FreeList(list: nat)
      requires list in sys.lists
      modifies this`sys
      ensures sys == old(sys).(lists := old(sys).lists - {list})
    {
      sys := sys.(lists := sys.lists - {list});
    }

    /** RESOURCE_CREATE_2D: the host also refuses id 0 and an id it already knows. */
    method ResourceCreate2D(id: u32, w: u32, h: u32, verdict: bool) returns (ok: bool)
      modifies this`host
      ensures ok == (verdict && id != 0 && id !in old(host).resources)
      ensures host == if ok then old(host).(resources := old(host).resources[id := Resource(w, h, None)]) else old(host)
    {
      ok := verdict && id != 0 && id !in host.resources;
      if ok { host := host.(resources := host.resources[id := Resource(w, h, None)]); }
    }

    method ResourceAttachBacking(id: u32, mem: nat, count: nat, verdict: bool) returns (ok: bool)
      requires id in host.resources
      modifies this`host
      ensures ok == verdict
      ensures host == if !ok then old(host) else old(host).(resources := old(host).resources[
                        id := old(host).resources[id].(backing := Some(Backing(mem, Attached(count))))])
    {
      var entries := if count > MAX_ENTRIES then MAX_ENTRIES else count;
      if verdict {
        host := host.(resources := host.resources[id := host.resources[id].(backing := Some(Backing(mem, entries)))]);
      }
      ok := verdict;
    }

    /** SET_SCANOUT on scanout 0, retried up to three times. */
    method SetScanout(id: u32, verdicts: seq<bool>) returns (ok: bool)
      requires id in host.resources && |verdicts| == 3
      modifies this`host
      ensures ok <==> true in verdicts
      ensures host == if ok then old(host).(scanout0 := id) else old(host)
    {
      for attempt := 0 to 3
        invariant host == old(host) && true !in verdicts[..attempt]
      {
        assert verdicts[..attempt + 1] == verdicts[..attempt] + [verdicts[attempt]];
        if verdicts[attempt] {
          host := host.(scanout0 := id);
          return true;
        }
      }
      assert verdicts[..3] == verdicts;
      ok := false;
    }

    /** RESOURCE_UNREF, which succeeds in teardown; the host blanks a scanout that showed the resource. */
    method ResourceUnref(id: u32)
      requires id in host.resources
      modifies this`host
      ensures host == Host(old(host).resources - {id}, if old(host).scanout0 == id then 0 else old(host).scanout0)
    {
      host := Host(host.resources - {id}, if host.scanout0 == id then 0 else host.scanout0);
    }

    /** The fail_dma exit: gives back the list, the mapping and the block. */
    method FailDma(list: nat, mem: nat, size: u32)
      requires list in sys.lists && mem in sys.memory && mem in sys.mapped && sys.mapped[mem] == size
      modifies this`sys
      ensures sys == System(old(sys).memory - {mem}, old(sys).mapped - {mem}, old(sys).lists - {list})
    {
      FreeList(list);
      EndDMA(mem, size);
      FreeVec(mem);
    }

    /** Steps 3 and 4: a fresh resource with its backing, put on scanout 0; if any command is
        refused, the host is left as it was. */
    method NewResource(w: u32, h: u32, mem: nat, count: nat, o: Outcomes) returns (ok: bool, id: u32)
      requires host.scanout0 == fb.resource && |o.scanout| == 3
      modifies this`nextResourceId, this`host
      ensures ok == (o.create && o.attach && true in o.scanout && id != 0 && id !in old(host).resources)
      ensures !ok ==> host == old(host)
      ensures ok ==> host == Host(old(host).resources[id := Resource(w, h, Some(Backing(mem,
                                    Attached(count))))], id)
      ensures id == NextId(old(nextResourceId), fb.resource, fb2, cursor) && nextResourceId == (id + 1) % TWO_32
    {
      hide NextId;
      NextIdIs(nextResourceId, fb.resource, fb2, cursor, 4);
      id := AllocResourceId();
      ok := ResourceCreate2D(id, w, h, o.create);
      if !ok {
        return;
      }
      ok := ResourceAttachBacking(id, mem, count, o.attach);
      if !ok {
        ResourceUnref(id);
        assert host.resources == old(host).resources;
        return;
      }
      ok := SetScanout(id, o.scanout);
      if !ok {
        ResourceUnref(id);
        assert host.resources == old(host).resources;
      }
    }

    /** Step 5: the driver takes the new bundle and tears the old one down. */
    method TakeOver(b: Bundle)
      requires fb.mem.Some? && fb.dmaList.Some? && fb.mem.value in sys.memory && fb.mem.value in sys.mapped
      requires sys.mapped[fb.mem.value] == fb.size && fb.dmaList.value in sys.lists
      requires fb.resource != 0 && fb.resource in host.resources && host.scanout0 != fb.resource
      modifies this`fb, this`sys, this`host
      ensures fb == b
      ensures sys == System(old(sys).memory - {old(fb).mem.value}, old(sys).mapped - {old(fb).mem.value},
                            old(sys).lists - {old(fb).dmaList.value})
      ensures host == Host(old(host).resources - {old(fb).resource}, old(host).scanout0)
    {
      var oldFb := fb;
      fb := b;
      if oldFb.resource != 0 { ResourceUnref(oldFb.resource); }
      if oldFb.dmaList.Some? { FreeList(oldFb.dmaList.value); }
      if oldFb.mem.Some? {
        EndDMA(oldFb.mem.value, oldFb.size);
        FreeVec(oldFb.mem.value);
      }
    }

    /** All or nothing. On failure the bundle, guest memory, mappings, lists, host resources and
        scanout are what they were; on success the new bundle has replaced the old one. Either
        way scanout 0 shows a live resource backed by the mapped framebuffer block. */
    method ResizeFbToMode(newW: u32, newH: u32, o: Outcomes) returns (ok: bool)
      requires Valid() && Possible(o, sys)
      modifies this
      ensures Valid() && fb2 == old(fb2) && cursor == old(cursor)
      ensures var id, tried := NextId(old(nextResourceId), old(fb.resource), fb2, cursor),
                               o.mem.Some? && o.dmaCount > 0 && o.list.Some?;
              if newW == 0 || newH == 0 then !ok && nextResourceId == old(nextResourceId)
              else if newW == old(fb.width) && newH == old(fb.height) then ok && nextResourceId == old(nextResourceId)
              else && (ok <==> tried && o.create && o.attach && true in o.scanout
                               && id != 0 && id !in old(host).resources)
                   && nextResourceId == if tried then (id + 1) % 0x1_0000_0000 else old(nextResourceId)
      ensures !ok || (newW == old(fb.width) && newH == old(fb.height)) ==>
                fb == old(fb) && sys == old(sys) && host == old(host)
      ensures ok && !(newW == old(fb.width) && newH == old(fb.height)) ==>
                && fb == Bundle(o.mem, newW, newH, newW * 4 % 0x1_0000_0000,
                                newH * (newW * 4 % 0x1_0000_0000) % 0x1_0000_0000, o.dmaCount, o.list,
                                NextId(old(nextResourceId), old(fb.resource), fb2, cursor))
                && Replaced(old(fb), fb, old(sys), sys, old(host), host)
    {
      hide BundleLive, Replaced, NextId, IdAt;
      LiveFacts(fb, sys, host);
      if newW == 0 || newH == 0 {
        return false;
      }
      if newW == fb.width && newH == fb.height {
        return true;
      }
      var stride := newW * 4 % TWO_32;
      var size := newH * stride % TWO_32;
      if o.mem.None? {
        return false;
      }
      var mem := o.mem.value;
      sys := sys.(memory := sys.memory[mem := size]);
      if o.dmaCount == 0 {
        FreeVec(mem);
        assert sys.memory == old(sys).memory;
        return false;
      }
      sys := sys.(mapped := sys.mapped[mem := size]);
      if o.list.None? {
        EndDMA(mem, size);
        FreeVec(mem);
        assert sys.memory == old(sys).memory && sys.mapped == old(sys).mapped;
        return false;
      }
      var list := o.list.value;
      sys := sys.(lists := sys.lists + {list});
      var id;
      ok, id := NewResource(newW, newH, mem, o.dmaCount, o);
      if !ok {
        FailDma(list, mem, size);
        assert sys.memory == old(sys).memory && sys.mapped == old(sys).mapped && sys.lists == old(sys).lists;
        return false;
      }
      TakeOver(Bundle(Some(mem), newW, newH, stride, size, o.dmaCount, Some(list), id));
      NewBundleLive(fb, old(fb), old(sys), sys, old(host), host);
    }

    /** chip_alloc_resource_id: the counter wraps at 32 bits, and at most four ids are tried. */
    method AllocResourceId() returns (id: u32)
      modifies this`nextResourceId
      ensures id == NextId(old(nextResourceId), fb.resource, fb2, cursor)
      ensures nextResourceId == (id + 1) % TWO_32
    {
      ghost var first := nextResourceId;
      ghost var tries := 0;
      hide IdAt, NextId;
      IdAtNext(first, 0);
      id := nextResourceId;
      nextResourceId := (nextResourceId + 1) % TWO_32;
      NextIdIs(first, fb.resource, fb2, cursor, 0);
      while id == fb.resource || id == fb2 || id == cursor
        modifies this`nextResourceId
        invariant tries <= 3 && id == IdAt(first, tries) && nextResourceId == (id + 1) % TWO_32
        invariant forall k :: 0 <= k < tries ==> Taken(IdAt(first, k), fb.resource, fb2, cursor)
        decreases 3 - tries
      {
        FourIds(first, tries, fb.resource, fb2, cursor);
        IdAtNext(first, tries);
        id := nextResourceId;
        nextResourceId := (nextResourceId + 1) % TWO_32;
        tries := tries + 1;
      }
      NextIdIs(first, fb.resource, fb2, cursor, tries);
    }
  }

  lemma FourDiffer(first: u32)
    ensures forall i, j :: 0 <= i < j < 4 ==> IdAt(first, i) != IdAt(first, j)
  {
  }

  /** Of four successive ids one is free. */
  lemma FourIds(first: u32, tries: nat, fb: u32, fb2: u32, cursor: u32)
    requires tries <= 3 && forall k :: 0 <= k <= tries ==> Taken(IdAt(first, k), fb, fb2, cursor)
    ensures tries < 3
  {
    hide IdAt;
    FourDiffer(first);
    var a, b, c, d := IdAt(first, 0), IdAt(first, 1), IdAt(first, 2), IdAt(first, 3);
  }

  /** The old bundle has given way to the new one, and nothing else has changed hands. */
  ghost predicate Replaced(b: Bundle, b': Bundle, sys: System, sys': System, host: Host, host': Host) {
    && b.mem.Some? && b.dmaList.Some? && b'.mem.Some? && b'.dmaList.Some?
    && sys'.memory == (sys.memory - {b.mem.value})[b'.mem.value := b'.size]
    && sys'.mapped == (sys.mapped - {b.mem.value})[b'.mem.value := b'.size]
    && sys'.lists == sys.lists - {b.dmaList.value} + {b'.dmaList.value}
    && b'.mem.value !in sys.memory && b'.mem.value !in sys.mapped && b'.dmaList.value !in sys.lists
    && b'.resource !in host.resources && b'.resource in host'.resources
    && host'.resources == (host.resources - {b.resource})[b'.resource := host'.resources[b'.resource]]
    && host'.scanout0 == b'.resource
  }

  lemma LiveFacts(b: Bundle, sys: System, host: Host)
    requires BundleLive(b, sys, host)
    ensures b.mem.Some? && b.dmaList.Some? && b.resource != 0
    ensures b.mem.value in sys.memory && b.mem.value in sys.mapped && sys.mapped[b.mem.value] == b.size
    ensures b.dmaList.value in sys.lists && b.resource in host.resources && host.scanout0 == b.resource
  {
  }

  /** What scanout 0 shows: a resource of the driver's size, backed by its block as far as 254 entries of
      the DMA list reach. */
  lemma ShownResource(b: Bundle, sys: System, host: Host)
    requires BundleLive(b, sys, host)
    ensures host.scanout0 == b.resource && b.mem.Some? && b.resource in host.resources
    ensures host.resources[b.resource]
            == Resource(b.width, b.height, Some(Backing(b.mem.value, if b.dmaCount <= 254 then b.dmaCount else 254)))
  {
  }

  /** The state after step 5 again has a live bundle. */
  lemma NewBundleLive(b: Bundle, old_: Bundle, sys: System, sys': System, host: Host, host': Host)
    requires old_.mem.Some? && old_.dmaList.Some? && b.mem.Some? && b.dmaList.Some? && b.resource != 0
    requires b.mem.value !in sys.memory && b.mem.value !in sys.mapped && b.dmaList.value !in sys.lists
    requires old_.mem.value in sys.memory && old_.dmaList.value in sys.lists && old_.resource in host.resources
    requires b.resource !in host.resources
    requires sys' == System(sys.memory[b.mem.value := b.size] - {old_.mem.value},
                            sys.mapped[b.mem.value := b.size] - {old_.mem.value},
                            sys.lists + {b.dmaList.value} - {old_.dmaList.value})
    requires var r := Resource(b.width, b.height, Some(Backing(b.mem.value,
                        Attached(b.dmaCount))));
             host' == Host(host.resources[b.resource := r] - {old_.resource}, b.resource)
    ensures BundleLive(b, sys', host')
    ensures Replaced(old_, b, sys, sys', host, host')
  {
    assert sys'.memory == (sys.memory - {old_.mem.value})[b.mem.value := b.size];
    assert sys'.mapped == (sys.mapped - {old_.mem.value})[b.mem.value := b.size];
    assert host'.resources == (host.resources - {old_.resource})[b.resource := host'.resources[b.resource]];
  }

  lemma IdAtNext(first: u32, k: nat)
    ensures IdAt(first, 0) == first
    ensures IdAt(first, k + 1) == (IdAt(first, k) + 1) % TWO_32
  {
  }

  /** Everything that is live but not part of the framebuffer bundle. */
  datatype Rest = Rest(memory: map<nat, u32>, mapped: map<nat, u32>, lists: set<nat>, resources: map<u32, Resource>)

  ghost function RestOf(b: Bundle, sys: System, host: Host): Rest
    requires b.mem.Some? && b.dmaList.Some?
  {
    Rest(sys.memory - {b.mem.value}, sys.mapped - {b.mem.value}, sys.lists - {b.dmaList.value},
         host.resources - {b.resource})
  }

  lemma ReplacedKeepsRest(b: Bundle, b': Bundle, sys: System, sys': System, host: Host, host': Host)
    requires Replaced(b, b', sys, sys', host, host')
    ensures RestOf(b', sys', host') == RestOf(b, sys, host)
  {
    assert sys'.memory - {b'.mem.value} == sys.memory - {b.mem.value};
    assert sys'.mapped - {b'.mem.value} == sys.mapped - {b.mem.value};
    assert sys'.lists - {b'.dmaList.value} == sys.lists - {b.dmaList.value};
    assert host'.resources - {b'.resource} == host.resources - {b.resource};
  }

  // ---------------------------------------------------------------- runs of mode changes

  /** The state after one mode change. One whose outcomes the allocators cannot give is not made. */
  ghost function After(p: Panel, c: ModeChange): Panel
    requires p.fb.mem.Some? && p.fb.dmaList.Some?
    ensures After(p, c).fb.mem.Some? && After(p, c).fb.dmaList.Some?
  {
    if !Possible(c.outcomes, p.sys) then p
    else if Succeeds(p, c) && SizeChanges(p, c) then
      var b := NewBundle(p, c);
      Panel(b, p.fb2, p.cursor, NextAfter(p, c),
            System((p.sys.memory - {p.fb.mem.value})[b.mem.value := b.size],
                   (p.sys.mapped - {p.fb.mem.value})[b.mem.value := b.size],
                   p.sys.lists - {p.fb.dmaList.value} + {b.dmaList.value}),
            Host((p.host.resources - {p.fb.resource})[b.resource :=
                   Resource(b.width, b.height, Some(Backing(b.mem.value, Attached(b.dmaCount))))], b.resource))
    else p.(next := NextAfter(p, c))
  }

  ghost function AfterAll(p: Panel, changes: seq<ModeChange>): Panel
    requires p.fb.mem.Some? && p.fb.dmaList.Some?
    ensures AfterAll(p, changes).fb.mem.Some? && AfterAll(p, changes).fb.dmaList.Some?
    decreases |changes|
  {
    if changes == [] then p else AfterAll(After(p, changes[0]), changes[1..])
  }

  /** Which changes return TRUE. */
  ghost function Oks(p: Panel, changes: seq<ModeChange>): (oks: seq<bool>)
    requires p.fb.mem.Some? && p.fb.dmaList.Some?
    ensures |oks| == |changes|
    decreases |changes|
  {
    if changes == [] then []
    else [Possible(changes[0].outcomes, p.sys) && Succeeds(p, changes[0])] + Oks(After(p, changes[0]), changes[1..])
  }

  lemma AfterReplaced(p: Panel, c: ModeChange, p': Panel)
    requires p.fb.mem.Some? && p.fb.dmaList.Some? && Possible(c.outcomes, p.sys)
    requires Succeeds(p, c) && SizeChanges(p, c) && p'.fb == NewBundle(p, c)
    requires Replaced(p.fb, p'.fb, p.sys, p'.sys, p.host, p'.host) && BundleLive(p'.fb, p'.sys, p'.host)
    requires p'.fb2 == p.fb2 && p'.cursor == p.cursor && p'.next == NextAfter(p, c)
    ensures p' == After(p, c)
  {
    hide ByteSize, NextId, IdAt;
  }

  /** The size and block shown. */
  datatype Picture = Picture(w: u32, h: u32, mem: Option<nat>)

  function PictureOf(b: Bundle): Picture {
    Picture(b.width, b.height, b.mem)
  }

  /** What a run shows in the end: the picture of the last change that succeeded at a size other
      than the one shown, or the first picture. */
  function Shown(shown: Picture, changes: seq<ModeChange>, oks: seq<bool>): Picture
    requires |oks| == |changes|
    decreases |oks|
  {
    if oks == [] then shown
    else
      var c := changes[0];
      Shown(if oks[0] && !(c.w == shown.w && c.h == shown.h) then Picture(c.w, c.h, c.outcomes.mem) else shown,
            changes[1..], oks[1..])
  }

  /** The size in the end is that of the last change that returned TRUE, or the first size. */
  lemma {:induction false} ShownIsLast(shown: Picture, changes: seq<ModeChange>, oks: seq<bool>)
    requires |oks| == |changes|
    ensures true !in oks ==> Shown(shown, changes, oks) == shown
    ensures forall i :: 0 <= i < |oks| && oks[i] && true !in oks[i + 1..] ==>
              Shown(shown, changes, oks).w == changes[i].w && Shown(shown, changes, oks).h == changes[i].h
    decreases |oks|
  {
    if oks != [] {
      var c := changes[0];
      var next := if oks[0] && !(c.w == shown.w && c.h == shown.h) then Picture(c.w, c.h, c.outcomes.mem) else shown;
      ShownIsLast(next, changes[1..], oks[1..]);
      forall i | 0 <= i < |oks| && oks[i] && true !in oks[i + 1..]
        ensures Shown(shown, changes, oks).w == changes[i].w && Shown(shown, changes, oks).h == changes[i].h
      {
        if i > 0 {
          assert oks[1..][i - 1] && oks[1..][i..] == oks[i + 1..];
        }
      }
    }
  }

  /** The picture of a run is that of its last successful change. */
  lemma {:induction false} RunShows(p: Panel, changes: seq<ModeChange>)
    requires p.fb.mem.Some? && p.fb.dmaList.Some?
    ensures PictureOf(AfterAll(p, changes).fb) == Shown(PictureOf(p.fb), changes, Oks(p, changes))
    decreases |changes|
  {
    hide ByteSize, NextId, IdAt;
    if changes != [] {
      RunShows(After(p, changes[0]), changes[1..]);
      assert Oks(p, changes)[1..] == Oks(After(p, changes[0]), changes[1..]);
    }
  }

  /** Any run of mode changes, failing where they may: the state is that of the changes one after the
      other. Scanout 0 always shows a live resource backed by the mapped framebuffer block, exactly
      one bundle is live, and nothing leaks. */
  method ChangeModes(d: Display, changes: seq<ModeChange>) returns (oks: seq<bool>)
    requires d.Valid()
    modifies d
    ensures d.Valid() && old(d.fb.mem.Some? && d.fb.dmaList.Some?)
    ensures d.State() == AfterAll(old(d.State()), changes) && oks == Oks(old(d.State()), changes)
    ensures PictureOf(d.fb) == Shown(old(PictureOf(d.fb)), changes, oks)
    ensures RestOf(d.fb, d.sys, d.host) == old(RestOf(d.fb, d.sys, d.host))
  {
    hide BundleLive, Replaced, RestOf, After, Succeeds, PictureOf, Shown;
    LiveFacts(d.fb, d.sys, d.host);
    RunShows(d.State(), changes);
    ghost var p0 := d.State();
    oks := [];
    assert changes[0..] == changes;
    for i := 0 to |changes|
      invariant d.Valid() && d.fb.mem.Some? && d.fb.dmaList.Some?
      invariant AfterAll(d.State(), changes[i..]) == AfterAll(p0, changes)
      invariant oks + Oks(d.State(), changes[i..]) == Oks(p0, changes)
      invariant RestOf(d.fb, d.sys, d.host) == RestOf(p0.fb, p0.sys, p0.host)
    {
      assert changes[i..][1..] == changes[i + 1..];
      var ok := ChangeMode(d, changes[i]);
      oks := oks + [ok];
    }
  }

  /** One change of a run. */
  method ChangeMode(d: Display, c: ModeChange) returns (ok: bool)
    requires d.Valid() && d.fb.mem.Some? && d.fb.dmaList.Some?
    modifies d
    ensures d.Valid() && d.State() == After(old(d.State()), c)
    ensures ok == (Possible(c.outcomes, old(d.sys)) && Succeeds(old(d.State()), c))
    ensures RestOf(d.fb, d.sys, d.host) == old(RestOf(d.fb, d.sys, d.host))
  {
    hide BundleLive, Replaced, RestOf, NextId;
    if !Possible(c.outcomes, d.sys) {
      return false;
    }
    ghost var p := d.State();
    ok := d.ResizeFbToMode(c.w, c.h, c.outcomes);
    LiveFacts(d.fb, d.sys, d.host);
    if ok && SizeChanges(p, c) {
      AfterReplaced(p, c, d.State());
      ReplacedKeepsRest(p.fb, d.fb, p.sys, d.sys, p.host, d.host);
    }
  }

  /** A resize may fail although every call answers: the driver's counter has reached an id that the
      host knows as a texture. */
  lemma KnownIdRefused()
    ensures exists p: Panel, c: ModeChange ::
              BundleLive(p.fb, p.sys, p.host) && Possible(c.outcomes, p.sys)
              && SizeChanges(p, c) && AllSucceed(c.outcomes) && !Succeeds(p, c)
  {
    var fb := Bundle(Some(0x1000), 640, 480, 2560, 1228800, 300, Some(1), 1);
    var texture := Resource(64, 64, None);
    var p := Panel(fb, 0, 2, 3, System(map[0x1000 := 1228800], map[0x1000 := 1228800], {1}),
                   Host(map[1 := Resource(640, 480, Some(Backing(0x1000, 254))), 3 := texture], 1));
    var c := ModeChange(800, 600, Outcomes(Some(0x200000), 469, Some(2), true, true, [true, true, true]));
    assert FreshId(p) == 3 && FreshId(p) in p.host.resources;
    assert BundleLive(p.fb, p.sys, p.host) && Possible(c.outcomes, p.sys);
    assert SizeChanges(p, c) && AllSucceed(c.outcomes) && !Succeeds(p, c);
  }
}
