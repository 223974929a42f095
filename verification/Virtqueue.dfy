/** The split virtqueue in memory: descriptor table, two rings, free list and cookies,
    updated in place by the driver (Allocate, AddBuf, GetBuf) and by the device. */
module Virtqueue {
  import opened MachineWords
  import opened Rings
  import opened VirtqueueModel

  const F_NEXT := 1
  const F_WRITE := 2

  /** A descriptor as the guest's loads see it: in a modern queue the fields of an
      in-flight descriptor are byte-swapped, the next field of a free one is not. */
  datatype Desc = Desc(addr: u64, len: u32, flags: u16, next: u16)

  datatype UsedElem = UsedElem(id: u32, len: u32)

  /** Flags of the n-th of total entries. */
  function ChainFlags(n: nat, outNum: nat, total: nat): u16 {
    (if n >= outNum then F_WRITE else 0) + (if n + 1 < total then F_NEXT else 0)
  }

  ghost predicate FreeLinked(mem: seq<Desc>, head: u16, free: seq<nat>) {
    && (free != [] ==> head == free[0])
    && (forall i :: 0 <= i < |free| ==> free[i] < |mem|)
    && (forall i :: 0 <= i < |free| - 1 ==> mem[free[i]].next == free[i + 1])
  }

  /** The n-th descriptor of r's chain holds entry n, and leads on to descriptor n + 1. */
  ghost predicate EntryStored(d: Desc, modern: bool, r: Request, n: nat)
    requires n < |r.chain| == |r.sg|
  {
    && d.addr == Vr64(modern, r.sg[n].addr)
    && d.len == Vr32(modern, r.sg[n].len)
    && d.flags == Vr16(modern, ChainFlags(n, r.outNum, |r.sg|))
    && (n + 1 < |r.chain| ==> r.chain[n + 1] < TWO_16 && d.next == Vr16(modern, r.chain[n + 1]))
  }

  ghost predicate ChainStored(mem: seq<Desc>, modern: bool, r: Request) {
    && |r.chain| == |r.sg|
    && forall n :: 0 <= n < |r.chain| ==> r.chain[n] < |mem| && EntryStored(mem[r.chain[n]], modern, r, n)
  }

  ghost predicate RequestStored(mem: seq<Desc>, cookies: seq<nat>, modern: bool, r: Request) {
    && ChainStored(mem, modern, r)
    && r.chain != [] && r.chain[0] < |cookies| && cookies[r.chain[0]] == r.cookie
  }

  function HeadOf(r: Request): nat {
    if r.chain == [] then 0 else r.chain[0]
  }

  function Heads(rs: seq<Request>): seq<nat> {
    seq(|rs|, i requires 0 <= i < |rs| => HeadOf(rs[i]))
  }

  function UsedEntries(us: seq<Posted>): seq<UsedElem>
    requires forall u :: u in us && u.Posted? ==> HeadOf(u.req) < TWO_32
  {
    seq(|us|, i requires 0 <= i < |us| =>
      if us[i].Posted? then UsedElem(HeadOf(us[i].req), us[i].written) else UsedElem(us[i].id, us[i].written))
  }

  ghost predicate AllStored(mem: seq<Desc>, cookies: seq<nat>, modern: bool, q: Queue) {
    && (forall r: Request :: r in q.avail ==> RequestStored(mem, cookies, modern, r))
    && (forall r: Request :: r in q.held ==> RequestStored(mem, cookies, modern, r))
    && (forall u: Posted :: u in q.used && u.Posted? ==> RequestStored(mem, cookies, modern, u.req))
  }

  /** What a ring slot means once its byte order is undone. */
  function AvailRead(modern: bool, ring: seq<u16>): seq<nat> {
    seq(|ring|, i requires 0 <= i < |ring| => Vr16(modern, ring[i]) as nat)
  }

  function UsedRead(modern: bool, ring: seq<UsedElem>): seq<UsedElem> {
    seq(|ring|, i requires 0 <= i < |ring| => UsedElem(Vr32(modern, ring[i].id), Vr32(modern, ring[i].len)))
  }

  /** Everything the driver and the device keep in memory for one queue. */
  datatype Image = Image(
    modern: bool,
    desc: seq<Desc>, availRing: seq<u16>, usedRing: seq<UsedElem>, cookies: seq<nat>,
    availIdx: u16, usedIdx: u16, freeHead: u16, numFree: nat, lastUsedIdx: u16,
    deviceIdx: u16,             // the device's own count of avail entries it fetched
    deviceHeld: seq<u16>)       // and the heads it has fetched and not completed

  ghost predicate Counters(m: Image, q: Queue) {
    && m.numFree == |q.free|
    && m.availIdx == Vr16(m.modern, AvailIdx(q))
    && m.usedIdx == Vr16(m.modern, UsedIdx(q))
    && m.lastUsedIdx == LastUsedIdx(q)
    && |q.avail| <= |q.submitted|
    && m.deviceIdx == Fetched(q) % TWO_16
    && m.deviceHeld == Heads(q.held)
  }

  /** How many requests the device has fetched so far. */
  function Fetched(q: Queue): nat {
    if |q.avail| <= |q.submitted| then |q.submitted| - |q.avail| else 0
  }

  /** The rings hold the waiting entries: published heads not fetched, used entries not harvested. */
  ghost predicate RingsStored(m: Image, q: Queue) {
    && RingHolds<nat>(AvailRead(m.modern, m.availRing), Fetched(q), Heads(q.avail))
    && (forall u: Posted :: u in q.used && u.Posted? ==> HeadOf(u.req) < TWO_32)
    && RingHolds<UsedElem>(UsedRead(m.modern, m.usedRing), |q.returned| + q.skipped, UsedEntries(q.used))
  }

  /** The memory image m represents the queue q. */
  ghost predicate Represents(m: Image, q: Queue) {
    && |m.desc| == |m.availRing| == |m.usedRing| == |m.cookies| == q.num
    && Counters(m, q)
    && FreeLinked(m.desc, m.freeHead, q.free)
    && AllStored(m.desc, m.cookies, m.modern, q)
    && RingsStored(m, q)
  }

  // ------------------------------------------------------------------ memory after a step

  /** A request none of whose descriptors changed is still stored. */
  lemma RequestUntouched(mem: seq<Desc>, mem': seq<Desc>, cookies: seq<nat>, cookies': seq<nat>, modern: bool,
                         r: Request)
    requires RequestStored(mem, cookies, modern, r)
    requires |mem'| == |mem| && |cookies'| == |cookies|
    requires forall d :: d in r.chain && d < |mem| ==> mem'[d] == mem[d]
    requires cookies'[r.chain[0]] == cookies[r.chain[0]]
    ensures RequestStored(mem', cookies', modern, r)
  {
    forall n | 0 <= n < |r.chain|
      ensures r.chain[n] < |mem'| && EntryStored(mem'[r.chain[n]], modern, r, n)
    {
      assert r.chain[n] in r.chain;
    }
  }

  /** The first n entries of r have been written over the first n free descriptors. */
  ghost predicate ChainWritten(mem: seq<Desc>, mem': seq<Desc>, free: seq<nat>, n: nat, modern: bool, r: Request)
  {
    && n <= |r.chain| == |r.sg| && |r.chain| <= |free| && |mem'| == |mem|
    && r.chain == free[..|r.chain|]
    && (forall k :: 0 <= k < n ==> free[k] < |mem| && EntryStored(mem'[free[k]], modern, r, k))
    && (forall d :: 0 <= d < |mem| && d !in free[..n] ==> mem'[d] == mem[d])
  }

  lemma WriteOneMore(mem: seq<Desc>, now: seq<Desc>, free: seq<nat>, n: nat, modern: bool, r: Request, d: Desc)
    requires ChainWritten(mem, now, free, n, modern, r) && n < |r.chain|
    requires forall i, j :: 0 <= i < j < |free| ==> free[i] != free[j]
    requires free[n] < |mem| && EntryStored(d, modern, r, n)
    ensures ChainWritten(mem, now[free[n] := d], free, n + 1, modern, r)
  {
    assert free[..n + 1] == free[..n] + [free[n]];
  }

  lemma NothingWritten(mem: seq<Desc>, free: seq<nat>, modern: bool, r: Request)
    requires |r.chain| == |r.sg| <= |free| && r.chain == free[..|r.chain|]
    ensures ChainWritten(mem, mem, free, 0, modern, r)
  {
  }

  /** The next descriptor to write is still as it was, and leads on to the one after it. */
  lemma NextToWrite(mem: seq<Desc>, now: seq<Desc>, head: u16, free: seq<nat>, n: nat, modern: bool, r: Request)
    requires FreeLinked(mem, head, free) && ChainWritten(mem, now, free, n, modern, r) && n < |r.chain|
    requires forall i, j :: 0 <= i < j < |free| ==> free[i] != free[j]
    ensures |now| == |mem| && free[n] < |mem| && now[free[n]] == mem[free[n]] && r.chain[n] == free[n]
    ensures n + 1 < |free| ==> mem[free[n]].next == free[n + 1]
    ensures n == 0 ==> head == free[0]
  {
    assert free[n] !in free[..n];
  }

  lemma EntryWritten(d: Desc, modern: bool, r: Request, n: nat)
    requires n < |r.chain| == |r.sg|
    requires d.addr == Vr64(modern, r.sg[n].addr) && d.len == Vr32(modern, r.sg[n].len)
    requires d.flags == Vr16(modern, ChainFlags(n, r.outNum, |r.sg|))
    requires n + 1 < |r.chain| ==> r.chain[n + 1] < TWO_16 && d.next == Vr16(modern, r.chain[n + 1])
    ensures EntryStored(d, modern, r, n)
  {
  }

  lemma InFlightAvoidsFree(q: Queue, r: Request)
    requires Inv(q)
    requires r in q.avail || r in q.held || (exists u :: u in q.used && u.Posted? && u.req == r)
    ensures forall d :: d in r.chain ==> d !in q.free && d < q.num
    ensures r.chain != []
  {
    if u :| u in q.used && u.Posted? && u.req == r {
      CompletedHas(q.used, u);
      assert WellFormed(q, u.req);
    } else {
      assert WellFormed(q, r);
    }
    forall d | d in r.chain ensures d !in q.free && d < q.num { Separate(q, r, d); }
  }

  /** A request in flight is still stored after AddBuf's stores over free descriptors. */
  lemma StillStoredAfterAdd(mem: seq<Desc>, mem': seq<Desc>, cookies: seq<nat>, cookies': seq<nat>, modern: bool,
                            q: Queue, r: Request, x: Request)
    requires Inv(q) && RequestStored(mem, cookies, modern, x)
    requires x in q.avail || x in q.held || (exists u :: u in q.used && u.Posted? && u.req == x)
    requires |mem| == q.num == |cookies|
    requires 0 < |r.chain| && ChainWritten(mem, mem', q.free, |r.chain|, modern, r)
    requires r.chain[0] < q.num && cookies' == cookies[r.chain[0] := r.cookie]
    ensures RequestStored(mem', cookies', modern, x)
  {
    hide Inv, EntryStored;
    InFlightAvoidsFree(q, x);
    assert r.chain[0] == q.free[0] && r.chain[0] in q.free;
    assert x.chain[0] in x.chain;
    forall d | d in x.chain && d < |mem| ensures mem'[d] == mem[d] { assert d !in q.free[..|r.chain|]; }
    RequestUntouched(mem, mem', cookies, cookies', modern, x);
  }

  /** After AddBuf's stores the old requests are still stored, and so is the new one. */
  lemma StoredAfterAdd(mem: seq<Desc>, mem': seq<Desc>, cookies: seq<nat>, cookies': seq<nat>, modern: bool,
                       q: Queue, r: Request)
    requires Inv(q) && AllStored(mem, cookies, modern, q)
    requires |mem| == q.num == |cookies|
    requires 0 < |r.chain| && ChainWritten(mem, mem', q.free, |r.chain|, modern, r)
    requires r.chain[0] < q.num && cookies' == cookies[r.chain[0] := r.cookie]
    requires forall d :: d in q.free ==> d < q.num
    ensures AllStored(mem', cookies', modern, q) && RequestStored(mem', cookies', modern, r)
  {
    hide Inv, RequestStored, ChainWritten;
    NewStored(mem, mem', cookies', modern, q, r);
    forall x: Request | x in q.avail ensures RequestStored(mem', cookies', modern, x) {
      StillStoredAfterAdd(mem, mem', cookies, cookies', modern, q, r, x);
    }
    forall x: Request | x in q.held ensures RequestStored(mem', cookies', modern, x) {
      StillStoredAfterAdd(mem, mem', cookies, cookies', modern, q, r, x);
    }
    forall u: Posted | u in q.used && u.Posted? ensures RequestStored(mem', cookies', modern, u.req) {
      StillStoredAfterAdd(mem, mem', cookies, cookies', modern, q, r, u.req);
    }
  }

  lemma NewStored(mem: seq<Desc>, mem': seq<Desc>, cookies': seq<nat>, modern: bool, q: Queue, r: Request)
    requires 0 < |r.chain| && ChainWritten(mem, mem', q.free, |r.chain|, modern, r)
    requires r.chain[0] < |cookies'| && cookies'[r.chain[0]] == r.cookie
    ensures RequestStored(mem', cookies', modern, r)
  {
    hide EntryStored;
    forall k | 0 <= k < |r.chain| ensures r.chain[k] < |mem'| && EntryStored(mem'[r.chain[k]], modern, r, k) {
      assert r.chain[k] == q.free[k];
    }
  }

  lemma FreeAfterAdd(mem: seq<Desc>, mem': seq<Desc>, modern: bool, q: Queue, r: Request, head: u16, head': u16)
    requires Partition(q) && |mem| == q.num
    requires FreeLinked(mem, head, q.free)
    requires ChainWritten(mem, mem', q.free, |r.chain|, modern, r)
    requires q.free[|r.chain|..] != [] ==> head' == q.free[|r.chain|]
    ensures FreeLinked(mem', head', q.free[|r.chain|..])
  {
    FreeOnce(q);
    var t := |r.chain|;
    var rest := q.free[t..];
    forall i | 0 <= i < |rest| - 1 ensures mem'[rest[i]].next == rest[i + 1] {
      assert rest[i] == q.free[t + i] && rest[i + 1] == q.free[t + i + 1];
      assert rest[i] !in q.free[..t];
    }
  }

  /** AddBuf after its loop: the table holds the new request, the rings do not know it yet. */
  ghost predicate Taken(m: Image, m': Image, q: Queue, r: Request) {
    && r.chain != [] && |r.chain| <= |q.free| && r.chain == q.free[..|r.chain|]
    && m' == m.(desc := m'.desc, freeHead := m'.freeHead, cookies := m'.cookies, numFree := m'.numFree)
    && |m'.desc| == |m.desc| && |m'.cookies| == |m.cookies|
    && m'.numFree == |q.free| - |r.chain|
    && FreeLinked(m'.desc, m'.freeHead, q.free[|r.chain|..])
    && AllStored(m'.desc, m'.cookies, m.modern, q)
    && RequestStored(m'.desc, m'.cookies, m.modern, r)
  }

  lemma TakenByAdd(m: Image, m': Image, q: Queue, r: Request)
    requires Inv(q) && Represents(m, q)
    requires r.chain != [] && ChainWritten(m.desc, m'.desc, q.free, |r.chain|, m.modern, r)
    requires q.free[|r.chain|..] != [] ==> m'.freeHead == q.free[|r.chain|]
    requires r.chain[0] < |m.cookies|
    requires m' == m.(desc := m'.desc, freeHead := m'.freeHead, cookies := m.cookies[r.chain[0] := r.cookie],
                      numFree := m.numFree - |r.chain|)
    ensures Taken(m, m', q, r)
  {
    assert forall d :: d in q.free ==> d < q.num by { FreeOnce(q); }
    StoredAfterAdd(m.desc, m'.desc, m.cookies, m'.cookies, m.modern, q, r);
    FreeAfterAdd(m.desc, m'.desc, m.modern, q, r, m.freeHead, m'.freeHead);
  }

  lemma RepresentsAfterAdd(m: Image, taken: Image, m': Image, q: Queue, q': Queue, r: Request)
    requires Represents(m, q) && Taken(m, taken, q, r)
    requires q' == q.(free := q.free[|r.chain|..], avail := q.avail + [r],
                      submitted := q.submitted + [Submission(r.sg, r.outNum, r.cookie)])
    requires m' == taken.(availRing := m'.availRing,
                          availIdx := Vr16(m.modern, (Fetched(q) + |Heads(q.avail)| + 1) % TWO_16))
    requires |m'.availRing| == |m.availRing|
    requires RingHolds<nat>(AvailRead(m.modern, m'.availRing), Fetched(q), Heads(q.avail) + [r.chain[0]])
    ensures Represents(m', q')
  {
    hide RequestStored, FreeLinked, RingHolds, Vr16;
    assert Heads(q'.avail) == Heads(q.avail) + [r.chain[0]];
    assert forall x :: x in q'.avail ==> x == r || x in q.avail;
  }

  /** What AddBuf relies on once it has seen enough free descriptors. */
  lemma ReadyToTake(m: Image, q: Queue)
    requires Inv(q) && Represents(m, q) && q.free != []
    ensures |m.desc| == |m.cookies| == q.num <= 32768
    ensures FreeLinked(m.desc, m.freeHead, q.free)
    ensures forall i, j :: 0 <= i < j < |q.free| ==> q.free[i] != q.free[j]
    ensures q.free[0] < q.num && m.numFree == |q.free|
  {
    FreeOnce(q);
    InFlightFits(q);
  }

  lemma ReadyToPublish(m: Image, q: Queue)
    requires Inv(q) && Represents(m, q)
    ensures m.numFree == |q.free|
    ensures RingSize(q.num) && |m.availRing| == q.num && (q.free != [] ==> |Heads(q.avail)| < q.num)
    ensures m.availIdx == Vr16(m.modern, (Fetched(q) + |Heads(q.avail)|) % TWO_16)
    ensures RingHolds<nat>(AvailRead(m.modern, m.availRing), Fetched(q), Heads(q.avail))
  {
    InFlightFits(q);
  }

  // ------------------------------------------------------------------ GetBuf

  /** The chain being harvested shares no descriptor with anything still in flight. */
  lemma HarvestedApart(q: Queue, x: Request)
    requires Partition(q) && q.used != [] && q.used[0].Posted?
    requires x in q.avail || x in q.held || (exists u :: u in q.used[1..] && u.Posted? && u.req == x)
    ensures forall d :: d in q.used[0].req.chain ==> d !in x.chain
  {
    forall d | d in q.used[0].req.chain ensures d !in x.chain {
      assert Owners(q, d) == OneBelow(d, q.num);
      var rest := Completed(q.used[1..]);
      assert Completed(q.used) == [q.used[0].req] + rest;
      SumsConcat([q.used[0].req], rest, d);
      SumsOne(q.used[0].req, d);
      if u :| u in q.used[1..] && u.Posted? && u.req == x {
        CompletedHas(q.used[1..], u);
        MemberCounts(rest, x, d);
      } else if x in q.avail {
        MemberCounts(q.avail, x, d);
      } else {
        MemberCounts(q.held, x, d);
      }
    }
  }

  /** What GetBuf relies on when the oldest used entry is a real one. */
  lemma ReadyToFree(m: Image, q: Queue)
    requires Inv(q) && Represents(m, q) && q.used != [] && q.used[0].Posted?
    ensures var r := q.used[0].req;
            && RequestStored(m.desc, m.cookies, m.modern, r)
            && (forall i, j :: 0 <= i < j < |r.chain| ==> r.chain[i] != r.chain[j])
            && (forall d :: d in r.chain ==> d !in q.free && d < q.num)
            && m.numFree + |r.chain| <= q.num == |m.desc| <= 32768 && r.cookie != NULL
            && FreeLinked(m.desc, m.freeHead, q.free)
  {
    var r := q.used[0].req;
    assert q.used[0] in q.used;
    InFlightAvoidsFree(q, r);
    CompletedHas(q.used, q.used[0]);
    forall d: nat ensures Times(r.chain, d) <= 1 {
      if d in r.chain { Separate(q, r, d); }
    }
    AtMostOnce(r.chain);
  }

  lemma CookieStored(m: Image, r: Request)
    requires RequestStored(m.desc, m.cookies, m.modern, r)
    ensures ChainStored(m.desc, m.modern, r)
    ensures r.chain != [] && r.chain[0] < |m.cookies| && m.cookies[r.chain[0]] == r.cookie
  {
  }

  /** The first n descriptors of chain have been pushed onto the free chain. */
  ghost predicate ChainFreed(mem: seq<Desc>, mem': seq<Desc>, head': u16, free: seq<nat>, chain: seq<nat>, n: nat) {
    && n <= |chain| && |mem'| == |mem|
    && FreeLinked(mem', head', Reversed(chain[..n]) + free)
    && (forall d :: 0 <= d < |mem| && d !in chain[..n] ==> mem'[d] == mem[d])
  }

  lemma FreedNone(mem: seq<Desc>, head: u16, free: seq<nat>, chain: seq<nat>)
    requires FreeLinked(mem, head, free)
    ensures ChainFreed(mem, mem, head, free, chain, 0)
  {
    assert Reversed(chain[..0]) + free == free;
  }

  lemma FreeOneMore(mem: seq<Desc>, now: seq<Desc>, head: u16, free: seq<nat>, chain: seq<nat>, n: nat)
    requires ChainFreed(mem, now, head, free, chain, n) && n < |chain|
    requires forall i, j :: 0 <= i < j < |chain| ==> chain[i] != chain[j]
    requires forall d :: d in chain ==> d !in free
    requires chain[n] < |mem| && chain[n] < TWO_16
    ensures ChainFreed(mem, now[chain[n] := Desc(0, 0, 0, head)], chain[n], free, chain, n + 1)
  {
    var list := Reversed(chain[..n]) + free;
    assert chain[..n + 1] == chain[..n] + [chain[n]];
    ReversedConcat(chain[..n], [chain[n]]);
    assert Reversed([chain[n]]) == [chain[n]];
    var list' := Reversed(chain[..n + 1]) + free;
    assert list' == [chain[n]] + list;
    assert chain[n] in chain;
    forall i | 0 <= i < |list| ensures list[i] != chain[n] {
      if i < n {
        assert list[i] in Reversed(chain[..n]);
        assert list[i] in chain[..n] by { ReversedSame(chain[..n], list[i]); }
      }
    }
  }

  lemma {:induction false} ReversedSame(s: seq<nat>, d: nat)
    ensures d in Reversed(s) <==> d in s
  {
    ReversedTimes(s, d);
  }

  /** What the freeing loop reads from the n-th descriptor of a stored chain. */
  lemma ChainReads(mem: seq<Desc>, now: seq<Desc>, head: u16, free: seq<nat>, modern: bool, r: Request, n: nat)
    requires ChainStored(mem, modern, r) && n < |r.chain|
    requires ChainFreed(mem, now, head, free, r.chain, n)
    requires forall i, j :: 0 <= i < j < |r.chain| ==> r.chain[i] != r.chain[j]
    ensures r.chain[n] < |now| == |mem|
    ensures Vr16(modern, now[r.chain[n]].flags) == ChainFlags(n, r.outNum, |r.chain|)
    ensures n + 1 < |r.chain| ==> Vr16(modern, now[r.chain[n]].next) == r.chain[n + 1]
  {
    assert r.chain[n] !in r.chain[..n];
    assert EntryStored(mem[r.chain[n]], modern, r, n);
    Vr16Twice(modern, ChainFlags(n, r.outNum, |r.sg|));
    if n + 1 < |r.chain| {
      Vr16Twice(modern, r.chain[n + 1]);
    }
  }

  /** Harvesting one chain leaves every other request stored. */
  lemma StoredAfterGet(m: Image, m': Image, q: Queue, q': Queue, r: Request)
    requires Inv(q) && AllStored(m.desc, m.cookies, m.modern, q)
             && q.used != [] && q.used[0] == Posted(r, q.used[0].written)
    requires q'.avail == q.avail && q'.held == q.held && q'.used == q.used[1..]
    requires r.chain != [] && r.chain[0] < |m.cookies| && m'.cookies == m.cookies[r.chain[0] := NULL]
    requires |m'.desc| == |m.desc| && forall d :: 0 <= d < |m.desc| && d !in r.chain ==> m'.desc[d] == m.desc[d]
    ensures AllStored(m'.desc, m'.cookies, m.modern, q')
  {
    forall x: Request | x in q.avail || x in q.held || (exists u :: u in q.used[1..] && u.Posted? && u.req == x)
      ensures RequestStored(m'.desc, m'.cookies, m.modern, x)
    {
      assert RequestStored(m.desc, m.cookies, m.modern, x);
      HarvestedApart(q, x);
      assert x.chain[0] in x.chain && r.chain[0] in r.chain;
      RequestUntouched(m.desc, m'.desc, m.cookies, m'.cookies, m.modern, x);
    }
  }

  lemma CountersAfterGet(m: Image, m': Image, q: Queue, q': Queue, freed: nat)
    requires Counters(m, q) && |q'.free| == |q.free| + freed
    requires q'.avail == q.avail && q'.held == q.held && q'.submitted == q.submitted && |q'.used| + 1 == |q.used|
    requires |q'.returned| + q'.skipped == |q.returned| + q.skipped + 1
    requires m' == m.(desc := m'.desc, freeHead := m'.freeHead, cookies := m'.cookies,
                      numFree := m.numFree + freed, lastUsedIdx := (m.lastUsedIdx + 1) % TWO_16)
    ensures Counters(m', q')
  {
    hide Vr16, Heads;
    assert AvailIdx(q') == AvailIdx(q) && UsedIdx(q') == UsedIdx(q) && Fetched(q') == Fetched(q);
  }

  /** After GetBuf's stores. */
  lemma RepresentsAfterGet(m: Image, m': Image, q: Queue, q': Queue)
    requires Inv(q) && Represents(m, q) && q.used != [] && q.used[0].Posted?
    requires q' == Step(q, VirtqueueModel.GetBuf)
    requires var r := q.used[0].req;
             && r.chain != [] && r.chain[0] < |m.cookies|
             && ChainFreed(m.desc, m'.desc, m'.freeHead, q.free, r.chain, |r.chain|)
             && m' == m.(desc := m'.desc, freeHead := m'.freeHead, cookies := m.cookies[r.chain[0] := NULL],
                         numFree := m.numFree + |r.chain|, lastUsedIdx := (m.lastUsedIdx + 1) % TWO_16)
    ensures Represents(m', q')
  {
    hide Inv, Counters, FreeLinked, AllStored, RingHolds;
    var r := q.used[0].req;
    assert r.chain[..|r.chain|] == r.chain;
    StoredAfterGet(m, m', q, q', r);
    CountersAfterGet(m, m', q, q', |r.chain|);
    RingsAfterGet(m, q);
  }

  lemma RingsAfterGet(m: Image, q: Queue)
    requires RingsStored(m, q) && q.used != [] && |m.usedRing| > 0
    ensures forall u: Posted :: u in q.used[1..] && u.Posted? ==> HeadOf(u.req) < TWO_32
    ensures RingHolds<UsedElem>(UsedRead(m.modern, m.usedRing), |q.returned| + q.skipped + 1, UsedEntries(q.used[1..]))
    ensures UsedRead(m.modern, m.usedRing)[(|q.returned| + q.skipped) % |m.usedRing|] == UsedEntries(q.used)[0]
  {
    RingPop(UsedRead(m.modern, m.usedRing), |q.returned| + q.skipped, UsedEntries(q.used));
    assert UsedEntries(q.used)[1..] == UsedEntries(q.used[1..]);
  }

  /** Dropping a bogus entry moves nothing but last_used_idx. */
  lemma RepresentsAfterSkip(m: Image, m': Image, q: Queue, q': Queue)
    requires Represents(m, q) && q.num > 0 && q.used != [] && q.used[0].Bogus?
    requires q' == Step(q, VirtqueueModel.GetBuf)
    requires m' == m.(lastUsedIdx := (m.lastUsedIdx + 1) % TWO_16)
    ensures Represents(m', q')
  {
    hide Counters, FreeLinked, RequestStored, RingHolds;
    CountersAfterGet(m, m', q, q', 0);
    RingsAfterGet(m, q);
  }

  /** What the driver reads from the used ring. */
  lemma ReadyToGet(m: Image, q: Queue)
    requires Inv(q) && Represents(m, q)
    ensures RingSize(q.num) && |m.usedRing| == |m.desc| == |m.cookies| == q.num
    ensures m.lastUsedIdx == Vr16(m.modern, m.usedIdx) <==> q.used == []
    ensures q.used != [] ==>
              && var e := m.usedRing[m.lastUsedIdx % q.num];
              && (q.used[0].Posted? ==> Vr32(m.modern, e.id) == HeadOf(q.used[0].req) < q.num)
              && (q.used[0].Bogus? ==> Vr32(m.modern, e.id) == q.used[0].id >= q.num)
              && Vr32(m.modern, e.len) == q.used[0].written
  {
    EmptyTest(q);
    Vr16Twice(m.modern, UsedIdx(q));
    if q.used != [] {
      if q.used[0].Posted? { ReadyToFree(m, q); }
      assert q.used[0] in q.used;
      RingsAfterGet(m, q);
      SlotAfterWrap(|q.returned| + q.skipped, q.num);
    }
  }

  // ------------------------------------------------------------------ the device's side

  /** One entry of a scatter-gather list as the device takes it. */
  datatype Entry = Entry(addr: u64, len: u32, writable: bool)

  /** The caller's list: its first outNum entries for the device to read, the rest to write. */
  function Listed(sg: seq<Sg>, outNum: nat): (es: seq<Entry>)
    ensures |es| == |sg|
  {
    seq(|sg|, i requires 0 <= i < |sg| => Entry(sg[i].addr, sg[i].len, i >= outNum))
  }

  lemma DescriptorReads(mem: seq<Desc>, modern: bool, r: Request, n: nat)
    requires ChainStored(mem, modern, r) && n < |r.chain|
    ensures r.chain[n] < |mem| && |r.chain| == |r.sg|
    ensures var d, flags := mem[r.chain[n]], DeviceLoad(modern, mem[r.chain[n]].flags, 2);
            && DeviceLoad(modern, d.addr, 8) < TWO_64 && DeviceLoad(modern, d.len, 4) < TWO_32
            && Entry(DeviceLoad(modern, d.addr, 8), DeviceLoad(modern, d.len, 4), flags / 2 % 2 == 1)
               == Listed(r.sg, r.outNum)[n]
            && flags % 2 == (if n + 1 < |r.chain| then 1 else 0)
            && (n + 1 < |r.chain| ==> DeviceLoad(modern, d.next, 2) == r.chain[n + 1])
  {
    hide Vr16, Vr32, Vr64, DeviceLoad, DeviceStore;
    assert EntryStored(mem[r.chain[n]], modern, r, n);
    Vr64Meets(modern, r.sg[n].addr);
    Vr32Meets(modern, r.sg[n].len);
    Vr16Meets(modern, ChainFlags(n, r.outNum, |r.sg|));
    if n + 1 < |r.chain| {
      Vr16Meets(modern, r.chain[n + 1]);
    }
  }

  lemma FetchedTest(m: Image, q: Queue)
    requires Inv(q) && Counters(m, q)
    ensures m.deviceIdx == Vr16(m.modern, m.availIdx) <==> q.avail == []
  {
    hide Inv, Vr16, InFlightCount;
    InFlightFits(q);
    AvailWithin(q);
    Vr16Twice(m.modern, AvailIdx(q));
    assert |q.submitted| == Fetched(q) + |q.avail|;
    CutEqual(Fetched(q), |q.avail|);
  }

  lemma AvailWithin(q: Queue)
    ensures |q.avail| <= InFlightCount(q)
  {
  }

  /** Counts less than 65536 apart are equal when cut to 16 bits only if they are equal. */
  lemma CutEqual(a: nat, k: nat)
    requires k < TWO_16
    ensures a % TWO_16 == (a + k) % TWO_16 <==> k == 0
  {
  }

  lemma FetchedSlot(m: Image, q: Queue)
    requires RingSize(q.num) && RingsStored(m, q) && q.avail != [] && |m.availRing| == q.num
    requires m.deviceIdx == Fetched(q) % TWO_16
    ensures Vr16(m.modern, m.availRing[m.deviceIdx % q.num]) == HeadOf(q.avail[0])
    ensures RingHolds<nat>(AvailRead(m.modern, m.availRing), Fetched(q) + 1, Heads(q.avail[1..]))
  {
    hide Vr16, RingHolds;
    SlotAfterWrap(Fetched(q), q.num);
    RingPop(AvailRead(m.modern, m.availRing), Fetched(q), Heads(q.avail));
    assert Heads(q.avail)[1..] == Heads(q.avail[1..]);
  }

  /** The oldest published request carries the list and the cookie of its AddBuf. */
  lemma OldestIsSubmitted(q: Queue)
    requires Inv(q) && q.avail != []
    ensures var r := q.avail[0];
            r.ticket < |q.submitted| && q.submitted[r.ticket] == Submission(r.sg, r.outNum, r.cookie)
  {
    hide Partition, Accounted, Truthful;
    assert WellFormed(q, q.avail[0]);
  }

  /** The device's emptiness test and its read of the next avail slot. */
  lemma ReadyToFetch(m: Image, q: Queue)
    requires Inv(q) && Represents(m, q)
    ensures RingSize(q.num) && |m.availRing| == |m.desc| == q.num <= 32768 && q.num > 0
    ensures m.deviceIdx == Vr16(m.modern, m.availIdx) <==> q.avail == []
    ensures q.avail != [] ==>
              && Vr16(m.modern, m.availRing[m.deviceIdx % q.num]) == HeadOf(q.avail[0])
              && ChainStored(m.desc, m.modern, q.avail[0]) && q.avail[0].chain != []
  {
    hide Vr16, RingsStored, FreeLinked, Partition, Accounted, Truthful, AllWellFormed;
    FetchedTest(m, q);
    if q.avail != [] {
      FetchedSlot(m, q);
      assert RequestStored(m.desc, m.cookies, m.modern, q.avail[0]);
    }
  }

  lemma HeadsSnoc(rs: seq<Request>, r: Request)
    ensures Heads(rs + [r]) == Heads(rs) + [HeadOf(r)]
  {
  }

  lemma CountersAfterFetch(m: Image, m': Image, q: Queue, q': Queue)
    requires Counters(m, q) && q.avail != [] && q' == Step(q, Fetch)
    requires HeadOf(q.avail[0]) < TWO_16
    requires m' == m.(deviceIdx := (m.deviceIdx + 1) % TWO_16, deviceHeld := m.deviceHeld + [HeadOf(q.avail[0])])
    ensures Counters(m', q') && Fetched(q') == Fetched(q) + 1
  {
    hide Vr16, Heads, HeadOf;
    HeadsSnoc(q.held, q.avail[0]);
  }

  lemma StoredAfterFetch(m: Image, q: Queue)
    requires AllStored(m.desc, m.cookies, m.modern, q) && q.avail != []
    ensures AllStored(m.desc, m.cookies, m.modern, Step(q, Fetch))
  {
    hide RequestStored;
    var q' := Step(q, Fetch);
    assert forall x :: x in q'.avail ==> x in q.avail;
    assert forall x :: x in q'.held ==> x in q.held || x == q.avail[0];
  }

  lemma RepresentsAfterFetch(m: Image, m': Image, q: Queue, q': Queue)
    requires Represents(m, q) && RingSize(q.num) && q.avail != []
    requires q' == Step(q, Fetch)
    requires HeadOf(q.avail[0]) < TWO_16
    requires m' == m.(deviceIdx := (m.deviceIdx + 1) % TWO_16, deviceHeld := m.deviceHeld + [HeadOf(q.avail[0])])
    ensures Represents(m', q')
  {
    hide AllStored, FreeLinked, RingHolds, UsedRead, AvailRead, UsedEntries, RingSize, Heads, HeadOf, Counters, Fetched;
    FetchedCounter(m, q);
    FetchedSlot(m, q);
    CountersAfterFetch(m, m', q, q');
    StoredAfterFetch(m, q);
  }

  lemma FetchedCounter(m: Image, q: Queue)
    requires Counters(m, q)
    ensures m.deviceIdx == Fetched(q) % TWO_16
  {
  }

  lemma ReadyToPost(m: Image, q: Queue)
    requires Inv(q) && Represents(m, q)
    ensures RingSize(q.num) && |m.usedRing| == q.num
    ensures forall u: Posted :: u in q.used && u.Posted? ==> HeadOf(u.req) < TWO_32
    ensures |UsedEntries(q.used)| == |q.used| && m.deviceHeld == Heads(q.held)
    ensures m.usedIdx == Vr16(m.modern, (|q.returned| + q.skipped + |UsedEntries(q.used)|) % TWO_16)
    ensures RingHolds<UsedElem>(UsedRead(m.modern, m.usedRing), |q.returned| + q.skipped, UsedEntries(q.used))
  {
  }

  lemma NextCount(n: nat)
    ensures (n % TWO_16 + 1) % TWO_16 == (n + 1) % TWO_16
  {
  }

  /** What the used ring means after one of its slots has been stored. */
  lemma UsedStored(modern: bool, ring: seq<UsedElem>, k: nat, id: u32, written: u32)
    requires k < |ring|
    ensures |UsedRead(modern, ring)| == |ring|
    ensures UsedRead(modern, ring[k := UsedElem(Vr32(modern, id), Vr32(modern, written))])
            == UsedRead(modern, ring)[k := UsedElem(id, written)]
  {
    hide Vr32;
    Vr32Twice(modern, id);
    Vr32Twice(modern, written);
  }

  lemma HeadsOmit(rs: seq<Request>, k: nat)
    requires k < |rs|
    ensures Heads(rs)[k] == HeadOf(rs[k])
    ensures Heads(rs[..k] + rs[k + 1..]) == Heads(rs)[..k] + Heads(rs)[k + 1..]
  {
  }

  /** u joins the used ring; the requests held are those held before, less the one completed. */
  lemma RepresentsAfterPost(m: Image, m': Image, q: Queue, q': Queue, u: Posted)
    requires Represents(m, q) && |q.used| < q.num
    requires u.Posted? ==> u.req in q.held
    requires u.Bogus? ==> u.id < TWO_32
    requires q' == q.(held := q'.held, used := q.used + [u], written := q'.written)
    requires forall x :: x in q'.held ==> x in q.held
    requires m'.deviceHeld == Heads(q'.held)
    requires m' == m.(usedRing := m'.usedRing, deviceHeld := m'.deviceHeld,
                      usedIdx := Vr16(m.modern, (|q.returned| + q.skipped + |q.used| + 1) % TWO_16))
    requires |m'.usedRing| == |m.usedRing|
    requires (if u.Posted? then HeadOf(u.req) else u.id) < TWO_32
    requires RingHolds<UsedElem>(UsedRead(m.modern, m'.usedRing), |q.returned| + q.skipped,
                                 UsedEntries(q.used) + [UsedElem(if u.Posted? then HeadOf(u.req) else u.id, u.written)])
    ensures Represents(m', q')
  {
    hide RequestStored, FreeLinked, RingHolds, Vr16;
    assert forall x :: x in q'.used ==> x == u || x in q.used;
    assert UsedEntries(q'.used)
           == UsedEntries(q.used) + [UsedElem(if u.Posted? then HeadOf(u.req) else u.id, u.written)];
  }

  lemma RepresentsInit(m: Image, num: nat)
    requires RingSize(num) && |m.desc| == |m.availRing| == |m.usedRing| == |m.cookies| == num
    requires m.availIdx == m.usedIdx == m.lastUsedIdx == m.deviceIdx == m.freeHead == 0 && m.numFree == num
    requires m.deviceHeld == []
    requires forall i :: 0 <= i < num - 1 ==> m.desc[i].next == i + 1
    ensures Represents(m, Init(num))
  {
    Vr16OfZero(m.modern);
  }

  class VirtQueue {
    const num: nat
    const desc: array<Desc>
    const availRing: array<u16>
    const usedRing: array<UsedElem>
    const cookies: array<nat>
    var availIdx: u16
    var usedIdx: u16
    var freeHead: u16
    var numFree: u16
    var lastUsedIdx: u16
    var modern: bool
    var deviceIdx: u16
    var deviceHeld: seq<u16>
    ghost var q: Queue

    ghost function Memory(): Image
      reads this, desc, availRing, usedRing, cookies
    {
      Image(modern, desc[..], availRing[..], usedRing[..], cookies[..],
            availIdx, usedIdx, freeHead, numFree, lastUsedIdx, deviceIdx, deviceHeld)
    }

    ghost predicate Valid()
      reads this, desc, availRing, usedRing, cookies
    {
      && q.num == num && availRing as object != cookies as object
      && Inv(q)
      && Represents(Memory(), q)
    }

    constructor Allocate(queueSize: nat)
      requires RingSize(queueSize)
      ensures Valid() && !modern && q == Init(queueSize)
      ensures fresh(desc) && fresh(availRing) && fresh(usedRing) && fresh(cookies)
    {
      num := queueSize;
      desc := new Desc[queueSize](_ => Desc(0, 0, 0, 0));
      availRing := new u16[queueSize](_ => 0);
      usedRing := new UsedElem[queueSize](_ => UsedElem(0, 0));
      cookies := new nat[queueSize](_ => NULL);
      availIdx, usedIdx, deviceIdx := 0, 0, 0;
      freeHead, numFree, lastUsedIdx, deviceHeld := 0, queueSize, 0, [];
      modern := false;
      q := Init(queueSize);
      new;
      for j := 0 to queueSize - 1
        modifies desc
        invariant forall i :: 0 <= i < j ==> desc[i].next == i + 1
      {
        desc[j] := desc[j].(next := j + 1);
      }
      desc[queueSize - 1] := desc[queueSize - 1].(next := 0);
      hide Inv, Represents;
      InitKeeps(queueSize);
      RepresentsInit(Memory(), queueSize);
    }

    /** chip_virtio_init sets the flag once, on a queue nobody has used yet. */
    method SetModern()
      requires Valid() && q == Init(num)
      modifies this`modern
      ensures Valid() && modern
    {
      modern := true;
      Vr16OfZero(true);
    }

    /** The loop of AddBuf: lays sg over the first free descriptors. */
    method WriteChain(sg: seq<Sg>, outNum: nat, ghost r: Request) returns (head: u16)
      requires desc.Length == num <= 32768
      requires FreeLinked(desc[..], freeHead, q.free)
      requires forall i, j :: 0 <= i < j < |q.free| ==> q.free[i] != q.free[j]
      requires 0 < |sg| <= |q.free|
      requires r.sg == sg && r.outNum == outNum && r.chain == q.free[..|sg|]
      modifies this`freeHead, desc
      ensures head == q.free[0]
      ensures ChainWritten(old(desc[..]), desc[..], q.free, |sg|, modern, r)
      ensures q.free[|sg|..] != [] ==> freeHead == q.free[|sg|]
    {
      hide Vr16, Vr32, Vr64, FreeLinked, ChainWritten, EntryStored;
      var total := |sg|;
      head := freeHead;
      var idx := head;
      ghost var mem := desc[..];
      NothingWritten(mem, q.free, modern, r);
      NextToWrite(mem, mem, head, q.free, 0, modern, r);
      for n := 0 to total
        invariant n < total ==> idx == q.free[n]
        invariant n == total && total < |q.free| ==> freeHead == q.free[total]
        invariant ChainWritten(mem, desc[..], q.free, n, modern, r)
      {
        var flags: u16 := 0;
        if n >= outNum { flags := flags + F_WRITE; }
        if n < total - 1 { flags := flags + F_NEXT; }
        NextToWrite(mem, desc[..], head, q.free, n, modern, r);
        var nextIdx := desc[idx].next;
        var d := Desc(Vr64(modern, sg[n].addr), Vr32(modern, sg[n].len), Vr16(modern, flags), nextIdx);
        if n < total - 1 {
          d := d.(next := Vr16(modern, nextIdx));
        }
        ghost var now := desc[..];
        assert n + 1 < total ==> r.chain[n + 1] == q.free[n + 1];
        EntryWritten(d, modern, r, n);
        WriteOneMore(mem, now, q.free, n, modern, r, d);
        desc[idx] := d;
        assert desc[..] == now[q.free[n] := d];
        if n < total - 1 {
          idx := nextIdx;
        } else {
          freeHead := nextIdx;
        }
      }
    }

    /** AddBuf up to the cookie store. */
    method TakeChain(sg: seq<Sg>, outNum: nat, cookie: nat, ghost r: Request) returns (head: u16)
      requires Valid()
      requires 0 < |sg| <= |q.free|
      requires r.sg == sg && r.outNum == outNum && r.chain == q.free[..|sg|] && r.cookie == cookie
      modifies this`freeHead, this`numFree, desc, cookies
      ensures Taken(old(Memory()), Memory(), q, r) && head == r.chain[0]
    {
      hide Inv, Represents, FreeLinked, ChainWritten, Taken;
      ReadyToTake(Memory(), q);
      ghost var before := Memory();
      head := WriteChain(sg, outNum, r);
      numFree := numFree - |sg|;
      cookies[head] := cookie;
      assert Memory() == before.(desc := desc[..], freeHead := freeHead, numFree := numFree,
                                 cookies := before.cookies[r.chain[0] := cookie]);
      TakenByAdd(before, Memory(), q, r);
    }

    /** The end of AddBuf: stores head in the next avail slot, then advances avail.idx. */
    method Publish(head: u16, ghost start: nat, ghost heads: seq<nat>)
      requires RingSize(num) && availRing.Length == num && availRing as object != cookies as object
      requires availIdx == Vr16(modern, (start + |heads|) % TWO_16)
      requires |heads| < num && RingHolds<nat>(AvailRead(modern, availRing[..]), start, heads)
      modifies this`availIdx, availRing
      ensures Memory() == old(Memory()).(availRing := availRing[..],
                                         availIdx := Vr16(modern, (start + |heads| + 1) % TWO_16))
      ensures RingHolds<nat>(AvailRead(modern, availRing[..]), start, heads + [head])
    {
      hide Vr16;
      var count := Vr16(modern, availIdx);
      Vr16Twice(modern, (start + |heads|) % TWO_16);
      SlotAfterWrap(start + |heads|, num);
      ghost var before := AvailRead(modern, availRing[..]);
      availRing[count % num] := Vr16(modern, head);
      Vr16Twice(modern, head);
      assert AvailRead(modern, availRing[..]) == before[Slot(start, |heads|, num) := head];
      RingPush(before, start, heads, head);
      NextCount(start + |heads|);
      availIdx := Vr16(modern, (count + 1) % TWO_16);
    }

    /** AddBuf once it has seen enough free descriptors. */
    method Enqueue(sg: seq<Sg>, outNum: nat, cookie: nat)
      requires Valid()
      requires Acceptable(sg, outNum, cookie) && |sg| <= |q.free|
      modifies this`freeHead, this`numFree, this`availIdx, desc, availRing, cookies
      ensures Represents(Memory(), Step(q, VirtqueueModel.AddBuf(sg, outNum, cookie)))
    {
      hide Inv, Represents, RingHolds, RingSize, Vr16, Taken;
      ghost var before, r := Memory(), NewRequest(q, sg, outNum, cookie);
      ReadyToPublish(before, q);
      var head := TakeChain(sg, outNum, cookie, r);
      ghost var taken := Memory();
      Publish(head, Fetched(q), Heads(q.avail));
      RepresentsAfterAdd(before, taken, Memory(), q, Step(q, VirtqueueModel.AddBuf(sg, outNum, cookie)), r);
    }

    method AddBuf(sg: seq<Sg>, outNum: nat, inNum: nat, cookie: nat) returns (rc: int)
      requires Valid()
      requires |sg| == outNum + inNum && Acceptable(sg, outNum, cookie)
      modifies this`freeHead, this`numFree, this`availIdx, this`q, desc, availRing, cookies
      ensures Valid()
      ensures q == Step(old(q), VirtqueueModel.AddBuf(sg, outNum, cookie))
      ensures rc == if |sg| <= |old(q.free)| then 0 else -1
    {
      hide Inv, Represents, RingHolds, RingSize;
      ReadyToPublish(Memory(), q);
      AddBufKeeps(q, sg, outNum, cookie);
      var total := outNum + inNum;
      if numFree < total {
        return -1;
      }
      Enqueue(sg, outNum, cookie);
      q := Step(q, VirtqueueModel.AddBuf(sg, outNum, cookie));
      rc := 0;
    }

    /** The loop of GetBuf: returns r's chain to the free list. */
    method FreeChain(ghost r: Request, first: u16) returns (freed: nat)
      requires desc.Length == num <= 32768
      requires ChainStored(desc[..], modern, r) && r.chain != [] && first == r.chain[0]
      requires forall i, j :: 0 <= i < j < |r.chain| ==> r.chain[i] != r.chain[j]
      requires forall d :: d in r.chain ==> d !in q.free && d < num
      requires FreeLinked(desc[..], freeHead, q.free)
      modifies this`freeHead, desc
      ensures freed == |r.chain|
      ensures ChainFreed(old(desc[..]), desc[..], freeHead, q.free, r.chain, |r.chain|)
    {
      hide Vr16, ChainFreed, FreeLinked, ChainStored;
      freed := 0;
      var idx := first;
      ghost var mem := desc[..];
      FreedNone(mem, freeHead, q.free, r.chain);
      while true
        invariant freed < |r.chain| && idx == r.chain[freed]
        invariant ChainFreed(mem, desc[..], freeHead, q.free, r.chain, freed)
        decreases |r.chain| - freed
      {
        ChainReads(mem, desc[..], freeHead, q.free, modern, r, freed);
        var next := Vr16(modern, desc[idx].next);
        var hasNext := Vr16(modern, desc[idx].flags) % 2;
        FreeOneMore(mem, desc[..], freeHead, q.free, r.chain, freed);
        ghost var now := desc[..];
        desc[idx] := Desc(0, 0, 0, freeHead);
        assert desc[..] == now[r.chain[freed] := Desc(0, 0, 0, freeHead)];
        freeHead := idx;
        freed := freed + 1;
        if hasNext == 0 {
          break;
        }
        idx := next;
      }
    }

    /** GetBuf once it has seen that descId names a request. */
    method Harvest(descId: u16) returns (cookie: nat)
      requires Valid() && q.used != [] && q.used[0].Posted? && descId == HeadOf(q.used[0].req)
      modifies this`freeHead, this`numFree, this`lastUsedIdx, desc, cookies
      ensures cookie == q.used[0].req.cookie && cookie != NULL
      ensures Represents(Memory(), Step(q, VirtqueueModel.GetBuf))
    {
      hide Inv, Represents, RequestStored, FreeLinked, ChainFreed, Step, ChainStored, RingSize;
      ghost var before, r, q' := Memory(), q.used[0].req, Step(q, VirtqueueModel.GetBuf);
      ReadyToFree(before, q);
      CookieStored(before, r);
      cookie := cookies[descId];
      cookies[descId] := NULL;
      var freed := FreeChain(r, descId);
      numFree := numFree + freed;
      lastUsedIdx := (lastUsedIdx + 1) % TWO_16;
      assert Memory() == before.(desc := desc[..], freeHead := freeHead, cookies := before.cookies[r.chain[0] := NULL],
                                 numFree := numFree, lastUsedIdx := lastUsedIdx);
      RepresentsAfterGet(before, Memory(), q, q');
    }

    /** GetBuf once it has seen an id past the table. */
    method Skip()
      requires Valid() && q.used != [] && q.used[0].Bogus?
      modifies this`lastUsedIdx
      ensures Represents(Memory(), Step(q, VirtqueueModel.GetBuf))
    {
      hide Inv, Represents, Step;
      ghost var before := Memory();
      ReadyToGet(before, q);
      lastUsedIdx := (lastUsedIdx + 1) % TWO_16;
      RepresentsAfterSkip(before, Memory(), q, Step(q, VirtqueueModel.GetBuf));
    }

    method GetBuf(lenIn: u32) returns (cookie: nat, len: u32)
      requires Valid()
      modifies this`freeHead, this`numFree, this`lastUsedIdx, this`q, desc, cookies
      ensures Valid()
      ensures q == Step(old(q), VirtqueueModel.GetBuf)
      ensures old(q.used) == [] || old(q.used[0]).Bogus? ==> cookie == NULL && len == lenIn
      ensures old(q.used) != [] && old(q.used[0]).Posted? ==>
                cookie == old(q.used[0]).req.cookie && cookie != NULL && len == old(q.used[0]).written
    {
      hide Inv, Represents, RingSize, Vr16, Vr32, Step, HeadOf;
      ReadyToGet(Memory(), q);
      GetBufKeeps(q);
      StepNum(q, VirtqueueModel.GetBuf);
      GetFromEmpty(q);
      if lastUsedIdx == Vr16(modern, usedIdx) {
        return NULL, lenIn;
      }
      var usedSlot := lastUsedIdx % num;
      var descId := Vr32(modern, usedRing[usedSlot].id);
      len := Vr32(modern, usedRing[usedSlot].len);
      ghost var q' := Step(q, VirtqueueModel.GetBuf);
      if descId >= num {
        Skip();
        q := q';
        return NULL, lenIn;
      }
      cookie := Harvest(descId);
      q := q';
    }

    // ---------------------------------------------------------------- the device

    /** The device reads the next avail entry and walks its chain, undoing the byte order
        of every field. What it sees is the caller's list, readable entries first. */
    method DeviceFetch() returns (fetched: bool, head: u16, entries: seq<Entry>)
      requires Valid()
      modifies this`deviceIdx, this`deviceHeld, this`q
      ensures Valid() && q == Step(old(q), Fetch)
      ensures fetched <==> old(q.avail) != []
      ensures fetched ==>
                && var ticket := old(q.avail[0]).ticket;
                && head == HeadOf(old(q.avail[0])) && ticket < |q.submitted|
                && entries == Listed(q.submitted[ticket].sg, q.submitted[ticket].outNum)
    {
      hide Inv, Represents, RequestStored, ChainStored, RingSize, Vr16, DeviceLoad, DeviceStore;
      ReadyToFetch(Memory(), q);
      FetchKeeps(q);
      Vr16Meets(modern, availIdx);
      if deviceIdx == DeviceLoad(modern, availIdx, 2) {
        return false, 0, [];
      }
      fetched := true;
      Vr16Meets(modern, availRing[deviceIdx % num]);
      head := DeviceLoad(modern, availRing[deviceIdx % num], 2);
      OldestIsSubmitted(q);
      entries := DeviceWalk(head, q.avail[0]);
      ghost var before := Memory();
      deviceIdx := (deviceIdx + 1) % TWO_16;
      deviceHeld := deviceHeld + [head];
      RepresentsAfterFetch(before, Memory(), q, Step(q, Fetch));
      q := Step(q, Fetch);
    }

    method DeviceWalk(head: u16, ghost r: Request) returns (entries: seq<Entry>)
      requires desc.Length == num <= 32768
      requires ChainStored(desc[..], modern, r) && r.chain != [] && head == r.chain[0]
      ensures entries == Listed(r.sg, r.outNum)
    {
      hide DeviceLoad, ChainStored;
      Spans();
      var idx := head;
      entries := [];
      DescriptorReads(desc[..], modern, r, 0);
      while true
        invariant |entries| < |r.chain| == |r.sg| && idx == r.chain[|entries|]
        invariant forall i :: 0 <= i < |entries| ==> entries[i] == Listed(r.sg, r.outNum)[i]
        decreases |r.chain| - |entries|
      {
        DescriptorReads(desc[..], modern, r, |entries|);
        var d := desc[idx];
        var flags := DeviceLoad(modern, d.flags, 2);
        var next := DeviceLoad(modern, d.next, 2);
        entries := entries + [Entry(DeviceLoad(modern, d.addr, 8), DeviceLoad(modern, d.len, 4), flags / 2 % 2 == 1)];
        if flags % 2 == 0 {
          break;
        }
        idx := next;
      }
    }

    /** The device stores an entry in the used ring, then advances used.idx. */
    method DevicePost(id: u32, written: u32, ghost start: nat, ghost entries: seq<UsedElem>)
      requires RingSize(num) && usedRing.Length == num
      requires usedIdx == Vr16(modern, (start + |entries|) % TWO_16)
      requires |entries| < num && RingHolds<UsedElem>(UsedRead(modern, usedRing[..]), start, entries)
      modifies this`usedIdx, usedRing
      ensures Memory() == old(Memory()).(usedRing := usedRing[..],
                                         usedIdx := Vr16(modern, (start + |entries| + 1) % TWO_16))
      ensures RingHolds<UsedElem>(UsedRead(modern, usedRing[..]), start, entries + [UsedElem(id, written)])
    {
      hide Vr16, Vr32, DeviceLoad, DeviceStore, UsedRead, RingHolds, RingSize;
      Vr16Meets(modern, (start + |entries|) % TWO_16);
      var count := DeviceLoad(modern, usedIdx, 2);
      SlotAfterWrap(start + |entries|, num);
      ghost var before := usedRing[..];
      Vr32Meets(modern, id);
      Vr32Meets(modern, written);
      var slot := count % num;
      UsedStored(modern, before, slot, id, written);
      usedRing[slot] := UsedElem(DeviceStore(modern, id, 4), DeviceStore(modern, written, 4));
      assert usedRing[..] == before[slot := UsedElem(Vr32(modern, id), Vr32(modern, written))];
      RingPush(UsedRead(modern, before), start, entries, UsedElem(id, written));
      NextCount(start + |entries|);
      Vr16Meets(modern, (count + 1) % TWO_16);
      usedIdx := DeviceStore(modern, (count + 1) % TWO_16, 2);
    }

    /** The device completes any request it holds, in any order, having written a number of bytes. */
    method DeviceComplete(k: nat, written: u32)
      requires Valid()
      requires k < |q.held| && |q.used| < num
      modifies this`usedIdx, this`deviceHeld, this`q, usedRing
      ensures Valid() && q == Step(old(q), Complete(k, written))
    {
      hide Inv, Represents, RingHolds, RingSize, Vr16;
      ReadyToPost(Memory(), q);
      CompleteKeeps(q, k, written);
      ghost var before := Memory();
      var head := deviceHeld[k];
      deviceHeld := deviceHeld[..k] + deviceHeld[k + 1..];
      HeadsOmit(q.held, k);
      DevicePost(head, written, |q.returned| + q.skipped, UsedEntries(q.used));
      RepresentsAfterPost(before, Memory(), q, Step(q, Complete(k, written)), Posted(q.held[k], written));
      q := Step(q, Complete(k, written));
    }

    /** A device that breaks the rules posts an id past the descriptor count. */
    method DeviceMisreport(id: u32, written: u32)
      requires Valid()
      requires id >= num && |q.used| < num
      modifies this`usedIdx, this`q, usedRing
      ensures Valid() && q == Step(old(q), Misreport(id, written))
    {
      hide Inv, Represents, RingHolds, RingSize, Vr16;
      ReadyToPost(Memory(), q);
      MisreportKeeps(q, id, written);
      ghost var before := Memory();
      DevicePost(id, written, |q.returned| + q.skipped, UsedEntries(q.used));
      RepresentsAfterPost(before, Memory(), q, Step(q, Misreport(id, written)), Bogus(id, written));
      q := Step(q, Misreport(id, written));
    }
  }
}
