/** The split virtqueue as a value: who owns each descriptor, which requests the
    device has seen, and what has come back. The class VirtQueue keeps such a value
    beside the real rings and is proved to move it exactly as Step does. */
module VirtqueueModel {
  import opened MachineWords
  import opened Rings

  const NULL := 0

  datatype Sg = Sg(addr: u32, len: u32)

  /** What AddBuf is given: outNum entries for the device to read, then entries for it to write. */
  datatype Submission = Submission(sg: seq<Sg>, outNum: nat, cookie: nat)

  /** One AddBuf call: the descriptors it took, head first, and what it was given.
      The ticket counts AddBuf calls, so it names the request for ever. */
  datatype Request = Request(ticket: nat, chain: seq<nat>, sg: seq<Sg>, outNum: nat, cookie: nat)

  /** A used-ring entry not yet harvested: a completed request, or an id that no
      conforming device would post. */
  datatype Posted = Posted(req: Request, written: u32) | Bogus(id: u32, written: u32)

  datatype Return = Return(ticket: nat, cookie: nat, len: u32)

  datatype Queue = Queue(
    num: nat,
    free: seq<nat>,             // the free chain from free_head
    avail: seq<Request>,        // published, not yet fetched by the device
    held: seq<Request>,         // fetched, not yet completed
    used: seq<Posted>,          // posted, not yet harvested
    submitted: seq<Submission>, // every AddBuf that succeeded, by ticket
    written: map<nat, u32>,     // what the device wrote for each ticket it completed
    returned: seq<Return>,      // every cookie GetBuf handed back, in order
    skipped: nat)               // bogus entries GetBuf dropped

  datatype Op =
    | AddBuf(sg: seq<Sg>, outNum: nat, cookie: nat)
    | Fetch
    | Complete(k: nat, len: u32)
    | Misreport(id: u32, len: u32)
    | GetBuf

  function Init(num: nat): Queue {
    Queue(num, seq(num, i requires 0 <= i < num => i), [], [], [], [], map[], [], 0)
  }

  function Completed(used: seq<Posted>): seq<Request> {
    if used == [] then []
    else if used[0].Posted? then [used[0].req] + Completed(used[1..])
    else Completed(used[1..])
  }

  /** The premises on a caller of AddBuf: at least one entry, a cookie that is not NULL. */
  predicate Acceptable(sg: seq<Sg>, outNum: nat, cookie: nat) {
    1 <= |sg| < TWO_32 && outNum <= |sg| && cookie != NULL
  }

  function NewRequest(q: Queue, sg: seq<Sg>, outNum: nat, cookie: nat): Request
    requires |sg| <= |q.free|
  {
    Request(|q.submitted|, q.free[..|sg|], sg, outNum, cookie)
  }

  /** One step of driver or device. A step that its guard refuses changes nothing:
      AddBuf without enough free descriptors, GetBuf on an empty used ring. */
  function Step(q: Queue, op: Op): Queue {
    match op
    case AddBuf(sg, outNum, cookie) =>
      if Acceptable(sg, outNum, cookie) && |sg| <= |q.free| then
        q.(free := q.free[|sg|..],
           avail := q.avail + [NewRequest(q, sg, outNum, cookie)],
           submitted := q.submitted + [Submission(sg, outNum, cookie)])
      else q
    case Fetch =>
      if q.avail != [] then q.(avail := q.avail[1..], held := q.held + [q.avail[0]]) else q
    case Complete(k, len) =>
      if k < |q.held| && |q.used| < q.num then
        q.(held := q.held[..k] + q.held[k + 1..],
           used := q.used + [Posted(q.held[k], len)],
           written := q.written[q.held[k].ticket := len])
      else q
    case Misreport(id, len) =>
      if id >= q.num && |q.used| < q.num then q.(used := q.used + [Bogus(id, len)]) else q
    case GetBuf =>
      if q.used == [] then q
      else if q.used[0].Bogus? then q.(used := q.used[1..], skipped := q.skipped + 1)
      else
        var r := q.used[0].req;
        q.(used := q.used[1..],
           free := Reversed(r.chain) + q.free,
           returned := q.returned + [Return(r.ticket, r.cookie, q.used[0].written)])
  }

  function Run(q: Queue, ops: seq<Op>): Queue
    decreases |ops|
  {
    if ops == [] then q else Run(Step(q, ops[0]), ops[1..])
  }

  // ---------------------------------------------------------------- the invariant

  /** How often d occurs in s. */
  function Times(s: seq<nat>, d: nat): nat {
    multiset(s)[d]
  }

  /** How often the descriptor d occurs in the chains of rs. */
  function Load(rs: seq<Request>, d: nat): nat {
    if rs == [] then 0 else Times(rs[0].chain, d) + Load(rs[1..], d)
  }

  /** How many requests of rs carry the ticket t. */
  function Issued(rs: seq<Request>, t: nat): nat {
    if rs == [] then 0 else (if rs[0].ticket == t then 1 else 0) + Issued(rs[1..], t)
  }

  function ChainsLength(rs: seq<Request>): nat {
    if rs == [] then 0 else |rs[0].chain| + ChainsLength(rs[1..])
  }

  function ReturnedTimes(rs: seq<Return>, t: nat): nat {
    if rs == [] then 0
    else ReturnedTimes(rs[..|rs| - 1], t) + (if rs[|rs| - 1].ticket == t then 1 else 0)
  }

  /** Occurrences of the descriptor d in the free chain and all in-flight chains. */
  function Owners(q: Queue, d: nat): nat {
    Times(q.free, d) + Load(q.avail, d) + Load(q.held, d) + Load(Completed(q.used), d)
  }

  /** Occurrences of the ticket t among in-flight requests and returned cookies. */
  function Fates(q: Queue, t: nat): nat {
    ReturnedTimes(q.returned, t) + Issued(q.avail, t) + Issued(q.held, t) + Issued(Completed(q.used), t)
  }

  function InFlightCount(q: Queue): nat {
    |q.avail| + |q.held| + |Completed(q.used)|
  }

  function DescriptorCount(q: Queue): nat {
    |q.free| + ChainsLength(q.avail) + ChainsLength(q.held) + ChainsLength(Completed(q.used))
  }

  function OneBelow(i: nat, n: nat): nat {
    if i < n then 1 else 0
  }

  ghost predicate WellFormed(q: Queue, r: Request) {
    && 1 <= |r.chain| == |r.sg| && r.outNum <= |r.sg|
    && r.ticket < |q.submitted| && q.submitted[r.ticket] == Submission(r.sg, r.outNum, r.cookie) && r.cookie != NULL
  }

  /** Each descriptor is in exactly one place: the free chain or one in-flight chain, once. */
  ghost predicate Partition(q: Queue) {
    && (forall d: nat :: Owners(q, d) == OneBelow(d, q.num))
    && DescriptorCount(q) == q.num
  }

  /** Each accepted request has exactly one fate: in flight, or returned once. */
  ghost predicate Accounted(q: Queue) {
    && (forall t: nat :: Fates(q, t) == OneBelow(t, |q.submitted|))
    && |q.returned| + InFlightCount(q) == |q.submitted|
  }

  /** What came back, or is about to, is what was submitted and what the device wrote. */
  ghost predicate Truthful(q: Queue) {
    && (forall t: Return :: t in q.returned ==>
          && t.ticket < |q.submitted| && t.cookie == q.submitted[t.ticket].cookie
          && t.ticket in q.written && t.len == q.written[t.ticket])
    && (forall u: Posted :: u in q.used && u.Posted? ==>
          u.req.ticket in q.written && u.written == q.written[u.req.ticket])
    && (forall r: Request :: r in q.avail ==> r.ticket !in q.written)
    && (forall r: Request :: r in q.held ==> r.ticket !in q.written)
    && (forall t :: t in q.written ==> t < |q.submitted|)
  }

  ghost predicate AllWellFormed(q: Queue) {
    && (forall r: Request :: r in q.avail ==> WellFormed(q, r))
    && (forall r: Request :: r in q.held ==> WellFormed(q, r))
    && (forall u: Posted :: u in q.used && u.Posted? ==> WellFormed(q, u.req))
    && (forall u: Posted :: u in q.used && u.Bogus? ==> u.id >= q.num)
    && (forall c :: c in q.submitted ==> c.cookie != NULL)
  }

  ghost predicate Inv(q: Queue) {
    && RingSize(q.num) && |q.used| <= q.num
    && Partition(q) && Accounted(q) && Truthful(q) && AllWellFormed(q)
  }

  // ---------------------------------------------------------------- sums over lists

  lemma {:induction false} SumsConcat(a: seq<Request>, b: seq<Request>, d: nat)
    ensures Load(a + b, d) == Load(a, d) + Load(b, d)
    ensures Issued(a + b, d) == Issued(a, d) + Issued(b, d)
    ensures ChainsLength(a + b) == ChainsLength(a) + ChainsLength(b)
  {
    if a == [] {
      assert a + b == b;
    } else {
      SumsConcat(a[1..], b, d);
      assert (a + b)[1..] == a[1..] + b;
    }
  }

  lemma SumsOne(r: Request, d: nat)
    ensures Load([r], d) == Times(r.chain, d)
    ensures Issued([r], d) == if r.ticket == d then 1 else 0
    ensures ChainsLength([r]) == |r.chain|
  {
    assert [r][1..] == [];
  }

  /** Taking rs[k] out of rs. */
  lemma SumsOmit(rs: seq<Request>, k: nat, d: nat)
    requires k < |rs|
    ensures Load(rs, d) == Load(rs[..k] + rs[k + 1..], d) + Times(rs[k].chain, d)
    ensures Issued(rs, d) == Issued(rs[..k] + rs[k + 1..], d) + if rs[k].ticket == d then 1 else 0
    ensures ChainsLength(rs) == ChainsLength(rs[..k] + rs[k + 1..]) + |rs[k].chain|
  {
    var a, b := rs[..k], rs[k + 1..];
    assert rs == a + ([rs[k]] + b);
    SumsConcat(a, [rs[k]] + b, d);
    SumsConcat([rs[k]], b, d);
    SumsOne(rs[k], d);
    SumsConcat(a, b, d);
  }

  lemma MemberCounts(rs: seq<Request>, r: Request, d: nat)
    requires r in rs
    ensures Load(rs, d) >= Times(r.chain, d)
    ensures Issued(rs, r.ticket) >= 1
  {
    var k :| 0 <= k < |rs| && rs[k] == r;
    SumsOmit(rs, k, d);
    SumsOmit(rs, k, r.ticket);
  }

  lemma {:induction false} CompletedConcat(a: seq<Posted>, b: seq<Posted>)
    ensures Completed(a + b) == Completed(a) + Completed(b)
  {
    if a == [] {
      assert a + b == b;
    } else {
      CompletedConcat(a[1..], b);
      assert (a + b)[1..] == a[1..] + b;
    }
  }

  lemma CompletedOne(u: Posted)
    ensures Completed([u]) == if u.Posted? then [u.req] else []
  {
    assert [u][1..] == [];
  }

  lemma {:induction false} CompletedHas(used: seq<Posted>, u: Posted)
    requires u in used && u.Posted?
    ensures u.req in Completed(used)
  {
    if used[0] != u {
      assert used == [used[0]] + used[1..];
      CompletedHas(used[1..], u);
    }
  }

  lemma {:induction false} ReversedTimes(s: seq<nat>, d: nat)
    ensures Times(Reversed(s), d) == Times(s, d)
  {
    if s != [] {
      ReversedTimes(s[1..], d);
      assert s == [s[0]] + s[1..];
    }
  }

  lemma TimesConcat(a: seq<nat>, b: seq<nat>, d: nat)
    ensures Times(a + b, d) == Times(a, d) + Times(b, d)
  {
  }

  lemma ReturnedOneMore(rs: seq<Return>, r: Return, t: nat)
    ensures ReturnedTimes(rs + [r], t) == ReturnedTimes(rs, t) + if r.ticket == t then 1 else 0
  {
    assert (rs + [r])[..|rs|] == rs;
  }

  lemma {:induction false} TimesUpTo(n: nat, d: nat)
    ensures Times(Init(n).free, d) == OneBelow(d, n)
  {
    if n > 0 {
      TimesUpTo(n - 1, d);
      assert Init(n).free == Init(n - 1).free + [n - 1];
    }
  }

  // ---------------------------------------------------------------- one step

  lemma AddBufCounts(q: Queue, sg: seq<Sg>, outNum: nat, cookie: nat)
    requires Acceptable(sg, outNum, cookie) && |sg| <= |q.free|
    ensures var q', t := Step(q, AddBuf(sg, outNum, cookie)), |q.submitted|;
            && (forall d: nat :: Owners(q', d) == Owners(q, d))
            && (forall d: nat :: Fates(q', d) == Fates(q, d) + if t == d then 1 else 0)
            && DescriptorCount(q') == DescriptorCount(q) && InFlightCount(q') == InFlightCount(q) + 1
  {
    var q', r := Step(q, AddBuf(sg, outNum, cookie)), NewRequest(q, sg, outNum, cookie);
    assert q.free == r.chain + q'.free;
    forall d: nat
      ensures Owners(q', d) == Owners(q, d)
      ensures Fates(q', d) == Fates(q, d) + if r.ticket == d then 1 else 0
    {
      SumsConcat(q.avail, [r], d);
      SumsOne(r, d);
      TimesConcat(r.chain, q'.free, d);
    }
    SumsConcat(q.avail, [r], 0);
    SumsOne(r, 0);
  }

  lemma AddBufKeeps(q: Queue, sg: seq<Sg>, outNum: nat, cookie: nat)
    requires Inv(q)
    ensures Inv(Step(q, AddBuf(sg, outNum, cookie)))
  {
    hide Owners, Fates, DescriptorCount, InFlightCount, RingSize;
    if Acceptable(sg, outNum, cookie) && |sg| <= |q.free| {
      var q', r := Step(q, AddBuf(sg, outNum, cookie)), NewRequest(q, sg, outNum, cookie);
      AddBufCounts(q, sg, outNum, cookie);
      assert forall x :: x in q'.avail ==> x == r || x in q.avail;
    }
  }

  /** Requests that only move between the lists stay well formed. */
  lemma MovesStayWellFormed(q: Queue, q': Queue)
    requires AllWellFormed(q) && q'.submitted == q.submitted && q'.num == q.num
    requires forall r: Request :: r in q'.avail ==> r in q.avail
    requires forall r: Request :: r in q'.held ==> r in q.held || r in q.avail
    requires forall u: Posted :: u in q'.used && u.Posted? ==> u in q.used || u.req in q.held
    requires forall u: Posted :: u in q'.used && u.Bogus? ==> u in q.used || u.id >= q.num
    ensures AllWellFormed(q')
  {
    forall r: Request | r in q'.held ensures WellFormed(q', r) { assert WellFormed(q, r); }
    forall r: Request | r in q'.avail ensures WellFormed(q', r) { assert WellFormed(q, r); }
    forall u: Posted | u in q'.used && u.Posted? ensures WellFormed(q', u.req) { assert WellFormed(q, u.req); }
  }

  lemma FetchCounts(q: Queue)
    requires q.avail != []
    ensures forall d: nat :: Owners(Step(q, Fetch), d) == Owners(q, d)
    ensures forall t: nat :: Fates(Step(q, Fetch), t) == Fates(q, t)
    ensures DescriptorCount(Step(q, Fetch)) == DescriptorCount(q)
  {
    var q', r := Step(q, Fetch), q.avail[0];
    forall d: nat
      ensures Owners(q', d) == Owners(q, d)
      ensures Fates(q', d) == Fates(q, d)
    {
      SumsConcat(q.held, [r], d);
      SumsOne(r, d);
    }
    SumsConcat(q.held, [r], 0);
    SumsOne(r, 0);
  }

  lemma FetchKeeps(q: Queue)
    requires Inv(q)
    ensures Inv(Step(q, Fetch))
  {
    if q.avail != [] {
      var q', r := Step(q, Fetch), q.avail[0];
      FetchCounts(q);
      assert forall x :: x in q'.avail ==> x in q.avail;
      assert forall x :: x in q'.held ==> x == r || x in q.held;
      MovesStayWellFormed(q, q');
    }
  }

  lemma CompleteCounts(q: Queue, k: nat, len: u32)
    requires k < |q.held| && |q.used| < q.num
    ensures forall d: nat :: Owners(Step(q, Complete(k, len)), d) == Owners(q, d)
    ensures forall t: nat :: Fates(Step(q, Complete(k, len)), t) == Fates(q, t)
    ensures DescriptorCount(Step(q, Complete(k, len))) == DescriptorCount(q)
    ensures InFlightCount(Step(q, Complete(k, len))) == InFlightCount(q)
  {
    var q', r := Step(q, Complete(k, len)), q.held[k];
    CompletedConcat(q.used, [Posted(r, len)]);
    CompletedOne(Posted(r, len));
    forall d: nat
      ensures Owners(q', d) == Owners(q, d)
      ensures Fates(q', d) == Fates(q, d)
    {
      SumsOmit(q.held, k, d);
      SumsConcat(Completed(q.used), [r], d);
      SumsOne(r, d);
    }
    SumsOmit(q.held, k, 0);
    SumsConcat(Completed(q.used), [r], 0);
    SumsOne(r, 0);
  }

  lemma CompleteKeeps(q: Queue, k: nat, len: u32)
    requires Inv(q)
    ensures Inv(Step(q, Complete(k, len)))
  {
    hide Owners, Fates, DescriptorCount, InFlightCount, RingSize;
    if k < |q.held| && |q.used| < q.num {
      var q', u := Step(q, Complete(k, len)), Posted(q.held[k], len);
      CompleteCounts(q, k, len);
      assert forall x :: x in q'.held ==> x in q.held[..k] || x in q.held[k + 1..];
      assert forall x :: x in q'.held ==> x in q.held;
      assert forall x :: x in q'.used ==> x == u || x in q.used;
      MovesStayWellFormed(q, q');
      OthersDiffer(q, k);
      assert WellFormed(q, q.held[k]);
    }
  }

  /** No other in-flight request has the ticket of held[k]. */
  lemma OthersDiffer(q: Queue, k: nat)
    requires Accounted(q) && k < |q.held|
    ensures forall x: Request :: x in q.avail ==> x.ticket != q.held[k].ticket
    ensures forall x: Request :: x in q.held[..k] + q.held[k + 1..] ==> x.ticket != q.held[k].ticket
    ensures forall u: Posted :: u in q.used && u.Posted? ==> u.req.ticket != q.held[k].ticket
  {
    var t := q.held[k].ticket;
    assert Fates(q, t) <= 1;
    SumsOmit(q.held, k, t);
    forall x: Request | x in q.avail ensures x.ticket != t { MemberCounts(q.avail, x, 0); }
    var others := q.held[..k] + q.held[k + 1..];
    forall x: Request | x in others ensures x.ticket != t { MemberCounts(others, x, 0); }
    forall u: Posted | u in q.used && u.Posted? ensures u.req.ticket != t {
      CompletedHas(q.used, u);
      MemberCounts(Completed(q.used), u.req, 0);
    }
  }

  lemma MisreportCounts(q: Queue, id: u32, len: u32)
    requires id >= q.num && |q.used| < q.num
    ensures var q' := Step(q, Misreport(id, len));
            && (forall d: nat :: Owners(q', d) == Owners(q, d)) && (forall t: nat :: Fates(q', t) == Fates(q, t))
            && DescriptorCount(q') == DescriptorCount(q) && InFlightCount(q') == InFlightCount(q)
  {
    CompletedConcat(q.used, [Bogus(id, len)]);
    CompletedOne(Bogus(id, len));
    assert Completed(Step(q, Misreport(id, len)).used) == Completed(q.used);
  }

  lemma MisreportKeeps(q: Queue, id: u32, len: u32)
    requires Inv(q)
    ensures Inv(Step(q, Misreport(id, len)))
  {
    hide Owners, Fates, DescriptorCount, InFlightCount, RingSize, WellFormed;
    if id >= q.num && |q.used| < q.num {
      var q' := Step(q, Misreport(id, len));
      MisreportCounts(q, id, len);
      assert forall x :: x in q'.used ==> x == Bogus(id, len) || x in q.used;
      MovesStayWellFormed(q, q');
    }
  }

  /** Harvesting moves a chain to the front of the free chain and a ticket to the returns. */
  lemma GetBufCounts(q: Queue)
    requires q.used != [] && q.used[0].Posted?
    ensures forall d: nat :: Owners(Step(q, GetBuf), d) == Owners(q, d)
    ensures forall t: nat :: Fates(Step(q, GetBuf), t) == Fates(q, t)
    ensures DescriptorCount(Step(q, GetBuf)) == DescriptorCount(q)
  {
    var q', u, r := Step(q, GetBuf), q.used[0], q.used[0].req;
    assert Completed(q.used) == [r] + Completed(q'.used);
    forall d: nat
      ensures Owners(q', d) == Owners(q, d)
      ensures Fates(q', d) == Fates(q, d)
    {
      ReversedTimes(r.chain, d);
      TimesConcat(Reversed(r.chain), q.free, d);
      SumsConcat([r], Completed(q'.used), d);
      SumsOne(r, d);
      ReturnedOneMore(q.returned, Return(r.ticket, r.cookie, u.written), d);
    }
    SumsConcat([r], Completed(q'.used), 0);
    SumsOne(r, 0);
  }

  lemma GetBufKeeps(q: Queue)
    requires Inv(q)
    ensures Inv(Step(q, GetBuf))
  {
    hide Partition, Accounted, Truthful, AllWellFormed, RingSize;
    if q.used != [] {
      GetBufKeepsCounts(q);
      GetBufKeepsTruth(q);
    }
  }

  lemma GetBufKeepsCounts(q: Queue)
    requires Partition(q) && Accounted(q) && q.used != []
    ensures Partition(Step(q, GetBuf)) && Accounted(Step(q, GetBuf))
  {
    hide Owners, Fates, DescriptorCount;
    var q', u := Step(q, GetBuf), q.used[0];
    assert q.used == [u] + q'.used;
    if u.Posted? {
      GetBufCounts(q);
      assert Completed(q.used) == [u.req] + Completed(q'.used);
    } else {
      SkipCounts(q);
    }
  }

  lemma SkipCounts(q: Queue)
    requires q.used != [] && q.used[0].Bogus?
    ensures forall d: nat :: Owners(Step(q, GetBuf), d) == Owners(q, d)
    ensures forall t: nat :: Fates(Step(q, GetBuf), t) == Fates(q, t)
    ensures DescriptorCount(Step(q, GetBuf)) == DescriptorCount(q) && InFlightCount(Step(q, GetBuf)) == InFlightCount(q)
  {
  }

  lemma GetBufKeepsTruth(q: Queue)
    requires Truthful(q) && AllWellFormed(q) && q.used != []
    ensures Truthful(Step(q, GetBuf)) && AllWellFormed(Step(q, GetBuf))
  {
    var q', u := Step(q, GetBuf), q.used[0];
    assert forall x :: x in q'.used ==> x in q.used;
    if u.Posted? {
      assert u in q.used && WellFormed(q, u.req);
      var t := Return(u.req.ticket, u.req.cookie, u.written);
      assert forall x :: x in q'.returned ==> x == t || x in q.returned;
    }
  }

  lemma InitKeeps(num: nat)
    requires RingSize(num)
    ensures Inv(Init(num))
  {
    forall d: nat ensures Owners(Init(num), d) == OneBelow(d, num) { TimesUpTo(num, d); }
  }

  lemma StepKeeps(q: Queue, op: Op)
    requires Inv(q)
    ensures Inv(Step(q, op))
  {
    var next := Step(q, op);
    if op.AddBuf? {
      AddBufKeeps(q, op.sg, op.outNum, op.cookie);
      assert next == Step(q, AddBuf(op.sg, op.outNum, op.cookie));
    } else if op.Fetch? {
      FetchKeeps(q);
    } else if op.Complete? {
      CompleteKeeps(q, op.k, op.len);
      assert next == Step(q, Complete(op.k, op.len));
    } else if op.Misreport? {
      MisreportKeeps(q, op.id, op.len);
      assert next == Step(q, Misreport(op.id, op.len));
    } else {
      GetBufKeeps(q);
    }
  }

  lemma GetFromEmpty(q: Queue)
    ensures q.used == [] ==> Step(q, GetBuf) == q
  {
  }

  lemma StepNum(q: Queue, op: Op)
    ensures Step(q, op).num == q.num
  {
  }

  // ---------------------------------------------------------------- whole runs

  /** Every reachable state satisfies the invariant: any number of AddBuf, device
      and GetBuf steps, in any order, with any 16-bit wraps on the way. */
  lemma {:induction false} RunKeeps(q: Queue, ops: seq<Op>)
    requires Inv(q)
    ensures Inv(Run(q, ops)) && Run(q, ops).num == q.num
    decreases |ops|
  {
    if ops != [] {
      var next := Step(q, ops[0]);
      StepKeeps(q, ops[0]);
      StepNum(q, ops[0]);
      RunKeeps(next, ops[1..]);
    }
  }

  lemma {:induction false} AtMostOnce(s: seq<nat>)
    requires forall d :: Times(s, d) <= 1
    ensures forall i, j :: 0 <= i < j < |s| ==> s[i] != s[j]
  {
    forall i, j | 0 <= i < j < |s| ensures s[i] != s[j] {
      assert s == s[..j] + s[j..];
      assert s[..j][i] in s[..j] && s[j..][0] in s[j..];
      TimesConcat(s[..j], s[j..], s[i]);
    }
  }

  /** No descriptor is used twice: not within a chain, not by two chains, not by a chain
      and the free list. */
  lemma Separate(q: Queue, r: Request, d: nat)
    requires Partition(q)
    requires r in q.avail || r in q.held || r in Completed(q.used)
    requires d in r.chain
    ensures d < q.num && Times(r.chain, d) == 1 && d !in q.free
    ensures forall x: Request :: (x in q.avail || x in q.held || x in Completed(q.used)) && d in x.chain ==> x == r
    ensures Load(q.avail, d) + Load(q.held, d) + Load(Completed(q.used), d) == 1
  {
    assert Owners(q, d) == OneBelow(d, q.num);
    forall x: Request | (x in q.avail || x in q.held || x in Completed(q.used)) && d in x.chain ensures x == r {
      OnlyOwner(q, r, x, d);
    }
    if r in q.avail { MemberCounts(q.avail, r, d); }
    if r in q.held { MemberCounts(q.held, r, d); }
    if r in Completed(q.used) { MemberCounts(Completed(q.used), r, d); }
  }

  /** The lists of requests in flight. */
  function Lists(q: Queue): seq<seq<Request>> {
    [q.avail, q.held, Completed(q.used)]
  }

  lemma OnlyOwner(q: Queue, r: Request, x: Request, d: nat)
    requires Owners(q, d) <= 1
    requires r in q.avail || r in q.held || r in Completed(q.used)
    requires x in q.avail || x in q.held || x in Completed(q.used)
    requires d in r.chain && d in x.chain
    ensures x == r
  {
    var i := if r in q.avail then 0 else if r in q.held then 1 else 2;
    var j := if x in q.avail then 0 else if x in q.held then 1 else 2;
    MemberCounts(Lists(q)[i], r, d);
    MemberCounts(Lists(q)[j], x, d);
    if i == j && x != r { TwoMembers(Lists(q)[i], r, x, d); }
  }

  lemma TwoMembers(rs: seq<Request>, r: Request, x: Request, d: nat)
    requires r in rs && x in rs && r != x
    ensures Load(rs, d) >= Times(r.chain, d) + Times(x.chain, d)
  {
    var k :| 0 <= k < |rs| && rs[k] == r;
    SumsOmit(rs, k, d);
    assert rs == rs[..k] + [r] + rs[k + 1..];
    MemberCounts(rs[..k] + rs[k + 1..], x, d);
  }

  lemma FreeOnce(q: Queue)
    requires Partition(q)
    ensures |q.free| <= q.num
    ensures forall d :: d in q.free ==> d < q.num
    ensures forall i, j :: 0 <= i < j < |q.free| ==> q.free[i] != q.free[j]
  {
    forall d: nat ensures Times(q.free, d) <= OneBelow(d, q.num) { assert Owners(q, d) == OneBelow(d, q.num); }
    forall d | d in q.free ensures d < q.num { assert Times(q.free, d) >= 1; }
    AtMostOnce(q.free);
  }

  lemma {:induction false} ReturnedUnique(rs: seq<Return>, t: nat)
    ensures ReturnedTimes(rs, t) == 0 ==> forall k :: 0 <= k < |rs| ==> rs[k].ticket != t
    ensures ReturnedTimes(rs, t) == 1 ==>
              exists k :: 0 <= k < |rs| && rs[k].ticket == t
                          && forall j :: 0 <= j < |rs| && rs[j].ticket == t ==> j == k
  {
    if rs != [] {
      var n := |rs| - 1;
      var front := rs[..n];
      ReturnedUnique(front, t);
      assert forall j :: 0 <= j < n ==> rs[j] == front[j];
      if ReturnedTimes(rs, t) == 1 {
        if rs[n].ticket == t {
          assert forall j :: 0 <= j < |rs| && rs[j].ticket == t ==> j == n;
        } else {
          var k :| 0 <= k < n && front[k].ticket == t && forall j :: 0 <= j < n && front[j].ticket == t ==> j == k;
          assert rs[k].ticket == t;
        }
      }
    }
  }

  /** Exactly-once delivery over a whole run that leaves nothing in flight: the cookie of
      every AddBuf comes back from one GetBuf and no other, with the length the device
      wrote for that request, and all descriptors are free again. */
  lemma ExactlyOnce(num: nat, ops: seq<Op>, t: nat)
    requires RingSize(num)
    requires InFlightCount(Run(Init(num), ops)) == 0
    requires t < |Run(Init(num), ops).submitted|
    ensures var q := Run(Init(num), ops);
            && |q.returned| == |q.submitted| && |q.free| == num
            && exists k :: && 0 <= k < |q.returned|
                           && q.returned[k].ticket == t
                           && q.returned[k].cookie == q.submitted[t].cookie
                           && t in q.written && q.returned[k].len == q.written[t]
                           && forall j :: 0 <= j < |q.returned| && q.returned[j].ticket == t ==> j == k
  {
    InitKeeps(num);
    RunKeeps(Init(num), ops);
    var q := Run(Init(num), ops);
    assert Fates(q, t) == 1;
    ReturnedUnique(q.returned, t);
    var k :| 0 <= k < |q.returned| && q.returned[k].ticket == t
             && forall j :: 0 <= j < |q.returned| && q.returned[j].ticket == t ==> j == k;
    assert q.returned[k] in q.returned;
  }

  // ---------------------------------------------------------------- 16-bit counters

  /** avail.idx, used.idx and last_used_idx: counts of all events so far, cut to 16 bits. */
  function AvailIdx(q: Queue): u16 {
    |q.submitted| % TWO_16
  }

  function LastUsedIdx(q: Queue): u16 {
    (|q.returned| + q.skipped) % TWO_16
  }

  function UsedIdx(q: Queue): u16 {
    (|q.returned| + q.skipped + |q.used|) % TWO_16
  }

  lemma {:induction false} ChainsAtLeast(rs: seq<Request>)
    requires forall r: Request :: r in rs ==> |r.chain| >= 1
    ensures ChainsLength(rs) >= |rs|
  {
    if rs != [] {
      ChainsAtLeast(rs[1..]);
    }
  }

  lemma {:induction false} CompletedWithin(used: seq<Posted>)
    ensures |Completed(used)| <= |used|
    ensures forall r: Request :: r in Completed(used) ==> exists u :: u in used && u.Posted? && u.req == r
    ensures (forall u :: u in used ==> u.Posted?) ==> |Completed(used)| == |used|
  {
    if used != [] {
      CompletedWithin(used[1..]);
      assert used == [used[0]] + used[1..];
      assert used[0] in used;
      forall r: Request | r in Completed(used) ensures exists u :: u in used && u.Posted? && u.req == r {
        if r in Completed(used[1..]) {
          var u :| u in used[1..] && u.Posted? && u.req == r;
          assert u in used;
        }
      }
    }
  }

  /** The ring never holds more than it has slots for. */
  lemma InFlightFits(q: Queue)
    requires Inv(q)
    ensures InFlightCount(q) + |q.free| <= q.num <= 32768
  {
    CompletedWithin(q.used);
    forall r: Request | r in Completed(q.used) ensures |r.chain| >= 1 {
      var u :| u in q.used && u.Posted? && u.req == r;
      assert WellFormed(q, u.req);
    }
    forall r: Request | r in q.avail ensures |r.chain| >= 1 { assert WellFormed(q, r); }
    forall r: Request | r in q.held ensures |r.chain| >= 1 { assert WellFormed(q, r); }
    ChainsAtLeast(q.avail);
    ChainsAtLeast(q.held);
    ChainsAtLeast(Completed(q.used));
  }

  /** Across any number of wraps the difference of the two 16-bit counters is the number of
      requests in flight, exactly when the bogus entries skipped so far are a multiple of 65536
      (none, for a conforming device). */
  lemma CountersDiffer(q: Queue)
    requires Inv(q)
    ensures (AvailIdx(q) - LastUsedIdx(q)) % TWO_16 == InFlightCount(q) <==> q.skipped % TWO_16 == 0
  {
    hide Inv, InFlightCount;
    InFlightFits(q);
    AllAccounted(q);
    CutDifference(|q.returned|, InFlightCount(q), q.skipped);
  }

  lemma AllAccounted(q: Queue)
    requires Inv(q)
    ensures |q.submitted| == |q.returned| + InFlightCount(q)
  {
  }

  lemma CutDifference(r: nat, n: nat, s: nat)
    requires n < TWO_16
    ensures ((r + n) % TWO_16 - (r + s) % TWO_16) % TWO_16 == n <==> s % TWO_16 == 0
  {
    var k := (r + n) / TWO_16 - (r + s) / TWO_16;
    assert (r + n) % TWO_16 - (r + s) % TWO_16 == n - s - k * TWO_16;
  }

  /** GetBuf's emptiness test on 16-bit counters is exact. */
  lemma EmptyTest(q: Queue)
    requires Inv(q)
    ensures LastUsedIdx(q) == UsedIdx(q) <==> q.used == []
  {
    var a := |q.returned| + q.skipped;
    assert |q.used| < TWO_16;
  }

  /** While no bogus entry is waiting, the device always has room to complete what it holds. */
  lemma RoomToComplete(q: Queue)
    requires Inv(q) && q.held != []
    requires forall u: Posted :: u in q.used ==> u.Posted?
    ensures |q.used| < q.num
  {
    InFlightFits(q);
    CompletedWithin(q.used);
  }
}
