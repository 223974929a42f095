/** A synchronous control-queue transaction: AddBuf, then poll GetBuf until the cookie
    comes back or the attempts run out. The device acts as it likes between two polls. */
module Transaction {
  import opened MachineWords
  import opened Results
  import opened VirtqueueModel
  import opened Virtqueue
  import WaitProtocol

  const BURSTS := WaitProtocol.BURSTS              // of Wait when the interrupt is installed
  const POLLS := WaitProtocol.POLLS                // when it is not
  const DRAIN_LIMIT := WaitProtocol.DRAIN_LIMIT

  /** One transaction, and what the device does meanwhile: wakes[i] before poll i, late between the
      last poll and the drain. */
  datatype Call = Call(sg: seq<Sg>, outNum: nat, inNum: nat, cookie: nat, wakes: seq<seq<Op>>, late: seq<Op>)

  function Given(c: Call): Submission {
    Submission(c.sg, c.outNum, c.cookie)
  }

  /** A conforming device only fetches and completes. */
  ghost predicate Conforming(acts: seq<Op>) {
    forall a :: a in acts ==> a.Fetch? || a.Complete?
  }

  ghost predicate AllConforming(ws: seq<seq<Op>>) {
    forall i :: 0 <= i < |ws| ==> Conforming(ws[i])
  }

  ghost predicate Proper(c: Call) {
    && |c.sg| == c.outNum + c.inNum && Acceptable(c.sg, c.outNum, c.cookie)
    && (|c.wakes| == BURSTS || |c.wakes| == POLLS)
    && Conforming(c.late) && AllConforming(c.wakes)
  }

  ghost predicate NoBogus(q: Queue) {
    forall u: Posted :: u in q.used ==> u.Posted?
  }

  // ---------------------------------------------------------------- what a wait does

  predicate Answers(u: Posted, cookie: nat) {
    u.Posted? && u.req.cookie == cookie
  }

  /** The queue when the wait is over, and the length that came with the cookie, if it came. */
  datatype Wait = Wait(q: Queue, answer: Option<u32>)

  /** The polls. */
  function Polls(q: Queue, cookie: nat, ws: seq<seq<Op>>): Wait
    decreases |ws|
  {
    if ws == [] then Wait(q, None)
    else
      var now := Run(q, ws[0]);
      if now.used != [] && Answers(now.used[0], cookie) then Wait(Step(now, GetBuf), Some(now.used[0].written))
      else Polls(Step(now, GetBuf), cookie, ws[1..])
  }

  /** Draining up to n entries. */
  function Drained(q: Queue, n: nat): Queue
    decreases n
  {
    if n == 0 || q.used == [] then q else Drained(Step(q, GetBuf), n - 1)
  }

  function Waited(q: Queue, cookie: nat, ws: seq<seq<Op>>, late: seq<Op>): Wait {
    var w := Polls(q, cookie, ws);
    if w.answer.Some? then w else Wait(Drained(Run(w.q, late), 257), None)
  }

  /** A whole transaction. */
  function Transacted(q: Queue, c: Call): Wait {
    if |c.sg| > |q.free| then Wait(q, None)
    else Waited(Step(q, AddBuf(c.sg, c.outNum, c.cookie)), c.cookie, c.wakes, c.late)
  }

  lemma {:induction false} RunSubmitsNothing(q: Queue, acts: seq<Op>)
    requires Conforming(acts)
    ensures Run(q, acts).submitted == q.submitted
    decreases |acts|
  {
    if acts != [] {
      assert acts[0] in acts;
      RunSubmitsNothing(Step(q, acts[0]), acts[1..]);
    }
  }

  lemma {:induction false} PollsSubmitNothing(q: Queue, cookie: nat, ws: seq<seq<Op>>)
    requires AllConforming(ws)
    ensures Polls(q, cookie, ws).q.submitted == q.submitted
    decreases |ws|
  {
    if ws != [] {
      RunSubmitsNothing(q, ws[0]);
      PollsSubmitNothing(Step(Run(q, ws[0]), GetBuf), cookie, ws[1..]);
    }
  }

  lemma {:induction false} DrainSubmitsNothing(q: Queue, n: nat)
    ensures Drained(q, n).submitted == q.submitted
    decreases n
  {
    if n > 0 && q.used != [] {
      DrainSubmitsNothing(Step(q, GetBuf), n - 1);
    }
  }

  /** Whatever comes of it, a transaction whose list fits submits that list under that cookie, once. */
  lemma TransactedSubmits(q: Queue, c: Call)
    requires Proper(c)
    ensures Transacted(q, c).q.submitted == q.submitted + (if |c.sg| <= |q.free| then [Given(c)] else [])
  {
    hide Run, Polls, Drained;
    if |c.sg| <= |q.free| {
      var q1 := Step(q, AddBuf(c.sg, c.outNum, c.cookie));
      PollsSubmitNothing(q1, c.cookie, c.wakes);
      var w := Polls(q1, c.cookie, c.wakes);
      RunSubmitsNothing(w.q, c.late);
      DrainSubmitsNothing(Run(w.q, c.late), DRAIN_LIMIT + 1);
    }
  }

  // ---------------------------------------------------------------- in memory

  lemma {:induction false} RunSnoc(q: Queue, ops: seq<Op>, op: Op)
    ensures Run(q, ops + [op]) == Step(Run(q, ops), op)
    decreases |ops|
  {
    if ops == [] {
      assert [] + [op] == [op];
      assert [op][1..] == [];
    } else {
      RunSnoc(Step(q, ops[0]), ops[1..], op);
      assert (ops + [op])[1..] == ops[1..] + [op];
    }
  }

  lemma DeviceKeepsNoBogus(q: Queue, act: Op)
    requires NoBogus(q) && (act.Fetch? || act.Complete?)
    ensures NoBogus(Step(q, act))
  {
  }

  lemma HarvestKeepsNoBogus(q: Queue)
    requires NoBogus(q)
    ensures NoBogus(Step(q, GetBuf))
  {
  }

  lemma HeldCount(vq: VirtQueue)
    requires vq.Valid()
    ensures |vq.deviceHeld| == |vq.q.held| && vq.numFree == |vq.q.free|
  {
  }

  /** The device performs the acts of a script, skipping those it cannot perform. */
  method DeviceActs(vq: VirtQueue, acts: seq<Op>)
    requires vq.Valid() && Conforming(acts) && NoBogus(vq.q)
    modifies vq`deviceIdx, vq`deviceHeld, vq`usedIdx, vq`q, vq.usedRing
    ensures vq.Valid() && NoBogus(vq.q)
    ensures vq.q == Run(old(vq.q), acts)
  {
    hide Inv, Represents;
    for i := 0 to |acts|
      invariant vq.Valid() && NoBogus(vq.q)
      invariant vq.q == Run(old(vq.q), acts[..i])
    {
      ghost var q := vq.q;
      assert acts[..i + 1] == acts[..i] + [acts[i]] && acts[i] in acts;
      RunSnoc(old(vq.q), acts[..i], acts[i]);
      DeviceKeepsNoBogus(q, acts[i]);
      HeldCount(vq);
      if acts[i].Fetch? {
        var _, _, _ := vq.DeviceFetch();
      } else if acts[i].k < |vq.deviceHeld| {
        RoomToComplete(q);
        vq.DeviceComplete(acts[i].k, acts[i].len);
      }
    }
    assert acts[..|acts|] == acts;
  }

  /** chip_wait_ctrlq, whatever else is in the queue. */
  method WaitCtrlq(vq: VirtQueue, cookie: nat, wakes: seq<seq<Op>>, late: seq<Op>)
    returns (bytes: u32, ghost answer: Option<u32>)
    requires vq.Valid() && NoBogus(vq.q) && cookie != NULL
    requires Conforming(late) && AllConforming(wakes)
    modifies vq, vq.desc, vq.cookies, vq.usedRing
    ensures vq.Valid() && NoBogus(vq.q)
    ensures Wait(vq.q, answer) == Waited(old(vq.q), cookie, wakes, late) && bytes == answer.GetOr(0)
  {
    hide Inv, Represents, Run, Step, Drained;
    bytes := 0;
    var got, i := NULL, 0;
    assert wakes[0..] == wakes;
    while i < |wakes|
      modifies vq, vq.desc, vq.cookies, vq.usedRing
      invariant i <= |wakes| && vq.Valid() && NoBogus(vq.q) && got != cookie
      invariant Polls(vq.q, cookie, wakes[i..]) == Polls(old(vq.q), cookie, wakes)
    {
      assert wakes[i..][1..] == wakes[i + 1..];
      DeviceActs(vq, wakes[i]);
      HarvestKeepsNoBogus(vq.q);
      got, bytes := vq.GetBuf(bytes);
      if got == cookie {
        return bytes, Some(bytes);
      }
      i := i + 1;
    }
    DeviceActs(vq, late);
    Drain(vq);
    return 0, None;
  }

  /** The draining loop after a timeout. */
  method Drain(vq: VirtQueue)
    requires vq.Valid() && NoBogus(vq.q)
    modifies vq, vq.desc, vq.cookies, vq.usedRing
    ensures vq.Valid() && NoBogus(vq.q)
    ensures vq.q == Drained(old(vq.q), 257)
  {
    hide Inv, Represents, Step;
    var drained := 0;
    while true
      modifies vq, vq.desc, vq.cookies, vq.usedRing
      invariant drained <= DRAIN_LIMIT && vq.Valid() && NoBogus(vq.q)
      invariant Drained(vq.q, DRAIN_LIMIT + 1 - drained) == Drained(old(vq.q), DRAIN_LIMIT + 1)
      decreases DRAIN_LIMIT + 1 - drained
    {
      GetFromEmpty(vq.q);
      HarvestKeepsNoBogus(vq.q);
      var got, _ := vq.GetBuf(0);
      if got == NULL { break; }
      drained := drained + 1;
      if drained > DRAIN_LIMIT { break; }
    }
  }

  // ---------------------------------------------------------------- one request in flight

  /** Nothing in flight: the state in which io_lock is handed on when nobody has timed out. */
  predicate Quiescent(q: Queue) {
    q.avail == [] && q.held == [] && q.used == []
  }

  /** Where the one request in flight is. */
  datatype Stage = Published | Fetched | Answered(len: u32)

  function StageStep(s: Stage, act: Op): Stage {
    if s.Published? && act.Fetch? then Fetched
    else if s.Fetched? && act.Complete? && act.k == 0 then Answered(act.len)
    else s
  }

  function StageAfter(s: Stage, acts: seq<Op>): Stage
    decreases |acts|
  {
    if acts == [] then s else StageAfter(StageStep(s, acts[0]), acts[1..])
  }

  /** What the polls see of it: its length, once it is answered. */
  function Seen(s: Stage, ws: seq<seq<Op>>): Option<u32>
    decreases |ws|
  {
    if ws == [] then None
    else
      var now := StageAfter(s, ws[0]);
      if now.Answered? then Some(now.len) else Seen(now, ws[1..])
  }

  function LastStage(s: Stage, ws: seq<seq<Op>>): Stage
    decreases |ws|
  {
    if ws == [] then s else LastStage(StageAfter(s, ws[0]), ws[1..])
  }

  /** What a transaction returns from any quiescent queue of num descriptors: nothing at all if its
      list does not fit. */
  function Reply(c: Call, num: nat): Option<u32> {
    if |c.sg| > num then None else Seen(Published, c.wakes)
  }

  /** Since the quiescent state q0 one request was added, and it is at this stage. */
  ghost predicate Waiting(q: Queue, q0: Queue, g: Submission, s: Stage) {
    && q.num == q0.num > 0 && q.skipped == q0.skipped
    && q.submitted == q0.submitted + [g] && q.returned == q0.returned
    && |q.avail| == (if s.Published? then 1 else 0) && |q.held| == (if s.Fetched? then 1 else 0)
    && |q.used| == (if s.Answered? then 1 else 0)
    && (forall r: Request :: r in q.avail ==> r.ticket == |q0.submitted|)
    && (forall r: Request :: r in q.held ==> r.ticket == |q0.submitted|)
    && (forall u: Posted :: u in q.used ==> u.Posted? && u.req.ticket == |q0.submitted| && s == Answered(u.written))
  }

  /** ... and it has been returned, with the length the device wrote for this very request. */
  ghost predicate Finished(q: Queue, q0: Queue, g: Submission, len: u32) {
    && q.num == q0.num && q.skipped == q0.skipped && Quiescent(q)
    && q.submitted == q0.submitted + [g]
    && q.returned == q0.returned + [Return(|q0.submitted|, g.cookie, len)]
    && Wrote(q, |q0.submitted|, len)
  }

  /** The device wrote len bytes for the request with ticket t. */
  predicate Wrote(q: Queue, t: nat, len: u32) {
    t in q.written && q.written[t] == len
  }

  lemma QuiescentAllFree(q: Queue)
    requires Inv(q) && Quiescent(q)
    ensures |q.free| == q.num > 0 && |q.returned| == |q.submitted|
  {
  }

  lemma AddMakesWaiting(q0: Queue, sg: seq<Sg>, outNum: nat, cookie: nat)
    requires q0.num > 0 && Quiescent(q0) && Acceptable(sg, outNum, cookie) && |sg| <= |q0.free|
    ensures Waiting(Step(q0, AddBuf(sg, outNum, cookie)), q0, Submission(sg, outNum, cookie), Published)
  {
  }

  lemma DeviceMovesStage(q: Queue, q0: Queue, g: Submission, s: Stage, act: Op)
    requires Waiting(q, q0, g, s) && (act.Fetch? || act.Complete?)
    ensures Waiting(Step(q, act), q0, g, StageStep(s, act))
  {
    var q' := Step(q, act);
    if act.Fetch? && q.avail != [] {
      assert q.avail == [q.avail[0]];
      assert q'.held == [q.avail[0]];
    } else if act.Complete? && act.k < |q.held| && |q.used| < q.num {
      assert q.held == [q.held[0]] && act.k == 0;
      assert q'.held == [] && q'.used == [Posted(q.held[0], act.len)];
    }
  }

  lemma {:induction false} DeviceRunMovesStage(q: Queue, q0: Queue, g: Submission, s: Stage, acts: seq<Op>)
    requires Waiting(q, q0, g, s) && Conforming(acts)
    ensures Waiting(Run(q, acts), q0, g, StageAfter(s, acts))
    decreases |acts|
  {
    if acts != [] {
      hide Waiting;
      DeviceMovesStage(q, q0, g, s, acts[0]);
      DeviceRunMovesStage(Step(q, acts[0]), q0, g, StageStep(s, acts[0]), acts[1..]);
    }
  }

  /** The only entry that can come back is the caller's own. */
  lemma GetFinishes(q: Queue, q0: Queue, g: Submission, s: Stage)
    requires Inv(q) && Waiting(q, q0, g, s)
    ensures q.used == [] <==> !s.Answered?
    ensures s.Answered? ==> Answers(q.used[0], g.cookie) && q.used[0].written == s.len
                            && Finished(Step(q, GetBuf), q0, g, s.len)
    ensures !s.Answered? ==> Step(q, GetBuf) == q
  {
    if q.used != [] {
      assert q.used[0] in q.used;
      assert WellFormed(q, q.used[0].req);
    }
  }

  lemma {:induction false} PollsSee(q: Queue, q0: Queue, g: Submission, s: Stage, ws: seq<seq<Op>>)
    requires Inv(q) && Waiting(q, q0, g, s) && AllConforming(ws)
    ensures var w := Polls(q, g.cookie, ws);
            && Inv(w.q) && w.answer == Seen(s, ws)
            && (w.answer.Some? ==> Finished(w.q, q0, g, w.answer.value))
            && (w.answer.None? ==> Waiting(w.q, q0, g, LastStage(s, ws)))
    decreases |ws|
  {
    if ws != [] {
      hide Inv, Waiting, Finished;
      var now := Run(q, ws[0]);
      DeviceRunMovesStage(q, q0, g, s, ws[0]);
      RunKeeps(q, ws[0]);
      GetFinishes(now, q0, g, StageAfter(s, ws[0]));
      GetBufKeeps(now);
      if !StageAfter(s, ws[0]).Answered? {
        PollsSee(now, q0, g, StageAfter(s, ws[0]), ws[1..]);
      }
    }
  }

  lemma DrainEnds(q: Queue, q0: Queue, g: Submission, s: Stage)
    requires Inv(q) && Waiting(q, q0, g, s)
    ensures var d := Drained(q, DRAIN_LIMIT + 1);
            if s.Answered? then Finished(d, q0, g, s.len) else Waiting(d, q0, g, s)
  {
    GetFinishes(q, q0, g, s);
    assert s.Answered? ==> Step(q, GetBuf).used == [] && Drained(Step(q, GetBuf), DRAIN_LIMIT) == Step(q, GetBuf);
  }

  /** A transaction from a quiescent queue. It answers exactly when a poll can see the completion,
      with the length the device wrote for this very request. Otherwise a completion that has come by
      the time of the drain is thrown away there, and any other request stays in flight. */
  lemma QuiescentTransaction(q: Queue, c: Call)
    requires Inv(q) && Quiescent(q) && Proper(c)
    ensures var (w, last) := (Transacted(q, c), StageAfter(LastStage(Published, c.wakes), c.late));
            && w.answer == Reply(c, q.num)
            && (w.answer.Some? ==> Finished(w.q, q, Given(c), w.answer.value))
            && (w.answer.None? && |c.sg| > q.num ==> w.q == q)
            && (w.answer.None? && |c.sg| <= q.num ==>
                  if last.Answered? then Finished(w.q, q, Given(c), last.len) else Waiting(w.q, q, Given(c), last))
  {
    hide Inv, Waiting, Finished, Drained, Step, Polls;
    QuiescentAllFree(q);
    if |c.sg| <= q.num {
      var q1 := Step(q, AddBuf(c.sg, c.outNum, c.cookie));
      AddMakesWaiting(q, c.sg, c.outNum, c.cookie);
      AddBufKeeps(q, c.sg, c.outNum, c.cookie);
      PollsSee(q1, q, Given(c), Published, c.wakes);
      var w := Polls(q1, c.cookie, c.wakes);
      if w.answer.None? {
        DeviceRunMovesStage(w.q, q, Given(c), LastStage(Published, c.wakes), c.late);
        RunKeeps(w.q, c.late);
        DrainEnds(Run(w.q, c.late), q, Given(c), StageAfter(LastStage(Published, c.wakes), c.late));
      }
    }
  }

  // ---------------------------------------------------------------- requests of others in flight

  /** Every request in flight with this cookie has the ticket t. */
  ghost predicate Only(q: Queue, cookie: nat, t: nat) {
    && (forall r: Request :: r in q.avail && r.cookie == cookie ==> r.ticket == t)
    && (forall r: Request :: r in q.held && r.cookie == cookie ==> r.ticket == t)
    && (forall u: Posted :: u in q.used && Answers(u, cookie) ==> u.req.ticket == t)
  }

  /** Whatever is in flight belongs to others. */
  ghost predicate NoneOf(q: Queue, cookie: nat) {
    && (forall r: Request :: r in q.avail ==> r.cookie != cookie)
    && (forall r: Request :: r in q.held ==> r.cookie != cookie)
    && (forall u: Posted :: u in q.used ==> !Answers(u, cookie))
  }

  lemma OnlyKept(q: Queue, op: Op, cookie: nat, t: nat)
    requires Only(q, cookie, t) && (op.Fetch? || op.Complete? || op.GetBuf?)
    ensures Only(Step(q, op), cookie, t)
  {
    if op.Complete? && op.k < |q.held| && |q.used| < q.num {
      assert q.held[op.k] in q.held;
    }
  }

  lemma {:induction false} OnlyKeptByRun(q: Queue, acts: seq<Op>, cookie: nat, t: nat)
    requires Only(q, cookie, t) && Conforming(acts)
    ensures Only(Run(q, acts), cookie, t)
    decreases |acts|
  {
    if acts != [] {
      hide Only, Step;
      OnlyKept(q, acts[0], cookie, t);
      OnlyKeptByRun(Step(q, acts[0]), acts[1..], cookie, t);
    }
  }

  /** The request with ticket t came back last, with what the device wrote for it. */
  ghost predicate CameBack(q: Queue, t: nat, cookie: nat, len: u32) {
    Wrote(q, t, len) && q.returned != [] && q.returned[|q.returned| - 1] == Return(t, cookie, len)
  }

  lemma OwnComesBack(q: Queue, cookie: nat, t: nat)
    requires Inv(q) && Only(q, cookie, t) && q.used != [] && Answers(q.used[0], cookie)
    ensures CameBack(Step(q, GetBuf), t, cookie, q.used[0].written)
  {
    hide Partition, Accounted, AllWellFormed;
    assert q.used[0] in q.used;
  }

  /** If the polls answer, they answer with the caller's own request, whatever requests of others
      they step over. */
  lemma {:induction false} PollsAnswerOwn(q: Queue, cookie: nat, t: nat, ws: seq<seq<Op>>)
    requires Inv(q) && Only(q, cookie, t) && AllConforming(ws)
    ensures var w := Polls(q, cookie, ws);
            w.answer.Some? ==> CameBack(w.q, t, cookie, w.answer.value)
    decreases |ws|
  {
    if ws != [] {
      hide Inv, Only, CameBack, Step;
      var now := Run(q, ws[0]);
      OnlyKeptByRun(q, ws[0], cookie, t);
      RunKeeps(q, ws[0]);
      if now.used != [] && Answers(now.used[0], cookie) {
        OwnComesBack(now, cookie, t);
      } else {
        GetBufKeeps(now);
        OnlyKept(now, GetBuf, cookie, t);
        PollsAnswerOwn(Step(now, GetBuf), cookie, t, ws[1..]);
      }
    }
  }

  lemma AddMakesOnly(q: Queue, c: Call)
    requires NoneOf(q, c.cookie) && Acceptable(c.sg, c.outNum, c.cookie) && |c.sg| <= |q.free|
    ensures Only(Step(q, AddBuf(c.sg, c.outNum, c.cookie)), c.cookie, |q.submitted|)
  {
  }

  /** A transaction started with requests of others in flight, left behind by their timeouts: if it
      answers, then with the length the device wrote for this very request. */
  lemma ForeignTransaction(q: Queue, c: Call)
    requires Inv(q) && NoneOf(q, c.cookie) && Proper(c)
    ensures var w := Transacted(q, c);
            w.answer.Some? ==> CameBack(w.q, |q.submitted|, c.cookie, w.answer.value)
  {
    hide Inv, Only, NoneOf, CameBack, Step, Acceptable;
    if |c.sg| <= |q.free| {
      AddMakesOnly(q, c);
      AddBufKeeps(q, c.sg, c.outNum, c.cookie);
      PollsAnswerOwn(Step(q, AddBuf(c.sg, c.outNum, c.cookie)), c.cookie, |q.submitted|, c.wakes);
    }
  }

  lemma {:induction false} UsedGrows(q: Queue, acts: seq<Op>)
    requires Conforming(acts)
    ensures q.used <= Run(q, acts).used
    decreases |acts|
  {
    if acts != [] {
      assert acts[0] in acts;
      UsedGrows(Step(q, acts[0]), acts[1..]);
    }
  }

  /** With k entries of others ahead of it in the used ring, the caller's own is harvested exactly
      when there are more than k polls. */
  lemma {:induction false} StepsOver(q: Queue, cookie: nat, k: nat, ws: seq<seq<Op>>)
    requires k < |q.used| && Answers(q.used[k], cookie) && AllConforming(ws)
    requires forall j :: 0 <= j < k ==> !Answers(q.used[j], cookie)
    ensures Polls(q, cookie, ws).answer == if k < |ws| then Some(q.used[k].written) else None
    decreases |ws|
  {
    if ws != [] {
      hide Run;
      var now := Run(q, ws[0]);
      UsedGrows(q, ws[0]);
      assert now.used[k] == q.used[k] && now.used[0] == q.used[0];
      if k > 0 {
        var next := Step(now, GetBuf);
        assert next.used == now.used[1..];
        forall j | 0 <= j < k - 1 ensures !Answers(next.used[j], cookie) {
          assert next.used[j] == q.used[j + 1];
        }
        StepsOver(next, cookie, k - 1, ws[1..]);
      }
    }
  }

  // ---------------------------------------------------------------- the driver's calls

  /** chip_do_io and chip_do_io_3sg, from any queue a conforming device serves. */
  method DoIo(vq: VirtQueue, c: Call) returns (bytes: u32, ghost answer: Option<u32>)
    requires vq.Valid() && NoBogus(vq.q) && Proper(c)
    modifies vq, vq.desc, vq.availRing, vq.cookies, vq.usedRing
    ensures vq.Valid() && NoBogus(vq.q)
    ensures Wait(vq.q, answer) == Transacted(old(vq.q), c) && bytes == answer.GetOr(0)
    ensures vq.q.submitted == old(vq.q.submitted)
              + (if |c.sg| <= old(|vq.q.free|) then [Submission(c.sg, c.outNum, c.cookie)] else [])
    ensures NoneOf(old(vq.q), c.cookie) && answer.Some? ==> CameBack(vq.q, old(|vq.q.submitted|), c.cookie, bytes)
  {
    hide Inv, Represents, Waited, CameBack, NoneOf;
    HeldCount(vq);
    TransactedSubmits(vq.q, c);
    if NoneOf(vq.q, c.cookie) { ForeignTransaction(vq.q, c); }
    var rc := vq.AddBuf(c.sg, c.outNum, c.inNum, c.cookie);
    if rc != 0 {
      return 0, None;
    }
    bytes, answer := WaitCtrlq(vq, c.cookie, c.wakes, c.late);
  }

  lemma ListedPair(cmd: Sg, resp: Sg)
    ensures Listed([cmd, resp], 1) == [Entry(cmd.addr, cmd.len, false), Entry(resp.addr, resp.len, true)]
  {
  }

  lemma ListedTriple(hdr: Sg, data: Sg, resp: Sg)
    ensures Listed([hdr, data, resp], 2)
            == [Entry(hdr.addr, hdr.len, false), Entry(data.addr, data.len, false), Entry(resp.addr, resp.len, true)]
  {
  }

  /** chip_do_io: command buffer out, response buffer in, with the calling task as cookie. */
  method ChipDoIo(vq: VirtQueue, cmd: Sg, resp: Sg, task: nat, wakes: seq<seq<Op>>, late: seq<Op>) returns (bytes: u32)
    requires vq.Valid() && Quiescent(vq.q) && vq.num >= 4
    requires Proper(Call([cmd, resp], 1, 1, task, wakes, late))
    modifies vq, vq.desc, vq.availRing, vq.cookies, vq.usedRing
    ensures vq.Valid() && bytes == Seen(Published, wakes).GetOr(0)
    ensures Seen(Published, wakes).Some? ==>
              Finished(vq.q, old(vq.q), Submission([cmd, resp], 1, task), bytes) && vq.numFree == vq.num
    ensures vq.q.submitted == old(vq.q.submitted) + [Submission([cmd, resp], 1, task)]
    ensures var g := vq.q.submitted[old(|vq.q.submitted|)];
            Listed(g.sg, g.outNum) == [Entry(cmd.addr, cmd.len, false), Entry(resp.addr, resp.len, true)]
  {
    hide Inv, Represents, Waiting, Finished, Seen, Listed;
    ListedPair(cmd, resp);
    bytes := FromQuiescent(vq, Call([cmd, resp], 1, 1, task, wakes, late));
  }

  /** chip_do_io_3sg: header and command data out, response in. */
  method ChipDoIo3sg(vq: VirtQueue, hdr: Sg, data: Sg, resp: Sg, task: nat, wakes: seq<seq<Op>>, late: seq<Op>)
    returns (bytes: u32)
    requires vq.Valid() && Quiescent(vq.q) && vq.num >= 4
    requires Proper(Call([hdr, data, resp], 2, 1, task, wakes, late))
    modifies vq, vq.desc, vq.availRing, vq.cookies, vq.usedRing
    ensures vq.Valid() && bytes == Seen(Published, wakes).GetOr(0)
    ensures Seen(Published, wakes).Some? ==>
              Finished(vq.q, old(vq.q), Submission([hdr, data, resp], 2, task), bytes) && vq.numFree == vq.num
    ensures vq.q.submitted == old(vq.q.submitted) + [Submission([hdr, data, resp], 2, task)]
    ensures var g := vq.q.submitted[old(|vq.q.submitted|)];
            Listed(g.sg, g.outNum)
            == [Entry(hdr.addr, hdr.len, false), Entry(data.addr, data.len, false), Entry(resp.addr, resp.len, true)]
  {
    hide Inv, Represents, Waiting, Finished, Seen, Listed;
    ListedTriple(hdr, data, resp);
    bytes := FromQuiescent(vq, Call([hdr, data, resp], 2, 1, task, wakes, late));
  }

  method FromQuiescent(vq: VirtQueue, c: Call) returns (bytes: u32)
    requires vq.Valid() && Quiescent(vq.q) && Proper(c)
    modifies vq, vq.desc, vq.availRing, vq.cookies, vq.usedRing
    ensures vq.Valid() && bytes == Reply(c, vq.num).GetOr(0)
    ensures Reply(c, vq.num).Some? ==> Finished(vq.q, old(vq.q), Given(c), bytes) && vq.numFree == vq.num
    ensures Reply(c, vq.num).None? ==> Unanswered(vq.q, old(vq.q), c)
    ensures |c.sg| <= vq.num ==> vq.q.submitted == old(vq.q.submitted) + [Given(c)]
  {
    hide Inv, Represents, Waiting, Transacted, Proper;
    QuiescentTransaction(vq.q, c);
    QuiescentAllFree(vq.q);
    ghost var answer;
    bytes, answer := DoIo(vq, c);
    if answer.Some? {
      QuiescentAllFree(vq.q);
      HeldCount(vq);
    }
  }

  /** What a transaction without an answer leaves of the quiescent queue q0: nothing changed if its
      list did not fit, else its request harvested in the drain or still in flight. */
  ghost predicate Unanswered(q: Queue, q0: Queue, c: Call) {
    var last := StageAfter(LastStage(Published, c.wakes), c.late);
    if |c.sg| > q0.num then q == q0
    else if last.Answered? then Finished(q, q0, Given(c), last.len)
    else Waiting(q, q0, Given(c), last)
  }

  // ---------------------------------------------------------------- runs of transactions

  predicate Replied(c: Call, num: nat) {
    Reply(c, num).Some? && Reply(c, num).value != 0
  }

  /** The replies of a run, up to the first call that has none or a reply of length 0. */
  function Replies(calls: seq<Call>, num: nat): (r: seq<u32>)
    ensures |r| <= |calls|
    decreases |calls|
  {
    if calls == [] || !Replied(calls[0], num) then []
    else [Reply(calls[0], num).value] + Replies(calls[1..], num)
  }

  function Returns(t: nat, calls: seq<Call>, results: seq<u32>): seq<Return>
    requires |results| <= |calls|
  {
    seq(|results|, j requires 0 <= j < |results| => Return(t + j, calls[j].cookie, results[j]))
  }

  lemma ReturnsSnoc(t: nat, calls: seq<Call>, results: seq<u32>, r: u32)
    requires |results| < |calls|
    ensures Returns(t, calls, results + [r])
            == Returns(t, calls, results) + [Return(t + |results|, calls[|results|].cookie, r)]
  {
  }

  function Submissions(calls: seq<Call>): seq<Submission> {
    seq(|calls|, i requires 0 <= i < |calls| => Given(calls[i]))
  }

  lemma SubmissionsSnoc(calls: seq<Call>, i: nat)
    requires i < |calls|
    ensures Submissions(calls[..i + 1]) == Submissions(calls[..i]) + [Given(calls[i])]
  {
  }

  /** The transactions with these results have been submitted and have come back, in order. */
  ghost predicate SoFar(q: Queue, q0: Queue, calls: seq<Call>, results: seq<u32>) {
    && |results| <= |calls| && q.num == q0.num
    && q.submitted == q0.submitted + Submissions(calls[..|results|])
    && q.returned == q0.returned + Returns(|q0.submitted|, calls, results)
  }

  /** ... and the next has been submitted if its list fits, without an answer to its caller. */
  ghost predicate StoppedAt(q: Queue, q0: Queue, calls: seq<Call>, results: seq<u32>) {
    && |results| < |calls|
    && q.submitted == q0.submitted + Submissions(calls[..|results| + if |calls[|results|].sg| <= q0.num then 1 else 0])
    && q0.returned + Returns(|q0.submitted|, calls, results) <= q.returned
  }

  /** Transactions one after the other from a quiescent queue, until one returns 0. The results are
      exactly the replies up to the first that is missing or empty; so the run goes through exactly
      when every call is replied to. Every AddBuf whose list fits the queue succeeds, also the one of
      the call that ends the run; each result came back under its own ticket. */
  method Session(vq: VirtQueue, calls: seq<Call>) returns (results: seq<u32>)
    requires vq.Valid() && Quiescent(vq.q) && forall c :: c in calls ==> Proper(c)
    modifies vq, vq.desc, vq.availRing, vq.cookies, vq.usedRing
    ensures vq.Valid() && results == Replies(calls, vq.num)
    ensures |results| == |calls| <==> forall i :: 0 <= i < |calls| ==> Replied(calls[i], vq.num)
    ensures forall j :: 0 <= j < |results| ==> Wrote(vq.q, old(|vq.q.submitted|) + j, results[j])
    ensures old(|vq.q.submitted|) + |results| <= |vq.q.submitted|
    ensures forall j :: 0 <= j < |results| ==>
              vq.q.submitted[old(|vq.q.submitted|) + j] == Submission(calls[j].sg, calls[j].outNum, calls[j].cookie)
    ensures |results| == |calls| ==> Between(vq, old(vq.q), calls, results)
    ensures |results| < |calls| ==>
              StoppedAt(vq.q, old(vq.q), calls, results) && !Replied(calls[|results|], vq.num)
  {
    hide Inv, Represents, Proper, Replied, Between, StoppedAt, Replies, Reply;
    results := [];
    ghost var q0 := vq.q;
    SessionStarts(vq, calls);
    var going := true;
    while going && |results| < |calls|
      modifies vq, vq.desc, vq.availRing, vq.cookies, vq.usedRing
      invariant vq.Valid() && RepliedTo(calls, results, vq.num) && (!going ==> |results| < |calls|)
      invariant if going then Between(vq, q0, calls, results)
                else StoppedAt(vq.q, q0, calls, results) && !Replied(calls[|results|], vq.num)
      decreases |calls| - |results|, going
    {
      going, results := NextCall(vq, q0, calls, results);
    }
    RepliesAre(calls, results, vq.num);
    ResultsWritten(vq, q0, calls, results);
  }

  ghost predicate RepliedTo(calls: seq<Call>, results: seq<u32>, num: nat) {
    |results| <= |calls|
    && forall j :: 0 <= j < |results| ==> Replied(calls[j], num) && results[j] == Reply(calls[j], num).value
  }

  lemma {:induction false} RepliesAre(calls: seq<Call>, results: seq<u32>, num: nat)
    requires RepliedTo(calls, results, num)
    requires |results| < |calls| ==> !Replied(calls[|results|], num)
    ensures results == Replies(calls, num)
    ensures |results| == |calls| <==> forall i :: 0 <= i < |calls| ==> Replied(calls[i], num)
    decreases |calls|
  {
    hide Reply;
    if results != [] {
      assert results == [results[0]] + results[1..];
      forall j | 0 <= j < |results| - 1
        ensures Replied(calls[1..][j], num) && results[1..][j] == Reply(calls[1..][j], num).value
      {
        assert results[1..][j] == results[j + 1] && calls[1..][j] == calls[j + 1];
      }
      RepliesAre(calls[1..], results[1..], num);
    }
  }

  /** Between two transactions of a run. */
  ghost predicate Between(vq: VirtQueue, q0: Queue, calls: seq<Call>, results: seq<u32>)
    reads vq
  {
    Quiescent(vq.q) && vq.numFree == vq.num && SoFar(vq.q, q0, calls, results)
  }

  /** One transaction of a run. */
  method NextCall(vq: VirtQueue, ghost q0: Queue, calls: seq<Call>, results: seq<u32>)
    returns (going: bool, results': seq<u32>)
    requires vq.Valid() && |results| < |calls| && Between(vq, q0, calls, results)
    requires forall c :: c in calls ==> Proper(c)
    modifies vq, vq.desc, vq.availRing, vq.cookies, vq.usedRing
    ensures vq.Valid() && going == Replied(calls[|results|], vq.num)
    ensures going ==> Between(vq, q0, calls, results') && results' == results + [Reply(calls[|results|], vq.num).value]
    ensures !going ==> StoppedAt(vq.q, q0, calls, results) && results' == results
  {
    hide Inv, Represents, Proper, Reply, Finished, Unanswered, SoFar, StoppedAt;
    ghost var now := vq.q;
    var c := calls[|results|];
    assert c in calls;
    var bytes := FromQuiescent(vq, c);
    if bytes == 0 {
      SessionStops(vq.q, now, q0, calls, results);
      return false, results;
    }
    SessionGoesOn(vq.q, now, q0, calls, results, bytes);
    return true, results + [bytes];
  }

  lemma SessionStarts(vq: VirtQueue, calls: seq<Call>)
    requires vq.Valid() && Quiescent(vq.q)
    ensures Between(vq, vq.q, calls, [])
  {
    hide Inv, Represents;
    var q0 := vq.q;
    QuiescentAllFree(q0);
    HeldCount(vq);
    assert calls[..0] == [] && Submissions([]) == [] && Returns(|q0.submitted|, calls, []) == [];
  }

  lemma SessionGoesOn(q: Queue, now: Queue, q0: Queue, calls: seq<Call>, results: seq<u32>, r: u32)
    requires SoFar(now, q0, calls, results) && |results| < |calls|
    requires Finished(q, now, Given(calls[|results|]), r)
    ensures SoFar(q, q0, calls, results + [r]) && Quiescent(q)
  {
    hide Submissions, Returns;
    SubmissionsSnoc(calls, |results|);
    ReturnsSnoc(|q0.submitted|, calls, results, r);
    assert |Submissions(calls[..|results|])| == |results| by { SubmissionsLength(calls[..|results|]); }
  }

  lemma SubmissionsLength(calls: seq<Call>)
    ensures |Submissions(calls)| == |calls|
  {
  }

  lemma SessionStops(q: Queue, now: Queue, q0: Queue, calls: seq<Call>, results: seq<u32>)
    requires SoFar(now, q0, calls, results) && |results| < |calls|
    requires var c := calls[|results|];
             || (Reply(c, now.num) == Some(0) && Finished(q, now, Given(c), 0))
             || (Reply(c, now.num) == None && Unanswered(q, now, c))
    ensures StoppedAt(q, q0, calls, results)
  {
    hide Submissions, Returns;
    SubmissionsSnoc(calls, |results|);
  }

  lemma ResultsWritten(vq: VirtQueue, q0: Queue, calls: seq<Call>, results: seq<u32>)
    requires vq.Valid() && |results| <= |calls|
    requires Between(vq, q0, calls, results) || StoppedAt(vq.q, q0, calls, results)
    ensures forall j :: 0 <= j < |results| ==> Wrote(vq.q, |q0.submitted| + j, results[j])
    ensures |q0.submitted| + |results| <= |vq.q.submitted|
    ensures forall j :: 0 <= j < |results| ==> vq.q.submitted[|q0.submitted| + j] == Given(calls[j])
  {
    hide Represents, Partition, Accounted, AllWellFormed;
    forall j | 0 <= j < |results| ensures Wrote(vq.q, |q0.submitted| + j, results[j]) {
      assert vq.q.returned[|q0.returned| + j] == Returns(|q0.submitted|, calls, results)[j];
      assert vq.q.returned[|q0.returned| + j] in vq.q.returned;
    }
  }
}
