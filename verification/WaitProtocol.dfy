/** chip_wait_ctrlq against chip_InterruptHandler, statement by statement. The handler runs
    to completion between any two statements of the waiter; the device completes
    requests and raises its interrupt whenever it likes. */
module WaitProtocol {

  const BURSTS := 50
  const POLLS := 1_000_000
  const DRAIN_LIMIT := 256

  /** Whose request a used entry answers: the waiter's, or one left behind by another. */
  datatype Owner = Mine | Stale

  /** The statement the waiter executes next. */
  datatype Pc =
    | AllocSignal | ClearFirst | PublishTask | PublishMask
    | Burst | Poll | Parked | ClearAgain
    | RetractMask | RetractTask | FreeSignal
    | Judge | Drain | Returned

  /** What task and handler share: ctrlq_wait_task, ctrlq_wait_mask, and the signal bit. */
  datatype Gate = Gate(
    task: bool,           // ctrlq_wait_task != NULL
    mask: bool,           // ctrlq_wait_mask != 0
    owned: bool,          // the bit is allocated to the waiter
    latched: bool,        // the bit is set in the waiter's received signals
    stray: bool)          // the handler has signalled a bit the waiter does not own

  /** What device and driver share. */
  datatype Wire = Wire(
    mine: bool,           // the waiter's request is with the device
    stale: nat,           // requests of others still with the device
    used: seq<Owner>,     // the used ring, oldest first
    raising: bool,        // the device has posted and not yet set its ISR bit
    isr: bool)            // the ISR bit is set and the handler has not run

  datatype State = State(
    pc: Pc,
    signalling: bool,     // sig_bit >= 0: the interrupt path
    budget: nat,          // wait_attempts or timeout
    got: bool,            // got_cookie == cookie
    drained: nat,
    gate: Gate,
    wire: Wire)

  datatype Act =
    | Task                // the waiter's next statement; at Parked only if the bit is latched
    | TaskNoSignal        // AllocSignal finds no free bit, or no interrupt is installed
    | Complete(o: Owner)  // the device posts a used entry
    | Raise               // ... and then sets its ISR bit
    | OtherIrq            // a cursor-queue completion sets the same ISR bit
    | Handler

  /** Just after AddBuf and notify, with n requests of other tasks left behind. */
  function Start(n: nat): State {
    State(AllocSignal, false, 0, false, 0, Gate(false, false, false, false, false), Wire(true, n, [], false, false))
  }

  /** GetBuf: takes the oldest used entry, if any. */
  function Taken(s: State): State {
    if s.wire.used == [] then s else s.(wire := s.wire.(used := s.wire.used[1..]))
  }

  function TaskStep(s: State): State {
    match s.pc
    case AllocSignal => s.(pc := ClearFirst, signalling := true, budget := BURSTS, gate := s.gate.(owned := true))
    case ClearFirst => s.(pc := PublishTask, gate := s.gate.(latched := false))
    case PublishTask => s.(pc := PublishMask, gate := s.gate.(task := true))
    case PublishMask => s.(pc := Burst, gate := s.gate.(mask := true))
    case Burst =>
      if s.budget > 0 then s.(pc := Poll, budget := s.budget - 1)
      else s.(pc := if s.signalling then RetractMask else Judge)
    case Poll =>
      if s.wire.used != [] && s.wire.used[0] == Mine then
        Taken(s).(pc := if s.signalling then RetractMask else Judge, got := true)
      else
        Taken(s).(pc := if s.signalling then Parked else Burst, got := false)
    case Parked => if s.gate.latched then s.(pc := ClearAgain, gate := s.gate.(latched := false)) else s
    case ClearAgain => s.(pc := Burst, gate := s.gate.(latched := false))
    case RetractMask => s.(pc := RetractTask, gate := s.gate.(mask := false))
    case RetractTask => s.(pc := FreeSignal, gate := s.gate.(task := false))
    case FreeSignal => s.(pc := Judge, gate := s.gate.(owned := false))
    case Judge => s.(pc := if s.got then Returned else Drain)
    case Drain =>
      if s.wire.used == [] then s.(pc := Returned)
      else Taken(s).(drained := s.drained + 1, pc := if s.drained + 1 > DRAIN_LIMIT then Returned else Drain)
    case Returned => s
  }

  function DeviceStep(w: Wire, a: Act): Wire {
    match a
    case Complete(Mine) => if w.mine then w.(mine := false, used := w.used + [Mine], raising := true) else w
    case Complete(Stale) =>
      if w.stale > 0 then w.(stale := w.stale - 1, used := w.used + [Stale], raising := true) else w
    case Raise => if w.raising then w.(raising := false, isr := true) else w
    case OtherIrq => w.(isr := true)
    case _ => w
  }

  /** The handler acknowledges the ISR bit; it signals only if both words are published. */
  function HandlerStep(s: State): State {
    if !s.wire.isr then s
    else s.(wire := s.wire.(isr := false),
            gate := if s.gate.task && s.gate.mask
                    then s.gate.(latched := true, stray := s.gate.stray || !s.gate.owned)
                    else s.gate)
  }

  function Do(s: State, a: Act): State {
    match a
    case Task => TaskStep(s)
    case TaskNoSignal => if s.pc == AllocSignal then s.(pc := Burst, budget := POLLS) else s
    case Handler => HandlerStep(s)
    case _ => s.(wire := DeviceStep(s.wire, a))
  }

  function Exec(s: State, run: seq<Act>): State
    decreases |run|
  {
    if run == [] then s else Exec(Do(s, run[0]), run[1..])
  }

  lemma {:induction false} ExecConcat(s: State, a: seq<Act>, b: seq<Act>)
    ensures Exec(s, a + b) == Exec(Exec(s, a), b)
    decreases |a|
  {
    if a == [] {
      assert a + b == b;
    } else {
      assert (a + b)[1..] == a[1..] + b;
      ExecConcat(Do(s, a[0]), a[1..], b);
    }
  }

  // ---------------------------------------------------------------- safety

  /** A parked task whose completion is visible has been, or is about to be, woken. */
  predicate WakeUpKept(s: State) {
    s.pc == Parked && Mine in s.wire.used ==> s.gate.latched || s.wire.isr || s.wire.raising
  }

  /** Where the waiter stands fixes what it owns and what it has published. */
  predicate Consistent(s: State) {
    && !s.gate.stray
    && (s.gate.mask ==> s.gate.task) && (s.gate.task ==> s.gate.owned)
    && match s.pc
       case AllocSignal => !s.signalling && !s.gate.owned
       case ClearFirst | PublishTask => s.signalling && s.gate.owned
       case PublishMask => s.signalling && s.gate.task
       case Burst | Poll => if s.signalling then s.gate.mask else !s.gate.task
       case ClearAgain => s.signalling && s.gate.mask
       case Parked => s.signalling && s.gate.mask && !s.got
       case RetractMask => s.signalling && s.gate.task
       case RetractTask => s.signalling && s.gate.task && !s.gate.mask
       case FreeSignal => s.signalling && s.gate.owned && !s.gate.task
       case Judge | Drain | Returned => !s.gate.task
  }

  /** With no request left behind, the used ring holds at most the waiter's own entry. */
  predicate OwnOnly(w: Wire) {
    && w.stale == 0
    && (w.used == [] || (w.used == [Mine] && !w.mine))
  }

  lemma ConsistentKept(s: State, a: Act)
    requires Consistent(s)
    ensures Consistent(Do(s, a))
  {
    match a
    case Task => TaskConsistent(s);
    case Handler =>
    case _ =>
  }

  lemma TaskConsistent(s: State)
    requires Consistent(s)
    ensures Consistent(TaskStep(s))
  {
    match s.pc
    case Burst =>
    case Poll =>
    case Drain =>
    case _ =>
  }

  lemma DeviceOwnOnly(w: Wire, a: Act)
    requires OwnOnly(w)
    ensures OwnOnly(DeviceStep(w, a))
  {
    if a == Complete(Mine) && w.mine {
      assert [] + [Mine] == [Mine];
    }
  }

  lemma OwnOnlyKept(s: State, a: Act)
    requires OwnOnly(s.wire)
    ensures OwnOnly(Do(s, a).wire)
  {
    DeviceOwnOnly(s.wire, a);
    assert OwnOnly(Taken(s).wire);
  }

  lemma WakeUpKeptStep(s: State, a: Act)
    requires Consistent(s) && OwnOnly(s.wire) && WakeUpKept(s)
    ensures WakeUpKept(Do(s, a))
  {
    if a == Task && s.pc == Poll {
      assert Taken(s).wire.used == [];
    }
  }

  /** Every Signal the handler sends names a bit the waiter still owns, whatever was left behind. */
  lemma {:induction false} NoStraySignal(s: State, run: seq<Act>)
    requires Consistent(s)
    ensures Consistent(Exec(s, run)) && !Exec(s, run).gate.stray
    decreases |run|
  {
    if run != [] {
      ConsistentKept(s, run[0]);
      NoStraySignal(Do(s, run[0]), run[1..]);
    }
  }

  lemma {:induction false} NoLostWakeUp(s: State, run: seq<Act>)
    requires Consistent(s) && OwnOnly(s.wire) && WakeUpKept(s)
    ensures var t := Exec(s, run); Consistent(t) && OwnOnly(t.wire) && WakeUpKept(t)
    decreases |run|
  {
    if run != [] {
      ConsistentKept(s, run[0]);
      OwnOnlyKept(s, run[0]);
      WakeUpKeptStep(s, run[0]);
      NoLostWakeUp(Do(s, run[0]), run[1..]);
    }
  }

  /** A run that loses the wake-up when a request was left behind: both completions are posted
      before the waiter publishes, so their interrupt finds nobody to signal; the first poll takes
      the stale entry and the waiter parks with its own completion in the ring. */
  function LosingRun(): seq<Act> {
    [Complete(Stale), Complete(Mine), Raise, Handler, Task, Task, Task, Task, Task, Task]
  }

  /** Both completions posted, their interrupt gone, and the waiter has published nothing yet. */
  predicate BothPosted(s: State) {
    && s.wire.used == [Stale, Mine] && !s.wire.isr && !s.wire.raising && !s.gate.latched
  }

  lemma BothPost(n: nat)
    requires n > 0
    ensures var s := Exec(Start(n), [Complete(Stale), Complete(Mine), Raise, Handler]);
            s.pc == AllocSignal && BothPosted(s)
  {
    ExecFour(Start(n), [Complete(Stale), Complete(Mine), Raise, Handler]);
  }

  lemma Publishes(s: State)
    requires s.pc == AllocSignal
    ensures var t := Exec(s, [Task, Task, Task, Task]);
            t == s.(pc := Burst, signalling := true, budget := BURSTS,
                    gate := Gate(true, true, true, false, s.gate.stray))
  {
    ExecFour(s, [Task, Task, Task, Task]);
  }

  lemma LosingRunLoses(n: nat)
    requires n > 0
    ensures !WakeUpKept(Exec(Start(n), LosingRun()))
  {
    hide Exec, Start;
    var a, b, c := [Complete(Stale), Complete(Mine), Raise, Handler], [Task, Task, Task, Task], [Task, Task];
    assert LosingRun() == a + (b + c);
    BothPost(n);
    var s1 := Exec(Start(n), a);
    Publishes(s1);
    ExecConcat(Start(n), a, b + c);
    ExecConcat(s1, b, c);
    ExecTwo(Exec(s1, b), c);
  }

  lemma ExecFour(s: State, r: seq<Act>)
    requires |r| == 4
    ensures Exec(s, r) == Do(Do(Do(Do(s, r[0]), r[1]), r[2]), r[3])
  {
    ExecConcat(s, r[..2], r[2..]);
    assert r[..2] + r[2..] == r;
    ExecTwo(s, r[..2]);
    ExecTwo(Do(Do(s, r[0]), r[1]), r[2..]);
  }

  lemma ExecTwo(s: State, r: seq<Act>)
    requires |r| == 2
    ensures Exec(s, r) == Do(Do(s, r[0]), r[1])
  {
    assert r[1..][1..] == [];
    assert Exec(s, r) == Exec(Do(s, r[0]), r[1..]);
    assert Exec(Do(s, r[0]), r[1..]) == Exec(Do(Do(s, r[0]), r[1]), []);
  }

  /** No wake-up is ever lost, in any interleaving, exactly when nothing was left behind. */
  lemma WakeUpKeptIff(n: nat)
    ensures (forall run :: WakeUpKept(Exec(Start(n), run))) <==> n == 0
  {
    if n == 0 {
      forall run ensures WakeUpKept(Exec(Start(0), run)) { NoLostWakeUp(Start(0), run); }
    } else {
      LosingRunLoses(n);
    }
  }

  // ---------------------------------------------------------------- what the wake-up leads to

  /** The waiter has stopped polling. */
  predicate Retracting(s: State) {
    match s.pc
    case RetractMask | RetractTask | FreeSignal | Judge | Drain | Returned => true
    case _ => false
  }

  /** Where a waiter stands that parked with b bursts left and its completion in the ring. */
  predicate OnTheWay(s: State, b: nat) {
    && s.signalling && OwnOnly(s.wire) && !s.wire.mine
    && match s.pc
       case Parked | ClearAgain | Burst => !s.got && s.wire.used == [Mine] && s.budget == b
       case Poll => !s.got && s.wire.used == [Mine] && b > 0
       case RetractMask | RetractTask | FreeSignal | Judge =>
         s.got == (b > 0) && s.wire.used == (if b > 0 then [] else [Mine])
       case Drain | Returned => s.got == (b > 0)
       case _ => false
  }

  lemma OnTheWayStep(s: State, a: Act, b: nat)
    requires OnTheWay(s, b)
    ensures OnTheWay(Do(s, a), b)
  {
    OwnOnlyKept(s, a);
    match a
    case Task => OnTheWayTask(s, b);
    case Handler =>
    case TaskNoSignal =>
    case _ => DeviceIdle(s.wire, a);
  }

  lemma DeviceIdle(w: Wire, a: Act)
    requires OwnOnly(w)
    ensures w.used == [Mine] ==> DeviceStep(w, a).used == [Mine]
    ensures w.used == [] && !w.mine ==> DeviceStep(w, a).used == []
  {
  }

  lemma OnTheWayTask(s: State, b: nat)
    requires OnTheWay(s, b)
    ensures OnTheWay(TaskStep(s), b)
  {
    assert OwnOnly(Taken(s).wire);
  }

  /** In every interleaving a waiter parked with its completion in the ring harvests it if a burst is
      left, and gives up on it if none is. */
  lemma {:induction false} ParkedOutcome(s: State, b: nat, run: seq<Act>)
    requires OnTheWay(s, b)
    ensures var t := Exec(s, run); OnTheWay(t, b) && (Retracting(t) ==> t.got == (b > 0))
    decreases |run|
  {
    if run != [] {
      hide OnTheWay, Do, Retracting;
      OnTheWayStep(s, run[0], b);
      ParkedOutcome(Do(s, run[0]), b, run[1..]);
    }
    RetractedGot(Exec(s, run), b);
  }

  lemma RetractedGot(s: State, b: nat)
    requires OnTheWay(s, b)
    ensures Retracting(s) ==> s.got == (b > 0)
  {
  }

  /** Statements of the waiter up to the retraction. */
  function StepsLeft(s: State): nat {
    match s.pc
    case Parked => 4
    case ClearAgain => 3
    case Burst => 2
    case Poll => 1
    case _ => 0
  }

  /** Not blocked in Wait. */
  predicate Awake(s: State) {
    s.pc == Parked ==> s.gate.latched
  }

  function Turns(run: seq<Act>): nat {
    if run == [] then 0 else (if run[0] == Task then 1 else 0) + Turns(run[1..])
  }

  lemma StepsLeftFall(s: State, a: Act, b: nat)
    requires OnTheWay(s, b) && Awake(s)
    ensures Awake(Do(s, a)) && StepsLeft(Do(s, a)) <= StepsLeft(s)
    ensures a == Task && StepsLeft(s) > 0 ==> StepsLeft(Do(s, a)) < StepsLeft(s)
  {
    match a
    case Task =>
    case Handler =>
    case TaskNoSignal =>
    case _ =>
  }

  lemma NothingLeft(s: State, b: nat)
    requires OnTheWay(s, b) && StepsLeft(s) == 0
    ensures Retracting(s)
  {
  }

  /** Once awake, the waiter gets to the retraction in at most four of its own statements, whatever
      happens between them. */
  lemma {:induction false} AwakeGetsThere(s: State, b: nat, run: seq<Act>)
    requires OnTheWay(s, b) && Awake(s) && Turns(run) >= StepsLeft(s)
    ensures Retracting(Exec(s, run)) && Exec(s, run).got == (b > 0)
    decreases |run|
  {
    hide OnTheWay, Do, Retracting, Awake, StepsLeft;
    ParkedOutcome(s, b, run);
    if run == [] {
      NothingLeft(s, b);
    } else {
      StepsLeftFall(s, run[0], b);
      OnTheWayStep(s, run[0], b);
      AwakeGetsThere(Do(s, run[0]), b, run[1..]);
    }
  }

  /** The wake-up that is kept wakes: delivering the pending interrupt ends the Wait. */
  lemma DeliveryWakes(s: State)
    requires Consistent(s) && OwnOnly(s.wire) && WakeUpKept(s) && s.pc == Parked && Mine in s.wire.used
    ensures OnTheWay(s, s.budget)
    ensures var t := Exec(s, [Raise, Handler]); OnTheWay(t, s.budget) && Awake(t)
  {
    ExecTwo(s, [Raise, Handler]);
  }

  /** Parked with k bursts left, nothing posted yet. */
  function ParkedWith(k: nat): State {
    State(Parked, true, k, false, 0, Gate(true, true, true, false, false), Wire(true, 0, [], false, false))
  }

  /** An interrupt of the other queue costs the waiter one burst. */
  lemma OtherIrqCostsBurst(k: nat)
    requires k > 0
    ensures Exec(ParkedWith(k), [OtherIrq, Handler, Task, Task] + [Task, Task]) == ParkedWith(k - 1)
  {
    var a, b := [OtherIrq, Handler, Task, Task], [Task, Task];
    ExecConcat(ParkedWith(k), a, b);
    ExecFour(ParkedWith(k), a);
    ExecTwo(Exec(ParkedWith(k), a), b);
  }

  function OtherIrqs(k: nat): seq<Act> {
    if k == 0 then [] else ([OtherIrq, Handler, Task, Task] + [Task, Task]) + OtherIrqs(k - 1)
  }

  lemma {:induction false} OtherIrqsCostBursts(k: nat)
    ensures Exec(ParkedWith(k), OtherIrqs(k)) == ParkedWith(0)
  {
    if k > 0 {
      OtherIrqCostsBurst(k);
      OtherIrqsCostBursts(k - 1);
      ExecConcat(ParkedWith(k), [OtherIrq, Handler, Task, Task] + [Task, Task], OtherIrqs(k - 1));
    }
  }

  lemma FirstPark()
    ensures Exec(Start(0), [Task, Task, Task, Task] + [Task, Task]) == ParkedWith(BURSTS - 1)
  {
    var a, b := [Task, Task, Task, Task], [Task, Task];
    ExecConcat(Start(0), a, b);
    ExecFour(Start(0), a);
    ExecTwo(Exec(Start(0), a), b);
  }

  function LastWake(): seq<Act> {
    [Complete(Mine), Raise, Handler, Task] + ([Task, Task, Task, Task] + [Task, Task, Task, Task])
  }

  lemma LastWakeGivesUp()
    ensures var t := Exec(ParkedWith(0), LastWake());
            t.pc == Returned && !t.got && !t.wire.mine && t.wire.used == []
  {
    hide Exec;
    var a, b := [Complete(Mine), Raise, Handler, Task], [Task, Task, Task, Task];
    var s0 := ParkedWith(0);
    ExecConcat(s0, a, b + b);
    LastWakeUp();
    var s1 := Exec(s0, a);
    ExecConcat(s1, b, b);
    Retracts(s1);
    DrainThrowsAway(Exec(s1, b));
  }

  lemma LastWakeUp()
    ensures var s0 := ParkedWith(0);
            Exec(s0, [Complete(Mine), Raise, Handler, Task])
            == s0.(pc := ClearAgain, wire := Wire(false, 0, [Mine], false, false))
  {
    ExecFour(ParkedWith(0), [Complete(Mine), Raise, Handler, Task]);
  }

  lemma Retracts(s: State)
    requires s.pc == ClearAgain && s.budget == 0 && s.signalling
    ensures var t := Exec(s, [Task, Task, Task, Task]);
            t.pc == FreeSignal && t.wire == s.wire && t.got == s.got && t.drained == s.drained
  {
    ExecFour(s, [Task, Task, Task, Task]);
  }

  lemma DrainThrowsAway(s: State)
    requires s.pc == FreeSignal && s.wire.used == [Mine] && !s.got && s.drained == 0
    ensures var t := Exec(s, [Task, Task, Task, Task]);
            t.pc == Returned && !t.got && t.wire == s.wire.(used := [])
  {
    ExecFour(s, [Task, Task, Task, Task]);
  }

  // ---------------------------------------------------------------- what a timeout takes

  function Foreign(run: seq<Act>): nat {
    if run == [] then 0 else (if run[0] == OtherIrq then 1 else 0) + Foreign(run[1..])
  }

  lemma {:induction false} ForeignConcat(a: seq<Act>, b: seq<Act>)
    ensures Foreign(a + b) == Foreign(a) + Foreign(b)
  {
    if a == [] {
      assert a + b == b;
    } else {
      assert (a + b)[1..] == a[1..] + b;
      ForeignConcat(a[1..], b);
    }
  }

  function One(b: bool): nat {
    if b then 1 else 0
  }

  /** Times that Wait has returned; all of them, for a waiter that gives up. */
  function Wakes(s: State): int {
    match s.pc
    case AllocSignal | ClearFirst | PublishTask | PublishMask => 0
    case Burst | ClearAgain => BURSTS - s.budget
    case Poll | Parked => BURSTS - s.budget - 1
    case _ => if s.got then 0 else BURSTS
  }

  /** Wake-ups on their way in the device and the wires. */
  function Coming(w: Wire): nat {
    One(w.mine) + One(w.raising) + One(w.isr)
  }

  predicate BudgetKept(s: State) {
    && (s.pc != AllocSignal ==> s.signalling)
    && match s.pc
       case ClearFirst | PublishTask | PublishMask => s.budget == BURSTS
       case Poll | Parked | ClearAgain => s.budget < BURSTS
       case _ => s.budget <= BURSTS
  }

  /** Every wake-up is paid for, by the waiter's own interrupt or by one of n foreign ones. */
  predicate Paid(s: State, n: nat) {
    OwnOnly(s.wire) && BudgetKept(s) && Wakes(s) + One(s.gate.latched) + Coming(s.wire) <= 1 + n
  }

  /** A statement of the waiter uses up a latched signal for each wake-up. */
  lemma WakesTask(s: State)
    requires BudgetKept(s)
    ensures BudgetKept(TaskStep(s)) && Coming(TaskStep(s).wire) == Coming(s.wire)
    ensures Wakes(TaskStep(s)) + One(TaskStep(s).gate.latched) <= Wakes(s) + One(s.gate.latched)
  {
    match s.pc
    case Burst =>
    case Poll =>
    case Parked =>
    case ClearAgain =>
    case _ =>
  }

  /** Only an interrupt of the other queue adds a wake-up. */
  lemma ComingDevice(w: Wire, a: Act)
    requires OwnOnly(w)
    ensures Coming(DeviceStep(w, a)) <= Coming(w) + One(a == OtherIrq)
  {
  }

  lemma HandlerMovesWakeUp(s: State)
    ensures One(HandlerStep(s).gate.latched) + Coming(HandlerStep(s).wire) <= One(s.gate.latched) + Coming(s.wire)
  {
  }

  lemma PaidStep(s: State, a: Act, n: nat)
    requires Paid(s, n) && a != TaskNoSignal
    ensures Paid(Do(s, a), n + One(a == OtherIrq))
  {
    hide OwnOnly, Coming, TaskStep, DeviceStep;
    OwnOnlyKept(s, a);
    match a
    case Task => WakesTask(s);
    case Handler => HandlerMovesWakeUp(s);
    case _ => ComingDevice(s.wire, a);
  }

  lemma {:induction false} RunIsPaid(s: State, run: seq<Act>, n: nat)
    requires Paid(s, n) && TaskNoSignal !in run
    ensures Paid(Exec(s, run), n + Foreign(run))
    decreases |run|
  {
    if run != [] {
      hide Paid, Do;
      assert run[0] in run;
      PaidStep(s, run[0], n);
      RunIsPaid(Do(s, run[0]), run[1..], n + One(run[0] == OtherIrq));
    }
  }

  predicate TimedOut(s: State) {
    s.pc == Returned && !s.got
  }

  /** The waiter has timed out, and its own completion, which had come, is gone from the ring. */
  predicate ThrownAway(s: State) {
    TimedOut(s) && !s.wire.mine && s.wire.used == []
  }

  /** With the interrupt path and nothing left behind, a timeout takes 49 interrupts of the other
      queue. */
  lemma TimeoutCosts(run: seq<Act>)
    requires TaskNoSignal !in run && TimedOut(Exec(Start(0), run))
    ensures Foreign(run) >= 49
  {
    hide Exec;
    RunIsPaid(Start(0), run, 0);
  }

  function ThrowingAway(): seq<Act> {
    ([Task, Task, Task, Task] + [Task, Task]) + (OtherIrqs(BURSTS - 1) + LastWake())
  }

  lemma ThrowsAway()
    ensures ThrownAway(Exec(Start(0), ThrowingAway()))
  {
    var a, b, c := [Task, Task, Task, Task] + [Task, Task], OtherIrqs(BURSTS - 1), LastWake();
    FirstPark();
    OtherIrqsCostBursts(BURSTS - 1);
    LastWakeGivesUp();
    ExecConcat(Start(0), a, b + c);
    ExecConcat(ParkedWith(BURSTS - 1), b, c);
  }

  lemma {:induction false} OtherIrqsCount(k: nat)
    ensures Foreign(OtherIrqs(k)) == k && TaskNoSignal !in OtherIrqs(k)
  {
    if k > 0 {
      var one := [OtherIrq, Handler, Task, Task] + [Task, Task];
      OtherIrqsCount(k - 1);
      ForeignConcat(one, OtherIrqs(k - 1));
      ForeignConcat([OtherIrq], one[1..]);
      NoForeign(one[1..]);
      assert one == [OtherIrq] + one[1..] && Foreign([OtherIrq]) == 1 by { assert [OtherIrq][1..] == []; }
    }
  }

  lemma {:induction false} NoForeign(run: seq<Act>)
    requires OtherIrq !in run
    ensures Foreign(run) == 0
  {
    if run != [] {
      assert run[0] in run;
      NoForeign(run[1..]);
    }
  }

  lemma ThrowingAwayCount()
    ensures Foreign(ThrowingAway()) == BURSTS - 1 && TaskNoSignal !in ThrowingAway()
  {
    hide OtherIrqs, Foreign;
    var a, b, c := [Task, Task, Task, Task] + [Task, Task], OtherIrqs(BURSTS - 1), LastWake();
    OtherIrqsCount(BURSTS - 1);
    NoForeign(a);
    NoForeign(c);
    ForeignConcat(a, b + c);
    ForeignConcat(b, c);
  }

  /** Interrupts after the return change nothing of the outcome. */
  lemma {:induction false} LaterIrqs(s: State, k: nat)
    requires ThrownAway(s)
    ensures var more := seq(k, _ => OtherIrq);
            ThrownAway(Exec(s, more)) && Foreign(more) == k && TaskNoSignal !in more
    decreases k
  {
    if k > 0 {
      LaterIrqs(Do(s, OtherIrq), k - 1);
      assert seq(k, _ => OtherIrq)[1..] == seq(k - 1, _ => OtherIrq);
    }
  }

  /** A run of the interrupt path with nothing left behind and n interrupts of the other queue. */
  predicate Plain(run: seq<Act>, n: nat) {
    TaskNoSignal !in run && Foreign(run) == n
  }

  lemma ThrowsAwayWith(n: nat)
    requires n >= BURSTS - 1
    ensures exists run :: Plain(run, n) && ThrownAway(Exec(Start(0), run))
  {
    hide Exec, ThrowingAway, Foreign, ThrownAway;
    var k := n - (BURSTS - 1);
    var more := seq(k, _ => OtherIrq);
    var run := ThrowingAway() + more;
    ThrowsAway();
    ThrowingAwayCount();
    LaterIrqs(Exec(Start(0), ThrowingAway()), k);
    ExecConcat(Start(0), ThrowingAway(), more);
    ForeignConcat(ThrowingAway(), more);
    assert Plain(run, n);
  }

  // ---------------------------------------------------------------- without the interrupt

  /** Statements the waiter has executed for where it stands on the polling path. */
  predicate Polled(s: State, turns: nat) {
    s.signalling
    || match s.pc
       case AllocSignal => true
       case Burst => s.budget <= 1_000_000 && turns >= 2 * (1_000_000 - s.budget)
       case Poll => s.budget < 1_000_000 && turns >= 2 * (1_000_000 - s.budget) - 1
       case Judge | Drain | Returned => s.got || turns > 2_000_000
       case _ => false
  }

  lemma PolledStep(s: State, a: Act, turns: nat)
    requires Polled(s, turns)
    ensures Polled(Do(s, a), turns + One(a == Task))
  {
    match a
    case Task =>
    case TaskNoSignal =>
    case Handler =>
    case _ =>
  }

  lemma {:induction false} RunIsPolled(s: State, run: seq<Act>, turns: nat)
    requires Polled(s, turns)
    ensures Polled(Exec(s, run), turns + Turns(run))
    decreases |run|
  {
    if run != [] {
      hide Polled, Do;
      PolledStep(s, run[0], turns);
      RunIsPolled(Do(s, run[0]), run[1..], turns + One(run[0] == Task));
    }
  }

  /** Without a signal bit or an installed interrupt a wait gives up only after a million polls of two
      statements each, whatever was left behind. */
  lemma PollingTimeoutCosts(n: nat, run: seq<Act>)
    requires TimedOut(Exec(Start(n), run)) && !Exec(Start(n), run).signalling
    ensures Turns(run) > 2_000_000
  {
    hide Exec;
    RunIsPolled(Start(n), run, 0);
  }

  /** The loop does not look at the ring after its last Wait. With nothing left behind, n interrupts
      of the other queue can make a wait on the interrupt path report a timeout exactly when n is at
      least 49; and then the waiter's own completion may have come, woken the last Wait, and be
      drained and thrown away. */
  lemma LastWaitIsNotRechecked(n: nat)
    ensures (exists run :: Plain(run, n) && TimedOut(Exec(Start(0), run))) <==> n >= 49
    ensures (exists run :: Plain(run, n) && ThrownAway(Exec(Start(0), run))) <==> n >= 49
  {
    hide Exec, Start;
    forall run | Plain(run, n) && TimedOut(Exec(Start(0), run)) ensures n >= 49 {
      TimeoutCosts(run);
    }
    if n >= BURSTS - 1 {
      ThrowsAwayWith(n);
    }
  }
}
