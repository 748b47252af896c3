/**
 The bounded-buffer protocol as a transition system. Cashiers (producers) run
 wait(empty), insert, signal(full); packers (consumers) run wait(full), remove,
 signal(empty); after waking, each re-reads the simulation flag and, when it
 finds the simulation over, signals back the semaphore it just took and stops.
 A timer clears the flag and then signals each semaphore once per worker.

 Every step below is one atomic action of one thread: a read of the flag, one
 semaphore operation, or the critical section under the buffer's mutex. Any
 interleaving of enabled steps is a possible execution. Workers of one role
 are interchangeable (their identifiers only feed logging and the random seed),
 so the state counts how many of them stand at each point of their loop; the
 threads parked on a semaphore are counted by that semaphore.
 */
module Protocol {
  import Semaphore
  import RingBuffer

  /** NUM_CAJEROS */
  const Cashiers: nat := 3
  /** NUM_EMPACADORES */
  const Packers: nat := 2
  /** Signals the timer issues on each semaphore. */
  const Workers: nat := Cashiers + Packers

  datatype Option<T> = None | Some(value: T)

  /** Workers of one role by position in their loop:
      running  - at the top of the loop, about to read the flag;
      ready    - read the flag as set, about to wait on their semaphore;
      acquired - passed the wait (or were woken), about to re-read the flag;
      entering - found the flag still set, about to run the critical section;
      moved    - ran the critical section, about to signal the other semaphore;
      stopped  - left the loop. */
  datatype Crew = Crew(running: nat, ready: nat, acquired: nat, entering: nat, moved: nat, stopped: nat)

  function Headcount(c: Crew): nat {
    c.running + c.ready + c.acquired + c.entering + c.moved + c.stopped
  }

  /** The timer thread: asleep, inside its signalling loop at round `round` (having
      already signalled the full semaphore in that round when `fullSent`), or done. */
  datatype Timer = Sleeping | Broadcasting(round: nat, fullSent: bool) | Finished

  datatype State = State(
    ring: RingBuffer.Ring,
    empty: Semaphore.Sem,
    full: Semaphore.Sem,
    active: bool,
    cashiers: Crew,
    packers: Crew,
    timer: Timer)

  datatype Action =
    | CashierCheck | CashierWait | CashierRecheck | CashierPlace(item: RingBuffer.Product) | CashierPost
    | PackerCheck | PackerWait | PackerRecheck | PackerTake | PackerPost
    | TimerExpire | TimerSignalFull | TimerSignalEmpty | TimerExit

  /** Start of main: the buffer zeroed, sem_empty at BUFFER_SIZE, sem_full at 0, the
      flag set, every worker at the top of its loop and the timer asleep. */
  const Start: State := State(RingBuffer.Initial, Semaphore.Init(RingBuffer.Size), Semaphore.Init(0), true,
                              Crew(Cashiers, 0, 0, 0, 0, 0), Crew(Packers, 0, 0, 0, 0, 0), Sleeping)

  /** sem_signal_manual(&sem_empty): a cashier parked on it, if released, now holds
      the permit. */
  function PostEmpty(s: State): (t: State)
    ensures t.ring == s.ring && t.full == s.full && t.packers == s.packers
    ensures t.active == s.active && t.timer == s.timer
    ensures Headcount(t.cashiers) + t.empty.waiting == Headcount(s.cashiers) + s.empty.waiting
  {
    var r := Semaphore.Signal(s.empty);
    s.(empty := r.sem,
       cashiers := s.cashiers.(acquired := s.cashiers.acquired + Semaphore.Released(s.empty, r.sem)))
  }

  /** sem_signal_manual(&sem_full): a packer parked on it, if released, now holds the
      permit. */
  function PostFull(s: State): (t: State)
    ensures t.ring == s.ring && t.empty == s.empty && t.cashiers == s.cashiers
    ensures t.active == s.active && t.timer == s.timer
    ensures Headcount(t.packers) + t.full.waiting == Headcount(s.packers) + s.full.waiting
  {
    var r := Semaphore.Signal(s.full);
    s.(full := r.sem,
       packers := s.packers.(acquired := s.packers.acquired + Semaphore.Released(s.full, r.sem)))
  }

  /** Whether some thread is in a position to take the step. */
  predicate Enabled(s: State, a: Action) {
    match a
    case CashierCheck => s.cashiers.running > 0
    case CashierWait => s.cashiers.ready > 0
    case CashierRecheck => s.cashiers.acquired > 0
    case CashierPlace(_) => s.cashiers.entering > 0
    case CashierPost => s.cashiers.moved > 0
    case PackerCheck => s.packers.running > 0
    case PackerWait => s.packers.ready > 0
    case PackerRecheck => s.packers.acquired > 0
    case PackerTake => s.packers.entering > 0
    case PackerPost => s.packers.moved > 0
    case TimerExpire => s.timer == Sleeping
    case TimerSignalFull => s.timer.Broadcasting? && !s.timer.fullSent && s.timer.round < Workers
    case TimerSignalEmpty => s.timer.Broadcasting? && s.timer.fullSent
    case TimerExit => s.timer.Broadcasting? && !s.timer.fullSent && s.timer.round >= Workers
  }

  // Each step of each thread, as its own transition.

  /** cajero: `while (simulacion_activa)` and, after the scanning delay,
      `if (!simulacion_activa) break;` */
  function CashierLoopTest(s: State): State
    requires s.cashiers.running > 0
  {
    var c := s.cashiers;
    if s.active then s.(cashiers := c.(running := c.running - 1, ready := c.ready + 1))
    else s.(cashiers := c.(running := c.running - 1, stopped := c.stopped + 1))
  }

  /** cajero: sem_wait_manual(&sem_empty); the cashier parks or holds a permit. */
  function CashierWaitEmpty(s: State): State
    requires s.cashiers.ready > 0
  {
    var w := Semaphore.Wait(s.empty);
    var c := s.cashiers.(ready := s.cashiers.ready - 1);
    s.(empty := w.sem, cashiers := if w.blocked then c else c.(acquired := c.acquired + 1))
  }

  /** cajero: `if (!simulacion_activa) { sem_signal_manual(&sem_empty); break; }` */
  function CashierRecheckFlag(s: State): State
    requires s.cashiers.acquired > 0
  {
    var c := s.cashiers;
    if s.active then s.(cashiers := c.(acquired := c.acquired - 1, entering := c.entering + 1))
    else PostEmpty(s.(cashiers := c.(acquired := c.acquired - 1, stopped := c.stopped + 1)))
  }

  /** cajero: the critical section under the buffer mutex. */
  function CashierInsert(s: State, p: RingBuffer.Product): State
    requires RingBuffer.WellFormed(s.ring)
    requires s.cashiers.entering > 0
  {
    var c := s.cashiers;
    s.(ring := RingBuffer.Insert(s.ring, p), cashiers := c.(entering := c.entering - 1, moved := c.moved + 1))
  }

  /** cajero: sem_signal_manual(&sem_full), then back to the loop test. */
  function CashierSignalFull(s: State): State
    requires s.cashiers.moved > 0
  {
    var c := s.cashiers;
    PostFull(s.(cashiers := c.(moved := c.moved - 1, running := c.running + 1)))
  }

  /** empacador: `while (simulacion_activa)` */
  function PackerLoopTest(s: State): State
    requires s.packers.running > 0
  {
    var k := s.packers;
    if s.active then s.(packers := k.(running := k.running - 1, ready := k.ready + 1))
    else s.(packers := k.(running := k.running - 1, stopped := k.stopped + 1))
  }

  /** empacador: sem_wait_manual(&sem_full); the packer parks or holds a permit. */
  function PackerWaitFull(s: State): State
    requires s.packers.ready > 0
  {
    var w := Semaphore.Wait(s.full);
    var k := s.packers.(ready := s.packers.ready - 1);
    s.(full := w.sem, packers := if w.blocked then k else k.(acquired := k.acquired + 1))
  }

  /** empacador: `if (!simulacion_activa) { sem_signal_manual(&sem_full); break; }` */
  function PackerRecheckFlag(s: State): State
    requires s.packers.acquired > 0
  {
    var k := s.packers;
    if s.active then s.(packers := k.(acquired := k.acquired - 1, entering := k.entering + 1))
    else PostFull(s.(packers := k.(acquired := k.acquired - 1, stopped := k.stopped + 1)))
  }

  /** empacador: the critical section under the buffer mutex. */
  function PackerRemove(s: State): State
    requires RingBuffer.WellFormed(s.ring)
    requires s.packers.entering > 0
  {
    var k := s.packers;
    s.(ring := RingBuffer.Remove(s.ring).ring, packers := k.(entering := k.entering - 1, moved := k.moved + 1))
  }

  /** empacador: sem_signal_manual(&sem_empty), then the packing delay and the loop test. */
  function PackerSignalEmpty(s: State): State
    requires s.packers.moved > 0
  {
    var k := s.packers;
    PostEmpty(s.(packers := k.(moved := k.moved - 1, running := k.running + 1)))
  }

  /** temporizador: `simulacion_activa = 0`, after a sleep of any length. */
  function TimerClearFlag(s: State): State
    requires s.timer == Sleeping
  {
    s.(active := false, timer := Broadcasting(0, false))
  }

  /** temporizador: sem_signal_manual(&sem_full) in round i. */
  function TimerPostFull(s: State): State
    requires s.timer.Broadcasting? && !s.timer.fullSent && s.timer.round < Workers
  {
    PostFull(s).(timer := Broadcasting(s.timer.round, true))
  }

  /** temporizador: sem_signal_manual(&sem_empty) in round i, then i++. */
  function TimerPostEmpty(s: State): State
    requires s.timer.Broadcasting? && s.timer.fullSent
  {
    PostEmpty(s).(timer := Broadcasting(s.timer.round + 1, false))
  }

  /** temporizador: the loop test fails and the thread returns. */
  function TimerReturn(s: State): State
    requires s.timer.Broadcasting? && !s.timer.fullSent && s.timer.round >= Workers
  {
    s.(timer := Finished)
  }

  /** One atomic step of a thread in a position to take it. No step creates or loses a
      thread, and only the two critical sections touch the buffer. */
  function Next(s: State, a: Action): (t: State)
    requires RingBuffer.WellFormed(s.ring)
    requires Enabled(s, a)
    ensures RingBuffer.WellFormed(t.ring)
    ensures Headcount(t.cashiers) + t.empty.waiting == Headcount(s.cashiers) + s.empty.waiting
    ensures Headcount(t.packers) + t.full.waiting == Headcount(s.packers) + s.full.waiting
    ensures t.ring != s.ring ==> a.CashierPlace? || a.PackerTake?
  {
    match a
    case CashierCheck => CashierLoopTest(s)
    case CashierWait => CashierWaitEmpty(s)
    case CashierRecheck => CashierRecheckFlag(s)
    case CashierPlace(p) => CashierInsert(s, p)
    case CashierPost => CashierSignalFull(s)
    case PackerCheck => PackerLoopTest(s)
    case PackerWait => PackerWaitFull(s)
    case PackerRecheck => PackerRecheckFlag(s)
    case PackerTake => PackerRemove(s)
    case PackerPost => PackerSignalEmpty(s)
    case TimerExpire => TimerClearFlag(s)
    case TimerSignalFull => TimerPostFull(s)
    case TimerSignalEmpty => TimerPostEmpty(s)
    case TimerExit => TimerReturn(s)
  }

  /** Runs a schedule of steps; None when one of them is not enabled when its turn comes.
      A schedule that runs neither creates nor loses threads. */
  function Exec(s: State, acts: seq<Action>): (t: Option<State>)
    requires RingBuffer.WellFormed(s.ring)
    ensures t.Some? ==> RingBuffer.WellFormed(t.value.ring)
    ensures t.Some? ==> Headcount(t.value.cashiers) + t.value.empty.waiting == Headcount(s.cashiers) + s.empty.waiting
    ensures t.Some? ==> Headcount(t.value.packers) + t.value.full.waiting == Headcount(s.packers) + s.full.waiting
    decreases |acts|
  {
    if acts == [] then Some(s)
    else if !Enabled(s, acts[0]) then None
    else Exec(Next(s, acts[0]), acts[1..])
  }

  /** The timer's wake loop run without interleaving: NUM_CAJEROS + NUM_EMPACADORES
      rounds, each signalling sem_full and then sem_empty. Whenever at most that many
      threads are parked on a semaphore, none is left parked and its counter ends
      non-negative. TimerRoundsSignal shows that the timer's own steps in the protocol
      reach the same two semaphores when nobody runs in between. */
  method TimerBroadcast(full: Semaphore.Sem, empty: Semaphore.Sem) returns (full': Semaphore.Sem, empty': Semaphore.Sem)
    requires Semaphore.Valid(full) && Semaphore.Valid(empty)
    ensures Semaphore.Valid(full') && Semaphore.Valid(empty')
    ensures full'.value == full.value + Workers && empty'.value == empty.value + Workers
    ensures full'.waiting == Semaphore.Max0(full.waiting - Workers)
    ensures empty'.waiting == Semaphore.Max0(empty.waiting - Workers)
    ensures full.waiting <= Workers ==> full'.waiting == 0 && full'.value >= 0
    ensures empty.waiting <= Workers ==> empty'.waiting == 0 && empty'.value >= 0
    ensures full' == Semaphore.SignalN(full, Workers) && empty' == Semaphore.SignalN(empty, Workers)
  {
    full', empty' := full, empty;
    var i := 0;
    while i < Workers
      invariant 0 <= i <= Workers
      invariant full' == Semaphore.SignalN(full, i) && empty' == Semaphore.SignalN(empty, i)
    {
      full' := Semaphore.Signal(full').sem;
      empty' := Semaphore.Signal(empty').sem;
      i := i + 1;
    }
    Semaphore.SignalNReleases(full, Workers);
    Semaphore.SignalNReleases(empty, Workers);
  }

  /** The timer's schedule for `n` uninterrupted rounds of its wake loop. */
  function TimerRounds(n: nat): (acts: seq<Action>)
    ensures |acts| == 2 * n
    decreases n
  {
    if n == 0 then [] else [TimerSignalFull, TimerSignalEmpty] + TimerRounds(n - 1)
  }

  /** Run as steps of the protocol with no other thread in between, `n` rounds of the
      timer's loop signal each semaphore `n` times and leave the timer at the loop test
      of round i + n, just as TimerBroadcast computes. */
  lemma {:induction false} TimerRoundsSignal(s: State, n: nat)
    requires RingBuffer.WellFormed(s.ring)
    requires s.timer.Broadcasting? && !s.timer.fullSent && s.timer.round + n <= Workers
    ensures Exec(s, TimerRounds(n)).Some?
    ensures Exec(s, TimerRounds(n)).value.full == Semaphore.SignalN(s.full, n)
    ensures Exec(s, TimerRounds(n)).value.empty == Semaphore.SignalN(s.empty, n)
    ensures Exec(s, TimerRounds(n)).value.timer == Broadcasting(s.timer.round + n, false)
    decreases n
  {
    if n == 0 {
      assert Exec(s, TimerRounds(0)) == Some(s);
    } else {
      var b := TimerRoundUnfolds(s, n);
      TimerRoundsSignal(b, n - 1);
      Semaphore.SignalNShift(s.full, n - 1);
      Semaphore.SignalNShift(s.empty, n - 1);
    }
  }

  /** One round of the timer's loop as two protocol steps: each semaphore is signalled
      once and the timer moves to the next round. */
  lemma TimerRoundUnfolds(s: State, n: nat) returns (b: State)
    requires RingBuffer.WellFormed(s.ring)
    requires s.timer.Broadcasting? && !s.timer.fullSent && s.timer.round < Workers
    requires n > 0
    ensures RingBuffer.WellFormed(b.ring)
    ensures b.full == Semaphore.Signal(s.full).sem && b.empty == Semaphore.Signal(s.empty).sem
    ensures b.timer == Broadcasting(s.timer.round + 1, false)
    ensures Exec(s, TimerRounds(n)) == Exec(b, TimerRounds(n - 1))
  {
    var a := TimerPostFull(s);
    assert Next(s, TimerSignalFull) == a;
    b := TimerPostEmpty(a);
    assert Next(a, TimerSignalEmpty) == b;
    var acts := TimerRounds(n);
    assert acts[0] == TimerSignalFull && acts[1..][0] == TimerSignalEmpty;
    assert acts[1..][1..] == TimerRounds(n - 1);
    assert Exec(a, acts[1..]) == Exec(b, TimerRounds(n - 1));
  }

  /** Signals the timer has issued on sem_full so far. */
  function ForcedFull(t: Timer): nat {
    match t
    case Sleeping => 0
    case Broadcasting(i, sent) => if sent then i + 1 else i
    case Finished => Workers
  }

  /** Signals the timer has issued on sem_empty so far. */
  function ForcedEmpty(t: Timer): nat {
    match t
    case Sleeping => 0
    case Broadcasting(i, _) => i
    case Finished => Workers
  }

  predicate TimerInRange(t: Timer) {
    t.Broadcasting? ==> t.round < Workers || (t.round == Workers && !t.fullSent)
  }

  /** The buffer and both semaphores are each in a valid state. */
  predicate PartsValid(s: State) {
    && RingBuffer.Valid(s.ring)
    && Semaphore.Valid(s.empty)
    && Semaphore.Valid(s.full)
  }

  /** No worker is lost or invented: each one stands at some point of its loop or is
      parked on the semaphore its role waits on. */
  predicate Census(s: State) {
    && Headcount(s.cashiers) + s.empty.waiting == Cashiers
    && Headcount(s.packers) + s.full.waiting == Packers
  }

  /** The flag is set exactly while the timer sleeps. */
  predicate ClockAgrees(s: State) {
    && (s.active <==> s.timer == Sleeping)
    && TimerInRange(s.timer)
  }

  /** Every empty-slot permit, plus each forced one, is free in sem_empty, held by a
      cashier on its way to the buffer, or being returned by a packer that just
      emptied a slot. */
  predicate EmptyLedger(s: State) {
    RingBuffer.Size - RingBuffer.Occupied(s.ring) + ForcedEmpty(s.timer)
    == Semaphore.Available(s.empty) + s.cashiers.acquired + s.cashiers.entering + s.packers.moved
  }

  /** Every full-slot permit, plus each forced one, is free in sem_full, held by a
      packer on its way to the buffer, or being returned by a cashier that just filled
      a slot. */
  predicate FullLedger(s: State) {
    RingBuffer.Occupied(s.ring) + ForcedFull(s.timer)
    == Semaphore.Available(s.full) + s.packers.acquired + s.packers.entering + s.cashiers.moved
  }

  /** The timer's permits never reach a critical section: at least as many permits as
      it added are still free or held by workers that have yet to re-read the flag. */
  predicate ForcedStayOutside(s: State) {
    && Semaphore.Available(s.empty) + s.cashiers.acquired >= ForcedEmpty(s.timer)
    && Semaphore.Available(s.full) + s.packers.acquired >= ForcedFull(s.timer)
  }

  /** The protocol's invariant. */
  predicate Inv(s: State) {
    && PartsValid(s)
    && Census(s)
    && ClockAgrees(s)
    && EmptyLedger(s)
    && FullLedger(s)
    && ForcedStayOutside(s)
  }

  /** The initial configuration satisfies the invariant. */
  lemma StartSatisfiesInv()
    ensures Inv(Start)
  {
    RingBuffer.InitialIsEmpty();
  }

  lemma PostEmptyAccounting(s: State)
    requires Semaphore.Valid(s.empty)
    ensures Semaphore.Valid(PostEmpty(s).empty)
    ensures Semaphore.Available(PostEmpty(s).empty) + PostEmpty(s).cashiers.acquired
            == Semaphore.Available(s.empty) + s.cashiers.acquired + 1
    ensures PostEmpty(s).empty.waiting + Headcount(PostEmpty(s).cashiers)
            == s.empty.waiting + Headcount(s.cashiers)
    ensures PostEmpty(s).cashiers.(acquired := 0) == s.cashiers.(acquired := 0)
  {
    Semaphore.SignalKeepsValid(s.empty);
  }

  lemma PostFullAccounting(s: State)
    requires Semaphore.Valid(s.full)
    ensures Semaphore.Valid(PostFull(s).full)
    ensures Semaphore.Available(PostFull(s).full) + PostFull(s).packers.acquired
            == Semaphore.Available(s.full) + s.packers.acquired + 1
    ensures PostFull(s).full.waiting + Headcount(PostFull(s).packers)
            == s.full.waiting + Headcount(s.packers)
    ensures PostFull(s).packers.(acquired := 0) == s.packers.(acquired := 0)
  {
    Semaphore.SignalKeepsValid(s.full);
  }

  /** Under the invariant the critical sections are safe: every packer about to remove
      finds a product for it, and every cashier about to insert finds a free slot. */
  lemma CriticalSectionsFit(s: State)
    requires Inv(s)
    ensures s.packers.entering <= RingBuffer.Occupied(s.ring)
    ensures RingBuffer.Occupied(s.ring) + s.cashiers.entering <= RingBuffer.Size
  {
  }

  /** A cashier's critical section, in any reachable state, puts its product at the back
      of the queue the buffer holds. */
  lemma CashierPlaceAppends(s: State, p: RingBuffer.Product)
    requires Inv(s) && Enabled(s, CashierPlace(p))
    ensures RingBuffer.Valid(Next(s, CashierPlace(p)).ring)
    ensures RingBuffer.Contents(Next(s, CashierPlace(p)).ring) == RingBuffer.Contents(s.ring) + [p]
  {
    CriticalSectionsFit(s);
    RingBuffer.InsertAppends(s.ring, p);
    assert Next(s, CashierPlace(p)).ring == RingBuffer.Insert(s.ring, p);
  }

  /** A packer's critical section, in any reachable state, finds a product, takes the
      oldest one held and leaves the rest of the queue in order. */
  lemma PackerTakeTakesOldest(s: State)
    requires Inv(s) && Enabled(s, PackerTake)
    ensures RingBuffer.Occupied(s.ring) > 0
    ensures RingBuffer.Remove(s.ring).item == RingBuffer.Contents(s.ring)[0]
    ensures RingBuffer.Valid(Next(s, PackerTake).ring)
    ensures RingBuffer.Contents(Next(s, PackerTake).ring) == RingBuffer.Contents(s.ring)[1..]
  {
    CriticalSectionsFit(s);
    RingBuffer.RemoveTakesOldest(s.ring);
    assert Next(s, PackerTake).ring == RingBuffer.Remove(s.ring).ring;
  }

  lemma CashierLoopTestKeepsInv(s: State)
    requires Inv(s) && Enabled(s, CashierCheck)
    ensures Inv(CashierLoopTest(s))
  {
  }

  lemma CashierWaitEmptyKeepsInv(s: State)
    requires Inv(s) && Enabled(s, CashierWait)
    ensures Inv(CashierWaitEmpty(s))
  {
    Semaphore.WaitKeepsValid(s.empty);
  }

  lemma CashierRecheckFlagKeepsInv(s: State)
    requires Inv(s) && Enabled(s, CashierRecheck)
    ensures Inv(CashierRecheckFlag(s))
  {
    var t := CashierRecheckFlag(s);
    if s.active {
      assert t == s.(cashiers := s.cashiers.(acquired := s.cashiers.acquired - 1, entering := s.cashiers.entering + 1));
      assert PartsValid(t) && Census(t) && ClockAgrees(t);
      assert EmptyLedger(t) && FullLedger(t);
    } else {
      var s' := s.(cashiers := s.cashiers.(acquired := s.cashiers.acquired - 1, stopped := s.cashiers.stopped + 1));
      assert t == PostEmpty(s');
      PostEmptyAccounting(s');
    }
  }

  lemma CashierInsertKeepsInv(s: State, p: RingBuffer.Product)
    requires Inv(s) && Enabled(s, CashierPlace(p))
    ensures Inv(CashierInsert(s, p))
  {
    CriticalSectionsFit(s);
    RingBuffer.InsertAppends(s.ring, p);
  }

  lemma CashierSignalFullKeepsInv(s: State)
    requires Inv(s) && Enabled(s, CashierPost)
    ensures Inv(CashierSignalFull(s))
  {
    var s' := s.(cashiers := s.cashiers.(moved := s.cashiers.moved - 1, running := s.cashiers.running + 1));
    assert CashierSignalFull(s) == PostFull(s');
    PostFullAccounting(s');
  }

  lemma PackerLoopTestKeepsInv(s: State)
    requires Inv(s) && Enabled(s, PackerCheck)
    ensures Inv(PackerLoopTest(s))
  {
  }

  lemma PackerWaitFullKeepsInv(s: State)
    requires Inv(s) && Enabled(s, PackerWait)
    ensures Inv(PackerWaitFull(s))
  {
    Semaphore.WaitKeepsValid(s.full);
  }

  lemma PackerRecheckFlagKeepsInv(s: State)
    requires Inv(s) && Enabled(s, PackerRecheck)
    ensures Inv(PackerRecheckFlag(s))
  {
    var t := PackerRecheckFlag(s);
    if s.active {
      assert t == s.(packers := s.packers.(acquired := s.packers.acquired - 1, entering := s.packers.entering + 1));
      assert PartsValid(t) && Census(t) && ClockAgrees(t);
      assert EmptyLedger(t) && FullLedger(t);
    } else {
      var s' := s.(packers := s.packers.(acquired := s.packers.acquired - 1, stopped := s.packers.stopped + 1));
      assert t == PostFull(s');
      PostFullAccounting(s');
    }
  }

  lemma PackerRemoveKeepsInv(s: State)
    requires Inv(s) && Enabled(s, PackerTake)
    ensures Inv(PackerRemove(s))
  {
    CriticalSectionsFit(s);
    RingBuffer.RemoveTakesOldest(s.ring);
  }

  /** A packer hands its slot back to sem_empty: whatever the signal does to the parked
      cashiers, the ledgers move by exactly the permit it returns. */
  lemma ReturnedSlotKeepsInv(s: State, t: State)
    requires Inv(s) && s.packers.moved > 0
    requires t.ring == s.ring && t.full == s.full && t.timer == s.timer && t.active == s.active
    requires t.packers == s.packers.(moved := s.packers.moved - 1, running := s.packers.running + 1)
    requires Semaphore.Valid(t.empty)
    requires Semaphore.Available(t.empty) + t.cashiers.acquired
             == Semaphore.Available(s.empty) + s.cashiers.acquired + 1
    requires t.empty.waiting + Headcount(t.cashiers) == s.empty.waiting + Headcount(s.cashiers)
    requires t.cashiers.entering == s.cashiers.entering && t.cashiers.moved == s.cashiers.moved
    ensures Inv(t)
  {
    assert PartsValid(t) && Census(t) && ClockAgrees(t);
  }

  lemma PackerSignalEmptyKeepsInv(s: State)
    requires Inv(s) && Enabled(s, PackerPost)
    ensures Inv(PackerSignalEmpty(s))
  {
    var t := PackerSignalEmpty(s);
    assert Inv(t) by {
      var s' := s.(packers := s.packers.(moved := s.packers.moved - 1, running := s.packers.running + 1));
      assert t == PostEmpty(s');
      PostEmptyAccounting(s');
      ReturnedSlotKeepsInv(s, t);
    }
  }

  lemma TimerClearFlagKeepsInv(s: State)
    requires Inv(s) && Enabled(s, TimerExpire)
    ensures Inv(TimerClearFlag(s))
  {
    var t := TimerClearFlag(s);
    assert ForcedFull(t.timer) == 0 && ForcedEmpty(t.timer) == 0;
  }

  lemma TimerPostFullKeepsInv(s: State)
    requires Inv(s) && Enabled(s, TimerSignalFull)
    ensures Inv(TimerPostFull(s))
  {
    var t := TimerPostFull(s);
    PostFullAccounting(s);
    assert PartsValid(t) && Census(t) && ClockAgrees(t);
    assert EmptyLedger(t) && FullLedger(t);
  }

  lemma TimerPostEmptyKeepsInv(s: State)
    requires Inv(s) && Enabled(s, TimerSignalEmpty)
    ensures Inv(TimerPostEmpty(s))
  {
    PostEmptyAccounting(s);
  }

  lemma TimerReturnKeepsInv(s: State)
    requires Inv(s) && Enabled(s, TimerExit)
    ensures Inv(TimerReturn(s))
  {
  }

  /** Every step keeps the invariant. */
  lemma StepKeepsInv(s: State, a: Action)
    requires Inv(s)
    requires Enabled(s, a)
    ensures Inv(Next(s, a))
  {
    match a
    case CashierCheck => CashierLoopTestKeepsInv(s);
    case CashierWait => CashierWaitEmptyKeepsInv(s);
    case CashierRecheck => CashierRecheckFlagKeepsInv(s);
    case CashierPlace(p) => CashierInsertKeepsInv(s, p);
    case CashierPost => CashierSignalFullKeepsInv(s);
    case PackerCheck => PackerLoopTestKeepsInv(s);
    case PackerWait => PackerWaitFullKeepsInv(s);
    case PackerRecheck => PackerRecheckFlagKeepsInv(s);
    case PackerTake => PackerRemoveKeepsInv(s);
    case PackerPost => PackerSignalEmptyKeepsInv(s);
    case TimerExpire => TimerClearFlagKeepsInv(s);
    case TimerSignalFull => TimerPostFullKeepsInv(s);
    case TimerSignalEmpty => TimerPostEmptyKeepsInv(s);
    case TimerExit => TimerReturnKeepsInv(s);
  }

  /** Every schedule that runs from a state satisfying the invariant ends in one. */
  lemma {:induction false} ExecKeepsInv(s: State, acts: seq<Action>)
    requires Inv(s)
    requires Exec(s, acts).Some?
    ensures Inv(Exec(s, acts).value)
    decreases |acts|
  {
    if acts != [] {
      StepKeepsInv(s, acts[0]);
      ExecKeepsInv(Next(s, acts[0]), acts[1..]);
    }
  }

  /** Once the timer has finished its loop nobody is parked on either semaphore, and each
      semaphore holds more permits than there are workers still to wait on it, so no
      later wait can park. */
  lemma ShutdownWakesAll(s: State)
    requires Inv(s)
    requires s.timer == Finished
    ensures s.empty.waiting == 0 && s.full.waiting == 0
    ensures s.empty.value > s.cashiers.ready && s.full.value > s.packers.ready
  {
  }

  /** With the timer asleep and every worker between critical sections, the semaphores
      count the buffer exactly: sem_empty the free slots and sem_full the products. */
  lemma SemaphoresCountSlots(s: State)
    requires Inv(s)
    requires s.timer == Sleeping
    requires s.cashiers.acquired == s.cashiers.entering == s.cashiers.moved == 0
    requires s.packers.acquired == s.packers.entering == s.packers.moved == 0
    ensures Semaphore.Max0(s.empty.value) == RingBuffer.Size - RingBuffer.Occupied(s.ring)
    ensures Semaphore.Max0(s.full.value) == RingBuffer.Occupied(s.ring)
  {
  }

  /** Whatever the interleaving, the buffer never overflows or underflows, both indices
      stay in range, both semaphores keep their meaning, and nobody is parked once the
      timer has finished. */
  lemma ScheduleIsSafe(acts: seq<Action>, s: State)
    requires Exec(Start, acts) == Some(s)
    ensures 0 <= RingBuffer.Occupied(s.ring) <= RingBuffer.Size
    ensures 0 <= s.ring.inIdx < RingBuffer.Size && 0 <= s.ring.outIdx < RingBuffer.Size
    ensures Semaphore.Valid(s.empty) && Semaphore.Valid(s.full)
    ensures s.timer == Finished ==> s.empty.waiting == 0 && s.full.waiting == 0
  {
    StartSatisfiesInv();
    ExecKeepsInv(Start, acts);
    if s.timer == Finished {
      ShutdownWakesAll(s);
    }
  }

  /** Steps left before every worker has returned, counting each remaining action of its
      loop once the flag is clear: a running worker reads the flag and stops; a ready one
      passes its wait, re-reads and stops; one in the critical section finishes it,
      signals, reads the flag and stops. */
  function Remaining(c: Crew): nat {
    c.running + 2 * c.ready + c.acquired + 3 * c.entering + 2 * c.moved
  }

  function Backlog(s: State): nat {
    Remaining(s.cashiers) + Remaining(s.packers)
  }

  /** The steps the timer has still to take. */
  function TimerSteps(t: Timer): nat {
    match t
    case Sleeping => 2 * Workers + 2
    case Broadcasting(i, sent) => if i > Workers then 1 else 2 * (Workers - i) + 1 - (if sent then 1 else 0)
    case Finished => 0
  }

  /** After the timer has finished, every step any worker can take brings that worker one
      step closer to returning; in particular no wait parks. */
  lemma FinishedStepShrinks(s: State, a: Action)
    requires Inv(s)
    requires s.timer == Finished
    requires Enabled(s, a)
    ensures Next(s, a).timer == Finished
    ensures Backlog(Next(s, a)) == Backlog(s) - 1
  {
    ShutdownWakesAll(s);
    match a
    case CashierWait => Semaphore.WaitKeepsValid(s.empty);
    case PackerWait => Semaphore.WaitKeepsValid(s.full);
    case CashierRecheck => PostEmptyAccounting(s.(cashiers := s.cashiers.(acquired := s.cashiers.acquired - 1, stopped := s.cashiers.stopped + 1)));
    case PackerRecheck => PostFullAccounting(s.(packers := s.packers.(acquired := s.packers.acquired - 1, stopped := s.packers.stopped + 1)));
    case CashierPost => PostFullAccounting(s.(cashiers := s.cashiers.(moved := s.cashiers.moved - 1, running := s.cashiers.running + 1)));
    case PackerPost => PostEmptyAccounting(s.(packers := s.packers.(moved := s.packers.moved - 1, running := s.packers.running + 1)));
    case _ =>
  }

  /** The timer's next step. */
  function TimerAction(t: Timer): Action
    requires t != Finished
  {
    match t
    case Sleeping => TimerExpire
    case Broadcasting(i, sent) =>
      if sent then TimerSignalEmpty else if i < Workers then TimerSignalFull else TimerExit
  }

  /** The timer can always take its next step, and each one brings it closer to the end. */
  lemma TimerAdvances(s: State)
    requires Inv(s)
    requires s.timer != Finished
    ensures Enabled(s, TimerAction(s.timer))
    ensures TimerSteps(Next(s, TimerAction(s.timer)).timer) < TimerSteps(s.timer)
  {
    var a := TimerAction(s.timer);
    match s.timer
    case Sleeping =>
      assert Next(s, a) == TimerClearFlag(s);
    case Broadcasting(i, sent) =>
      if sent {
        assert Next(s, a) == TimerPostEmpty(s);
      } else if i < Workers {
        assert Next(s, a) == TimerPostFull(s);
      } else {
        assert Next(s, a) == TimerReturn(s);
      }
  }

  /** A step some worker can take, chosen in a fixed order. */
  function WorkerAction(s: State): Action
    requires Backlog(s) > 0
  {
    var c := s.cashiers;
    var k := s.packers;
    if c.running > 0 then CashierCheck
    else if c.ready > 0 then CashierWait
    else if c.acquired > 0 then CashierRecheck
    else if c.entering > 0 then CashierPlace(RingBuffer.Blank)
    else if c.moved > 0 then CashierPost
    else if k.running > 0 then PackerCheck
    else if k.ready > 0 then PackerWait
    else if k.acquired > 0 then PackerRecheck
    else if k.entering > 0 then PackerTake
    else PackerPost
  }

  lemma WorkerActionEnabled(s: State)
    requires Backlog(s) > 0
    ensures Enabled(s, WorkerAction(s))
  {
  }

  /** Nothing left to do: the timer has returned and so has every worker. */
  predicate AllReturned(s: State) {
    && s.timer == Finished
    && s.cashiers == Crew(0, 0, 0, 0, 0, Cashiers)
    && s.packers == Crew(0, 0, 0, 0, 0, Packers)
    && s.empty.waiting == 0
    && s.full.waiting == 0
  }

  /** The step the shutdown schedule takes next: the timer's while it has one, then a
      worker's. */
  function ShutdownAction(s: State): Action
    requires s.timer != Finished || Backlog(s) > 0
  {
    if s.timer != Finished then TimerAction(s.timer) else WorkerAction(s)
  }

  /** The shutdown action is enabled, keeps the invariant and brings the end closer. */
  lemma ShutdownActionProgresses(s: State)
    requires Inv(s)
    requires s.timer != Finished || Backlog(s) > 0
    ensures Enabled(s, ShutdownAction(s))
    ensures Inv(Next(s, ShutdownAction(s)))
    ensures TimerSteps(Next(s, ShutdownAction(s)).timer) < TimerSteps(s.timer)
            || (Next(s, ShutdownAction(s)).timer == s.timer
                && Backlog(Next(s, ShutdownAction(s))) < Backlog(s))
  {
    var a := ShutdownAction(s);
    if s.timer != Finished {
      TimerAdvances(s);
    } else {
      WorkerActionEnabled(s);
      FinishedStepShrinks(s, a);
    }
    StepKeepsInv(s, a);
  }

  /** A schedule that lets the timer run its course and then every worker leave its loop. */
  function Shutdown(s: State): seq<Action>
    requires Inv(s)
    decreases TimerSteps(s.timer), Backlog(s)
  {
    if s.timer == Finished && Backlog(s) == 0 then []
    else
      var a := ShutdownAction(s);
      ShutdownActionProgresses(s);
      [a] + Shutdown(Next(s, a))
  }

  lemma NothingRemaining(c: Crew, n: nat)
    requires Remaining(c) == 0 && Headcount(c) == n
    ensures c == Crew(0, 0, 0, 0, 0, n)
  {
  }

  /** With the timer done and nothing left to run, every worker has returned. */
  lemma QuietMeansReturned(s: State)
    requires Census(s)
    requires s.empty.waiting == 0 && s.full.waiting == 0
    requires s.timer == Finished && Backlog(s) == 0
    ensures AllReturned(s)
  {
    assert Remaining(s.cashiers) == 0 && Remaining(s.packers) == 0;
    assert Headcount(s.cashiers) == Cashiers && Headcount(s.packers) == Packers;
    NothingRemaining(s.cashiers, Cashiers);
    NothingRemaining(s.packers, Packers);
  }

  /** The shutdown schedule is its first action followed by the schedule from there. */
  lemma ShutdownUnfolds(s: State)
    requires Inv(s)
    requires s.timer != Finished || Backlog(s) > 0
    ensures Enabled(s, ShutdownAction(s))
    ensures Inv(Next(s, ShutdownAction(s)))
    ensures Exec(s, Shutdown(s)) == Exec(Next(s, ShutdownAction(s)), Shutdown(Next(s, ShutdownAction(s))))
  {
    var a := ShutdownAction(s);
    ShutdownActionProgresses(s);
    var t := Next(s, a);
    assert Shutdown(s) == [a] + Shutdown(t);
    assert ([a] + Shutdown(t))[1..] == Shutdown(t);
  }

  /** The shutdown is clean: from any state satisfying the invariant, wherever the
      workers stand and however many are parked, the schedule above is runnable and ends
      with the timer done, every worker returned and nobody parked. */
  lemma {:induction false} ShutdownCompletes(s: State)
    requires Inv(s)
    ensures Exec(s, Shutdown(s)).Some?
    ensures Inv(Exec(s, Shutdown(s)).value)
    ensures AllReturned(Exec(s, Shutdown(s)).value)
    decreases TimerSteps(s.timer), Backlog(s)
  {
    if s.timer == Finished && Backlog(s) == 0 {
      ShutdownWakesAll(s);
      QuietMeansReturned(s);
    } else {
      ShutdownActionProgresses(s);
      ShutdownUnfolds(s);
      ShutdownCompletes(Next(s, ShutdownAction(s)));
    }
  }

  /** No schedule can strand a thread: after any run from the start, the shutdown
      schedule still takes every thread to its return. */
  lemma EveryRunCanFinish(acts: seq<Action>, s: State)
    requires Exec(Start, acts) == Some(s)
    ensures Inv(s)
    ensures Exec(s, Shutdown(s)).Some? && AllReturned(Exec(s, Shutdown(s)).value)
  {
    StartSatisfiesInv();
    ExecKeepsInv(Start, acts);
    ShutdownCompletes(s);
  }
}
