/**
 The hand-built counting semaphore of the bounded-buffer simulation: an integer
 counter guarded by its own mutex, plus a condition variable on which callers
 park when the counter goes negative.

 Both operations run entirely under the semaphore's mutex, so each one is
 modelled as a single atomic transition on an immutable record. Besides the
 counter, the record counts the threads parked on the condition variable that
 no signal has released yet; the C structure keeps that number implicitly, in
 the condition variable's wait queue.
 */
module Semaphore {

  /** `value` is the counter of the C structure; `waiting` counts parked threads. */
  datatype Sem = Sem(value: int, waiting: nat)

  /** max(x, 0) */
  function Max0(x: int): (r: nat)
    ensures r >= x
    ensures r == 0 || r == x
  {
    if x < 0 then 0 else x
  }

  /** The counter's meaning: a negative value is minus the number of parked threads,
      and nobody is parked while the value is non-negative. */
  predicate Valid(s: Sem) {
    s.waiting == Max0(-s.value)
  }

  /** Permits the semaphore stands for: the counter, plus the decrements that parked
      threads already made. For a valid semaphore this is max(value, 0). */
  function Available(s: Sem): (n: int)
    ensures Valid(s) ==> n == Max0(s.value)
  {
    s.value + s.waiting
  }

  /** sem_inicializar: the counter starts at the given value and nobody is parked. */
  function Init(initial: int): (s: Sem)
    ensures s.value == initial && s.waiting == 0
    ensures Valid(s) <==> initial >= 0
  {
    Sem(initial, 0)
  }

  datatype WaitResult = WaitResult(sem: Sem, blocked: bool)

  /** sem_wait_manual: decrement the counter; the caller parks when the result is negative. */
  function Wait(s: Sem): (r: WaitResult)
    ensures r.sem.value == s.value - 1
    ensures r.blocked <==> r.sem.value < 0
    ensures r.sem.waiting == if r.blocked then s.waiting + 1 else s.waiting
  {
    var v := s.value - 1;
    if v < 0 then WaitResult(Sem(v, s.waiting + 1), true)
    else WaitResult(Sem(v, s.waiting), false)
  }

  /** `signalled` records whether the condition variable was signalled. */
  datatype SignalResult = SignalResult(sem: Sem, signalled: bool)

  /** sem_signal_manual: increment the counter; when the result is not positive, signal
      the condition variable, which releases one parked thread if there is one. */
  function Signal(s: Sem): (r: SignalResult)
    ensures r.sem.value == s.value + 1
    ensures r.signalled <==> r.sem.value <= 0
    ensures r.sem.waiting == if r.signalled && s.waiting > 0 then s.waiting - 1 else s.waiting
  {
    var v := s.value + 1;
    if v <= 0 then SignalResult(Sem(v, if s.waiting > 0 then s.waiting - 1 else 0), true)
    else SignalResult(Sem(v, s.waiting), false)
  }

  /** Number of parked threads a signal released (zero or one). */
  function Released(before: Sem, after: Sem): (n: nat)
    requires after.waiting <= before.waiting
  {
    before.waiting - after.waiting
  }

  /** A wait keeps the counter's meaning, and the caller parks exactly when no permit
      was available. */
  lemma WaitKeepsValid(s: Sem)
    requires Valid(s)
    ensures Valid(Wait(s).sem)
    ensures Wait(s).blocked <==> Available(s) == 0
    ensures Available(Wait(s).sem) == if Wait(s).blocked then 0 else Available(s) - 1
  {
  }

  /** A signal keeps the counter's meaning and is never lost: it either releases a
      parked thread, or there was none and the counter ends up positive. */
  lemma SignalKeepsValid(s: Sem)
    requires Valid(s)
    ensures Valid(Signal(s).sem)
    ensures Signal(s).signalled <==> s.waiting > 0
    ensures Signal(s).signalled ==> Signal(s).sem.waiting == s.waiting - 1
    ensures !Signal(s).signalled ==> Signal(s).sem.value > 0 && Available(Signal(s).sem) == Available(s) + 1
  {
  }

  /** A waiter that did not park and signals straight back leaves the semaphore exactly
      as it found it, and its signal wakes nobody. */
  lemma WaitThenSignalRestores(s: Sem)
    requires Valid(s)
    requires !Wait(s).blocked
    ensures Signal(Wait(s).sem).sem == s
    ensures !Signal(Wait(s).sem).signalled
  {
  }

  /** The two operations, as steps of an arbitrary interleaving. */
  datatype Op = P | V

  function Apply(s: Sem, op: Op): Sem {
    match op
    case P => Wait(s).sem
    case V => Signal(s).sem
  }

  function Run(s: Sem, ops: seq<Op>): Sem
    decreases |ops|
  {
    if ops == [] then s else Run(Apply(s, ops[0]), ops[1..])
  }

  /** Signals minus waits in a sequence of operations. */
  function Net(ops: seq<Op>): int
    decreases |ops|
  {
    if ops == [] then 0 else (if ops[0] == V then 1 else -1) + Net(ops[1..])
  }

  /** Along any sequence of waits and signals, the counter moves by exactly one per
      operation and the parked threads stay max(0, -value). */
  lemma {:induction false} RunKeepsValid(s: Sem, ops: seq<Op>)
    requires Valid(s)
    ensures Valid(Run(s, ops))
    ensures Run(s, ops).value == s.value + Net(ops)
    decreases |ops|
  {
    if ops != [] {
      if ops[0] == P {
        WaitKeepsValid(s);
      } else {
        SignalKeepsValid(s);
      }
      RunKeepsValid(Apply(s, ops[0]), ops[1..]);
    }
  }

  /** A worker that passes its wait and, finding the simulation stopped, signals the same
      semaphore back has no net effect on the counter, whatever other threads did to the
      semaphore in between. */
  lemma {:induction false} GiveBackIsNetZero(s: Sem, between: seq<Op>)
    requires Valid(s)
    ensures Signal(Run(Wait(s).sem, between)).sem.value == Run(s, between).value
  {
    WaitKeepsValid(s);
    RunKeepsValid(Wait(s).sem, between);
    RunKeepsValid(s, between);
  }

  /** `n` signals in a row, as the shutdown timer issues them. */
  function SignalN(s: Sem, n: nat): Sem
    decreases n
  {
    if n == 0 then s else Signal(SignalN(s, n - 1)).sem
  }

  /** `n` signals raise the counter by `n` and release min(n, waiting) parked threads. */
  lemma {:induction false} SignalNReleases(s: Sem, n: nat)
    requires Valid(s)
    ensures Valid(SignalN(s, n))
    ensures SignalN(s, n).value == s.value + n
    ensures SignalN(s, n).waiting == Max0(s.waiting - n)
    decreases n
  {
    if n > 0 {
      SignalNReleases(s, n - 1);
      SignalKeepsValid(SignalN(s, n - 1));
    }
  }

  /** Issuing one signal and then `n` more is issuing `n + 1`. */
  lemma {:induction false} SignalNShift(s: Sem, n: nat)
    ensures SignalN(Signal(s).sem, n) == SignalN(s, n + 1)
    decreases n
  {
    if n > 0 {
      SignalNShift(s, n - 1);
    }
  }

  /** When at most `n` threads are parked, `n` signals leave nobody parked and a
      non-negative counter. */
  lemma ForcedSignalsClearWaiters(s: Sem, n: nat)
    requires Valid(s)
    requires s.waiting <= n
    ensures SignalN(s, n).waiting == 0
    ensures SignalN(s, n).value >= 0
  {
    SignalNReleases(s, n);
  }
}
