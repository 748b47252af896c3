# Bounded buffer: semaphores, ring and shutdown

A model of the synchronisation core of `BoundedBuffer.c`, a supermarket simulation of the
bounded-buffer problem. Cashiers (producers) scan products into a shared packing area of
BUFFER_SIZE slots. Packers (consumers) take them out. Two hand-built counting semaphores
coordinate them: `sem_empty` counts free slots and `sem_full` counts products. A mutex
guards the critical sections. A timer ends the run: it clears the `simulacion_activa`
flag, then signals each semaphore once per worker so that no thread stays parked.

The project has three modules:

- `semaphore.dfy` (`Semaphore`) models `sem_wait_manual` and `sem_signal_manual` as
  atomic transitions on a counter. The record also counts the threads parked on the
  semaphore's condition variable.
- `ring.dfy` (`RingBuffer`) models the circular slot buffer, its indices, its two
  running totals and `buffer_ocupados`. It proves that the ring refines a FIFO queue of
  the products placed and not yet taken.
- `protocol.dfy` (`Protocol`) is the whole program as a transition system. Each step is
  one atomic action of one thread: a read of the flag, one semaphore operation, a
  critical section, or one step of the timer. Any interleaving of enabled steps is an
  execution. Workers of one role are interchangeable, because their ids only feed logging
  and the random seed. So the state counts how many workers stand at each point of their
  loop.

The invariant of the protocol (`Protocol.Inv`) is one ledger per semaphore. Each
empty-slot or full-slot permit, and each permit the timer added, is in exactly one
place:
- free in the semaphore;
- held by a worker on its way to the buffer;
- being returned by a worker of the other role.

A second part of the invariant says the timer's permits never reach a critical section.
From it follow:
- no overflow and no underflow in every reachable state, shutdown included;
- the FIFO behaviour of the ring;
- a clean shutdown: from every reachable state, a schedule exists that takes every
  thread to its return with nobody parked.

Once the timer has finished, every schedule is finite and no wait can park.

Where the program's documentation and its code disagree, the model follows the code. The
comment on `buffer_ocupados` promises 0 to BUFFER_SIZE, yet a full buffer reads as 0 (see
Findings).

## Model

| member | source | states |
|---|---|---|
| Semaphore.Init | BoundedBuffer.c:57-62 | the counter starts at the given value with nobody parked; the semaphore is consistent exactly when that value is non-negative |
| Semaphore.Wait | BoundedBuffer.c:79-87 | wait lowers the counter by exactly one and the caller parks iff the new value is negative |
| Semaphore.Signal | BoundedBuffer.c:104-112 | signal raises the counter by exactly one and signals the condition variable iff the new value is at most zero, releasing one parked thread if any |
| Semaphore.WaitKeepsValid | BoundedBuffer.c:82-84 | parked threads stay max(0, -value) across a wait; the caller parks exactly when no permit was available |
| Semaphore.SignalKeepsValid | BoundedBuffer.c:107-109 | parked threads stay max(0, -value) across a signal; a signal wakes someone iff someone is parked, otherwise the counter ends positive with one more permit |
| Semaphore.WaitThenSignalRestores | BoundedBuffer.c:252-255 | a wait that does not park followed by a signal back restores the semaphore exactly and wakes nobody |
| Semaphore.RunKeepsValid | BoundedBuffer.c:79-112 | along any sequence of waits and signals the counter moves by signals minus waits and parked threads stay max(0, -value) |
| Semaphore.GiveBackIsNetZero | BoundedBuffer.c:316 | a worker that passes its wait and signals the same semaphore back has zero net effect on the counter, whatever other threads did in between |
| Semaphore.SignalNReleases | BoundedBuffer.c:372-375 | n signals raise the counter by n and leave max(0, waiting - n) threads parked |
| Semaphore.SignalNShift | BoundedBuffer.c:372-375 | one signal followed by n more is n + 1 signals |
| Semaphore.ForcedSignalsClearWaiters | BoundedBuffer.c:369-375 | when at most n threads are parked, n signals leave nobody parked and a non-negative counter |
| RingBuffer.CMod | BoundedBuffer.c:207 | C's remainder by BUFFER_SIZE agrees with the mathematical one on non-negative operands and is non-positive on negative ones |
| RingBuffer.InitialIsEmpty | BoundedBuffer.c:148-153 | the zero-initialised buffer is valid and holds no products |
| RingBuffer.Insert | BoundedBuffer.c:261-263 | the product lands at indice_in, every other slot is unchanged, indice_in advances modulo BUFFER_SIZE, total_producidos grows by one, and the removal side is untouched |
| RingBuffer.Remove | BoundedBuffer.c:322-324 | the returned product is the one at indice_out, indice_out advances modulo BUFFER_SIZE, total_consumidos grows by one, and the slots and insertion side are untouched |
| RingBuffer.OccupancyIsCountModSize | BoundedBuffer.c:205-208 | buffer_ocupados equals (total_producidos - total_consumidos) mod BUFFER_SIZE and lies in [0, BUFFER_SIZE - 1] |
| RingBuffer.FullBufferReadsAsEmpty | BoundedBuffer.c:196-208 | on every buffer holding BUFFER_SIZE products, buffer_ocupados returns 0 |
| RingBuffer.FiveInsertsReadAsEmpty | BoundedBuffer.c:261-264 | five insertions into the fresh buffer hold five products while buffer_ocupados reports 0 |
| RingBuffer.OccupiedIsIntendedOccupancy | BoundedBuffer.c:199-200 | the corrected occupancy agrees with buffer_ocupados on every non-full buffer; on a full buffer the indices coincide and buffer_ocupados gives 0; the indices coincide exactly when the buffer is empty or full |
| RingBuffer.Contents | BoundedBuffer.c:149-153 | the abstract queue of a buffer has one entry per product held |
| RingBuffer.InsertAppends | BoundedBuffer.c:261-263 | inserting into a non-full valid buffer keeps it valid and appends the product at the back of its queue |
| RingBuffer.RemoveTakesOldest | BoundedBuffer.c:322-324 | removing from a non-empty valid buffer keeps it valid, returns the front of its queue and drops exactly that product |
| RingBuffer.Run | BoundedBuffer.c:261-324 | any sequence of inserts and removes keeps the indices in range and in step with the totals; each total grows by the number of its operations |
| RingBuffer.IndicesStayInRange | BoundedBuffer.c:150-151 | from the initial buffer, both indices stay in [0, BUFFER_SIZE) across any sequence of inserts and removes |
| RingBuffer.RingRefinesQueue | BoundedBuffer.c:261-323 | while the buffer never overflows or underflows, the ring's contents and the products it hands out equal those of an abstract FIFO queue |
| RingBuffer.QueueKeepsOrder | BoundedBuffer.c:322-323 | the products taken followed by those still queued are the products placed, in placement order |
| RingBuffer.FirstInFirstOut | BoundedBuffer.c:322-323 | from the initial buffer, every feasible sequence hands out products in the order they were placed, and what remains is the rest of that order |
| Protocol.PostEmpty | BoundedBuffer.c:337 | signalling sem_empty changes only that semaphore and the cashiers it wakes, and the number of cashiers, parked or not, stays the same |
| Protocol.PostFull | BoundedBuffer.c:276 | signalling sem_full changes only that semaphore and the packers it wakes, and the number of packers, parked or not, stays the same |
| Protocol.Next | BoundedBuffer.c:237-376 | each atomic step keeps the buffer's array and indices well formed, neither creates nor loses a thread of either role (counting those parked on a semaphore), and changes the buffer only in a critical section |
| Protocol.Exec | BoundedBuffer.c:229-377 | every runnable schedule keeps the buffer well formed and keeps the number of threads of each role, parked ones included |
| Protocol.TimerBroadcast | BoundedBuffer.c:371-375 | the timer's loop, run without interleaving, issues NUM_CAJEROS + NUM_EMPACADORES signals on each semaphore: each counter rises by that number, and nobody stays parked on a semaphore that had at most that many waiters |
| Protocol.TimerRounds | BoundedBuffer.c:372-375 | n rounds of the timer's loop are 2n steps |
| Protocol.TimerRoundUnfolds | BoundedBuffer.c:373-374 | one round of the timer's loop, as protocol steps, signals each semaphore once and moves the timer to the next round |
| Protocol.TimerRoundsSignal | BoundedBuffer.c:372-375 | the timer's own protocol steps, with no other thread in between, can all run and reach the same semaphores as TimerBroadcast: n signals on each |
| Protocol.StartSatisfiesInv | BoundedBuffer.c:401-403 | the initial configuration, with sem_empty at BUFFER_SIZE and sem_full at 0, satisfies the protocol invariant |
| Protocol.PostEmptyAccounting | BoundedBuffer.c:255 | a signal on sem_empty adds exactly one permit, free or handed to a woken cashier, and loses no thread |
| Protocol.PostFullAccounting | BoundedBuffer.c:316 | a signal on sem_full adds exactly one permit, free or handed to a woken packer, and loses no thread |
| Protocol.CriticalSectionsFit | BoundedBuffer.c:258-263 | under the invariant, every packer about to remove finds a product and every cashier about to insert finds a free slot |
| Protocol.CashierPlaceAppends | BoundedBuffer.c:261-263 | in every state satisfying the invariant, a cashier's critical section appends its product to the back of the queue the buffer holds |
| Protocol.PackerTakeTakesOldest | BoundedBuffer.c:322-324 | in every state satisfying the invariant, a packer's critical section finds a product, takes the oldest one held and leaves the rest of the queue in order |
| Protocol.CashierLoopTestKeepsInv | BoundedBuffer.c:237-242 | the cashier's flag test keeps the invariant |
| Protocol.CashierWaitEmptyKeepsInv | BoundedBuffer.c:252 | the cashier's wait on sem_empty keeps the invariant |
| Protocol.CashierRecheckFlagKeepsInv | BoundedBuffer.c:255 | the cashier's flag re-read, with its signal back when the run is over, keeps the invariant |
| Protocol.CashierInsertKeepsInv | BoundedBuffer.c:258-269 | the cashier's critical section keeps the invariant |
| Protocol.CashierSignalFullKeepsInv | BoundedBuffer.c:276 | the cashier's signal on sem_full keeps the invariant |
| Protocol.PackerLoopTestKeepsInv | BoundedBuffer.c:310 | the packer's loop test keeps the invariant |
| Protocol.PackerWaitFullKeepsInv | BoundedBuffer.c:313 | the packer's wait on sem_full keeps the invariant |
| Protocol.PackerRecheckFlagKeepsInv | BoundedBuffer.c:316 | the packer's flag re-read, with its signal back when the run is over, keeps the invariant |
| Protocol.PackerRemoveKeepsInv | BoundedBuffer.c:319-330 | the packer's critical section keeps the invariant |
| Protocol.PackerSignalEmptyKeepsInv | BoundedBuffer.c:337 | the packer's signal on sem_empty keeps the invariant |
| Protocol.TimerClearFlagKeepsInv | BoundedBuffer.c:366-367 | clearing the flag keeps the invariant |
| Protocol.TimerPostFullKeepsInv | BoundedBuffer.c:373 | the timer's signal on sem_full keeps the invariant |
| Protocol.TimerPostEmptyKeepsInv | BoundedBuffer.c:374 | the timer's signal on sem_empty keeps the invariant |
| Protocol.TimerReturnKeepsInv | BoundedBuffer.c:372-376 | the timer's return keeps the invariant |
| Protocol.StepKeepsInv | BoundedBuffer.c:229-377 | every step of every thread keeps the invariant |
| Protocol.ExecKeepsInv | BoundedBuffer.c:229-377 | every runnable schedule keeps the invariant |
| Protocol.ShutdownWakesAll | BoundedBuffer.c:369-375 | once the timer has finished, nobody is parked on either semaphore and each holds more permits than there are workers still to wait on it |
| Protocol.SemaphoresCountSlots | BoundedBuffer.c:157-161 | with the timer asleep and every worker between critical sections, sem_empty counts the free slots and sem_full the products held |
| Protocol.ScheduleIsSafe | BoundedBuffer.c:252-337 | in every interleaving from the start the buffer neither overflows nor underflows, both indices stay in range, both semaphores keep their meaning, and after the timer finishes nobody is parked |
| Protocol.FinishedStepShrinks | BoundedBuffer.c:237-316 | after the timer has finished, every worker step brings that worker one step closer to returning, so no wait parks and every schedule from there is finite |
| Protocol.TimerAdvances | BoundedBuffer.c:366-376 | until it returns, the timer always has an enabled step that brings it closer to the end |
| Protocol.ShutdownActionProgresses | BoundedBuffer.c:363-377 | the next step of the shutdown schedule is enabled, keeps the invariant, and brings either the timer or the workers closer to the end |
| Protocol.QuietMeansReturned | BoundedBuffer.c:279-280 | with the timer finished and no step left to take, every worker has returned and nobody is parked |
| Protocol.ShutdownCompletes | BoundedBuffer.c:359-361 | from any state satisfying the invariant, the shutdown schedule runs to a state with the timer done, every worker returned and nobody parked |
| Protocol.EveryRunCanFinish | BoundedBuffer.c:359-375 | after any interleaving from the start, every thread can still run to its return: the shutdown never deadlocks |

## Left out

- Real blocking: mutexes, condition variables and the `volatile` flag's memory visibility are not modelled. Each step is treated as atomic, and pthreads semantics are not verified.
- Spurious wakeups of `pthread_cond_wait`. The wait at line 84 is not in a loop, so a spurious return would let a thread through without a permit. The model assumes a thread returns only when a signal releases it.
- A released thread goes straight to holding its permit. The return from `pthread_cond_wait` and the unlock are folded into the signal that released it.
- The cashier's two flag reads (lines 237 and 242) are one step. Nothing observable happens between them, because the delay is not modelled.
- `usleep` and `sleep` durations, `DURACION_SEG`, and wall-clock liveness. The timer may expire at any point of any schedule.
- `rand` and `srand`. Product names and codes are arbitrary inputs to the insert step.
- The `strncpy` copy of names into `char nombre[32]`. A product is an opaque value.
- `log_evento`, every `printf`, `localtime`, the banner and the final statistics in `main`. These are output only.
- `log_evento` is called inside the critical section at lines 266-267 and 327-328; logging is not modelled, so neither is the time it holds the mutex.
- The results are proved for the configured constants BUFFER_SIZE = 5, NUM_CAJEROS = 3 and NUM_EMPACADORES = 2 (lines 26-29), not for every choice of them.
- `sem_destruir`, and the mutex and condition-variable setup in `sem_inicializar`. Only the initial counter value is modelled.
- Thread creation and joining in `main`. The model starts with every thread at the top of its function.
- The 32-bit `int` overflow of `total_producidos` and `total_consumidos`. The totals are unbounded integers, which matches the C program for runs of fewer than 2^31 products.

## Findings

| source | as written | input that shows it | evidently intended | confidence | as-written member | corrected member |
|---|---|---|---|---|---|---|
| BoundedBuffer.c:199-208 | `buffer_ocupados` returns `(indice_in - indice_out + BUFFER_SIZE) % BUFFER_SIZE`, which is never BUFFER_SIZE, so a full buffer reports 0 and the cashier that fills it logs "Buffer: 0/5" | the fresh buffer after five insertions with no removal: both indices are 0 and five products are held | the number of products held, from 0 to BUFFER_SIZE as the comment at line 200 says, i.e. `total_producidos - total_consumidos` | not executed | RingBuffer.FullBufferReadsAsEmpty | RingBuffer.OccupiedIsIntendedOccupancy |
