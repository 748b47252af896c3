/**
 The shared packing area: a fixed array of BUFFER_SIZE product slots used as a
 circular buffer, with the cashiers' insertion index, the packers' removal index
 and the two running totals. The insert and remove blocks run inside the
 buffer's mutex, so each is one atomic transition here.

 The module also gives the buffer its abstract meaning, the FIFO queue of the
 products placed and not yet taken, and proves that the ring refines it.
 */
module RingBuffer {

  /** BUFFER_SIZE */
  const Size: nat := 5

  /** A product is an opaque value copied into and out of slots; its name and code
      are arbitrary inputs. */
  datatype Product = Product(name: string, code: int)

  /** The zero value a static C array of products starts with. */
  const Blank: Product := Product("", 0)

  /** area_empaque, indice_in, indice_out, total_producidos, total_consumidos */
  datatype Ring = Ring(slots: seq<Product>, inIdx: int, outIdx: int, produced: int, consumed: int)

  /** C's `x % BUFFER_SIZE`, which truncates toward zero, so a negative dividend
      gives a non-positive remainder. */
  function CMod(a: int): (r: int)
    ensures -(Size as int) < r < Size
    ensures a >= 0 ==> r == a % Size
    ensures a < 0 ==> r <= 0
  {
    if a >= 0 then a % Size else -((-a) % Size)
  }

  /** The array has BUFFER_SIZE slots and both indices address one of them. */
  predicate WellFormed(r: Ring) {
    && |r.slots| == Size
    && 0 <= r.inIdx < Size
    && 0 <= r.outIdx < Size
  }

  /** Each index is its running total reduced modulo the capacity. */
  predicate InSync(r: Ring) {
    && r.inIdx == r.produced % Size
    && r.outIdx == r.consumed % Size
  }

  /** Products placed and not yet taken, from the totals. This is the occupancy the
      C function was meant to report; see Occupancy. */
  function Occupied(r: Ring): int {
    r.produced - r.consumed
  }

  /** The buffer's invariant: well formed, in step with the totals, and holding
      between none and Size products. */
  predicate Valid(r: Ring) {
    && WellFormed(r)
    && InSync(r)
    && 0 <= Occupied(r) <= Size
  }

  /** The initial state: zeroed slots, both indices and both totals at 0. */
  const Initial: Ring := Ring(seq(Size, _ => Blank), 0, 0, 0, 0)

  /** The initial buffer is valid and holds nothing. */
  lemma InitialIsEmpty()
    ensures Valid(Initial) && Occupied(Initial) == 0 && Contents(Initial) == []
  {
  }

  /** The cashier's critical section: store the product at the insertion index, advance
      that index circularly and count one more product. */
  function Insert(r: Ring, p: Product): (r': Ring)
    requires WellFormed(r)
    ensures WellFormed(r')
    ensures |r'.slots| == |r.slots| && r'.slots[r.inIdx] == p
    ensures forall i | 0 <= i < Size && i != r.inIdx :: r'.slots[i] == r.slots[i]
    ensures r'.inIdx == (r.inIdx + 1) % Size && r'.produced == r.produced + 1
    ensures r'.outIdx == r.outIdx && r'.consumed == r.consumed
  {
    Ring(r.slots[r.inIdx := p], CMod(r.inIdx + 1), r.outIdx, r.produced + 1, r.consumed)
  }

  datatype Removal = Removal(item: Product, ring: Ring)

  /** The packer's critical section: copy the product at the removal index, advance
      that index circularly and count one more product taken. */
  function Remove(r: Ring): (res: Removal)
    requires WellFormed(r)
    ensures WellFormed(res.ring)
    ensures res.item == r.slots[r.outIdx]
    ensures res.ring.outIdx == (r.outIdx + 1) % Size && res.ring.consumed == r.consumed + 1
    ensures res.ring.slots == r.slots && res.ring.inIdx == r.inIdx && res.ring.produced == r.produced
  {
    Removal(r.slots[r.outIdx], r.(outIdx := CMod(r.outIdx + 1), consumed := r.consumed + 1))
  }

  /** buffer_ocupados, as written: (indice_in - indice_out + BUFFER_SIZE) % BUFFER_SIZE. */
  function Occupancy(r: Ring): int {
    CMod(r.inIdx - r.outIdx + Size)
  }

  /** What buffer_ocupados computes: the number of products held reduced modulo the
      capacity, so never Size. */
  lemma OccupancyIsCountModSize(r: Ring)
    requires WellFormed(r) && InSync(r)
    ensures Occupancy(r) == (r.produced - r.consumed) % Size
    ensures 0 <= Occupancy(r) < Size
  {
    var a, b := r.produced, r.consumed;
    assert a == (a / Size) * Size + r.inIdx;
    assert b == (b / Size) * Size + r.outIdx;
    var k := a / Size - b / Size;
    assert a - b == k * Size + (r.inIdx - r.outIdx);
    ModShift(r.inIdx - r.outIdx + Size, k - 1);
  }

  /** Adding a multiple of the modulus does not change the remainder. */
  lemma ModShift(x: int, k: int)
    ensures (x + k * Size) % Size == x % Size
  {
    var q := x / Size;
    var m := x % Size;
    assert x == q * Size + m;
    assert x + k * Size == (q + k) * Size + m;
  }

  /** The finding, as a property: whenever the buffer holds Size products, the C
      function reports an empty buffer. */
  lemma FullBufferReadsAsEmpty(r: Ring)
    requires Valid(r)
    requires Occupied(r) == Size
    ensures Occupancy(r) == 0
  {
    OccupancyIsCountModSize(r);
  }

  /** The finding, on a concrete run: five cashiers' insertions into the fresh buffer,
      with no packer in between, leave five products held while buffer_ocupados says 0. */
  lemma FiveInsertsReadAsEmpty(p: Product)
    ensures var r := Insert(Insert(Insert(Insert(Insert(Initial, p), p), p), p), p);
      Occupied(r) == 5 && Occupancy(r) == 0
  {
  }

  /** The corrected occupancy agrees with the formula on every non-full buffer; on a
      full one the indices coincide, as on an empty one, and only the totals tell the
      two apart. */
  lemma OccupiedIsIntendedOccupancy(r: Ring)
    requires Valid(r)
    ensures Occupied(r) < Size ==> Occupied(r) == Occupancy(r)
    ensures Occupied(r) == Size ==> r.inIdx == r.outIdx && Occupancy(r) == 0
    ensures r.inIdx == r.outIdx <==> Occupied(r) == 0 || Occupied(r) == Size
  {
    OccupancyIsCountModSize(r);
  }

  /** The abstract queue a valid ring stands for: the held products, oldest first,
      read from the removal index onwards. */
  function Contents(r: Ring): (q: seq<Product>)
    requires |r.slots| == Size && 0 <= Occupied(r) <= Size
    ensures |q| == Occupied(r)
  {
    seq(Occupied(r), k requires 0 <= k < Occupied(r) => r.slots[(r.outIdx + k) % Size])
  }

  /** For distinct offsets below the capacity, positions after the same start are distinct. */
  lemma DistinctOffsets(start: int, j: int, k: int)
    requires 0 <= j < k < Size
    ensures (start + j) % Size != (start + k) % Size
  {
    var q := start / Size;
    var m := start % Size;
    assert start == q * Size + m;
    ModShift(m + j, q);
    ModShift(m + k, q);
    assert (m + j) % Size == if m + j < Size then m + j else m + j - Size;
    assert (m + k) % Size == if m + k < Size then m + k else m + k - Size;
  }

  /** The insertion index is the slot just after the held products. */
  lemma InsertionIndexFollowsContents(r: Ring)
    requires Valid(r)
    ensures r.inIdx == (r.outIdx + Occupied(r)) % Size
  {
    var a, b := r.produced, r.consumed;
    assert b == (b / Size) * Size + r.outIdx;
    assert a == b + Occupied(r);
    ModShift(r.outIdx + Occupied(r), b / Size);
  }

  /** Advancing an index in step with its total keeps them in step. */
  lemma ModSucc(x: int)
    ensures (x % Size + 1) % Size == (x + 1) % Size
  {
    assert x == (x / Size) * Size + x % Size;
    ModShift(x % Size + 1, x / Size);
  }

  /** Moving the start one slot on shifts positions by one. */
  lemma NextStart(start: int, k: int)
    ensures ((start + 1) % Size + k) % Size == (start + (k + 1)) % Size
  {
    var q := (start + 1) / Size;
    assert start + 1 == q * Size + (start + 1) % Size;
    ModShift((start + 1) % Size + k, q);
  }

  /** Inserting into a non-full buffer appends the product to the abstract queue. */
  lemma InsertAppends(r: Ring, p: Product)
    requires Valid(r)
    requires Occupied(r) < Size
    ensures Valid(Insert(r, p))
    ensures Contents(Insert(r, p)) == Contents(r) + [p]
  {
    var r' := Insert(r, p);
    var n := Occupied(r);
    ModSucc(r.produced);
    assert InSync(r');
    InsertionIndexFollowsContents(r);
    forall k | 0 <= k < n
      ensures Contents(r')[k] == Contents(r)[k]
    {
      DistinctOffsets(r.outIdx, k, n);
    }
    assert Contents(r')[n] == p;
  }

  /** Removing from a non-empty buffer yields the oldest product and pops it off the
      abstract queue. */
  lemma RemoveTakesOldest(r: Ring)
    requires Valid(r)
    requires Occupied(r) > 0
    ensures Valid(Remove(r).ring)
    ensures Remove(r).item == Contents(r)[0]
    ensures Contents(Remove(r).ring) == Contents(r)[1..]
  {
    var r' := Remove(r).ring;
    ModSucc(r.consumed);
    assert InSync(r');
    assert r.outIdx % Size == r.outIdx;
    forall k | 0 <= k < Occupied(r')
      ensures Contents(r')[k] == Contents(r)[k + 1]
    {
      NextStart(r.outIdx, k);
    }
  }

  /** A cashier's insertion or a packer's removal. */
  datatype Op = Put(item: Product) | Take

  /** The ring after a sequence of operations, and the products the removals returned. */
  datatype Trace = Trace(ring: Ring, taken: seq<Product>)

  /** Runs the operations in order. Nothing guards the buffer here, exactly as the C
      blocks themselves do not check for a full or empty buffer; the indices and
      totals still move in step whatever the sequence. */
  function Run(r: Ring, ops: seq<Op>): (t: Trace)
    requires WellFormed(r)
    ensures WellFormed(t.ring)
    ensures InSync(r) ==> InSync(t.ring)
    ensures t.ring.produced - r.produced == Puts(ops)
    ensures t.ring.consumed - r.consumed == |ops| - Puts(ops)
    ensures |t.taken| == |ops| - Puts(ops)
    decreases |ops|
  {
    if ops == [] then Trace(r, [])
    else match ops[0]
      case Put(p) =>
        ModSucc(r.produced);
        Run(Insert(r, p), ops[1..])
      case Take =>
        ModSucc(r.consumed);
        var rm := Remove(r);
        var rest := Run(rm.ring, ops[1..]);
        Trace(rest.ring, [rm.item] + rest.taken)
  }

  /** Number of insertions in a sequence of operations. */
  function Puts(ops: seq<Op>): (n: nat)
    ensures n <= |ops|
    decreases |ops|
  {
    if ops == [] then 0 else (if ops[0].Put? then 1 else 0) + Puts(ops[1..])
  }

  /** Starting from the initial buffer, both indices stay within the array and equal
      their totals modulo the capacity, for every sequence of insertions and removals. */
  lemma IndicesStayInRange(ops: seq<Op>)
    ensures var r := Run(Initial, ops).ring;
      0 <= r.inIdx < Size && 0 <= r.outIdx < Size && InSync(r)
  {
  }

  /** The abstract FIFO queue of bounded capacity. */
  datatype QTrace = QTrace(queue: seq<Product>, taken: seq<Product>)

  function QueueRun(q: seq<Product>, ops: seq<Op>): QTrace
    decreases |ops|
  {
    if ops == [] then QTrace(q, [])
    else match ops[0]
      case Put(p) => QueueRun(q + [p], ops[1..])
      case Take =>
        if q == [] then QueueRun(q, ops[1..])
        else
          var rest := QueueRun(q[1..], ops[1..]);
          QTrace(rest.queue, [q[0]] + rest.taken)
  }

  /** The operations never insert into a full buffer nor remove from an empty one,
      starting with `held` products: what the semaphores guarantee. */
  predicate Feasible(held: int, ops: seq<Op>)
    decreases |ops|
  {
    ops == [] ||
    match ops[0]
    case Put(_) => held < Size && Feasible(held + 1, ops[1..])
    case Take => held > 0 && Feasible(held - 1, ops[1..])
  }

  /** The ring refines the FIFO queue: on every feasible sequence of operations it
      returns the same products as the queue and ends holding the same queue. */
  lemma {:induction false} RingRefinesQueue(r: Ring, ops: seq<Op>)
    requires Valid(r)
    requires Feasible(Occupied(r), ops)
    ensures Valid(Run(r, ops).ring)
    ensures Contents(Run(r, ops).ring) == QueueRun(Contents(r), ops).queue
    ensures Run(r, ops).taken == QueueRun(Contents(r), ops).taken
    decreases |ops|
  {
    if ops != [] {
      match ops[0]
      case Put(p) =>
        InsertAppends(r, p);
        RingRefinesQueue(Insert(r, p), ops[1..]);
      case Take =>
        RemoveTakesOldest(r);
        RingRefinesQueue(Remove(r).ring, ops[1..]);
    }
  }

  /** The products a feasible sequence inserts, in order. */
  function Placed(ops: seq<Op>): seq<Product>
    decreases |ops|
  {
    if ops == [] then []
    else match ops[0]
      case Put(p) => [p] + Placed(ops[1..])
      case Take => Placed(ops[1..])
  }

  /** Queue order: what is taken, followed by what is still held, is what was there
      to begin with followed by what was placed. */
  lemma {:induction false} QueueKeepsOrder(q: seq<Product>, ops: seq<Op>)
    requires Feasible(|q|, ops)
    ensures QueueRun(q, ops).taken + QueueRun(q, ops).queue == q + Placed(ops)
    decreases |ops|
  {
    if ops != [] {
      match ops[0]
      case Put(p) =>
        QueueKeepsOrder(q + [p], ops[1..]);
        assert q + [p] + Placed(ops[1..]) == q + ([p] + Placed(ops[1..]));
      case Take =>
        assert q != [];
        var rest := QueueRun(q[1..], ops[1..]);
        assert QueueRun(q, ops) == QTrace(rest.queue, [q[0]] + rest.taken);
        QueueKeepsOrder(q[1..], ops[1..]);
        calc {
          QueueRun(q, ops).taken + QueueRun(q, ops).queue;
          ([q[0]] + rest.taken) + rest.queue;
          [q[0]] + (rest.taken + rest.queue);
          [q[0]] + (q[1..] + Placed(ops[1..]));
          ([q[0]] + q[1..]) + Placed(ops[1..]);
          { assert [q[0]] + q[1..] == q; }
          q + Placed(ops);
        }
    }
  }

  /** From the initial buffer, packers receive the products in exactly the order
      cashiers placed them: the products taken followed by those still held are the
      products placed. */
  lemma FirstInFirstOut(ops: seq<Op>)
    requires Feasible(0, ops)
    ensures Valid(Run(Initial, ops).ring)
    ensures Run(Initial, ops).taken + Contents(Run(Initial, ops).ring) == Placed(ops)
  {
    InitialIsEmpty();
    RingRefinesQueue(Initial, ops);
    QueueKeepsOrder([], ops);
  }
}
