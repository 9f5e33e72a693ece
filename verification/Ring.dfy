/**
 The submission side of the ring: head and tail are 32-bit counters that wrap, entries sit in the
 slots they select, and a full ring is handed to the kernel before another slot is given out.
 */
module Ring {
  import opened Words

  const COUNTER := 0x1_0000_0000

  /** Slot of a counter value. */
  function Slot(counter: nat, size: nat): nat
    requires size > 0
  {
    counter % size
  }

  /** Slot of the k-th entry from a counter value on. */
  function SlotAt(counter: nat, k: nat, size: nat): nat
    requires size > 0
  {
    Slot(counter + k, size)
  }

  /** Wrapping the counter does not change the slot, because the ring size divides 2^32. */
  lemma SlotWraps(counter: nat, size: nat)
    requires IsPowerOfTwo(size) && size <= COUNTER
    ensures Slot(counter % COUNTER, size) == Slot(counter, size)
  {
    hide Pow2;
    var m := SizeDividesCounter(size);
    MultipleWraps(counter, size, m);
  }

  lemma SizeDividesCounter(size: nat) returns (m: nat)
    requires IsPowerOfTwo(size) && size <= COUNTER
    ensures m * size == COUNTER
  {
    hide Pow2;
    var k: nat :| size == Pow2(k);
    CounterPower();
    if k > 32 {
      Pow2Monotone(33, k);
    }
    m := Pow2(32 - k);
    Pow2Add(32 - k, k);
  }

  lemma MultipleWraps(counter: nat, size: nat, m: nat)
    requires size > 0 && m * size == COUNTER
    ensures counter % COUNTER % size == counter % size
  {
    var q, r := counter / COUNTER, counter % COUNTER;
    var q', r' := r / size, r % size;
    Regroup(q, m, size, q', r');
    assert counter == q * (m * size) + (q' * size + r');
    DivisionUnique(counter, size, q * m + q', r');
  }

  lemma Regroup(q: nat, m: nat, size: nat, q': nat, r: nat)
    ensures q * (m * size) + (q' * size + r) == (q * m + q') * size + r
  {
    Associates(q, m, size);
    DistributeSum(q * m, q', size);
  }

  lemma CounterPower()
    ensures Pow2(32) == COUNTER && Pow2(33) == 2 * COUNTER
  {
    Pow2Double(4, 16);
    Pow2Double(8, 0x100);
    Pow2Double(16, 0x1_0000);
    assert Pow2(33) == 2 * Pow2(32);
  }

  /** Counters that differ by less than the size select different slots. */
  lemma SlotsDiffer(a: nat, b: nat, size: nat)
    requires size > 0 && a < b < a + size
    ensures Slot(a, size) != Slot(b, size)
  {
    var qa, qb := a / size, b / size;
    if a % size == b % size {
      Distribute(qb, qa, size);
      if qb - qa >= 1 {
        MultiplyMonotone(1, qb - qa, size);
      } else {
        MultiplyMonotone(qb - qa, 0, size);
      }
    }
  }

  lemma SlotIsFree(head: nat, n: nat, size: nat)
    requires n < size
    ensures forall k: nat :: k < n ==> SlotAt(head, k, size) != Slot(head + n, size)
  {
    forall k: nat | k < n
      ensures SlotAt(head, k, size) != Slot(head + n, size)
    {
      SlotsDiffer(head + k, head + n, size);
    }
  }

  lemma DistributeSum(a: int, b: int, d: int)
    ensures (a + b) * d == a * d + b * d
  {
  }

  lemma Distribute(a: int, b: int, d: int)
    ensures a * d - b * d == (a - b) * d
  {
  }

  class SubmissionRing<T(0)> {
    const size: nat
    const entries: array<T>
    const order: array<nat>
    var head: nat
    var tail: nat
    /** The counters without the wrap-around. */
    ghost var headTotal: nat
    ghost var tailTotal: nat
    /** The entries that the kernel has not taken yet, and those it has, in order. */
    ghost var pending: seq<T>
    ghost var submitted: seq<T>

    ghost predicate Valid()
      reads this, entries, order
    {
      && IsPowerOfTwo(size) && size <= COUNTER / 2
      && entries.Length == size && order.Length == size && order as object != entries
      && head == headTotal % COUNTER && tail == tailTotal % COUNTER
      && headTotal + |pending| == tailTotal && |pending| <= size
      && (forall k :: 0 <= k < |pending| ==> SlotHolds(k))
    }

    /** The kernel, reading entry k from the head, finds the k-th pending entry. */
    ghost predicate SlotHolds(k: nat)
      requires size > 0 && entries.Length == size && order.Length == size && k < |pending|
      reads this, entries, order
    {
      var slot := SlotAt(headTotal, k, size);
      order[slot] == slot && entries[slot] == pending[k]
    }

    constructor (size: nat)
      requires IsPowerOfTwo(size) && size <= COUNTER / 2
      ensures Valid() && this.size == size && pending == [] && submitted == []
      ensures fresh(entries) && fresh(order)
    {
      this.size := size;
      entries := new T[size];
      order := new nat[size];
      head, tail, headTotal, tailTotal := 0, 0, 0, 0;
      pending, submitted := [], [];
    }

    /** The number of entries to submit, from counters that may have wrapped. */
    method ToSubmit() returns (n: nat)
      requires Valid()
      ensures n == |pending|
    {
      WrappedDifference(headTotal, tailTotal);
      n := (tail + COUNTER - head) % COUNTER;
    }

    /** The kernel takes every pending entry, by way of the order array, from head to tail. */
    method Enter() returns (taken: seq<T>)
      requires Valid()
      modifies this
      ensures Valid() && taken == old(pending) && pending == []
      ensures submitted == old(submitted) + old(pending)
    {
      hide IsPowerOfTwo, Slot, SlotAt;
      var n := ToSubmit();
      taken := [];
      var k := 0;
      while k < n
        invariant 0 <= k <= n == |pending| && taken == pending[..k]
        invariant unchanged(this)
      {
        SlotWraps(headTotal + k, size);
        WrappedSum(headTotal, k);
        var slot := Mask((head + k) % COUNTER, size);
        MaskedSlot((head + k) % COUNTER, size);
        LastSlot(headTotal, k, size);
        assert SlotHolds(k);
        taken := taken + [entries[order[slot]]];
        assert pending[..k + 1] == pending[..k] + [pending[k]];
        k := k + 1;
      }
      submitted := submitted + pending;
      pending := [];
      head := tail;
      headTotal := tailTotal;
    }

    /** reactor_ring_flush: a full ring is handed over first. */
    method Flush()
      requires Valid()
      modifies this
      ensures Valid() && |pending| < size && submitted + pending == old(submitted) + old(pending)
    {
      var n := ToSubmit();
      if n == size {
        var _ := Enter();
      }
    }

    /** reactor_ring_sqe, and the caller filling in the slot: no pending entry is overwritten. */
    method Submit(e: T) returns (slot: nat)
      requires Valid()
      modifies this, entries, order
      ensures Valid() && submitted + pending == old(submitted) + old(pending) + [e]
      ensures slot < size && pending != [] && entries[slot] == e
    {
      Flush();
      ghost var was := pending;
      slot := Put(e);
      assert submitted + (was + [e]) == submitted + was + [e];
    }

    /** reactor.c:101-104, and the assignment to the slot that is returned. */
    method Put(e: T) returns (slot: nat)
      requires Valid() && |pending| < size
      modifies this`tail, this`tailTotal, this`pending, entries, order
      ensures Valid() && pending == old(pending) + [e]
      ensures slot < size && entries[slot] == e
    {
      hide IsPowerOfTwo, Slot, SlotAt;
      SlotWraps(tailTotal, size);
      slot := Mask(tail, size);
      MaskedSlot(tail, size);
      ghost var n, was := |pending|, pending;
      SlotIsFree(headTotal, n, size);
      LastSlot(headTotal, n, size);
      WrappedSum(tailTotal, 1);
      assert forall k: nat :: k < n ==> SlotHolds(k);
      tail := (tail + 1) % COUNTER;
      tailTotal := tailTotal + 1;
      order[slot] := slot;
      entries[slot] := e;
      pending := pending + [e];
      forall k: nat | k < n
        ensures SlotHolds(k)
      {
        assert old(SlotHolds(k));
        assert SlotAt(headTotal, k, size) != slot && pending[k] == was[k];
      }
      assert SlotHolds(n);
    }
  }

  lemma MaskedSlot(counter: nat, size: nat)
    requires size > 0
    ensures counter % size == Slot(counter, size)
  {
  }

  lemma LastSlot(head: nat, n: nat, size: nat)
    requires size > 0
    ensures SlotAt(head, n, size) == Slot(head + n, size)
  {
  }

  lemma WrappedDifference(head: nat, tail: nat)
    requires head <= tail < head + COUNTER
    ensures (tail % COUNTER + COUNTER - head % COUNTER) % COUNTER == tail - head
  {
  }

  lemma WrappedSum(a: nat, k: nat)
    ensures (a % COUNTER + k) % COUNTER == (a + k) % COUNTER
  {
  }
}
