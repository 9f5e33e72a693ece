/**
 The two ends of the queue: a producer with double-buffered output and at most one write of up to
 128 elements outstanding, a consumer with one read outstanding whose batch is handed over element
 by element. The kernel moves whole elements; positions and sizes count elements.
 */
module Queue {
  import opened Options

  const WRITE_MAX := 128

  /** An outstanding write of `size` elements, of which the kernel has moved some, or not yet run. */
  datatype WriteOp = WriteOp(size: nat, moved: Option<nat>)

  /** `orphan` is what a cancelled write may still put into the pipe after a close. */
  datatype Producer<T> =
      Producer(open: bool, output: seq<T>, offset: nat, queued: seq<T>, write: Option<WriteOp>, orphan: seq<T>)
  {
    predicate Valid() {
      && offset <= |output|
      && (write.Some? ==> open && 0 < write.value.size <= |output| - offset && orphan == [])
      && (write.Some? && write.value.moved.Some? ==> 0 < write.value.moved.value <= write.value.size)
      && (open ==> orphan == [])
      && (open && write.None? ==> output == [] && queued == [])
      && (!open ==> output == [] && queued == [])
    }

    /** How many elements of the output are in the pipe already. */
    function Gone(): nat {
      offset + if write.Some? && write.value.moved.Some? then write.value.moved.value else 0
    }

    /** The elements that are still with the producer, in push order. */
    function Held(): seq<T> {
      orphan + (if Gone() <= |output| then output[Gone()..] else []) + queued
    }
  }

  /** queue_producer_update */
  function Update<T>(p: Producer<T>): Producer<T>
    requires p.offset <= |p.output|
  {
    if p.write.Some? then p
    else
      var q := if p.offset == |p.output| then p.(output := p.queued, offset := 0, queued := []) else p;
      if |q.output| == 0 then q
      else
        var rest := |q.output| - q.offset;
        q.(write := Some(WriteOp(if rest > WRITE_MAX then WRITE_MAX else rest, None)))
  }

  function Push<T>(p: Producer<T>, e: T): Producer<T>
    requires p.offset <= |p.output|
  {
    Update(p.(queued := p.queued + [e]))
  }

  /** queue_producer_write for `count` elements, or 0 for an interrupted write. */
  function Wrote<T>(p: Producer<T>, count: nat): Producer<T>
    requires p.offset + count <= |p.output|
  {
    Update(p.(write := None, offset := p.offset + count))
  }

  /** queue_producer_close: what the kernel may still read stays allocated, the rest is freed. */
  function CloseProducer<T>(p: Producer<T>): Producer<T>
    requires p.Valid()
  {
    if !p.open then p
    else
      var orphan := if p.write.Some? && p.write.value.moved.None?
        then p.output[p.offset..p.offset + p.write.value.size] else [];
      Producer(false, [], 0, [], None, orphan)
  }

  lemma UpdateValid<T>(p: Producer<T>)
    requires p.open && p.orphan == [] && p.offset <= |p.output| && p.write.None?
    ensures Update(p).Valid() && Update(p).open
    ensures Update(p).Held() == p.output[p.offset..] + p.queued
  {
    var q := if p.offset == |p.output| then p.(output := p.queued, offset := 0, queued := []) else p;
    if p.offset == |p.output| {
      assert p.output[p.offset..] == [];
      assert q.output[0..] == p.queued;
    }
    assert Update(p).orphan + q.output[q.offset..] + q.queued == q.output[q.offset..] + q.queued;
  }

  /** A push goes behind everything that the producer still holds. */
  lemma PushHolds<T>(p: Producer<T>, e: T)
    requires p.Valid() && p.open
    ensures Push(p, e).Valid() && Push(p, e).open && Push(p, e).Held() == p.Held() + [e]
  {
    var p1 := p.(queued := p.queued + [e]);
    if p.write.None? {
      UpdateValid(p1);
      assert p.output[p.offset..] == [];
    } else {
      assert p.Held() + [e] == p.orphan + p.output[p.Gone()..] + (p.queued + [e]);
    }
  }

  /** Completing a write changes nothing about what is held: the moved elements were gone before. */
  lemma WroteHolds<T>(p: Producer<T>)
    requires p.Valid() && p.write.Some?
    ensures var count := if p.write.value.moved.Some? then p.write.value.moved.value else 0;
            Wrote(p, count).Valid() && Wrote(p, count).open && Wrote(p, count).Held() == p.Held()
  {
    var count := if p.write.value.moved.Some? then p.write.value.moved.value else 0;
    UpdateValid(p.(write := None, offset := p.offset + count));
    assert p.Held() == p.output[p.offset + count..] + p.queued;
  }

  /** The kernel runs the outstanding write: its first elements leave the producer. */
  function Move<T>(p: Producer<T>, count: nat): Producer<T>
    requires p.write.Some?
  {
    p.(write := Some(p.write.value.(moved := Some(count))))
  }

  lemma MoveHolds<T>(p: Producer<T>, count: nat)
    requires p.Valid() && p.write.Some? && p.write.value.moved.None? && 0 < count <= p.write.value.size
    ensures Move(p, count).Valid() && Move(p, count).open == p.open
    ensures p.Held() == p.output[p.offset..p.offset + count] + Move(p, count).Held()
  {
    assert p.output[p.offset..] == p.output[p.offset..p.offset + count] + p.output[p.offset + count..];
  }

  /** A close keeps at most the first of what was held. */
  lemma CloseHolds<T>(p: Producer<T>)
    requires p.Valid()
    ensures CloseProducer(p).Valid() && !CloseProducer(p).open && CloseProducer(p).Held() <= p.Held()
    ensures p.open ==>
              |CloseProducer(p).Held()| ==
              if p.write.Some? && p.write.value.moved.None? then p.write.value.size else 0
  {
    var q := CloseProducer(p);
    if p.open {
      assert q.Held() == q.orphan;
      assert p.Held() == p.output[p.Gone()..] + p.queued;
      if p.write.Some? && p.write.value.moved.None? {
        assert q.orphan <= p.output[p.offset..];
      }
    }
  }

  lemma OrphanHolds<T>(p: Producer<T>)
    requires p.Valid()
    ensures p.(orphan := []).Valid() && p.Held() == p.orphan + p.(orphan := []).Held()
    ensures p.open ==> p.orphan == []
  {
  }

  datatype ReadOp<T> = Waiting | Filled(batch: seq<T>)

  /** `batch` is what is left to hand over while queue_consumer_read runs, after `given` elements. */
  datatype Consumer<T> =
      Consumer(open: bool, size: nat, read: Option<ReadOp<T>>, batch: Option<seq<T>>, given: nat, orphanRead: bool)
  {
    predicate Valid() {
      && (read.Some? && read.value.Filled? ==> 0 < |read.value.batch| <= size)
      && (!open ==> read.None? && batch.None?)
    }

    /** The elements that left the pipe for this consumer and are not delivered yet, in order. */
    function Held(): seq<T> {
      (if batch.Some? then batch.value else []) + (if read.Some? && read.value.Filled? then read.value.batch else [])
    }
  }

  /** queue_consumer_update, which is also queue_consumer_pop */
  function Pop<T>(c: Consumer<T>): Consumer<T> {
    if c.read.Some? then c else c.(read := Some(Waiting))
  }

  /** A read that is filled now overwrites what is left of a batch: both lie in the input buffer. */
  predicate Overwrites<T>(c: Consumer<T>, count: nat) {
    c.batch.Some? && c.batch.value != [] && c.given < count
  }

  /** The kernel fills the outstanding read with elements from the pipe. */
  function Fill<T>(c: Consumer<T>, filled: seq<T>): Consumer<T> {
    var batch := match c.batch
                 case None => None
                 case Some(b) =>
                   Some(seq(|b|, j requires 0 <= j < |b| =>
                     if c.given + j < |filled| then filled[c.given + j] else b[j]));
    c.(read := Some(Filled(filled)), batch := batch)
  }

  lemma FillHolds<T>(c: Consumer<T>, filled: seq<T>)
    requires c.Valid() && c.open && c.read == Some(Waiting) && 0 < |filled| <= c.size && !Overwrites(c, |filled|)
    ensures Fill(c, filled).Valid() && Fill(c, filled).Held() == c.Held() + filled
  {
    if c.batch.Some? {
      assert Fill(c, filled).batch.value == c.batch.value;
    }
  }

  /** queue_consumer_close; a batch that is being handed over is abandoned. */
  function CloseConsumer<T>(c: Consumer<T>): Consumer<T> {
    if !c.open then c
    else Consumer(false, c.size, None, None, 0, c.orphanRead || (c.read.Some? && c.read.value.Waiting?))
  }

  // ---------------------------------------------------------------- as the code runs it

  class QueueProducer<T> {
    var open: bool
    var output: seq<T>
    var outputOffset: nat
    var outputQueued: seq<T>
    var write: Option<WriteOp>
    ghost var orphan: seq<T>

    ghost function Abstract(): Producer<T>
      reads this
    {
      Producer(open, output, outputOffset, outputQueued, write, orphan)
    }

    constructor ()
      ensures Abstract() == Producer(true, [], 0, [], None, []) && Abstract().Valid()
    {
      open, output, outputOffset, outputQueued, write, orphan := true, [], 0, [], None, [];
    }

    method UpdateOutput()
      requires outputOffset <= |output|
      modifies this
      ensures Abstract() == Update(old(Abstract()))
    {
      if write.Some? {
        return;
      }
      if outputOffset == |output| {
        output := [];
        outputOffset := 0;
        output, outputQueued := outputQueued, output;
      }
      if |output| == 0 {
        return;
      }
      var size := |output| - outputOffset;
      if size > WRITE_MAX {
        size := WRITE_MAX;
      }
      write := Some(WriteOp(size, None));
    }

    method PushElement(e: T)
      requires Abstract().Valid() && open
      modifies this
      ensures Abstract() == Push(old(Abstract()), e) && Abstract().Valid()
    {
      PushHolds(Abstract(), e);
      outputQueued := outputQueued + [e];
      UpdateOutput();
    }

    /** The completion of the outstanding write: an interrupted one has moved nothing. */
    method OnWrite(interrupted: bool)
      requires Abstract().Valid() && write.Some?
      requires interrupted <==> write.value.moved.None?
      modifies this
      ensures var p := old(Abstract());
              Abstract() == Wrote(p, if interrupted then 0 else p.write.value.moved.value) && Abstract().Valid()
    {
      WroteHolds(Abstract());
      var op := write.value;
      write := None;
      if interrupted {
        UpdateOutput();
        return;
      }
      outputOffset := outputOffset + op.moved.value;
      UpdateOutput();
    }

    method Close()
      requires Abstract().Valid()
      modifies this
      ensures Abstract() == CloseProducer(old(Abstract())) && Abstract().Valid()
    {
      if !open {
        return;
      }
      open := false;
      orphan := if write.Some? && write.value.moved.None? then output[outputOffset..outputOffset + write.value.size]
        else [];
      write := None;
      output, outputOffset, outputQueued := [], 0, [];
    }
  }

  class QueueConsumer<T> {
    var open: bool
    var size: nat
    var read: Option<ReadOp<T>>
    ghost var batch: Option<seq<T>>
    ghost var given: nat
    ghost var orphanRead: bool
    /** What the callback has been called with, in order. */
    ghost var delivered: seq<T>

    ghost function Abstract(): Consumer<T>
      reads this
    {
      Consumer(open, size, read, batch, given, orphanRead)
    }

    constructor (size: nat)
      ensures Abstract() == Consumer(true, size, None, None, 0, false) && delivered == []
    {
      open, this.size, read, batch, given, orphanRead, delivered := true, size, None, None, 0, false, [];
    }

    method UpdateRead()
      modifies this`read
      ensures Abstract() == Pop(old(Abstract()))
    {
      if read.Some? {
        return;
      }
      read := Some(Waiting);
    }

    method Close()
      modifies this`open, this`read, this`batch, this`given, this`orphanRead
      ensures Abstract() == CloseConsumer(old(Abstract())) && !open
      ensures old(open) ==>
                && read.None? && batch.None?
                && (orphanRead <==> old(orphanRead) || old(read) == Some(Waiting))
    {
      if !open {
        return;
      }
      open := false;
      orphanRead := orphanRead || (read.Some? && read.value.Waiting?);
      batch, given := None, 0;
      if read.Some? {
        read := None;
      }
    }

    /** The completion of an interrupted read: nothing was read, and the next read is started. */
    method OnReadInterrupted()
      requires open && read == Some(Waiting)
      modifies this`read
      ensures Abstract() == Pop(old(Abstract().(read := None))) && read == Some(Waiting)
    {
      read := None;
      UpdateRead();
    }

    /** One callback, which may ask for the next read. */
    method HandOver(elements: seq<T>, i: nat, pop: bool)
      requires i < |elements|
      modifies this`delivered, this`batch, this`given, this`read
      ensures delivered == old(delivered) + [elements[i]] && batch == Some(elements[i + 1..]) && given == i + 1
      ensures read == if pop && old(read).None? then Some(Waiting) else old(read)
    {
      delivered := delivered + [elements[i]];
      batch, given := Some(elements[i + 1..]), i + 1;
      if pop {
        UpdateRead();
      }
    }

    /**
     The completion of a filled read: every element is handed over in order, up to and including
     the one whose callback closes the consumer (closeAfter, if that many come). Callbacks may ask
     for the next read (pops says which do); at the latest it is started when the batch is done.
     */
    method OnRead(closeAfter: nat, pops: seq<bool>)
      requires open && batch.None? && read.Some? && read.value.Filled?
      modifies this
      ensures var elements := old(read.value.batch);
              && delivered == old(delivered)
                              + (if closeAfter < |elements| then elements[..closeAfter + 1] else elements)
              && batch.None? && size == old(size)
              && (if closeAfter < |elements| then !open && read.None? else open && read == Some(Waiting))
              && orphanRead == (old(orphanRead) || (closeAfter < |elements| && Popped(pops, closeAfter + 1)))
    {
      hide Popped;
      var elements := read.value.batch;
      PoppedNone(pops);
      read := None;
      batch, given := Some(elements), 0;
      var i := 0;
      while i < |elements| && i <= closeAfter
        invariant i <= |elements| && i <= closeAfter + 1
        invariant open && batch == Some(elements[i..]) && given == i && size == old(size)
                  && orphanRead == old(orphanRead)
        invariant read == if Popped(pops, i) then Some(Waiting) else None
        invariant delivered == old(delivered) + elements[..i]
      {
        PoppedNext(pops, i);
        assert elements[..i + 1] == elements[..i] + [elements[i]];
        HandOver(elements, i, i < |pops| && pops[i]);
        i := i + 1;
      }
      assert elements[..|elements|] == elements;
      if i > closeAfter {
        Close();
        return;
      }
      batch := None;
      UpdateRead();
    }
  }

  /** One of the first n callbacks asked for the next read. */
  predicate Popped(pops: seq<bool>, n: nat) {
    exists i :: 0 <= i < n && i < |pops| && pops[i]
  }

  lemma PoppedNone(pops: seq<bool>)
    ensures !Popped(pops, 0)
  {
  }

  lemma PoppedNext(pops: seq<bool>, n: nat)
    ensures Popped(pops, n + 1) <==> Popped(pops, n) || (n < |pops| && pops[n])
  {
  }
}
