/**
 Any number of producers and consumers on one pipe, as a step system: the owners push, pop, take
 completions and close; the kernel moves whole elements in and out of the pipe, also for operations
 whose owner has closed meanwhile. Every element carries its producer and its place in the order of
 that producer's pushes.
 */
module QueueRuns {
  import opened Options
  import opened Queue

  datatype Element = Element(producer: nat, number: nat)

  datatype System = System(
    producers: seq<Producer<Element>>, consumers: seq<Consumer<Element>>, pipe: seq<Element>,
    pushed: seq<nat>, entered: seq<Element>, delivered: seq<Element>, dropped: seq<Element>)

  datatype Step =
    | Push(p: nat)
    | KernelWrite(p: nat, count: nat)
    | WriteDone(p: nat)
    | ProducerClose(p: nat)
    | OrphanWrite(p: nat, count: nat)
    | Pop(c: nat)
    | KernelRead(c: nat, count: nat)
    | ReadDone(c: nat)
    | Deliver(c: nat)
    | BatchEnd(c: nat)
    | ConsumerClose(c: nat)
    | OrphanRead(c: nat, count: nat)

  function Initial(producers: nat, sizes: seq<nat>): System {
    System(seq(producers, _ => Producer(true, [], 0, [], None, [])),
           seq(|sizes|, i requires 0 <= i < |sizes| => Consumer(true, sizes[i], None, None, 0, false)),
           [], seq(producers, _ => 0), [], [], [])
  }

  ghost predicate Shape(s: System) {
    && |s.pushed| == |s.producers|
    && (forall p :: 0 <= p < |s.producers| ==> s.producers[p].Valid())
    && (forall c :: 0 <= c < |s.consumers| ==> s.consumers[c].Valid())
  }

  ghost predicate Enabled(s: System, step: Step) {
    match step
    case Push(p) => p < |s.producers| && s.producers[p].open
    case KernelWrite(p, count) =>
      p < |s.producers| && s.producers[p].write.Some? && s.producers[p].write.value.moved.None?
      && 0 < count <= s.producers[p].write.value.size
    case WriteDone(p) => p < |s.producers| && s.producers[p].write.Some?
    case ProducerClose(p) => p < |s.producers|
    case OrphanWrite(p, count) => p < |s.producers| && count <= |s.producers[p].orphan|
    case Pop(c) => c < |s.consumers| && s.consumers[c].open
    case KernelRead(c, count) =>
      c < |s.consumers| && s.consumers[c].open && s.consumers[c].read == Some(Waiting)
      && 0 < count <= |s.pipe| && count <= s.consumers[c].size
    case ReadDone(c) => c < |s.consumers| && s.consumers[c].read.Some? && s.consumers[c].batch.None?
    case Deliver(c) => c < |s.consumers| && s.consumers[c].batch.Some? && s.consumers[c].batch.value != []
    case BatchEnd(c) => c < |s.consumers| && s.consumers[c].batch == Some([])
    case ConsumerClose(c) => c < |s.consumers|
    case OrphanRead(c, count) => c < |s.consumers| && s.consumers[c].orphanRead && count <= |s.pipe|
  }

  function SetProducer(s: System, p: nat, producer: Producer<Element>): System
    requires p < |s.producers|
  {
    s.(producers := s.producers[p := producer])
  }

  function SetConsumer(s: System, c: nat, consumer: Consumer<Element>): System
    requires c < |s.consumers|
  {
    s.(consumers := s.consumers[c := consumer])
  }

  function Enter(s: System, elements: seq<Element>): System {
    s.(pipe := s.pipe + elements, entered := s.entered + elements)
  }

  function Take(s: System, step: Step): System
    requires Shape(s) && Enabled(s, step)
  {
    match step
    case Push(p) =>
      SetProducer(s, p, Queue.Push(s.producers[p], Element(p, s.pushed[p]))).(pushed := s.pushed[p := s.pushed[p] + 1])
    case KernelWrite(p, count) =>
      var w := s.producers[p];
      Enter(SetProducer(s, p, Move(w, count)), w.output[w.offset..w.offset + count])
    case WriteDone(p) =>
      var moved := s.producers[p].write.value.moved;
      SetProducer(s, p, Wrote(s.producers[p], if moved.Some? then moved.value else 0))
    case ProducerClose(p) =>
      var closed := CloseProducer(s.producers[p]);
      CloseHolds(s.producers[p]);
      SetProducer(s, p, closed).(dropped := s.dropped + s.producers[p].Held()[|closed.Held()|..])
    case OrphanWrite(p, count) =>
      var w := s.producers[p];
      Enter(SetProducer(s, p, w.(orphan := [])), w.orphan[..count]).(dropped := s.dropped + w.orphan[count..])
    case Pop(c) => SetConsumer(s, c, Queue.Pop(s.consumers[c]))
    case KernelRead(c, count) =>
      SetConsumer(s, c, Fill(s.consumers[c], s.pipe[..count])).(pipe := s.pipe[count..])
    case ReadDone(c) =>
      var r := s.consumers[c];
      if r.read.value.Waiting? then SetConsumer(s, c, Queue.Pop(r.(read := None)))
      else SetConsumer(s, c, r.(read := None, batch := Some(r.read.value.batch), given := 0))
    case Deliver(c) =>
      var r := s.consumers[c];
      SetConsumer(s, c, r.(batch := Some(r.batch.value[1..]), given := r.given + 1))
        .(delivered := s.delivered + [r.batch.value[0]])
    case BatchEnd(c) => SetConsumer(s, c, Queue.Pop(s.consumers[c].(batch := None)))
    case ConsumerClose(c) =>
      SetConsumer(s, c, CloseConsumer(s.consumers[c])).(dropped := s.dropped + s.consumers[c].Held())
    case OrphanRead(c, count) =>
      SetConsumer(s, c, s.consumers[c].(orphanRead := false))
        .(pipe := s.pipe[count..], dropped := s.dropped + s.pipe[..count])
  }

  // ---------------------------------------------------------------- where the elements are

  function Count(es: seq<Element>, e: Element): nat {
    if es == [] then 0 else Count(es[..|es| - 1], e) + (if es[|es| - 1] == e then 1 else 0)
  }

  lemma {:induction false} CountConcat(a: seq<Element>, b: seq<Element>, e: Element)
    ensures Count(a + b, e) == Count(a, e) + Count(b, e)
    decreases |b|
  {
    if b == [] {
      assert a + b == a;
    } else {
      var n := |b| - 1;
      assert (a + b)[..|a + b| - 1] == a + b[..n];
      CountConcat(a, b[..n], e);
    }
  }

  function ProducersHold(ps: seq<Producer<Element>>, n: nat, e: Element): nat
    requires n <= |ps|
  {
    if n == 0 then 0 else ProducersHold(ps, n - 1, e) + Count(ps[n - 1].Held(), e)
  }

  function ConsumersHold(cs: seq<Consumer<Element>>, n: nat, e: Element): nat
    requires n <= |cs|
  {
    if n == 0 then 0 else ConsumersHold(cs, n - 1, e) + Count(cs[n - 1].Held(), e)
  }

  lemma {:induction false} ProducersUpdate(ps: seq<Producer<Element>>, n: nat, p: nat, q: Producer<Element>, e: Element)
    requires p < |ps| && n <= |ps|
    ensures ProducersHold(ps[p := q], n, e) ==
            ProducersHold(ps, n, e) + (if p < n then Count(q.Held(), e) - Count(ps[p].Held(), e) else 0)
  {
    hide Count, Queue.Producer.Held, Queue.Consumer.Held;
    if n > 0 {
      ProducersUpdate(ps, n - 1, p, q, e);
    }
  }

  lemma {:induction false} ConsumersUpdate(cs: seq<Consumer<Element>>, n: nat, c: nat, q: Consumer<Element>, e: Element)
    requires c < |cs| && n <= |cs|
    ensures ConsumersHold(cs[c := q], n, e) ==
            ConsumersHold(cs, n, e) + (if c < n then Count(q.Held(), e) - Count(cs[c].Held(), e) else 0)
  {
    hide Count, Queue.Producer.Held, Queue.Consumer.Held;
    if n > 0 {
      ConsumersUpdate(cs, n - 1, c, q, e);
    }
  }

  /** In how many places the element is: with producers, in the pipe, with consumers, delivered or dropped. */
  function Places(s: System, e: Element): nat {
    ProducersHold(s.producers, |s.producers|, e) + Count(s.pipe, e) + ConsumersHold(s.consumers, |s.consumers|, e)
    + Count(s.delivered, e) + Count(s.dropped, e)
  }

  /** Each element pushed so far is in exactly one place, and no other element is anywhere. */
  ghost predicate AllOnce(s: System) {
    forall e: Element :: Places(s, e) == if e.producer < |s.pushed| && e.number < s.pushed[e.producer] then 1 else 0
  }

  // ---------------------------------------------------------------- order

  /** The elements of one producer among others, in their order. */
  function Only(es: seq<Element>, p: nat): seq<Element> {
    if es == [] then [] else Only(es[..|es| - 1], p) + (if es[|es| - 1].producer == p then [es[|es| - 1]] else [])
  }

  function Numbers(p: nat, from: nat, n: nat): (es: seq<Element>)
    ensures |es| == n
  {
    seq(n, i requires 0 <= i < n => Element(p, from + i))
  }

  lemma {:induction false} OnlyConcat(a: seq<Element>, b: seq<Element>, p: nat)
    ensures Only(a + b, p) == Only(a, p) + Only(b, p)
    decreases |b|
  {
    if b == [] {
      assert a + b == a;
    } else {
      var n := |b| - 1;
      assert (a + b)[..|a + b| - 1] == a + b[..n];
      OnlyConcat(a, b[..n], p);
    }
  }

  lemma {:induction false} OnlyNumbers(q: nat, from: nat, n: nat, p: nat)
    ensures Only(Numbers(q, from, n), p) == if p == q then Numbers(q, from, n) else []
  {
    if n > 0 {
      assert Numbers(q, from, n)[..n - 1] == Numbers(q, from, n - 1);
      OnlyNumbers(q, from, n - 1, p);
    }
  }

  /**
   Producer p's elements in the pipe's history are its first pushes in push order, and what the
   producer still holds are the pushes that come next, all of them while it is open.
   */
  ghost predicate OrderOk(s: System, p: nat)
    requires Shape(s) && p < |s.producers|
  {
    var m, held := |Only(s.entered, p)|, s.producers[p].Held();
    && Only(s.entered, p) == Numbers(p, 0, m)
    && held == Numbers(p, m, |held|)
    && m + |held| <= s.pushed[p]
    && (s.producers[p].open ==> m + |held| == s.pushed[p])
  }

  ghost predicate Inv(s: System) {
    && Shape(s)
    && (forall p :: 0 <= p < |s.producers| ==> OrderOk(s, p))
    && AllOnce(s)
  }

  lemma {:induction false} NothingHeld(ps: seq<Producer<Element>>, cs: seq<Consumer<Element>>, n: nat, m: nat,
      e: Element)
    requires n <= |ps| && m <= |cs|
    requires forall p :: 0 <= p < |ps| ==> ps[p].Held() == []
    requires forall c :: 0 <= c < |cs| ==> cs[c].Held() == []
    ensures ProducersHold(ps, n, e) == 0 && ConsumersHold(cs, m, e) == 0
    decreases n + m
  {
    if n > 0 {
      NothingHeld(ps, cs, n - 1, m, e);
    } else if m > 0 {
      NothingHeld(ps, cs, n, m - 1, e);
    }
  }

  lemma InitialInv(producers: nat, sizes: seq<nat>)
    ensures Inv(Initial(producers, sizes))
  {
    var s := Initial(producers, sizes);
    forall e: Element
      ensures Places(s, e) == 0
    {
      NothingHeld(s.producers, s.consumers, |s.producers|, |s.consumers|, e);
    }
    forall p | 0 <= p < producers
      ensures OrderOk(s, p)
    {
      assert s.producers[p].Held() == [] == Numbers(p, 0, 0);
    }
  }

  // ---------------------------------------------------------------- each step

  function AfterProducer(s: System, p: nat, q: Producer<Element>, enter: seq<Element>, drop: seq<Element>): System
    requires p < |s.producers|
  {
    Enter(SetProducer(s, p, q), enter).(dropped := s.dropped + drop)
  }

  /** A step of producer p: some elements enter the pipe, some are dropped, the rest stays held. */
  lemma ProducerStep(s: System, p: nat, q: Producer<Element>, enter: seq<Element>, drop: seq<Element>)
    requires Inv(s) && p < |s.producers| && q.Valid() && (q.open ==> s.producers[p].open && drop == [])
    requires s.producers[p].Held() == enter + q.Held() + drop
    ensures Inv(AfterProducer(s, p, q, enter, drop))
  {
    hide Places, OrderOk, Queue.Producer.Held, Queue.Producer.Valid, Queue.Consumer.Valid;
    var s1 := AfterProducer(s, p, q, enter, drop);
    forall e: Element
      ensures Places(s1, e) == Places(s, e)
    {
      ProducerPlaces(s, p, q, enter, drop, e);
    }
    forall r | 0 <= r < |s1.producers|
      ensures OrderOk(s1, r)
    {
      assert OrderOk(s, r) && OrderOk(s, p);
      EnterOrder(s, p, q, enter, drop, r);
    }
  }

  lemma ProducerPlaces(s: System, p: nat, q: Producer<Element>, enter: seq<Element>, drop: seq<Element>, e: Element)
    requires p < |s.producers| && s.producers[p].Held() == enter + q.Held() + drop
    ensures Places(AfterProducer(s, p, q, enter, drop), e) == Places(s, e)
  {
    hide Count, Queue.Producer.Held, Queue.Consumer.Held;
    ProducersUpdate(s.producers, |s.producers|, p, q, e);
    CountConcat(enter + q.Held(), drop, e);
    CountConcat(enter, q.Held(), e);
    CountConcat(s.pipe, enter, e);
    CountConcat(s.dropped, drop, e);
  }

  lemma EnterOrder(s: System, p: nat, q: Producer<Element>, enter: seq<Element>, drop: seq<Element>, r: nat)
    requires Shape(s) && p < |s.producers| && r < |s.producers| && q.Valid()
             && (q.open ==> s.producers[p].open && drop == [])
    requires OrderOk(s, p) && OrderOk(s, r) && s.producers[p].Held() == enter + q.Held() + drop
    requires Shape(AfterProducer(s, p, q, enter, drop))
    ensures OrderOk(AfterProducer(s, p, q, enter, drop), r)
  {
    hide Queue.Producer.Held, Queue.Producer.Valid, Queue.Consumer.Valid, Only, Numbers;
    var m := |Only(s.entered, p)|;
    EntersNext(p, m, s.producers[p].Held(), enter, q.Held(), drop);
    OnlyConcat(s.entered, enter, r);
    OnlyNumbers(p, m, |enter|, r);
    if r == p {
      NumbersConcat(p, 0, m, |enter|);
    } else {
      assert Only(s.entered, r) + [] == Only(s.entered, r);
    }
  }

  lemma NumbersConcat(p: nat, from: nat, a: nat, b: nat)
    ensures Numbers(p, from, a) + Numbers(p, from + a, b) == Numbers(p, from, a + b)
  {
  }

  lemma EntersNext(p: nat, m: nat, held: seq<Element>, enter: seq<Element>, rest: seq<Element>, drop: seq<Element>)
    requires held == Numbers(p, m, |held|) && held == enter + rest + drop
    ensures enter == Numbers(p, m, |enter|) && rest == Numbers(p, m + |enter|, |rest|)
  {
    assert forall i :: 0 <= i < |enter| ==> enter[i] == held[i];
    assert forall i :: 0 <= i < |rest| ==> rest[i] == held[|enter| + i];
  }

  function AfterConsumer(s: System, c: nat, q: Consumer<Element>, count: nat, deliver: seq<Element>,
      drop: seq<Element>): System
    requires c < |s.consumers| && count <= |s.pipe|
  {
    SetConsumer(s, c, q).(pipe := s.pipe[count..], delivered := s.delivered + deliver, dropped := s.dropped + drop)
  }

  /** A step of consumer c: what leaves the pipe or its batch is held, delivered or dropped afterwards. */
  lemma ConsumerStep(s: System, c: nat, q: Consumer<Element>, count: nat, deliver: seq<Element>, drop: seq<Element>)
    requires Inv(s) && c < |s.consumers| && q.Valid() && count <= |s.pipe|
    requires forall e: Element ::
               Count(s.consumers[c].Held(), e) + Count(s.pipe[..count], e)
                 == Count(q.Held(), e) + Count(deliver, e) + Count(drop, e)
    ensures Inv(AfterConsumer(s, c, q, count, deliver, drop))
  {
    hide Places, OrderOk, Count, Queue.Producer.Valid, Queue.Consumer.Valid;
    var s1 := AfterConsumer(s, c, q, count, deliver, drop);
    forall e: Element
      ensures Places(s1, e) == Places(s, e)
    {
      ConsumerPlaces(s, c, q, count, deliver, drop, e);
    }
    forall p | 0 <= p < |s1.producers|
      ensures OrderOk(s1, p)
    {
      assert OrderOk(s, p);
      SameOrder(s, s1, p);
    }
  }

  lemma SameOrder(s: System, s1: System, p: nat)
    requires Shape(s) && Shape(s1) && p < |s.producers| && OrderOk(s, p)
    requires s1.producers == s.producers && s1.entered == s.entered && s1.pushed == s.pushed
    ensures OrderOk(s1, p)
  {
  }

  lemma ConsumerPlaces(s: System, c: nat, q: Consumer<Element>, count: nat, deliver: seq<Element>,
      drop: seq<Element>, e: Element)
    requires c < |s.consumers| && count <= |s.pipe|
    requires Count(s.consumers[c].Held(), e) + Count(s.pipe[..count], e)
             == Count(q.Held(), e) + Count(deliver, e) + Count(drop, e)
    ensures Places(AfterConsumer(s, c, q, count, deliver, drop), e) == Places(s, e)
  {
    hide Count, Queue.Producer.Held, Queue.Consumer.Held;
    ConsumersUpdate(s.consumers, |s.consumers|, c, q, e);
    assert s.pipe == s.pipe[..count] + s.pipe[count..];
    CountConcat(s.pipe[..count], s.pipe[count..], e);
    CountConcat(s.delivered, deliver, e);
    CountConcat(s.dropped, drop, e);
  }

  lemma PushInv(s: System, p: nat)
    requires Inv(s) && Enabled(s, Push(p))
    ensures Inv(Take(s, Push(p)))
  {
    hide Places, OrderOk, Queue.Producer.Held, Queue.Producer.Valid, Queue.Consumer.Valid, Queue.Push;
    var e := Element(p, s.pushed[p]);
    PushHolds(s.producers[p], e);
    var s1 := Take(s, Push(p));
    forall x: Element
      ensures Places(s1, x) == Places(s, x) + (if x == e then 1 else 0)
    {
      PushPlaces(s, p, x);
    }
    forall r | 0 <= r < |s1.producers|
      ensures OrderOk(s1, r)
    {
      assert OrderOk(s, r);
      PushOrder(s, p, r);
    }
  }

  lemma PushPlaces(s: System, p: nat, x: Element)
    requires Shape(s) && Enabled(s, Push(p))
    ensures Places(Take(s, Push(p)), x) == Places(s, x) + (if x == Element(p, s.pushed[p]) then 1 else 0)
  {
    hide Queue.Producer.Held, Queue.Consumer.Held, Queue.Push;
    var e := Element(p, s.pushed[p]);
    PushHolds(s.producers[p], e);
    ProducersUpdate(s.producers, |s.producers|, p, Queue.Push(s.producers[p], e), x);
    CountConcat(s.producers[p].Held(), [e], x);
    assert Count([e], x) == Count([], x) + (if x == e then 1 else 0);
  }

  lemma PushOrder(s: System, p: nat, r: nat)
    requires Shape(s) && Enabled(s, Push(p)) && r < |s.producers| && OrderOk(s, r) && Shape(Take(s, Push(p)))
    ensures OrderOk(Take(s, Push(p)), r)
  {
    hide Queue.Producer.Held, Queue.Producer.Valid, Queue.Consumer.Valid, Queue.Push, Only;
    var e := Element(p, s.pushed[p]);
    PushHolds(s.producers[p], e);
    if r == p {
      NumbersConcat(p, |Only(s.entered, p)|, |s.producers[p].Held()|, 1);
      assert Numbers(p, s.pushed[p], 1) == [e];
    }
  }

  lemma WriteDoneInv(s: System, p: nat)
    requires Inv(s) && Enabled(s, WriteDone(p))
    ensures Inv(Take(s, WriteDone(p)))
  {
    hide Inv, Queue.Producer.Held, Wrote;
    ProducerOk(s, p);
    WroteHolds(s.producers[p]);
    var q := Take(s, WriteDone(p)).producers[p];
    assert [] + q.Held() + [] == q.Held();
    ProducerStep(s, p, q, [], []);
    NothingMoves(s, p, q, []);
  }

  lemma ProducerCloseInv(s: System, p: nat)
    requires Inv(s) && Enabled(s, ProducerClose(p))
    ensures Inv(Take(s, ProducerClose(p)))
  {
    hide Inv, Queue.Producer.Held, CloseProducer;
    ProducerOk(s, p);
    var w := s.producers[p];
    CloseHolds(w);
    var q := CloseProducer(w);
    var drop := w.Held()[|q.Held()|..];
    assert [] + q.Held() + drop == w.Held();
    ProducerStep(s, p, q, [], drop);
    NothingMoves(s, p, q, drop);
  }

  lemma NothingMoves(s: System, p: nat, q: Producer<Element>, drop: seq<Element>)
    requires p < |s.producers|
    ensures AfterProducer(s, p, q, [], drop) == SetProducer(s, p, q).(dropped := s.dropped + drop)
    ensures drop == [] ==> AfterProducer(s, p, q, [], drop) == SetProducer(s, p, q)
  {
    assert s.pipe + [] == s.pipe && s.entered + [] == s.entered && s.dropped + [] == s.dropped;
  }

  lemma KernelWriteInv(s: System, p: nat, count: nat)
    requires Inv(s) && Enabled(s, KernelWrite(p, count))
    ensures Inv(Take(s, KernelWrite(p, count)))
  {
    hide Inv, Queue.Producer.Held;
    ProducerOk(s, p);
    var w := s.producers[p];
    MoveHolds(w, count);
    var q, enter := Move(w, count), w.output[w.offset..w.offset + count];
    assert enter + q.Held() + [] == enter + q.Held();
    ProducerStep(s, p, q, enter, []);
    assert s.dropped + [] == s.dropped;
  }

  lemma OrphanWriteInv(s: System, p: nat, count: nat)
    requires Inv(s) && Enabled(s, OrphanWrite(p, count))
    ensures Inv(Take(s, OrphanWrite(p, count)))
  {
    hide Inv, Queue.Producer.Held;
    ProducerOk(s, p);
    var w := s.producers[p];
    OrphanHolds(w);
    var q, enter, drop := w.(orphan := []), w.orphan[..count], w.orphan[count..];
    assert w.orphan == enter + drop;
    if w.orphan != [] {
      OrphanRest(w);
    }
    assert enter + q.Held() + drop == w.Held();
    ProducerStep(s, p, q, enter, drop);
  }

  lemma ProducerOk(s: System, p: nat)
    requires Inv(s) && p < |s.producers|
    ensures Shape(s) && s.producers[p].Valid()
  {
  }

  /** An orphaned write is all that is left of a closed producer. */
  lemma OrphanRest(w: Producer<Element>)
    requires w.Valid() && w.orphan != []
    ensures w.(orphan := []).Held() == []
  {
  }

  /** A step that moves nothing out of the pipe: what consumer c held is held, delivered or dropped. */
  lemma ConsumerInv(s: System, c: nat, step: Step)
    requires Inv(s) && Enabled(s, step)
    requires || step == Pop(c) || step == ReadDone(c) || step == Deliver(c)
             || step == BatchEnd(c) || step == ConsumerClose(c)
    ensures Inv(Take(s, step))
  {
    hide Inv, Count;
    ConsumerOk(s, c);
    var r := s.consumers[c];
    var q := Take(s, step).consumers[c];
    var deliver := if step.Deliver? then [r.batch.value[0]] else [];
    var drop := if step.ConsumerClose? then r.Held() else [];
    assert r.Held() == deliver + q.Held() + drop;
    forall e: Element
      ensures Count(r.Held(), e) + Count(s.pipe[..0], e) == Count(q.Held(), e) + Count(deliver, e) + Count(drop, e)
    {
      CountConcat(deliver + q.Held(), drop, e);
      CountConcat(deliver, q.Held(), e);
      CountNothing(s.pipe[..0], e);
    }
    ConsumerStep(s, c, q, 0, deliver, drop);
    assert s.pipe[0..] == s.pipe && s.delivered + [] == s.delivered && s.dropped + [] == s.dropped;
    assert Take(s, step) == AfterConsumer(s, c, q, 0, deliver, drop);
  }

  lemma CountNothing(es: seq<Element>, e: Element)
    requires es == []
    ensures Count(es, e) == 0
  {
  }

  lemma KernelReadInv(s: System, c: nat, count: nat)
    requires Inv(s) && Enabled(s, KernelRead(c, count)) && !Overwrites(s.consumers[c], count)
    ensures Inv(Take(s, KernelRead(c, count)))
  {
    hide Inv, Count, Queue.Consumer.Held, Queue.Consumer.Valid, Fill;
    ConsumerOk(s, c);
    var r := s.consumers[c];
    FillHolds(r, s.pipe[..count]);
    var q := Fill(r, s.pipe[..count]);
    forall e: Element
      ensures Count(r.Held(), e) + Count(s.pipe[..count], e) == Count(q.Held(), e) + Count([], e) + Count([], e)
    {
      CountNothing([], e);
      CountConcat(r.Held(), s.pipe[..count], e);
    }
    ConsumerStep(s, c, q, count, [], []);
    assert s.delivered + [] == s.delivered && s.dropped + [] == s.dropped;
  }

  /** A read is filled while the same consumer still hands over a batch. */
  predicate Disturbs(s: System, step: Step) {
    step.KernelRead? && step.c < |s.consumers| && Overwrites(s.consumers[step.c], step.count)
  }

  lemma {:induction false} ConsumerCounted(cs: seq<Consumer<Element>>, n: nat, c: nat, e: Element)
    requires c < n <= |cs|
    ensures ConsumersHold(cs, n, e) >= Count(cs[c].Held(), e)
  {
    if c < n - 1 {
      ConsumerCounted(cs, n - 1, c, e);
    }
  }

  /** Such a read puts one of its elements in two places, and overwrites another. */
  lemma DisturbingReadBreaks(s: System, step: Step)
    requires Inv(s) && Enabled(s, step) && Disturbs(s, step)
    ensures !AllOnce(Take(s, step))
  {
    hide Inv, Count, ConsumersHold, ProducersHold;
    var c, count := step.c, step.count;
    ConsumerOk(s, c);
    var r, t := s.consumers[c], Take(s, step);
    var held := t.consumers[c].Held();
    var e := s.pipe[r.given];
    var j := |r.batch.value| + r.given;
    assert t.consumers[c].batch.value[0] == e && held[0] == e && held[j] == s.pipe[..count][r.given] == e;
    TwiceCounts(held, 0, j);
    ConsumerCounted(t.consumers, |t.consumers|, c, e);
    assert Places(t, e) >= 2;
  }

  lemma OrphanReadInv(s: System, c: nat, count: nat)
    requires Inv(s) && Enabled(s, OrphanRead(c, count))
    ensures Inv(Take(s, OrphanRead(c, count)))
  {
    hide Inv, Count;
    ConsumerOk(s, c);
    var q := s.consumers[c].(orphanRead := false);
    assert q.Held() == s.consumers[c].Held();
    forall e: Element
      ensures Count([], e) == 0
    {
      CountNothing([], e);
    }
    ConsumerStep(s, c, q, count, [], s.pipe[..count]);
    assert s.delivered + [] == s.delivered;
  }

  lemma ConsumerOk(s: System, c: nat)
    requires Inv(s) && c < |s.consumers|
    ensures Shape(s) && s.consumers[c].Valid()
  {
  }

  /** Every other step keeps the invariant. */
  lemma TakeInv(s: System, step: Step)
    requires Inv(s) && Enabled(s, step) && !Disturbs(s, step)
    ensures Inv(Take(s, step))
  {
    match step
    case Push(p) => PushInv(s, p);
    case KernelWrite(p, count) => KernelWriteInv(s, p, count);
    case WriteDone(p) => WriteDoneInv(s, p);
    case ProducerClose(p) => ProducerCloseInv(s, p);
    case OrphanWrite(p, count) => OrphanWriteInv(s, p, count);
    case Pop(c) => ConsumerInv(s, c, step);
    case KernelRead(c, count) => KernelReadInv(s, c, count);
    case ReadDone(c) => ConsumerInv(s, c, step);
    case Deliver(c) => ConsumerInv(s, c, step);
    case BatchEnd(c) => ConsumerInv(s, c, step);
    case ConsumerClose(c) => ConsumerInv(s, c, step);
    case OrphanRead(c, count) => OrphanReadInv(s, c, count);
  }

  /** Each element stays in exactly one place exactly if no read is filled into a batch. */
  lemma StepKeepsAllOnceIff(s: System, step: Step)
    requires Inv(s) && Enabled(s, step)
    ensures AllOnce(Take(s, step)) <==> !Disturbs(s, step)
  {
    hide AllOnce, Enabled, Take, Disturbs, OrderOk, Shape;
    if Disturbs(s, step) {
      DisturbingReadBreaks(s, step);
    } else {
      TakeInv(s, step);
    }
  }

  // ---------------------------------------------------------------- whole runs

  ghost predicate IsRun(states: seq<System>, steps: seq<Step>, producers: nat, sizes: seq<nat>) {
    && |states| == |steps| + 1 && states[0] == Initial(producers, sizes)
    && forall i :: 0 <= i < |steps| ==>
         Shape(states[i]) && Enabled(states[i], steps[i]) && states[i + 1] == Take(states[i], steps[i])
  }

  /** No read is filled into the batch of a consumer that is handing it over. */
  ghost predicate Undisturbed(states: seq<System>, steps: seq<Step>)
    requires |steps| <= |states|
  {
    forall i :: 0 <= i < |steps| ==> !Disturbs(states[i], steps[i])
  }

  lemma {:induction false} RunInv(states: seq<System>, steps: seq<Step>, producers: nat, sizes: seq<nat>)
    requires IsRun(states, steps, producers, sizes) && Undisturbed(states, steps)
    ensures Inv(states[|steps|])
    decreases |steps|
  {
    if steps == [] {
      InitialInv(producers, sizes);
    } else {
      var n := |steps| - 1;
      RunInv(states[..n + 1], steps[..n], producers, sizes);
      TakeInv(states[n], steps[n]);
    }
  }

  /** The first read of a run that was filled into a batch. */
  lemma {:induction false} FirstDisturbance(
      states: seq<System>, steps: seq<Step>, producers: nat, sizes: seq<nat>) returns (i: nat)
    requires IsRun(states, steps, producers, sizes) && !Undisturbed(states, steps)
    ensures i < |steps| && Disturbs(states[i], steps[i]) && Undisturbed(states[..i + 1], steps[..i])
    decreases |steps|
  {
    hide Shape, Enabled, Take, Disturbs;
    i := |steps| - 1;
    if !Undisturbed(states[..i + 1], steps[..i]) {
      i := FirstDisturbance(states[..i + 1], steps[..i], producers, sizes);
    }
  }

  /**
   Over whole runs: each pushed element is in exactly one place at every moment exactly if no read
   was filled into a batch.
   */
  lemma AllOnceIffUndisturbed(states: seq<System>, steps: seq<Step>, producers: nat, sizes: seq<nat>)
    requires IsRun(states, steps, producers, sizes)
    ensures (forall i :: 0 <= i < |states| ==> AllOnce(states[i])) <==> Undisturbed(states, steps)
  {
    hide Shape, Enabled, Take, Disturbs, AllOnce, OrderOk;
    if Undisturbed(states, steps) {
      forall i | 0 <= i < |states|
        ensures AllOnce(states[i])
      {
        RunInv(states[..i + 1], steps[..i], producers, sizes);
      }
    } else {
      var i := FirstDisturbance(states, steps, producers, sizes);
      RunInv(states[..i + 1], steps[..i], producers, sizes);
      DisturbingReadBreaks(states[i], steps[i]);
      assert !AllOnce(states[i + 1]);
    }
  }

  /**
   At every moment of every run each pushed element is in exactly one place, so none is delivered
   twice and nothing else is ever delivered; and each producer's elements have entered the pipe in
   the order of their pushes, without a gap.
   */
  lemma EveryElementOnce(states: seq<System>, steps: seq<Step>, producers: nat, sizes: seq<nat>)
    requires IsRun(states, steps, producers, sizes) && Undisturbed(states, steps)
    ensures var s := states[|steps|];
            && AllOnce(s)
            && (forall i, j :: 0 <= i < j < |s.delivered| ==> s.delivered[i] != s.delivered[j])
            && (forall i :: 0 <= i < |s.delivered| ==>
                  s.delivered[i].producer < |s.pushed| && s.delivered[i].number < s.pushed[s.delivered[i].producer])
            && (forall p :: 0 <= p < |s.producers| ==> Only(s.entered, p) == Numbers(p, 0, |Only(s.entered, p)|))
  {
    hide Only, Count;
    RunInv(states, steps, producers, sizes);
    var s := states[|steps|];
    forall i, j | 0 <= i < j < |s.delivered|
      ensures s.delivered[i] != s.delivered[j]
    {
      TwiceCounts(s.delivered, i, j);
      assert Places(s, s.delivered[i]) <= 1;
    }
    forall i | 0 <= i < |s.delivered|
      ensures s.delivered[i].producer < |s.pushed| && s.delivered[i].number < s.pushed[s.delivered[i].producer]
    {
      OnceCounts(s.delivered, i);
      assert Places(s, s.delivered[i]) >= 1;
    }
    forall p | 0 <= p < |s.producers|
      ensures Only(s.entered, p) == Numbers(p, 0, |Only(s.entered, p)|)
    {
      assert OrderOk(s, p);
    }
  }

  lemma {:induction false} OnceCounts(es: seq<Element>, i: nat)
    requires i < |es|
    ensures Count(es, es[i]) >= 1
    decreases |es|
  {
    var n := |es| - 1;
    if i < n {
      OnceCounts(es[..n], i);
    }
  }

  lemma {:induction false} TwiceCounts(es: seq<Element>, i: nat, j: nat)
    requires i < j < |es|
    ensures es[i] == es[j] ==> Count(es, es[i]) >= 2
    decreases |es|
  {
    var n := |es| - 1;
    if j < n {
      TwiceCounts(es[..n], i, j);
    } else {
      OnceCounts(es[..n], i);
    }
  }

  /** While no owner closes, nothing is dropped: what was pushed is on its way or delivered. */
  lemma {:induction false} NoCloseNoLoss(states: seq<System>, steps: seq<Step>, producers: nat, sizes: seq<nat>)
    requires IsRun(states, steps, producers, sizes) && Undisturbed(states, steps)
    requires forall i :: 0 <= i < |steps| ==> !steps[i].ProducerClose? && !steps[i].ConsumerClose?
    ensures AllOpen(states[|steps|])
    decreases |steps|
  {
    hide Shape, Enabled;
    if steps == [] {
    } else {
      var n := |steps| - 1;
      NoCloseNoLoss(states[..n + 1], steps[..n], producers, sizes);
      RunInv(states[..n + 1], steps[..n], producers, sizes);
      assert !steps[n].ProducerClose? && !steps[n].ConsumerClose?;
      StaysOpen(states[n], steps[n]);
    }
  }

  /** Between batches only: what the callbacks' author has to see to. */
  ghost predicate NoPopInBatch(states: seq<System>, steps: seq<Step>)
    requires |steps| <= |states|
  {
    forall i :: 0 <= i < |steps| && steps[i].Pop? && steps[i].c < |states[i].consumers| ==>
      states[i].consumers[steps[i].c].batch.None?
  }

  ghost predicate Quiet(s: System) {
    forall c :: 0 <= c < |s.consumers| && s.consumers[c].batch.Some? ==> s.consumers[c].read.None?
  }

  lemma StaysQuiet(s: System, step: Step)
    requires Shape(s) && Enabled(s, step) && Quiet(s)
    requires step.Pop? ==> s.consumers[step.c].batch.None?
    ensures Quiet(Take(s, step)) && !Disturbs(s, step)
  {
  }

  /** While no callback pops, no read is filled into a batch. */
  lemma {:induction false} NoPopNoDisturbance(states: seq<System>, steps: seq<Step>, producers: nat, sizes: seq<nat>)
    requires IsRun(states, steps, producers, sizes) && NoPopInBatch(states, steps)
    ensures Undisturbed(states, steps) && Quiet(states[|steps|])
    decreases |steps|
  {
    hide Shape, Enabled, Take, Disturbs;
    if steps != [] {
      var n := |steps| - 1;
      NoPopNoDisturbance(states[..n + 1], steps[..n], producers, sizes);
      assert forall i :: 0 <= i < n ==> states[..n + 1][i] == states[i] && steps[..n][i] == steps[i];
      PopEnabled(states[n], steps[n]);
      StaysQuiet(states[n], steps[n]);
    }
  }

  lemma PopEnabled(s: System, step: Step)
    requires Enabled(s, step)
    ensures step.Pop? ==> step.c < |s.consumers|
  {
  }

  ghost predicate AllOpen(s: System) {
    && s.dropped == []
    && (forall c :: 0 <= c < |s.consumers| ==> s.consumers[c].open && !s.consumers[c].orphanRead)
    && (forall p :: 0 <= p < |s.producers| ==> s.producers[p].open && s.producers[p].orphan == [])
  }

  lemma StaysOpen(s: System, step: Step)
    requires Inv(s) && AllOpen(s) && Enabled(s, step) && !step.ProducerClose? && !step.ConsumerClose?
    ensures AllOpen(Take(s, step))
  {
    hide AllOnce, OrderOk, Queue.Producer.Held, Queue.Consumer.Held, Queue.Producer.Valid, Queue.Consumer.Valid;
    if step.Push? || step.WriteDone? || step.KernelWrite? {
      ProducerStaysOpen(s, step);
    } else if step.OrphanWrite? {
      assert s.producers[step.p].orphan[step.count..] == [];
      assert s.dropped + [] == s.dropped;
    } else {
      ConsumerStaysOpen(s, step);
    }
  }

  lemma ProducerStaysOpen(s: System, step: Step)
    requires Shape(s) && AllOpen(s) && Enabled(s, step) && (step.Push? || step.WriteDone? || step.KernelWrite?)
    ensures AllOpen(Take(s, step))
  {
    hide Queue.Producer.Held, Queue.Consumer.Held, Queue.Producer.Valid, Queue.Consumer.Valid;
  }

  lemma ConsumerStaysOpen(s: System, step: Step)
    requires Shape(s) && AllOpen(s) && Enabled(s, step)
    requires step.Pop? || step.KernelRead? || step.ReadDone? || step.Deliver? || step.BatchEnd? || step.OrphanRead?
    ensures AllOpen(Take(s, step))
  {
    hide Queue.Producer.Held, Queue.Consumer.Held, Queue.Producer.Valid, Queue.Consumer.Valid;
  }
}
