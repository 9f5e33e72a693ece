/**
 The order in which consumers get the elements: each one's deliveries keep the order of the pipe,
 and a single consumer that is never closed gets everything in that order.
 */
module QueueOrder {
  import opened Options
  import opened Queue
  import opened QueueRuns

  /** What has left the pipe, in the order in which it entered. */
  function Taken(s: System): seq<Element>
    requires |s.pipe| <= |s.entered|
  {
    s.entered[..|s.entered| - |s.pipe|]
  }

  /** The pipe holds the last elements that entered. */
  predicate PipeIsRest(s: System) {
    |s.pipe| <= |s.entered| && s.entered == Taken(s) + s.pipe
  }

  /** a is what is left of b when some elements are left out. */
  ghost predicate Subsequence(a: seq<Element>, b: seq<Element>)
    decreases |b|
  {
    || a == []
    || (b != [] &&
        var init := b[..|b| - 1];
        Subsequence(a, init) || (a[|a| - 1] == b[|b| - 1] && Subsequence(a[..|a| - 1], init)))
  }

  lemma {:induction false} SubsequenceGrows(a: seq<Element>, b: seq<Element>, x: seq<Element>)
    requires Subsequence(a, b)
    ensures Subsequence(a, b + x)
    decreases |x|
  {
    if x == [] {
      assert b + x == b;
    } else {
      var n := |x| - 1;
      SubsequenceGrows(a, b, x[..n]);
      assert (b + x)[..|b + x| - 1] == b + x[..n];
    }
  }

  lemma {:induction false} SubsequenceAppends(a: seq<Element>, b: seq<Element>, x: seq<Element>)
    requires Subsequence(a, b)
    ensures Subsequence(a + x, b + x)
    decreases |x|
  {
    if x == [] {
      assert a + x == a && b + x == b;
    } else {
      var n := |x| - 1;
      SubsequenceAppends(a, b, x[..n]);
      assert (a + x)[..|a + x| - 1] == a + x[..n] && (b + x)[..|b + x| - 1] == b + x[..n];
    }
  }

  lemma {:induction false} SubsequenceShrinks(a: seq<Element>, x: seq<Element>, b: seq<Element>)
    requires Subsequence(a + x, b)
    ensures Subsequence(a, b)
    decreases |b|
  {
    if x == [] {
      assert a + x == a;
    } else if a != [] {
      var n, init := |x| - 1, b[..|b| - 1];
      if Subsequence(a + x, init) {
        SubsequenceShrinks(a, x, init);
      } else {
        assert (a + x)[..|a + x| - 1] == a + x[..n];
        SubsequenceShrinks(a, x[..n], init);
      }
      SubsequenceGrows(a, init, [b[|b| - 1]]);
      assert init + [b[|b| - 1]] == b;
    }
  }

  // ---------------------------------------------------------------- one step

  /** What a step takes out of the pipe. */
  function Leaving(s: System, step: Step): seq<Element> {
    if (step.KernelRead? || step.OrphanRead?) && step.count <= |s.pipe| then s.pipe[..step.count] else []
  }

  lemma PipeStep(s: System, step: Step)
    requires Shape(s) && Enabled(s, step) && PipeIsRest(s)
    ensures PipeIsRest(Take(s, step)) && Taken(Take(s, step)) == Taken(s) + Leaving(s, step)
  {
    hide Shape, Enabled, Take;
    if step.KernelRead? || step.OrphanRead? {
      PipeShrinks(s, step);
      RestAfterLeaving(s, Take(s, step), step.count);
    } else {
      var x := PipeGrows(s, step);
      RestAfterEntering(s, Take(s, step), x);
    }
  }

  lemma RestAfterLeaving(s: System, t: System, n: nat)
    requires PipeIsRest(s) && n <= |s.pipe| && t.entered == s.entered && t.pipe == s.pipe[n..]
    ensures PipeIsRest(t) && Taken(t) == Taken(s) + s.pipe[..n]
  {
    assert s.pipe == s.pipe[..n] + s.pipe[n..];
    assert s.entered == (Taken(s) + s.pipe[..n]) + s.pipe[n..];
  }

  lemma RestAfterEntering(s: System, t: System, x: seq<Element>)
    requires PipeIsRest(s) && t.entered == s.entered + x && t.pipe == s.pipe + x
    ensures PipeIsRest(t) && Taken(t) == Taken(s) + []
  {
    assert t.entered == Taken(s) + (s.pipe + x);
  }

  lemma PipeShrinks(s: System, step: Step)
    requires Shape(s) && Enabled(s, step) && (step.KernelRead? || step.OrphanRead?)
    ensures var t := Take(s, step);
            step.count <= |s.pipe| && t.entered == s.entered && t.pipe == s.pipe[step.count..]
  {
    hide Queue.Producer.Held, Queue.Consumer.Held, Queue.Producer.Valid, Queue.Consumer.Valid;
  }

  lemma PipeGrows(s: System, step: Step) returns (x: seq<Element>)
    requires Shape(s) && Enabled(s, step) && !step.KernelRead? && !step.OrphanRead?
    ensures Take(s, step).entered == s.entered + x && Take(s, step).pipe == s.pipe + x
  {
    hide Queue.Producer.Held, Queue.Consumer.Held;
    x := [];
    assert s.entered + [] == s.entered && s.pipe + [] == s.pipe;
    if step.KernelWrite? {
      var w := s.producers[step.p];
      x := w.output[w.offset..w.offset + step.count];
    } else if step.OrphanWrite? {
      x := s.producers[step.p].orphan[..step.count];
    }
  }

  /** What a step hands to the callback of consumer c. */
  function Handed(s: System, step: Step, c: nat): seq<Element>
    requires Enabled(s, step)
  {
    if step == Deliver(c) then [s.consumers[c].batch.value[0]] else []
  }

  /** The step is one of consumer c, or of its read. */
  predicate Concerns(step: Step, c: nat) {
    match step
    case Pop(d) => d == c
    case KernelRead(d, _) => d == c
    case ReadDone(d) => d == c
    case Deliver(d) => d == c
    case BatchEnd(d) => d == c
    case ConsumerClose(d) => d == c
    case OrphanRead(d, _) => d == c
    case _ => false
  }

  lemma OthersLeaveIt(s: System, step: Step, c: nat)
    requires Shape(s) && Enabled(s, step) && c < |s.consumers| && !Concerns(step, c)
    ensures |Take(s, step).consumers| == |s.consumers| && Take(s, step).consumers[c] == s.consumers[c]
  {
    hide Queue.Producer.Held, Queue.Producer.Valid, Queue.Consumer.Held, Queue.Consumer.Valid;
  }

  lemma OwnReadHolds(s: System, step: Step, c: nat)
    requires Shape(s) && Enabled(s, step) && step.KernelRead? && step.c == c && !Disturbs(s, step)
    ensures var t := Take(s, step);
            c < |s.consumers| == |t.consumers| && t.consumers[c].Held() == s.consumers[c].Held() + Leaving(s, step)
  {
    hide Queue.Producer.Held, Queue.Producer.Valid, Queue.Consumer.Held;
    FillHolds(s.consumers[c], s.pipe[..step.count]);
  }

  lemma OwnStepHolds(s: System, step: Step, c: nat)
    requires Shape(s) && Enabled(s, step) && Concerns(step, c) && !step.KernelRead? && !step.ConsumerClose?
    ensures var t := Take(s, step);
            && c < |s.consumers| == |t.consumers|
            && Handed(s, step, c) + t.consumers[c].Held() == s.consumers[c].Held()
  {
    hide Queue.Producer.Held, Queue.Producer.Valid;
    var r := s.consumers[c];
    if step == Deliver(c) {
      assert r.batch.value == [r.batch.value[0]] + r.batch.value[1..];
    }
  }

  /** What consumer c has been given and still holds grows by what it reads, and only a close cuts it. */
  lemma HeldStep(s: System, step: Step, c: nat)
    requires Shape(s) && Enabled(s, step) && !Disturbs(s, step) && c < |s.consumers|
    ensures |Take(s, step).consumers| == |s.consumers|
    ensures var held := Handed(s, step, c) + Take(s, step).consumers[c].Held();
            if step == ConsumerClose(c) then held == []
            else held == s.consumers[c].Held() + (if step.KernelRead? && step.c == c then Leaving(s, step) else [])
  {
    if step == ConsumerClose(c) {
      ClosedHoldsNothing(s, c);
    } else {
      hide Queue.Producer.Held, Queue.Consumer.Held, Shape, Enabled, Take, Disturbs, Leaving;
      if !Concerns(step, c) {
        OthersLeaveIt(s, step, c);
      } else if step.KernelRead? {
        OwnReadHolds(s, step, c);
      } else {
        OwnStepHolds(s, step, c);
      }
    }
  }

  lemma ClosedHoldsNothing(s: System, c: nat)
    requires Shape(s) && c < |s.consumers|
    ensures var t := Take(s, ConsumerClose(c)); |t.consumers| == |s.consumers| && t.consumers[c].Held() == []
  {
    hide Queue.Producer.Held, Queue.Producer.Valid;
  }

  lemma OrderStep(s: System, step: Step, c: nat, before: seq<Element>)
    requires Shape(s) && Enabled(s, step) && !Disturbs(s, step) && PipeIsRest(s) && c < |s.consumers|
    requires Subsequence(before + s.consumers[c].Held(), Taken(s))
    ensures |Take(s, step).consumers| == |s.consumers| && PipeIsRest(Take(s, step))
    ensures Subsequence(before + Handed(s, step, c) + Take(s, step).consumers[c].Held(), Taken(Take(s, step)))
  {
    hide Queue.Producer.Held, Queue.Consumer.Held, Shape, Enabled, Take, Disturbs, Handed, Subsequence, Taken;
    PipeStep(s, step);
    HeldStep(s, step, c);
    var held, left := s.consumers[c].Held(), Leaving(s, step);
    var handed, after := Handed(s, step, c), Take(s, step).consumers[c].Held();
    assert before + handed + after == before + (handed + after);
    if step == ConsumerClose(c) {
      SubsequenceShrinks(before, held, Taken(s));
      SubsequenceGrows(before, Taken(s), left);
      assert before + [] == before;
    } else if step.KernelRead? && step.c == c {
      SubsequenceAppends(before + held, Taken(s), left);
      assert before + (held + left) == before + held + left;
    } else {
      SubsequenceGrows(before + held, Taken(s), left);
      assert held + [] == held;
    }
  }

  // ---------------------------------------------------------------- whole runs

  /** Everything that the callback of consumer c has been called with, in order. */
  ghost function DeliveredBy(states: seq<System>, steps: seq<Step>, c: nat): seq<Element>
    requires |states| == |steps| + 1 && forall i :: 0 <= i < |steps| ==> Enabled(states[i], steps[i])
    decreases |steps|
  {
    if steps == [] then []
    else
      var n := |steps| - 1;
      DeliveredBy(states[..n + 1], steps[..n], c) + Handed(states[n], steps[n], c)
  }

  lemma InitialOrder(producers: nat, sizes: seq<nat>, c: nat)
    requires c < |sizes|
    ensures var s := Initial(producers, sizes);
            && |s.consumers| == |sizes| && s.consumers[c].Held() == [] && PipeIsRest(s) && Taken(s) == []
            && s.consumers[c].open && !s.consumers[c].orphanRead
  {
  }

  /**
   What a consumer's callback has been called with, and then what the consumer still holds, left the
   pipe in that order, whoever else reads from it.
   */
  lemma {:induction false} ConsumerKeepsOrder(
      states: seq<System>, steps: seq<Step>, producers: nat, sizes: seq<nat>, c: nat)
    requires IsRun(states, steps, producers, sizes) && Undisturbed(states, steps) && c < |sizes|
    ensures var s := states[|steps|];
            && |s.consumers| == |sizes| && PipeIsRest(s)
            && Subsequence(DeliveredBy(states, steps, c) + s.consumers[c].Held(), Taken(s))
    decreases |steps|
  {
    hide Shape, Enabled, Take, Disturbs, Subsequence, Queue.Consumer.Held, Taken, PipeIsRest, Initial;
    if steps == [] {
      InitialOrder(producers, sizes, c);
      NothingIsSubsequence(states[0].consumers[c].Held(), Taken(states[0]));
    } else {
      var n := |steps| - 1;
      ConsumerKeepsOrder(states[..n + 1], steps[..n], producers, sizes, c);
      OrderStep(states[n], steps[n], c, DeliveredBy(states[..n + 1], steps[..n], c));
    }
  }

  lemma NothingIsSubsequence(a: seq<Element>, b: seq<Element>)
    requires a == []
    ensures Subsequence([] + a, b)
  {
  }

  /** The state of a lone consumer that nobody closes. */
  ghost predicate GetsAll(s: System) {
    && |s.consumers| == 1 && s.consumers[0].open && !s.consumers[0].orphanRead && PipeIsRest(s)
    && s.delivered + s.consumers[0].Held() == Taken(s)
  }

  lemma GetsAllStep(s: System, step: Step)
    requires Shape(s) && Enabled(s, step) && !Disturbs(s, step) && !step.ConsumerClose? && GetsAll(s)
    ensures GetsAll(Take(s, step))
  {
    hide Queue.Producer.Held, Queue.Consumer.Held, Taken, PipeIsRest;
    PipeStep(s, step);
    HeldStep(s, step, 0);
    var t := Take(s, step);
    var handed, left := Handed(s, step, 0), Leaving(s, step);
    assert t.delivered == s.delivered + handed && t.consumers[0].open && !t.consumers[0].orphanRead by {
      LoneConsumer(s, step);
    }
    var held := s.consumers[0].Held();
    assert s.delivered + handed + t.consumers[0].Held() == s.delivered + (handed + t.consumers[0].Held());
    if step.KernelRead? {
      assert s.delivered + (held + left) == s.delivered + held + left;
    } else {
      assert held + [] == held;
      NothingLeaves(s, step);
    }
  }

  lemma NothingLeaves(s: System, step: Step)
    requires PipeIsRest(s) && !step.KernelRead? && !step.OrphanRead?
    ensures Taken(s) + Leaving(s, step) == Taken(s)
  {
  }

  lemma LoneConsumer(s: System, step: Step)
    requires Shape(s) && Enabled(s, step) && !step.ConsumerClose?
    requires |s.consumers| == 1 && s.consumers[0].open && !s.consumers[0].orphanRead
    ensures var t := Take(s, step);
            && t.delivered == s.delivered + Handed(s, step, 0)
            && t.consumers[0].open && !t.consumers[0].orphanRead && !step.OrphanRead?
  {
    hide Queue.Producer.Held, Queue.Consumer.Held;
    assert s.delivered + [] == s.delivered;
  }

  /**
   One consumer that is never closed: what it was given, what it holds and what is in the pipe are
   everything that entered, in that order.
   */
  lemma {:induction false} OneConsumerGetsAll(states: seq<System>, steps: seq<Step>, producers: nat, size: nat)
    requires IsRun(states, steps, producers, [size]) && Undisturbed(states, steps)
    requires forall i :: 0 <= i < |steps| ==> !steps[i].ConsumerClose?
    ensures var s := states[|steps|];
            |s.consumers| == 1 && s.delivered + s.consumers[0].Held() + s.pipe == s.entered && GetsAll(s)
    decreases |steps|
  {
    hide Shape, Enabled, Take, Disturbs, Queue.Consumer.Held, Initial;
    if steps == [] {
      InitialOrder(producers, [size], 0);
      NothingDelivered(producers, [size]);
    } else {
      var n := |steps| - 1;
      OneConsumerGetsAll(states[..n + 1], steps[..n], producers, size);
      assert !steps[n].ConsumerClose?;
      GetsAllStep(states[n], steps[n]);
    }
  }

  lemma NothingDelivered(producers: nat, sizes: seq<nat>)
    ensures Initial(producers, sizes).delivered == []
  {
  }
}
