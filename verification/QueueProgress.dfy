/**
 What keeps the queue going: every push counts, an open producer that holds elements has a write
 outstanding, and an open consumer that asked once is reading or handing over ever after.
 */
module QueueProgress {
  import opened Options
  import opened Queue
  import opened QueueRuns

  function PushesOf(steps: seq<Step>, p: nat): nat {
    if steps == [] then 0
    else PushesOf(steps[..|steps| - 1], p) + (if steps[|steps| - 1] == Step.Push(p) then 1 else 0)
  }

  /** The callbacks that consumer c's batches have led to. */
  function Deliveries(steps: seq<Step>): nat {
    if steps == [] then 0
    else Deliveries(steps[..|steps| - 1]) + (if steps[|steps| - 1].Deliver? then 1 else 0)
  }

  predicate Asked(steps: seq<Step>, c: nat) {
    exists i :: 0 <= i < |steps| && steps[i] == Step.Pop(c)
  }

  /** The consumer is reading or handing over, if it is open. */
  predicate Asking(s: System, c: nat) {
    c < |s.consumers| && (s.consumers[c].open ==> s.consumers[c].read.Some? || s.consumers[c].batch.Some?)
  }

  lemma CountsStep(s: System, step: Step, p: nat)
    requires Shape(s) && Enabled(s, step) && p < |s.pushed|
    ensures var t := Take(s, step);
            && |t.pushed| == |s.pushed| && |t.producers| == |s.producers| && |t.consumers| == |s.consumers|
            && t.pushed[p] == s.pushed[p] + (if step == Step.Push(p) then 1 else 0)
  {
    hide Update, Fill, CloseProducer, CloseConsumer;
  }

  lemma DeliversStep(s: System, step: Step)
    requires Shape(s) && Enabled(s, step)
    ensures var t := Take(s, step);
            && |t.pushed| == |s.pushed| && |t.consumers| == |s.consumers|
            && |t.delivered| == |s.delivered| + (if step.Deliver? then 1 else 0)
  {
    hide Update, Fill, CloseProducer, CloseConsumer;
  }

  lemma AskingStep(s: System, step: Step, c: nat)
    requires Shape(s) && Enabled(s, step) && c < |s.consumers| && (Asking(s, c) || step == Step.Pop(c))
    ensures Asking(Take(s, step), c)
  {
    hide Update, CloseProducer;
  }

  /** Every push is counted, and every callback is a delivery. */
  lemma {:induction false} EveryStepCounts(
      states: seq<System>, steps: seq<Step>, producers: nat, sizes: seq<nat>, p: nat)
    requires IsRun(states, steps, producers, sizes) && p < producers
    ensures var s := states[|steps|];
            && |s.pushed| == producers && s.pushed[p] == PushesOf(steps, p)
            && |s.delivered| == Deliveries(steps)
    decreases |steps|
  {
    hide Shape, Enabled, Take;
    if steps != [] {
      var n := |steps| - 1;
      EveryStepCounts(states[..n + 1], steps[..n], producers, sizes, p);
      CountsStep(states[n], steps[n], p);
      DeliversStep(states[n], steps[n]);
    }
  }

  /** A consumer that has asked for elements once keeps asking until it is closed. */
  lemma {:induction false} KeepsAsking(
      states: seq<System>, steps: seq<Step>, producers: nat, sizes: seq<nat>, c: nat)
    requires IsRun(states, steps, producers, sizes) && c < |sizes| && Asked(steps, c)
    ensures Asking(states[|steps|], c)
    decreases |steps|
  {
    hide Shape, Enabled, Take;
    var n := |steps| - 1;
    ConsumersStay(states[..n + 1], steps[..n], producers, sizes);
    if steps[n] != Step.Pop(c) {
      var i :| 0 <= i < |steps| && steps[i] == Step.Pop(c);
      assert steps[..n][i] == Step.Pop(c);
      KeepsAsking(states[..n + 1], steps[..n], producers, sizes, c);
    }
    AskingStep(states[n], steps[n], c);
  }

  lemma {:induction false} ConsumersStay(states: seq<System>, steps: seq<Step>, producers: nat, sizes: seq<nat>)
    requires IsRun(states, steps, producers, sizes)
    ensures |states[|steps|].consumers| == |sizes|
    decreases |steps|
  {
    hide Shape, Enabled, Take;
    if steps != [] {
      var n := |steps| - 1;
      ConsumersStay(states[..n + 1], steps[..n], producers, sizes);
      DeliversStep(states[n], steps[n]);
    }
  }

  /** An update leaves nothing behind without a write, and a write it starts takes all there is up to 128. */
  lemma UpdateWrites<T>(p: Producer<T>)
    requires p.open && p.orphan == [] && p.offset <= |p.output| && p.write.None?
    ensures var q := Update(p);
            && (q.write.Some? <==> q.Held() != [])
            && (q.write.Some? ==>
                  && q.write.value.moved.None?
                  && q.write.value.size == (if |q.output| - q.offset > 128 then 128 else |q.output| - q.offset))
            && (p.offset == |p.output| ==> q.output == p.queued && q.offset == 0 && q.queued == [])
  {
    UpdateValid(p);
  }

  /** So at every moment an open producer that holds an element has a write outstanding. */
  lemma HoldingIsWriting(s: System, p: nat)
    requires Shape(s) && p < |s.producers| && s.producers[p].open && s.producers[p].Held() != []
    ensures s.producers[p].write.Some?
  {
  }
}
