/**
 Who is called, and with which callback, over whole runs of the reactor. Records are named by their
 serial numbers: the record allocated in a step gets the number of records allocated before it.
 */
module ReactorCalls {
  import opened Options
  import opened Reactor
  import P = Pool

  /** A step that allocates a record: any operation, a queued callback, a cancel of what the kernel holds. */
  predicate Allocates(s: State, step: Step) {
    step.Submit? || step.Next? || (step.Cancel? && step.id !in Waiting(s))
  }

  /** The callback that the record is allocated with. */
  function OwnCallback(step: Step): nat {
    match step
    case Submit(callback) => callback
    case Next(callback) => callback
    case _ => NOTHING
  }

  predicate Cancels(s: State, step: Step, serial: nat) {
    step.Cancel? && step.id in s.users && s.users[step.id].serial == serial
  }

  /** The callback that the record with this serial was given last in the first n steps. */
  function Given(states: seq<State>, steps: seq<Step>, n: nat, serial: nat): Option<nat>
    requires n <= |steps| && |states| == |steps| + 1
  {
    if n == 0 then None
    else if Cancels(states[n - 1], steps[n - 1], serial) then Some(steps[n - 1].callback)
    else if Allocates(states[n - 1], steps[n - 1]) && serial == states[n - 1].serials then
      Some(OwnCallback(steps[n - 1]))
    else Given(states, steps, n - 1, serial)
  }

  /** The records queued by reactor_next, in the order of the calls. */
  function Queued(states: seq<State>, steps: seq<Step>, n: nat): seq<nat>
    requires n <= |steps| && |states| == |steps| + 1
  {
    if n == 0 then []
    else Queued(states, steps, n - 1) + (if steps[n - 1].Next? then [states[n - 1].serials] else [])
  }

  datatype Posting = Posting(serial: nat, notify: bool)

  /** The completions that the kernel has posted, in their order. */
  function Posted(states: seq<State>, steps: seq<Step>, n: nat): seq<Posting>
    requires n <= |steps| && |states| == |steps| + 1
  {
    if n == 0 then []
    else
      var s, step := states[n - 1], steps[n - 1];
      Posted(states, steps, n - 1) +
      (if step.Complete? && step.id in s.users then [Posting(s.users[step.id].serial, step.notify)] else [])
  }

  function NextsCalled(steps: seq<Step>, n: nat): nat
    requires n <= |steps|
  {
    if n == 0 then 0 else NextsCalled(steps, n - 1) + (if steps[n - 1].CallNext? then 1 else 0)
  }

  function Taken(steps: seq<Step>, n: nat): nat
    requires n <= |steps|
  {
    if n == 0 then 0 else Taken(steps, n - 1) + (if steps[n - 1].TakeCompletion? then 1 else 0)
  }

  // ---------------------------------------------------------------- completions keep their records

  lemma {:induction false} CompletedOwned(cs: seq<Completion>, kernel: set<nat>)
    requires MoreOk(cs, kernel)
    ensures forall i :: 0 <= i < |cs| ==> cs[i].id in kernel || cs[i].id in Ids(Finals(cs))
  {
    if cs != [] {
      CompletedOwned(cs[1..], kernel);
      HeadOwned(cs, kernel);
      assert forall id :: id in Finals(cs[1..]) ==> id in Finals(cs);
      forall i | 0 < i < |cs|
        ensures cs[i].id in kernel || cs[i].id in Ids(Finals(cs))
      {
        assert cs[i] == cs[1..][i - 1];
      }
    }
  }

  lemma CompletedLive(s: State)
    requires Inv(s)
    ensures forall i :: 0 <= i < |s.completions| ==>
              && s.completions[i].id in s.users
              && s.completions[i].id !in Ids(Waiting(s)) && s.completions[i].id !in Running(s)
  {
    hide SerialsOk, QueueOk, Finals, Distinct, Waiting, Running, P.State.Ok;
    CompletedOwned(s.completions, s.kernel);
  }

  /** The pending completions by serials. */
  function Pending(s: State): seq<Posting>
  {
    seq(|s.completions|, i requires 0 <= i < |s.completions| =>
      var c := s.completions[i];
      Posting(if c.id in s.users then s.users[c.id].serial else 0, c.notify))
  }

  lemma ReleaseKeeps(s: State, id: nat)
    requires id in s.users && s.pool.count > 0
    requires forall i :: 0 <= i < |s.completions| ==> s.completions[i].id in s.users && s.completions[i].id != id
    ensures Pending(Release(s, id)) == Pending(s)
  {
  }

  lemma AllocKeeps(s: State, callback: nat)
    requires Inv(s)
    ensures var (t, id) := Alloc(s, callback); id !in s.users && t.users == s.users[id := Record(s.serials, callback)]
  {
    hide P.State.Ok, P.Malloc, OwnersOk;
    OwnersPool(s);
    P.MallocOk(s.pool);
  }

  lemma OwnersPool(s: State)
    requires OwnersOk(s)
    ensures s.pool.Ok() && s.users.Keys == s.pool.live
  {
  }

  /** A completion stays with its record until it is taken. */
  lemma PendingStep(s: State, step: Step)
    requires Inv(s) && Enabled(s, step)
    ensures var t := Take(s, step);
            match step
            case Complete(id, _, notify) =>
              id in s.users && Pending(t) == Pending(s) + [Posting(s.users[id].serial, notify)]
            case TakeCompletion => Pending(s) != [] && Pending(t) == Pending(s)[1..]
            case _ => Pending(t) == Pending(s)
  {
    hide Inv, P.State.Ok, P.Malloc, P.Free, Waiting, Running;
    CompletedLive(s);
    match step
    case Submit(callback) => AllocKeeps(s, callback);
    case Next(callback) => AllocKeeps(s, callback);
    case Cancel(id, callback) => CancelKeeps(s, id, callback);
    case Complete(id, _, _) => KernelLive(s, id);
    case ReturnNext =>
      NextWaits(s);
      ReleaseKeeps(s, s.next[s.phase.i]);
    case ReturnCompletion =>
      if s.phase.last {
        RunsLast(s);
        ReleaseKeeps(s, s.phase.id);
      }
    case _ =>
  }

  lemma CancelKeeps(s: State, id: nat, callback: nat)
    requires Inv(s) && Enabled(s, Cancel(id, callback))
    requires forall i :: 0 <= i < |s.completions| ==> s.completions[i].id in s.users
    ensures Pending(Take(s, Cancel(id, callback))) == Pending(s)
  {
    hide P.State.Ok, P.Malloc, OwnersOk, SerialsOk, QueueOk, MoreOk, Waiting;
    OwnersPool(s);
    P.MallocOk(s.pool);
  }

  lemma KernelLive(s: State, id: nat)
    requires Inv(s) && id in s.kernel
    ensures id in s.users
  {
    hide SerialsOk, QueueOk, MoreOk, Distinct, Finals, P.State.Ok;
  }

  lemma NextWaits(s: State)
    requires s.phase.InNext? && s.phase.i < |s.next|
    ensures s.next[s.phase.i] in Ids(Waiting(s))
  {
    assert Waiting(s)[0] == s.next[s.phase.i];
  }

  lemma RunsLast(s: State)
    requires s.phase.InCompletion? && s.phase.last
    ensures s.phase.id in Running(s)
  {
  }

  // ---------------------------------------------------------------- what one step does

  /** The callback of the record with this serial after the step. */
  lemma CurrentStep(s: State, step: Step, serial: nat)
    requires Inv(s) && Enabled(s, step)
    requires serial in s.current <==> serial < s.serials
    ensures var t := Take(s, step);
            && t.serials == s.serials + (if Allocates(s, step) then 1 else 0)
            && (serial in t.current <==> serial < t.serials)
            && (if Cancels(s, step, serial) then serial in t.current && t.current[serial] == step.callback
                else if Allocates(s, step) && serial == s.serials then
                  serial in t.current && t.current[serial] == OwnCallback(step)
                else serial in s.current ==> serial in t.current && t.current[serial] == s.current[serial])
  {
    hide OwnersOk, MoreOk, QueueOk, P.State.Ok, P.Malloc, P.Free, Waiting;
  }

  /** The queue of callbacks: what is added, and who is called. */
  lemma QueueStep(s: State, step: Step)
    requires Inv(s) && Enabled(s, step)
    ensures var t := Take(s, step);
            && t.queued == s.queued + (if step.Next? then [s.serials] else [])
            && |t.drained| == |s.drained| + (if step.CallNext? then 1 else 0)
  {
    hide Inv, P.Malloc, P.Free, Waiting;
  }

  /** A queued callback is called: the next one in the order of the queue, as it was given last. */
  lemma CallNextCalls(s: State)
    requires Inv(s) && Enabled(s, CallNext)
    ensures |s.drained| < |s.queued|
    ensures var serial := s.queued[|s.drained|];
            serial < s.serials && serial in s.current
            && Take(s, CallNext).log == s.log + [Call(serial, s.current[serial])]
  {
    hide OwnersOk, MoreOk, P.State.Ok;
    assert Waiting(s)[0] == s.next[s.phase.i];
    assert Serials(Uncalled(s), s.users)[0] == s.users[s.next[s.phase.i]].serial;
  }

  lemma TakeCompletionCalls(s: State)
    requires Inv(s) && Enabled(s, TakeCompletion)
    ensures |Pending(s)| > 0
    ensures var p := Pending(s)[0];
            && p.serial < s.serials && p.serial in s.current
            && Take(s, TakeCompletion).log == s.log + (if p.notify then [] else [Call(p.serial, s.current[p.serial])])
  {
    hide OwnersOk, MoreOk, QueueOk, P.State.Ok;
  }

  lemma OthersCallNobody(s: State, step: Step)
    requires Enabled(s, step) && !step.CallNext? && !step.TakeCompletion?
    ensures Take(s, step).log == s.log
  {
    hide P.Malloc, P.Free, Waiting;
  }

  // ---------------------------------------------------------------- whole runs

  /** The state's own books agree with the history of steps. */
  ghost predicate BooksOk(states: seq<State>, steps: seq<Step>, n: nat)
    requires n <= |steps| && |states| == |steps| + 1
  {
    GivenOk(states, steps, n) && ListsOk(states, steps, n)
  }

  ghost predicate ListsOk(states: seq<State>, steps: seq<Step>, n: nat)
    requires n <= |steps| && |states| == |steps| + 1
  {
    var s := states[n];
    && s.queued == Queued(states, steps, n) && |s.drained| == NextsCalled(steps, n)
    && Taken(steps, n) <= |Posted(states, steps, n)| && Pending(s) == Posted(states, steps, n)[Taken(steps, n)..]
  }

  ghost predicate GivenOk(states: seq<State>, steps: seq<Step>, n: nat)
    requires n <= |steps| && |states| == |steps| + 1
  {
    var s := states[n];
    && (forall serial: nat :: serial in s.current <==> serial < s.serials)
    && (forall serial: nat :: serial < s.serials ==> Given(states, steps, n, serial) == Some(s.current[serial]))
  }

  lemma ListsStep(states: seq<State>, steps: seq<Step>, n: nat)
    requires n < |steps| && |states| == |steps| + 1 && ListsOk(states, steps, n)
    requires Inv(states[n]) && Enabled(states[n], steps[n]) && states[n + 1] == Take(states[n], steps[n])
    ensures ListsOk(states, steps, n + 1)
  {
    hide Inv, Enabled, Take, Pending;
    QueueStep(states[n], steps[n]);
    PendingStep(states[n], steps[n]);
  }

  lemma GivenStep(states: seq<State>, steps: seq<Step>, n: nat)
    requires n < |steps| && |states| == |steps| + 1 && GivenOk(states, steps, n)
    requires Inv(states[n]) && Enabled(states[n], steps[n]) && states[n + 1] == Take(states[n], steps[n])
    ensures GivenOk(states, steps, n + 1)
  {
    hide Inv, Enabled, Take, Allocates, Cancels;
    var t := states[n + 1];
    forall serial: nat
      ensures serial in t.current <==> serial < t.serials
      ensures serial < t.serials ==> Given(states, steps, n + 1, serial) == Some(t.current[serial])
    {
      CurrentStep(states[n], steps[n], serial);
    }
  }

  lemma {:induction false} RunBooks(states: seq<State>, steps: seq<Step>, n: nat)
    requires IsRun(states, steps) && n <= |steps|
    ensures Inv(states[n]) && BooksOk(states, steps, n)
  {
    hide Inv, Enabled, Take, ListsOk, GivenOk;
    RunInv(states[..n + 1], steps[..n]);
    if n == 0 {
      EmptyBooks(states, steps);
    } else {
      RunBooks(states, steps, n - 1);
      ListsStep(states, steps, n - 1);
      GivenStep(states, steps, n - 1);
    }
  }

  lemma EmptyBooks(states: seq<State>, steps: seq<Step>)
    requires IsRun(states, steps)
    ensures BooksOk(states, steps, 0)
  {
    hide Take, Enabled;
    assert Pending(EMPTY) == [];
  }

  /**
   Over all runs, who is called in which step: the queued callbacks in the order of reactor_next,
   each once; for every completion that is no notification, in the order in which they were posted,
   its record; each with the callback that the record was given last; and nobody in any other step.
   */
  lemma EachCall(states: seq<State>, steps: seq<Step>, n: nat)
    requires IsRun(states, steps) && n < |steps|
    ensures var log, log' := states[n].log, states[n + 1].log;
            match steps[n]
            case CallNext =>
              var q, m := Queued(states, steps, n), NextsCalled(steps, n);
              m < |q| && Given(states, steps, n, q[m]).Some?
              && log' == log + [Call(q[m], Given(states, steps, n, q[m]).value)]
            case TakeCompletion =>
              var p, m := Posted(states, steps, n), Taken(steps, n);
              m < |p| && Given(states, steps, n, p[m].serial).Some?
              && var call := Call(p[m].serial, Given(states, steps, n, p[m].serial).value);
                 log' == log + (if p[m].notify then [] else [call])
            case _ => log' == log
  {
    hide Inv, Enabled, Take, Given, Queued, Posted, Pending;
    RunBooks(states, steps, n);
    match steps[n]
    case CallNext => CallNextCalls(states[n]);
    case TakeCompletion => TakeCompletionCalls(states[n]);
    case _ => OthersCallNobody(states[n], steps[n]);
  }

  lemma {:induction false} LogBelow(states: seq<State>, steps: seq<Step>, n: nat)
    requires IsRun(states, steps) && n <= |steps|
    ensures forall k :: 0 <= k < |states[n].log| ==> states[n].log[k].serial < states[n].serials
  {
    hide Inv, Enabled, Take, Given, Queued, Posted, Pending, Allocates;
    if n > 0 {
      LogBelow(states, steps, n - 1);
      RunBooks(states, steps, n - 1);
      CurrentStep(states[n - 1], steps[n - 1], states[n - 1].serials);
      match steps[n - 1]
      case CallNext => CallNextCalls(states[n - 1]);
      case TakeCompletion => TakeCompletionCalls(states[n - 1]);
      case _ => OthersCallNobody(states[n - 1], steps[n - 1]);
    }
  }

  /**
   A record calls the callback that it was allocated with, from then on until it is cancelled: every
   entry of its serial in the log has that callback.
   */
  lemma {:induction false} CallsOwnCallback(states: seq<State>, steps: seq<Step>, i: nat)
    requires IsRun(states, steps) && i < |steps| && Allocates(states[i], steps[i])
    requires forall k :: i < k < |steps| ==> !Cancels(states[k], steps[k], states[i].serials)
    ensures var serial, s := states[i].serials, states[|steps|];
            && serial < s.serials && serial in s.current && s.current[serial] == OwnCallback(steps[i])
            && forall k :: 0 <= k < |s.log| && s.log[k].serial == serial ==> s.log[k].callback == OwnCallback(steps[i])
    decreases |steps|
  {
    hide Inv, Enabled, Take, Allocates, Queued, Posted, Pending, Given;
    var n := |steps| - 1;
    var serial := states[i].serials;
    RunBooks(states, steps, n);
    CurrentStep(states[n], steps[n], serial);
    if i == n {
      LogBelow(states, steps, n);
      AllocatingCallsNobody(states[n], steps[n]);
      FreshIsNotCancelled(states[n], steps[n]);
    } else {
      CallsOwnCallback(states[..n + 1], steps[..n], i);
      StepCallsCurrent(states[n], steps[n], serial);
    }
  }

  lemma AllocatingCallsNobody(s: State, step: Step)
    requires Enabled(s, step) && Allocates(s, step)
    ensures Take(s, step).log == s.log
  {
    hide P.Malloc, Waiting;
  }

  lemma FreshIsNotCancelled(s: State, step: Step)
    requires Inv(s)
    ensures !Cancels(s, step, s.serials)
  {
    hide OwnersOk, MoreOk, QueueOk;
  }

  /** A cancel submits one more operation exactly if its record does not wait in the queue of callbacks. */
  lemma CancelAsksTheKernel(s: State, id: nat, callback: nat)
    requires Inv(s) && Enabled(s, Cancel(id, callback))
    ensures var t := Take(s, Cancel(id, callback));
            && id in t.users && t.users[id] == Record(s.users[id].serial, callback)
            && t.next == s.next && t.completions == s.completions
            && (id in Waiting(s) ==> t.kernel == s.kernel && t.users.Keys == s.users.Keys)
            && (id !in Waiting(s) ==>
                  exists request: nat :: request !in s.users && t.kernel == s.kernel + {request}
                    && t.users ==
                       s.users[id := Record(s.users[id].serial, callback)][request := Record(s.serials, NOTHING)])
  {
    hide P.State.Ok, P.Malloc, OwnersOk, SerialsOk, QueueOk, MoreOk, Waiting;
    OwnersPool(s);
    P.MallocOk(s.pool);
    if id !in Waiting(s) {
      var request := P.Malloc(s.pool).1;
      assert request !in s.users;
    }
  }
}
