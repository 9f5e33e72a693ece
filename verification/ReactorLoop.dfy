/**
 The reactor as it runs: an object pool of records, the vector of queued callbacks, and the loop
 that drains the queue and then takes completions. Whatever user code does inside its callbacks and
 whatever the kernel posts, each method performs steps of the system in module Reactor.
 */
module ReactorLoop {
  import P = Pool
  import opened Reactor

  ghost function CallbacksOf(log: seq<Call>): seq<nat> {
    seq(|log|, i requires 0 <= i < |log| => log[i].callback)
  }

  lemma InvPool(s: State)
    requires Inv(s)
    ensures s.pool.Ok() && s.users.Keys == s.pool.live && s.pool.count == |s.users.Keys|
  {
  }

  /** What user code inside a callback leaves alone, whichever of the three operations it uses. */
  ghost predicate UserFrame(s: State, t: State) {
    && t.phase == s.phase && t.completions == s.completions && t.log == s.log && t.drained == s.drained
    && s.next <= t.next && s.queued <= t.queued && s.users.Keys <= t.users.Keys
  }

  lemma UserStepFrame(s: State, step: Step)
    requires Inv(s) && Enabled(s, step) && (step.Submit? || step.Next? || step.Cancel?)
    ensures UserFrame(s, Take(s, step))
  {
    hide Inv, P.Malloc, Waiting;
  }

  lemma UserFrameJoins(s: State, t: State, u: State)
    requires UserFrame(s, t) && UserFrame(t, u)
    ensures UserFrame(s, u)
  {
  }

  ghost predicate KernelFrame(s: State, t: State) {
    t == s.(kernel := t.kernel, completions := t.completions) && s.completions <= t.completions
  }

  /** The first entry of the queue that is not freed yet. */
  ghost function Cursor(s: State): nat {
    if s.phase.Draining? || s.phase.InNext? then s.phase.i else 0
  }

  lemma Drained(s: State)
    requires Inv(s) && (if s.phase.Draining? then s.phase.i == |s.next| else s.phase.Idle? && s.next == [])
    ensures s.drained == s.queued
  {
    assert Uncalled(s) == [];
  }

  lemma Started()
    ensures IsRun([EMPTY], []) && Inv(EMPTY)
  {
    hide Inv, Take, Enabled;
    EmptyInv();
  }

  class Loop {
    const pool: P.ObjectPool
    /** The callback field of every live record. */
    var callbacks: map<nat, nat>
    var next: seq<nat>
    var completions: seq<Completion>
    /** The surroundings: operations in the kernel, and how much user code and the kernel will still do. */
    var kernel: set<nat>
    var actions: nat
    var posts: nat
    /** The run so far, and the callbacks that have really been called. */
    ghost var states: seq<State>
    ghost var steps: seq<Step>
    ghost var called: seq<nat>

    ghost function Now(): State
      requires |states| == |steps| + 1
      reads this
    {
      states[|steps|]
    }

    ghost predicate Represents(s: State)
      reads this, pool
    {
      && pool.Abstract() == s.pool && next == s.next && completions == s.completions && kernel == s.kernel
      && callbacks.Keys == s.users.Keys && (forall id :: id in callbacks ==> callbacks[id] == s.users[id].callback)
      && called == CallbacksOf(s.log)
    }

    ghost predicate Valid()
      reads this, pool
    {
      |states| == |steps| + 1 && IsRun(states, steps) && Inv(Now()) && Represents(Now())
    }

    constructor (actions: nat, posts: nat)
      ensures Valid() && fresh(pool) && steps == []
    {
      hide Inv, IsRun, P.State.Ok;
      Started();
      pool := new P.ObjectPool();
      callbacks, next, completions, kernel := map[], [], [], {};
      this.actions, this.posts := actions, posts;
      states, steps, called := [EMPTY], [], [];
      new;
      assert states == [EMPTY] && steps == [];
      assert Represents(EMPTY);
    }

    ghost method Do(step: Step)
      requires |states| == |steps| + 1 && IsRun(states, steps) && Inv(Now()) && Enabled(Now(), step)
      modifies this`states, this`steps
      ensures |states| == |steps| + 1 && IsRun(states, steps) && Inv(Now()) && steps == old(steps) + [step]
      ensures Now() == Take(old(Now()), step)
    {
      hide Inv, Take, Enabled;
      TakeInv(Now(), step);
      states := states + [Take(Now(), step)];
      steps := steps + [step];
    }

    /** reactor_alloc_user */
    method AllocUser(callback: nat) returns (id: nat)
      requires pool.Abstract().Ok()
      modifies pool, this`callbacks
      ensures (pool.Abstract(), id) == P.Malloc(old(pool.Abstract())) && callbacks == old(callbacks)[id := callback]
      ensures id !in old(pool.live)
    {
      id := pool.Allocate();
      callbacks := callbacks[id := callback];
    }

    /** reactor_free_user */
    method FreeUser(id: nat)
      requires pool.Abstract().Ok() && id in pool.live
      modifies pool, this`callbacks
      ensures old(pool.count) > 0 && pool.Abstract() == P.Free(old(pool.Abstract()), id)
              && callbacks == old(callbacks) - {id}
    {
      P.FreeOk(pool.Abstract(), id);
      pool.Release(id);
      callbacks := callbacks - {id};
    }

    /** Any of the operations that allocate a record and put an entry on the ring. */
    method Submit(callback: nat) returns (id: nat)
      requires Valid() && UserRuns(Now())
      modifies this, pool
      ensures Valid() && steps == old(steps) + [Step.Submit(callback)]
              && Now() == Take(old(Now()), Step.Submit(callback))
      ensures actions == old(actions) && posts == old(posts) && id !in old(callbacks)
      ensures callbacks == old(callbacks)[id := callback] && kernel == old(kernel) + {id} && next == old(next)
    {
      hide Inv, IsRun, P.Malloc, P.State.Ok;
      InvPool(Now());
      id := AllocUser(callback);
      kernel := kernel + {id};
      Do(Step.Submit(callback));
    }

    /** reactor_next */
    method Next(callback: nat) returns (id: nat)
      requires Valid() && UserRuns(Now())
      modifies this, pool
      ensures Valid() && steps == old(steps) + [Step.Next(callback)] && Now() == Take(old(Now()), Step.Next(callback))
      ensures actions == old(actions) && posts == old(posts) && id !in old(callbacks)
      ensures callbacks == old(callbacks)[id := callback] && next == old(next) + [id] && kernel == old(kernel)
    {
      hide Inv, IsRun, P.Malloc, P.State.Ok;
      InvPool(Now());
      id := AllocUser(callback);
      next := next + [id];
      Do(Step.Next(callback));
    }

    /** reactor_cancel: the low bit of an id from reactor_next says that the kernel does not know it. */
    method Cancel(id: nat, queued: bool, callback: nat)
      requires Valid() && UserRuns(Now()) && id in callbacks && (queued <==> id in Waiting(Now()))
      modifies this, pool
      ensures Valid() && steps == old(steps) + [Step.Cancel(id, callback)]
      ensures Now() == Take(old(Now()), Step.Cancel(id, callback))
      ensures actions == old(actions) && posts == old(posts) && next == old(next)
      ensures queued ==> callbacks == old(callbacks)[id := callback] && kernel == old(kernel)
      ensures !queued ==>
                exists request: nat :: request !in old(callbacks) && kernel == old(kernel) + {request}
                  && callbacks == old(callbacks)[id := callback][request := NOTHING]
    {
      hide Inv, IsRun, P.Malloc, P.State.Ok, Waiting;
      InvPool(Now());
      callbacks := callbacks[id := callback];
      if !queued {
        var request := AllocUser(NOTHING);
        kernel := kernel + {request};
      }
      Do(Step.Cancel(id, callback));
    }

    /** Some operation on some live record, as user code may choose. */
    method UserAction(from: nat)
      requires Valid() && UserRuns(Now()) && from == Cursor(Now()) && from <= |next| && actions > 0
      modifies this, pool
      ensures Valid() && UserFrame(old(Now()), Now()) && old(steps) <= steps
      ensures actions == old(actions) - 1 && posts == old(posts)
    {
      hide Inv, IsRun, Take, UserFrame;
      var callback: nat, which: nat := *, *;
      actions := actions - 1;
      ghost var step: Step;
      ghost var s := Now();
      if which == 0 {
        step := Step.Submit(callback);
        var _ := Submit(callback);
      } else if which == 1 || callbacks == map[] {
        step := Step.Next(callback);
        var _ := Next(callback);
      } else {
        var id :| id in callbacks;
        step := Step.Cancel(id, callback);
        Cancel(id, id in next[from..], callback);
      }
      UserStepFrame(s, step);
    }

    /** What a callback does: any operations, as long as user code has not had enough. */
    method UserCode(from: nat)
      requires Valid() && UserRuns(Now()) && from == Cursor(Now()) && from <= |next|
      modifies this, pool
      ensures Valid() && UserFrame(old(Now()), Now()) && old(steps) <= steps && posts == old(posts)
      ensures actions < old(actions) || (actions == old(actions) && Now() == old(Now()))
      decreases actions
    {
      hide Inv, IsRun, P.State.Ok;
      var more: bool := *;
      if more && actions > 0 {
        ghost var s := Now();
        UserAction(from);
        ghost var t := Now();
        UserCode(from);
        UserFrameJoins(s, t, Now());
      }
    }

    /** The kernel posts completions of operations it holds. */
    method KernelPosts()
      requires Valid()
      modifies this`kernel, this`completions, this`posts, this`states, this`steps
      ensures Valid() && old(steps) <= steps && KernelFrame(old(Now()), Now())
      ensures posts < old(posts) || (posts == old(posts) && Now() == old(Now()))
      decreases posts
    {
      hide Inv, IsRun;
      var go: bool := *;
      if go && posts > 0 && kernel != {} {
        ghost var s := Now();
        var id, more: bool, notify: bool :| id in kernel;
        posts := posts - 1;
        completions := completions + [Completion(id, more, notify)];
        kernel := if more then kernel else kernel - {id};
        Do(Step.Complete(id, more, notify));
        KernelPosts();
      }
    }

    /** The first half of a turn: callbacks queued while the queue is drained are called as well. */
    method DrainNext()
      requires Valid() && Now().phase.Idle?
      modifies this, pool
      ensures Valid() && Now().phase.Idle? && next == [] && old(steps) <= steps
      ensures Now().drained == Now().queued && old(Now()).queued <= Now().queued
      ensures posts == old(posts)
    {
      hide Inv, IsRun;
      if |next| > 0 {
        Do(BeginDrain);
        var i := 0;
        while i < |next|
          invariant Valid() && Now().phase == Draining(i) && i <= |next| && old(steps) <= steps
          invariant old(Now()).queued <= Now().queued && posts == old(posts)
          decreases actions, |next| - i
        {
          CallAndFree(i);
          i := i + 1;
        }
        Drained(Now());
        next := [];
        Do(EndDrain);
      } else {
        Drained(Now());
      }
    }

    /** One round of the loop over the queue: call the record, then free it. */
    method CallAndFree(i: nat)
      requires Valid() && Now().phase == Draining(i) && i < |next|
      modifies this, pool
      ensures Valid() && Now().phase == Draining(i + 1) && i < |next| && old(steps) <= steps
      ensures old(Now()).queued <= Now().queued && posts == old(posts)
      ensures actions < old(actions) || (actions == old(actions) && next == old(next))
    {
      hide Inv, IsRun, Take, Enabled, P.State.Ok;
      var user := next[i];
      CallQueued(i, user);
      FreeQueued(i, user);
    }

    method CallQueued(i: nat, user: nat)
      requires Valid() && Now().phase == Draining(i) && i < |next| && next[i] == user
      modifies this, pool
      ensures Valid() && Now().phase == InNext(i) && i < |next| && next[i] == user && old(steps) <= steps
      ensures old(Now()).queued <= Now().queued && posts == old(posts)
      ensures actions < old(actions) || (actions == old(actions) && next == old(next))
    {
      hide Inv, IsRun, P.State.Ok;
      QueuedIsLive(Now());
      Do(CallNext);
      called := called + [callbacks[user]];
      UserCode(i);
    }

    method FreeQueued(i: nat, user: nat)
      requires Valid() && Now().phase == InNext(i) && i < |next| && next[i] == user
      modifies this, pool
      ensures Valid() && Now().phase == Draining(i + 1) && next == old(next) && steps == old(steps) + [ReturnNext]
      ensures Now().queued == old(Now()).queued && posts == old(posts) && actions == old(actions)
    {
      hide Inv, IsRun, P.Free, P.State.Ok;
      QueuedIsLive(Now());
      InvPool(Now());
      FreeUser(user);
      Do(ReturnNext);
    }

    /** One round of the loop over completions: call the record unless notified, free it after its last one. */
    method TakeOne()
      requires Valid() && Now().phase.Completing? && completions != []
      modifies this, pool
      ensures Valid() && Now().phase.Completing? && completions == old(completions)[1..] && old(steps) <= steps
      ensures old(Now()).queued <= Now().queued && Now().drained == old(Now()).drained && posts == old(posts)
    {
      hide Inv, IsRun, Take, Enabled, P.State.Ok;
      var c := completions[0];
      CallCompleted(c);
      FreeCompleted(c.id, !c.more);
    }

    method CallCompleted(c: Completion)
      requires Valid() && Now().phase.Completing? && completions != [] && completions[0] == c
      modifies this, pool
      ensures Valid() && Now().phase == InCompletion(c.id, !c.more) && completions == old(completions)[1..]
      ensures old(steps) <= steps && posts == old(posts)
      ensures old(Now()).queued <= Now().queued && Now().drained == old(Now()).drained
    {
      hide Inv, IsRun, P.State.Ok;
      CompletedIsLive(Now());
      completions := completions[1..];
      Do(TakeCompletion);
      if !c.notify {
        called := called + [callbacks[c.id]];
        UserCode(0);
      }
    }

    method FreeCompleted(user: nat, last: bool)
      requires Valid() && Now().phase == InCompletion(user, last)
      modifies this, pool
      ensures Valid() && Now().phase.Completing? && completions == old(completions)
      ensures old(steps) <= steps && posts == old(posts)
      ensures Now().queued == old(Now()).queued && Now().drained == old(Now()).drained
    {
      hide Inv, IsRun, P.Free, P.State.Ok;
      CompletedIsLive(Now());
      InvPool(Now());
      if last {
        FreeUser(user);
      }
      Do(ReturnCompletion);
    }

    /** The second half of a turn. */
    method TakeCompletions()
      requires Valid() && Now().phase.Idle? && next == [] && pool.count > 0
      modifies this, pool
      ensures Valid() && Now().phase.Idle? && completions == [] && old(steps) <= steps
      ensures old(Now()).queued <= Now().queued && Now().drained == old(Now()).drained
    {
      hide Inv, IsRun, P.State.Ok;
      Do(BeginCompletions);
      TakeAll();
      Do(EndCompletions);
    }

    /** reactor.c:268-279: the kernel is entered, and completions are taken while there are any. */
    method TakeAll()
      requires Valid() && Now().phase.Completing?
      modifies this, pool
      ensures Valid() && Now().phase.Completing? && completions == [] && old(steps) <= steps
      ensures old(Now()).queued <= Now().queued && Now().drained == old(Now()).drained
    {
      hide Inv, IsRun, Take, Enabled, P.State.Ok;
      KernelPosts();
      while true
        invariant Valid() && Now().phase.Completing? && old(steps) <= steps
        invariant old(Now()).queued <= Now().queued && Now().drained == old(Now()).drained
        decreases posts, |completions|
      {
        KernelPosts();
        if |completions| == 0 {
          break;
        }
        TakeOne();
      }
    }

    /**
     reactor_loop_once: every callback queued before the turn, or while the queue is drained, has
     been called when it ends, and no completion is left.
     */
    method LoopOnce()
      requires Valid() && Now().phase.Idle?
      modifies this, pool
      ensures Valid() && Now().phase.Idle? && completions == [] && old(steps) <= steps
      ensures old(Now()).queued <= Now().drained
    {
      hide Inv, IsRun;
      DrainNext();
      if pool.count > 0 {
        TakeCompletions();
      } else {
        NothingLive(Now());
      }
    }

    /** reactor_loop, followed for a number of turns: it ends when nothing is queued, in the kernel or completed. */
    method Run(turns: nat) returns (ended: bool)
      requires Valid() && Now().phase.Idle?
      modifies this, pool
      ensures Valid() && Now().phase.Idle? && old(steps) <= steps
      ensures ended <==> next == [] && completions == [] && kernel == {}
    {
      hide Inv, IsRun;
      var n := 0;
      while pool.count > 0 && n < turns
        invariant Valid() && Now().phase.Idle? && old(steps) <= steps
        decreases turns - n
      {
        LoopOnce();
        n := n + 1;
      }
      NothingLive(Now());
      ended := pool.count == 0;
    }
  }
}
