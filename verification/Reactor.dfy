/**
 The reactor core: operation records from the pool, callbacks queued for the next turn, operations
 in the kernel and their completions. A step is one action of user code, of the loop or of the
 kernel. Every record gets a serial number when it is allocated, because addresses are reused.
 */
module Reactor {
  import P = Pool

  datatype Record = Record(serial: nat, callback: nat)

  /** A completion may announce more to come, and may be a notification that calls nobody. */
  datatype Completion = Completion(id: nat, more: bool, notify: bool)

  /** Where the loop is: between turns, draining the next queue, or taking completions. */
  datatype Phase = Idle | Draining(i: nat) | InNext(i: nat) | Completing | InCompletion(id: nat, last: bool)

  datatype Call = Call(serial: nat, callback: nat)

  datatype State = State(
    pool: P.State, users: map<nat, Record>, next: seq<nat>, kernel: set<nat>,
    completions: seq<Completion>, phase: Phase,
    serials: nat, current: map<nat, nat>, log: seq<Call>, freed: seq<nat>, queued: seq<nat>, drained: seq<nat>)

  const EMPTY := State(P.EMPTY, map[], [], {}, [], Idle, 0, map[], [], [], [], [])

  datatype Step =
    | Submit(callback: nat)
    | Next(callback: nat)
    | Cancel(id: nat, callback: nat)
    | Complete(id: nat, more: bool, notify: bool)
    | BeginDrain | CallNext | ReturnNext | EndDrain
    | BeginCompletions | TakeCompletion | ReturnCompletion | EndCompletions

  /** User code runs between turns and inside callbacks. */
  predicate UserRuns(s: State) {
    s.phase.Idle? || s.phase.InNext? || s.phase.InCompletion?
  }

  predicate Enabled(s: State, step: Step) {
    match step
    case Submit(_) => UserRuns(s)
    case Next(_) => UserRuns(s)
    case Cancel(id, _) => UserRuns(s) && id in s.users
    case Complete(id, more, notify) => id in s.kernel
    case BeginDrain => s.phase.Idle? && s.next != []
    case CallNext => s.phase.Draining? && s.phase.i < |s.next| && s.next[s.phase.i] in s.users
    case ReturnNext => s.phase.InNext? && s.phase.i < |s.next| && s.next[s.phase.i] in s.users && s.pool.count > 0
    case EndDrain => s.phase.Draining? && s.phase.i == |s.next|
    case BeginCompletions => s.phase.Idle? && s.next == [] && s.pool.count > 0
    case TakeCompletion => s.phase.Completing? && s.completions != [] && s.completions[0].id in s.users
    case ReturnCompletion => s.phase.InCompletion? && s.phase.id in s.users && s.pool.count > 0
    case EndCompletions => s.phase.Completing? && s.completions == []
  }

  function Ids(ids: seq<nat>): set<nat> {
    set x | x in ids
  }

  /** The records of the next queue that are not freed yet. */
  function Waiting(s: State): seq<nat> {
    var from := if s.phase.Draining? || s.phase.InNext? then s.phase.i else 0;
    if from <= |s.next| then s.next[from..] else []
  }

  /** reactor_alloc_user */
  function Alloc(s: State, callback: nat): (State, nat) {
    var (pool, id) := P.Malloc(s.pool);
    (s.(pool := pool, users := s.users[id := Record(s.serials, callback)],
        serials := s.serials + 1, current := s.current[s.serials := callback]), id)
  }

  /** reactor_free_user */
  function Release(s: State, id: nat): State
    requires id in s.users && s.pool.count > 0
  {
    s.(pool := P.Free(s.pool, id), users := s.users - {id}, freed := s.freed + [s.users[id].serial])
  }

  function SubmitOperation(s: State, callback: nat): State {
    var (t, id) := Alloc(s, callback);
    t.(kernel := t.kernel + {id})
  }

  /** The callback that a null pointer stands for. */
  const NOTHING: nat := 0

  function Called(s: State, id: nat): State
    requires id in s.users
  {
    s.(log := s.log + [Call(s.users[id].serial, s.users[id].callback)])
  }

  function Take(s: State, step: Step): State
    requires Enabled(s, step)
  {
    match step
    case Submit(callback) => SubmitOperation(s, callback)
    case Next(callback) =>
      var (t, id) := Alloc(s, callback);
      t.(next := t.next + [id], queued := t.queued + [s.serials])
    case Cancel(id, callback) =>
      var serial := s.users[id].serial;
      var t := s.(users := s.users[id := Record(serial, callback)], current := s.current[serial := callback]);
      if id in Waiting(s) then t else SubmitOperation(t, NOTHING)
    case Complete(id, more, notify) =>
      s.(kernel := if more then s.kernel else s.kernel - {id},
         completions := s.completions + [Completion(id, more, notify)])
    case BeginDrain => s.(phase := Draining(0))
    case CallNext =>
      var id := s.next[s.phase.i];
      Called(s, id).(phase := InNext(s.phase.i), drained := s.drained + [s.users[id].serial])
    case ReturnNext => Release(s, s.next[s.phase.i]).(phase := Draining(s.phase.i + 1))
    case EndDrain => s.(next := [], phase := Idle)
    case BeginCompletions => s.(phase := Completing)
    case TakeCompletion =>
      var c := s.completions[0];
      (if c.notify then s else Called(s, c.id))
        .(completions := s.completions[1..], phase := InCompletion(c.id, !c.more))
    case ReturnCompletion =>
      (if s.phase.last then Release(s, s.phase.id) else s).(phase := Completing)
    case EndCompletions => s.(phase := Idle)
  }

  // ---------------------------------------------------------------- what holds at every moment

  /** Those of them that are not called yet. */
  function Uncalled(s: State): seq<nat> {
    var w := Waiting(s);
    if s.phase.InNext? && w != [] then w[1..] else w
  }

  /** Operations with their last completion waiting to be taken. */
  function Finals(cs: seq<Completion>): seq<nat> {
    if cs == [] then [] else (if cs[0].more then [] else [cs[0].id]) + Finals(cs[1..])
  }

  function Running(s: State): set<nat> {
    if s.phase.InCompletion? && s.phase.last then {s.phase.id} else {}
  }

  ghost predicate Distinct(ids: seq<nat>) {
    forall i, j :: 0 <= i < j < |ids| ==> ids[i] != ids[j]
  }

  /** Each live record is in exactly one of four sets. */
  ghost predicate Partition(live: set<nat>, waiting: set<nat>, kernel: set<nat>, finals: set<nat>, running: set<nat>) {
    && live == waiting + kernel + finals + running
    && waiting !! kernel && waiting !! finals && waiting !! running && kernel !! finals && kernel !! running
    && finals !! running
  }

  /** Every live record has exactly one owner: the next queue, the kernel, a last completion waiting or being taken. */
  ghost predicate OwnersOk(s: State) {
    && s.pool.Ok() && s.users.Keys == s.pool.live
    && Partition(s.pool.live, Ids(Waiting(s)), s.kernel, Ids(Finals(s.completions)), Running(s))
    && Distinct(Waiting(s)) && Distinct(Finals(s.completions)) && PhaseOk(s)
  }

  ghost predicate PhaseOk(s: State) {
    && (s.phase.Draining? || s.phase.InNext? ==> s.phase.i <= |s.next|)
    && (s.phase.InNext? ==> s.phase.i < |s.next|)
    && (s.phase.InCompletion? && !s.phase.last ==> s.phase.id in s.kernel || s.phase.id in Ids(Finals(s.completions)))
  }

  /** A completion that announces more comes before the last one of its operation. */
  ghost predicate MoreOk(cs: seq<Completion>, kernel: set<nat>) {
    cs != [] ==> (cs[0].more ==> cs[0].id in kernel || cs[0].id in Ids(Finals(cs[1..]))) && MoreOk(cs[1..], kernel)
  }

  /** Serials: one per record ever allocated, live or freed, never both and never freed twice. */
  ghost predicate SerialsOk(s: State) {
    && (forall id :: id in s.users ==> s.users[id].serial < s.serials && s.users[id].serial !in s.freed)
    && (forall a, b :: a in s.users && b in s.users && a != b ==> s.users[a].serial != s.users[b].serial)
    && Distinct(s.freed) && (forall i :: 0 <= i < |s.freed| ==> s.freed[i] < s.serials)
    && |s.freed| + s.pool.count == s.serials
    && (forall id :: id in s.users ==>
          s.users[id].serial in s.current && s.current[s.users[id].serial] == s.users[id].callback)
  }

  ghost function Serials(ids: seq<nat>, users: map<nat, Record>): seq<nat> {
    seq(|ids|, i requires 0 <= i < |ids| => if ids[i] in users then users[ids[i]].serial else 0)
  }

  /** The next queue: what was queued is what has been drained, then what is still to be called. */
  ghost predicate QueueOk(s: State) {
    s.queued == s.drained + Serials(Uncalled(s), s.users)
  }

  ghost predicate Inv(s: State) {
    OwnersOk(s) && MoreOk(s.completions, s.kernel) && SerialsOk(s) && QueueOk(s)
  }

  // ---------------------------------------------------------------- allocating and freeing records

  lemma AllocSerials(s: State, callback: nat)
    requires s.pool.Ok() && s.users.Keys == s.pool.live && SerialsOk(s)
    ensures var (t, id) := Alloc(s, callback);
            && t.pool.Ok() && id !in s.pool.live && t.pool.live == s.pool.live + {id}
            && t.users.Keys == t.pool.live && SerialsOk(t)
  {
    hide P.State.Ok, P.Malloc, SerialsOk;
    P.MallocOk(s.pool);
    P.MallocCounts(s.pool);
    var (t, id) := Alloc(s, callback);
    NewSerial(s, t, id, callback);
  }

  /** A new record takes the next serial. */
  lemma NewSerial(s: State, t: State, id: nat, callback: nat)
    requires SerialsOk(s) && id !in s.users && t.users == s.users[id := Record(s.serials, callback)]
    requires t.serials == s.serials + 1 && t.current == s.current[s.serials := callback] && t.freed == s.freed
    requires t.pool.count == s.pool.count + 1
    ensures SerialsOk(t)
  {
  }

  lemma ReleaseSerials(s: State, id: nat)
    requires s.pool.Ok() && s.users.Keys == s.pool.live && SerialsOk(s) && id in s.users
    ensures s.pool.count > 0
    ensures var t := Release(s, id);
            t.pool.Ok() && t.pool.live == s.pool.live - {id} && t.users.Keys == t.pool.live && SerialsOk(t)
  {
    hide P.State.Ok, SerialsOk;
    P.FreeOk(s.pool, id);
    assert Release(s, id).users.Keys == s.users.Keys - {id};
    LastSerial(s, Release(s, id), id);
  }

  /** A record that is freed is freed for the first time. */
  lemma LastSerial(s: State, t: State, id: nat)
    requires SerialsOk(s) && id in s.users && t.users == s.users - {id}
    requires t.serials == s.serials && t.current == s.current && t.freed == s.freed + [s.users[id].serial]
    requires t.pool.count == s.pool.count - 1
    ensures SerialsOk(t)
  {
    hide Distinct;
    DistinctSnoc(s.freed, s.users[id].serial);
  }

  lemma SerialsStay(ids: seq<nat>, users: map<nat, Record>, users': map<nat, Record>)
    requires forall i :: 0 <= i < |ids| ==>
               ids[i] in users && ids[i] in users' && users[ids[i]].serial == users'[ids[i]].serial
    ensures Serials(ids, users) == Serials(ids, users')
  {
  }

  lemma SerialsSnoc(ids: seq<nat>, id: nat, users: map<nat, Record>)
    requires id in users
    ensures Serials(ids + [id], users) == Serials(ids, users) + [users[id].serial]
  {
  }

  lemma WaitingLive(s: State)
    requires OwnersOk(s)
    ensures forall i :: 0 <= i < |Waiting(s)| ==> Waiting(s)[i] in s.users
    ensures forall i :: 0 <= i < |Uncalled(s)| ==> Uncalled(s)[i] in s.users && Uncalled(s)[i] in Waiting(s)
  {
    hide P.State.Ok, Finals, Distinct;
    assert forall i :: 0 <= i < |Waiting(s)| ==> Waiting(s)[i] in Ids(Waiting(s));
  }

  lemma IdsSnoc(ids: seq<nat>, id: nat)
    ensures Ids(ids + [id]) == Ids(ids) + {id}
  {
  }

  lemma DistinctSnoc(ids: seq<nat>, id: nat)
    requires Distinct(ids) && id !in ids
    ensures Distinct(ids + [id])
  {
  }

  lemma {:induction false} MoreOkGrows(cs: seq<Completion>, kernel: set<nat>, kernel': set<nat>)
    requires MoreOk(cs, kernel) && kernel <= kernel'
    ensures MoreOk(cs, kernel')
  {
    if cs != [] {
      MoreOkGrows(cs[1..], kernel, kernel');
    }
  }

  lemma FinalsStep(cs: seq<Completion>)
    ensures Finals(cs) == if cs == [] then [] else (if cs[0].more then [] else [cs[0].id]) + Finals(cs[1..])
  {
  }

  lemma {:induction false} FinalsSnoc(cs: seq<Completion>, c: Completion)
    ensures Finals(cs + [c]) == Finals(cs) + (if c.more then [] else [c.id])
    decreases |cs|
  {
    hide Finals;
    FinalsStep(cs);
    FinalsStep(cs + [c]);
    if cs == [] {
      assert (cs + [c])[1..] == [];
      FinalsStep([]);
    } else {
      assert (cs + [c])[1..] == cs[1..] + [c];
      FinalsSnoc(cs[1..], c);
    }
  }

  lemma {:induction false} MoreOkSnoc(cs: seq<Completion>, c: Completion, kernel: set<nat>)
    requires MoreOk(cs, kernel) && c.id in kernel
    ensures MoreOk(cs + [c], if c.more then kernel else kernel - {c.id})
    decreases |cs|
  {
    if cs == [] {
      assert cs + [c] == [c];
    } else {
      assert (cs + [c])[1..] == cs[1..] + [c];
      MoreOkSnoc(cs[1..], c, kernel);
      FinalsSnoc(cs[1..], c);
      if !c.more {
        IdsSnoc(Finals(cs[1..]), c.id);
      }
    }
  }

  lemma IdsCons(id: nat, ids: seq<nat>)
    requires Distinct([id] + ids)
    ensures Ids([id] + ids) == {id} + Ids(ids) && id !in Ids(ids) && Distinct(ids)
  {
    assert forall i :: 0 <= i < |ids| ==> ids[i] == ([id] + ids)[i + 1];
    assert ([id] + ids)[0] == id;
  }

  lemma SerialsSame(s: State, t: State)
    requires SerialsOk(s) && t.users == s.users && t.freed == s.freed && t.serials == s.serials
    requires t.pool.count == s.pool.count && t.current == s.current
    ensures SerialsOk(t)
  {
  }

  lemma NotInIds(ids: seq<nat>, id: nat)
    ensures id in ids <==> id in Ids(ids)
  {
  }

  // ---------------------------------------------------------------- how records change owners

  lemma JoinsKernel(live: set<nat>, w: set<nat>, k: set<nat>, f: set<nat>, r: set<nat>, id: nat)
    requires Partition(live, w, k, f, r) && id !in live
    ensures Partition(live + {id}, w, k + {id}, f, r)
  {
  }

  lemma JoinsWaiting(live: set<nat>, w: set<nat>, k: set<nat>, f: set<nat>, r: set<nat>, id: nat)
    requires Partition(live, w, k, f, r) && id !in live
    ensures Partition(live + {id}, w + {id}, k, f, r)
  {
  }

  lemma Finishes(live: set<nat>, w: set<nat>, k: set<nat>, f: set<nat>, r: set<nat>, id: nat)
    requires Partition(live, w, k, f, r) && id in k
    ensures Partition(live, w, k - {id}, f + {id}, r) && id !in f
  {
  }

  lemma LeavesWaiting(live: set<nat>, w: set<nat>, k: set<nat>, f: set<nat>, r: set<nat>, id: nat)
    requires Partition(live, w + {id}, k, f, r) && id !in w
    ensures Partition(live - {id}, w, k, f, r)
  {
  }

  lemma StartsRunning(live: set<nat>, w: set<nat>, k: set<nat>, f: set<nat>, id: nat)
    requires Partition(live, w, k, {id} + f, {}) && id !in f
    ensures Partition(live, w, k, f, {id})
  {
  }

  lemma StopsRunning(live: set<nat>, w: set<nat>, k: set<nat>, f: set<nat>, id: nat)
    requires Partition(live, w, k, f, {id})
    ensures Partition(live - {id}, w, k, f, {}) && id !in w
  {
  }

  // ---------------------------------------------------------------- each step

  lemma SubmitInv(s: State, callback: nat)
    requires Inv(s)
    ensures Inv(SubmitOperation(s, callback))
  {
    hide SerialsOk, Finals, MoreOk, Serials, P.State.Ok, Partition, Distinct, Ids;
    AllocSerials(s, callback);
    var (t, id) := Alloc(s, callback);
    var u := SubmitOperation(s, callback);
    assert Uncalled(u) == Uncalled(s) && Waiting(u) == Waiting(s) && Running(u) == Running(s);
    JoinsKernel(s.pool.live, Ids(Waiting(s)), s.kernel, Ids(Finals(s.completions)), Running(s), id);
    MoreOkGrows(s.completions, s.kernel, u.kernel);
    SerialsSame(t, u);
    WaitingLive(s);
    SerialsStay(Uncalled(s), s.users, u.users);
  }

  lemma NextInv(s: State, callback: nat)
    requires Inv(s) && Enabled(s, Next(callback))
    ensures Inv(Take(s, Next(callback)))
  {
    hide SerialsOk, Finals, MoreOk, Serials, Ids, Distinct, P.State.Ok, Partition;
    AllocSerials(s, callback);
    var (t, id) := Alloc(s, callback);
    var u := Take(s, Next(callback));
    SerialsSame(t, u);
    AppendsWaiting(s, u, id);
    WaitingLive(s);
    JoinsWaiting(s.pool.live, Ids(Waiting(s)), s.kernel, Ids(Finals(s.completions)), Running(s), id);
    assert id !in Waiting(s);
    IdsSnoc(Waiting(s), id);
    DistinctSnoc(Waiting(s), id);
    SerialsStay(Uncalled(s), s.users, u.users);
    SerialsSnoc(Uncalled(s), id, u.users);
    assert s.drained + Serials(Uncalled(s), s.users) + [s.serials]
           == s.drained + (Serials(Uncalled(s), s.users) + [s.serials]);
  }

  lemma AppendsWaiting(s: State, u: State, id: nat)
    requires u.next == s.next + [id] && u.phase == s.phase && PhaseOk(s) && !s.phase.Draining?
    ensures Waiting(u) == Waiting(s) + [id] && Uncalled(u) == Uncalled(s) + [id]
  {
    hide Finals, Ids;
  }

  lemma CancelInv(s: State, id: nat, callback: nat)
    requires Inv(s) && Enabled(s, Cancel(id, callback))
    ensures Inv(Take(s, Cancel(id, callback)))
  {
    hide Finals, MoreOk, Serials, Ids, Distinct, P.State.Ok, Partition;
    var serial := s.users[id].serial;
    var t := s.(users := s.users[id := Record(serial, callback)], current := s.current[serial := callback]);
    assert t.users.Keys == s.users.Keys;
    assert Waiting(t) == Waiting(s) && Uncalled(t) == Uncalled(s) && Running(t) == Running(s);
    WaitingLive(s);
    SerialsStay(Uncalled(s), s.users, t.users);
    assert Inv(t);
    if id !in Waiting(s) {
      SubmitInv(t, NOTHING);
    }
  }

  lemma CompleteInv(s: State, id: nat, more: bool, notify: bool)
    requires Inv(s) && Enabled(s, Complete(id, more, notify))
    ensures Inv(Take(s, Complete(id, more, notify)))
  {
    hide SerialsOk, Serials, P.State.Ok, MoreOk, Partition, Distinct, Ids, Finals;
    var c := Completion(id, more, notify);
    var t := Take(s, Complete(id, more, notify));
    var finals := Finals(s.completions);
    MoreOkSnoc(s.completions, c, s.kernel);
    FinalsSnoc(s.completions, c);
    SerialsSame(s, t);
    assert Waiting(t) == Waiting(s) && Uncalled(t) == Uncalled(s) && Running(t) == Running(s);
    if more {
      assert finals + [] == finals;
    } else {
      Finishes(s.pool.live, Ids(Waiting(s)), s.kernel, Ids(finals), Running(s), id);
      IdsSnoc(finals, id);
      NotInIds(finals, id);
      DistinctSnoc(finals, id);
    }
  }

  lemma CallNextInv(s: State)
    requires Inv(s) && Enabled(s, CallNext)
    ensures Inv(Take(s, CallNext))
  {
    hide SerialsOk, Finals, MoreOk, P.State.Ok, Partition, Distinct, Ids;
    var t := Take(s, CallNext);
    SerialsSame(s, t);
    var id := s.next[s.phase.i];
    assert Waiting(t) == Waiting(s) && Uncalled(s) == [id] + Uncalled(t) && Running(t) == Running(s);
    SerialsCons(id, Uncalled(t), s.users);
    assert s.drained + ([s.users[id].serial] + Serials(Uncalled(t), s.users))
           == t.drained + Serials(Uncalled(t), s.users);
  }

  lemma SerialsCons(id: nat, ids: seq<nat>, users: map<nat, Record>)
    requires id in users
    ensures Serials([id] + ids, users) == [users[id].serial] + Serials(ids, users)
  {
  }

  lemma ReturnNextInv(s: State)
    requires Inv(s) && Enabled(s, ReturnNext)
    ensures Inv(Take(s, ReturnNext))
  {
    hide SerialsOk, Finals, MoreOk, Serials, P.State.Ok, Partition, Distinct, Ids, Waiting, Uncalled;
    var id := s.next[s.phase.i];
    var t := Take(s, ReturnNext);
    ReleaseSerials(s, id);
    SerialsSame(Release(s, id), t);
    ReturnsFirst(s, t);
    FirstLeaves(s, id, Waiting(t));
    WaitingLive(s);
    SerialsStay(Uncalled(s), s.users, t.users);
  }

  lemma ReturnsFirst(s: State, t: State)
    requires s.phase.InNext? && s.phase.i < |s.next| && t.next == s.next && t.phase == Draining(s.phase.i + 1)
    ensures Waiting(s) == [s.next[s.phase.i]] + Waiting(t) && Uncalled(s) == Waiting(t) == Uncalled(t)
    ensures Running(s) == Running(t) == {}
  {
    hide Finals, Ids;
  }

  lemma FirstLeaves(s: State, id: nat, rest: seq<nat>)
    requires Distinct(Waiting(s)) && Waiting(s) == [id] + rest
    requires Partition(s.pool.live, Ids(Waiting(s)), s.kernel, Ids(Finals(s.completions)), {})
    ensures Partition(s.pool.live - {id}, Ids(rest), s.kernel, Ids(Finals(s.completions)), {})
    ensures Distinct(rest) && id !in rest
  {
    hide Waiting, Finals, Partition;
    IdsCons(id, rest);
    NotInIds(rest, id);
    assert Ids(rest) + {id} == {id} + Ids(rest);
    LeavesWaiting(s.pool.live, Ids(rest), s.kernel, Ids(Finals(s.completions)), {}, id);
  }

  lemma TakeCompletionInv(s: State)
    requires Inv(s) && Enabled(s, TakeCompletion)
    ensures Inv(Take(s, TakeCompletion))
  {
    hide SerialsOk, Serials, P.State.Ok, Partition, Distinct, Ids;
    var t := Take(s, TakeCompletion);
    SerialsSame(s, t);
    var c := s.completions[0];
    var rest := Finals(s.completions[1..]);
    assert Waiting(t) == Waiting(s) && Uncalled(t) == Uncalled(s) && Running(s) == {};
    if c.more {
      assert Finals(s.completions) == rest;
    } else {
      assert Finals(s.completions) == [c.id] + rest;
      IdsCons(c.id, rest);
      StartsRunning(s.pool.live, Ids(Waiting(s)), s.kernel, Ids(rest), c.id);
    }
  }

  lemma ReturnCompletionInv(s: State)
    requires Inv(s) && Enabled(s, ReturnCompletion)
    ensures Inv(Take(s, ReturnCompletion))
  {
    hide SerialsOk, Finals, MoreOk, Serials, P.State.Ok, Partition, Distinct, Ids;
    var t := Take(s, ReturnCompletion);
    assert Waiting(t) == Waiting(s) && Uncalled(t) == Uncalled(s) && Running(t) == {};
    WaitingLive(s);
    if s.phase.last {
      ReleaseSerials(s, s.phase.id);
      SerialsSame(Release(s, s.phase.id), t);
      StopsRunning(s.pool.live, Ids(Waiting(s)), s.kernel, Ids(Finals(s.completions)), s.phase.id);
      NotInIds(Waiting(s), s.phase.id);
      SerialsStay(Uncalled(s), s.users, t.users);
    } else {
      SerialsSame(s, t);
    }
  }

  lemma PhaseInv(s: State, step: Step)
    requires Inv(s) && Enabled(s, step)
    requires step.BeginDrain? || step.EndDrain? || step.BeginCompletions? || step.EndCompletions?
    ensures Inv(Take(s, step))
  {
    hide SerialsOk, Finals, MoreOk, P.State.Ok, Partition, Distinct, Ids, Serials, Waiting, Uncalled;
    var t := Take(s, step);
    SerialsSame(s, t);
    PhaseKeeps(s, step);
  }

  lemma PhaseKeeps(s: State, step: Step)
    requires Enabled(s, step)
    requires step.BeginDrain? || step.EndDrain? || step.BeginCompletions? || step.EndCompletions?
    ensures var t := Take(s, step); Waiting(t) == Waiting(s) && Uncalled(t) == Uncalled(s) && Running(t) == Running(s)
  {
    hide Alloc, Release, SubmitOperation, Called, Finals, Ids;
    var t := Take(s, step);
    if step.EndDrain? {
      assert Waiting(s) == [] == Waiting(t);
    } else {
      SameWaiting(s, t);
    }
  }

  lemma SameWaiting(s: State, t: State)
    requires t.next == s.next && !s.phase.InNext? && !t.phase.InNext?
    requires (if s.phase.Draining? then s.phase.i else 0) == (if t.phase.Draining? then t.phase.i else 0)
    ensures Waiting(t) == Waiting(s) && Uncalled(t) == Uncalled(s)
  {
  }

  /** Every action of user code, of the loop and of the kernel keeps the whole invariant. */
  lemma TakeInv(s: State, step: Step)
    requires Inv(s) && Enabled(s, step)
    ensures Inv(Take(s, step))
  {
    hide Inv, Take;
    match step
    case Submit(callback) => SubmitStep(s, callback);
    case Next(callback) => NextInv(s, callback);
    case Cancel(id, callback) => CancelInv(s, id, callback);
    case Complete(id, more, notify) => CompleteInv(s, id, more, notify);
    case CallNext => CallNextInv(s);
    case ReturnNext => ReturnNextInv(s);
    case TakeCompletion => TakeCompletionInv(s);
    case ReturnCompletion => ReturnCompletionInv(s);
    case _ => PhaseInv(s, step);
  }

  lemma SubmitStep(s: State, callback: nat)
    requires Inv(s) && Enabled(s, Submit(callback))
    ensures Inv(Take(s, Submit(callback)))
  {
    hide Inv;
    SubmitInv(s, callback);
  }

  // ---------------------------------------------------------------- whole runs

  ghost predicate IsRun(states: seq<State>, steps: seq<Step>) {
    && |states| == |steps| + 1 && states[0] == EMPTY
    && forall i :: 0 <= i < |steps| ==> Enabled(states[i], steps[i]) && states[i + 1] == Take(states[i], steps[i])
  }

  lemma EmptyInv()
    ensures Inv(EMPTY)
  {
    hide OwnersOk, SerialsOk, Serials, Finals, Waiting, Uncalled, Running;
    EmptyOwners();
    EmptySerials();
    EmptyQueue();
  }

  lemma EmptyOwners()
    ensures OwnersOk(EMPTY)
  {
    hide P.State.Ok;
    P.EmptyOk();
    NoOwners();
    assert Waiting(EMPTY) == [] && Running(EMPTY) == {};
  }

  lemma EmptySerials()
    ensures SerialsOk(EMPTY)
  {
  }

  lemma EmptyQueue()
    ensures QueueOk(EMPTY)
  {
    assert Uncalled(EMPTY) == [] && Serials([], EMPTY.users) == [];
  }

  lemma NoOwners()
    ensures Partition({}, Ids([]), {}, Ids(Finals([])), {}) && Distinct([]) && Distinct(Finals([]))
  {
  }

  lemma {:induction false} RunInv(states: seq<State>, steps: seq<Step>)
    requires IsRun(states, steps)
    ensures Inv(states[|steps|])
    decreases |steps|
  {
    hide Inv, Take, Enabled;
    if steps == [] {
      EmptyInv();
    } else {
      var n := |steps| - 1;
      RunInv(states[..n + 1], steps[..n]);
      TakeInv(states[n], steps[n]);
    }
  }

  /**
   The life of a record, over all runs: the number of live records is the pool's count, none of
   them lies on the free stack, every record ever allocated is live or was freed exactly once, and
   the callbacks of the next queue were called in the order in which they were queued, each once.
   */
  lemma RecordsLiveOnce(states: seq<State>, steps: seq<Step>)
    requires IsRun(states, steps)
    ensures var s := states[|steps|];
            && s.pool.count == |s.users| && (forall i :: 0 <= i < |s.pool.free| ==> s.pool.free[i] !in s.users)
            && Distinct(s.freed) && |s.freed| + |s.users| == s.serials
            && (forall id :: id in s.users ==> s.users[id].serial !in s.freed)
            && s.drained <= s.queued
            && (s.phase.Idle? && s.next == [] ==> s.drained == s.queued)
  {
    hide Finals, MoreOk, Partition, Ids;
    RunInv(states, steps);
    var s := states[|steps|];
    assert |s.users| == |s.users.Keys|;
  }

  /** reactor_loop returns when the pool is empty, and then nothing at all is outstanding. */
  lemma ExitsWhenNothingIsLive(states: seq<State>, steps: seq<Step>)
    requires IsRun(states, steps)
    ensures var s := states[|steps|];
            s.phase.Idle? ==> (s.pool.count == 0 <==> s.next == [] && s.kernel == {} && s.completions == [])
  {
    hide Inv, Take, Enabled;
    RunInv(states, steps);
    if states[|steps|].phase.Idle? {
      NothingLive(states[|steps|]);
    }
  }

  lemma NothingLive(s: State)
    requires Inv(s) && s.phase.Idle?
    ensures s.pool.count == 0 <==> s.next == [] && s.kernel == {} && s.completions == []
  {
    hide SerialsOk, QueueOk, Finals, Distinct, MoreOk, Ids;
    assert Waiting(s) == s.next && Running(s) == {};
    IdsEmpty(s.next);
    IdsEmpty(Finals(s.completions));
    CompletionLive(s.completions, s.kernel);
  }

  lemma IdsEmpty(ids: seq<nat>)
    ensures Ids(ids) == {} <==> ids == []
  {
    if ids != [] {
      assert ids[0] in Ids(ids);
    }
  }

  lemma CompletionLive(cs: seq<Completion>, kernel: set<nat>)
    requires MoreOk(cs, kernel)
    ensures cs == [] ==> Ids(Finals(cs)) == {}
    ensures cs != [] ==> kernel != {} || Ids(Finals(cs)) != {}
  {
    if cs != [] && cs[0].more {
      assert cs[0].id in kernel || cs[0].id in Ids(Finals(cs[1..]));
      assert Finals(cs) == Finals(cs[1..]);
    } else if cs != [] {
      assert Finals(cs)[0] == cs[0].id;
      assert cs[0].id in Ids(Finals(cs));
    }
  }

  /** The loop never meets a completion or a queued callback whose record is gone. */
  lemma NeverCallsFreedRecord(states: seq<State>, steps: seq<Step>)
    requires IsRun(states, steps)
    ensures var s := states[|steps|];
            && (s.phase.Draining? && s.phase.i < |s.next| ==> Enabled(s, CallNext))
            && (s.phase.InNext? ==> Enabled(s, ReturnNext))
            && (s.phase.Completing? && s.completions != [] ==> Enabled(s, TakeCompletion))
            && (s.phase.InCompletion? ==> Enabled(s, ReturnCompletion))
  {
    hide Inv, Take, Enabled;
    RunInv(states, steps);
    QueuedIsLive(states[|steps|]);
    CompletedIsLive(states[|steps|]);
  }

  lemma QueuedIsLive(s: State)
    requires Inv(s)
    ensures s.phase.Draining? && s.phase.i < |s.next| ==> Enabled(s, CallNext)
    ensures s.phase.InNext? ==> Enabled(s, ReturnNext)
  {
    hide SerialsOk, QueueOk, MoreOk, Finals, Distinct, P.State.Ok;
    if (s.phase.Draining? || s.phase.InNext?) && s.phase.i < |s.next| {
      assert Waiting(s)[0] == s.next[s.phase.i];
      assert Waiting(s)[0] in Ids(Waiting(s));
      LiveCounted(s, s.next[s.phase.i]);
    }
  }

  lemma LiveCounted(s: State, id: nat)
    requires s.pool.Ok() && id in s.pool.live
    ensures s.pool.count > 0
  {
  }

  lemma CompletedIsLive(s: State)
    requires Inv(s)
    ensures s.phase.Completing? && s.completions != [] ==> Enabled(s, TakeCompletion)
    ensures s.phase.InCompletion? ==> Enabled(s, ReturnCompletion)
  {
    hide SerialsOk, QueueOk, Distinct, Waiting, Uncalled, P.State.Ok;
    if s.phase.Completing? && s.completions != [] {
      HeadOwned(s.completions, s.kernel);
    }
    if s.phase.InCompletion? {
      LiveCounted(s, s.phase.id);
    }
  }

  lemma HeadOwned(cs: seq<Completion>, kernel: set<nat>)
    requires MoreOk(cs, kernel) && cs != []
    ensures cs[0].id in kernel || cs[0].id in Ids(Finals(cs))
  {
    if cs[0].more {
      assert Finals(cs) == Finals(cs[1..]);
    } else {
      assert Finals(cs)[0] == cs[0].id;
    }
  }

  // ---------------------------------------------------------------- cancellation

  /** A step calls a record's current callback, and only a cancel of that record changes it. */
  lemma StepCallsCurrent(s: State, step: Step, serial: nat)
    requires Inv(s) && Enabled(s, step) && serial < s.serials
    ensures var t := Take(s, step);
            && s.log <= t.log
            && (forall i :: |s.log| <= i < |t.log| && t.log[i].serial == serial ==>
                  serial in s.current && t.log[i].callback == s.current[serial])
            && (serial in s.current && !(step.Cancel? && s.users[step.id].serial == serial) ==>
                  serial in t.current && t.current[serial] == s.current[serial])
            && t.serials >= s.serials
  {
    hide OwnersOk, MoreOk, QueueOk, P.State.Ok;
  }

  /**
   Once an operation's callback has been replaced by a cancel, every later call for it goes to the
   replacement: the original never runs again.
   */
  lemma {:induction false} CancelledStaysCancelled(states: seq<State>, steps: seq<Step>, i: nat)
    requires IsRun(states, steps) && i < |steps| && steps[i].Cancel?
    requires var serial := states[i].users[steps[i].id].serial;
             forall k :: i < k < |steps| && steps[k].Cancel? ==> states[k].users[steps[k].id].serial != serial
    ensures var serial, s := states[i].users[steps[i].id].serial, states[|steps|];
            && serial < s.serials && serial in s.current && s.current[serial] == steps[i].callback
            && |states[i].log| <= |s.log|
            && forall k :: |states[i].log| <= k < |s.log| && s.log[k].serial == serial ==>
                 s.log[k].callback == steps[i].callback
    decreases |steps|
  {
    hide Inv;
    var n := |steps| - 1;
    var serial := states[i].users[steps[i].id].serial;
    RunInv(states[..n + 1], steps[..n]);
    if i == n {
      CancelSets(states[n], steps[n]);
    } else {
      CancelledStaysCancelled(states[..n + 1], steps[..n], i);
      StepCallsCurrent(states[n], steps[n], serial);
    }
  }

  lemma CancelSets(s: State, step: Step)
    requires Inv(s) && Enabled(s, step) && step.Cancel?
    ensures var serial, t := s.users[step.id].serial, Take(s, step);
            serial < t.serials && serial in t.current && t.current[serial] == step.callback && t.log == s.log
  {
    hide OwnersOk, MoreOk, QueueOk, P.State.Ok;
  }
}
