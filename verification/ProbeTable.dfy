/**
 Linear probing on a cyclic table, as pure facts about a sequence of entries. A key of 0 marks an
 empty slot. Positions are compared by their cyclic distance, which keeps every proof linear.
 */
module ProbeTable {
  import opened Words

  datatype Entry = Entry(key: Word, value: Word)

  const EMPTY := Entry(0, 0)

  type Table = seq<Entry>

  predicate Full(t: Table, p: int)
    requires 0 <= p < |t|
  {
    t[p].key != 0
  }

  /** Steps from slot a forward to slot b on a cycle of n slots. */
  function Distance(n: nat, a: nat, b: nat): (d: nat)
    requires a < n && b < n
    ensures d < n && (d == 0 <==> a == b)
  {
    if a <= b then b - a else b - a + n
  }

  function Next(n: nat, p: nat): (q: nat)
    requires p < n
    ensures q < n
  {
    if p + 1 == n then 0 else p + 1
  }

  function Home(n: nat, hash: Word -> Word, key: Word): (h: nat)
    requires n > 0
    ensures h < n
  {
    hash(key) % n
  }

  /** No empty slot lies between the home of slot p's key and p itself. */
  ghost predicate Reachable(t: Table, hash: Word -> Word, p: nat)
    requires p < |t|
  {
    var h := Home(|t|, hash, t[p].key);
    forall x: nat {:trigger Full(t, x)} :: x < |t| && Distance(|t|, h, x) < Distance(|t|, h, p) ==> Full(t, x)
  }

  /** The probing invariant, for every filled slot but `hole` (pass |t| for no exception). */
  ghost predicate Probing(t: Table, hash: Word -> Word, hole: nat) {
    forall p: nat {:trigger Reachable(t, hash, p)} :: p < |t| && p != hole && Full(t, p) ==> Reachable(t, hash, p)
  }

  /**
   `slots` finds each key of `contents` in the table, the filled slots other than `hole` hold
   nothing else, and no key sits in two of them.
   */
  ghost predicate Represents(t: Table, contents: map<Word, Word>, slots: map<Word, nat>, hole: nat) {
    && slots.Keys == contents.Keys
    && (forall k :: k in slots ==> slots[k] < |t| && slots[k] != hole && k != 0 && t[slots[k]] == Entry(k, contents[k]))
    && (forall p: nat :: p < |t| && p != hole && Full(t, p) ==> t[p].key in slots && slots[t[p].key] == p)
    && (forall p: nat :: p < |t| && !Full(t, p) ==> t[p] == EMPTY)
  }

  function Filled(t: Table): (n: nat)
    ensures n <= |t|
  {
    if t == [] then 0 else (if t[0].key != 0 then 1 else 0) + Filled(t[1..])
  }

  lemma {:induction false} FilledUpdate(t: Table, p: nat, e: Entry)
    requires p < |t|
    ensures Filled(t[p := e]) == Filled(t) - (if Full(t, p) then 1 else 0) + (if e.key != 0 then 1 else 0)
  {
    if p == 0 {
      assert t[p := e][1..] == t[1..];
    } else {
      FilledUpdate(t[1..], p - 1, e);
      assert t[p := e][1..] == t[1..][p - 1 := e];
    }
  }

  lemma {:induction false} SomeEmpty(t: Table) returns (e: nat)
    requires Filled(t) < |t|
    ensures e < |t| && !Full(t, e)
  {
    if t[0].key == 0 {
      e := 0;
    } else {
      e := SomeEmpty(t[1..]);
      e := e + 1;
    }
  }

  lemma {:induction false} AllEmpty(t: Table)
    requires forall p: nat :: p < |t| ==> t[p] == EMPTY
    ensures Filled(t) == 0
  {
    if t != [] {
      AllEmpty(t[1..]);
    }
  }

  // ---------------------------------------------------------------- lookup and insertion

  /** The probe for `key` has passed, before slot i, only slots filled by other keys. */
  ghost predicate Probed(t: Table, hash: Word -> Word, key: Word, i: nat)
    requires i < |t|
  {
    var h := Home(|t|, hash, key);
    forall x: nat {:trigger Full(t, x)} :: x < |t| && Distance(|t|, h, x) < Distance(|t|, h, i) ==>
      Full(t, x) && t[x].key != key
  }

  /** A probe that passes a filled slot comes nearer to any empty slot, so it ends. */
  lemma ProbeStep(t: Table, hash: Word -> Word, key: Word, i: nat, e: nat)
    requires i < |t| && e < |t| && Probed(t, hash, key, i)
    requires Full(t, i) && t[i].key != key && !Full(t, e)
    ensures Probed(t, hash, key, Next(|t|, i))
    ensures Distance(|t|, Next(|t|, i), e) < Distance(|t|, i, e)
  {
    var h := Home(|t|, hash, key);
    assert Distance(|t|, h, e) >= Distance(|t|, h, i) by { assert !Full(t, e); }
  }

  /** An empty slot reached by the probe means that the key is absent. */
  lemma ProbeMiss(t: Table, hash: Word -> Word, contents: map<Word, Word>, slots: map<Word, nat>, key: Word, i: nat)
    requires i < |t| && Represents(t, contents, slots, |t|) && Probing(t, hash, |t|)
    requires !Full(t, i) && Probed(t, hash, key, i)
    ensures key !in contents
  {
    if key in contents {
      var p := slots[key];
      assert Reachable(t, hash, p);
      assert Full(t, p);
    }
  }

  /** Filling the empty slot that ends the probe for a new key keeps the invariant. */
  lemma InsertKeepsProbing(t: Table, hash: Word -> Word, contents: map<Word, Word>, slots: map<Word, nat>, e: Entry,
      i: nat)
    requires i < |t| && Represents(t, contents, slots, |t|) && Probing(t, hash, |t|)
    requires e.key != 0 && e.key !in contents && !Full(t, i) && Probed(t, hash, e.key, i)
    ensures Represents(t[i := e], contents[e.key := e.value], slots[e.key := i], |t|)
    ensures Probing(t[i := e], hash, |t|)
    ensures Filled(t[i := e]) == Filled(t) + 1
  {
    var t' := t[i := e];
    FilledUpdate(t, i, e);
    forall p: nat | p < |t| && Full(t', p)
      ensures Reachable(t', hash, p)
    {
      if p != i {
        assert Full(t, p) && Reachable(t, hash, p);
      }
      var h := Home(|t|, hash, t'[p].key);
      forall x: nat | x < |t| && Distance(|t|, h, x) < Distance(|t|, h, p)
        ensures Full(t', x)
      {
        assert x == i || Full(t, x);
      }
    }
  }

  // ---------------------------------------------------------------- backward-shift deletion

  /** The cyclic test of the backward shift: does the path from home k to slot j pass slot i? */
  predicate ShiftTest(i: nat, j: nat, k: nat) {
    (i < j && (k <= i || k > j)) || (i > j && (k <= i && k > j))
  }

  lemma ShiftTestIsOnPath(n: nat, i: nat, j: nat, k: nat)
    requires i < n && j < n && k < n && i != j
    ensures ShiftTest(i, j, k) <==> Distance(n, k, i) < Distance(n, k, j)
  {
  }

  /** Every filled slot strictly between the hole i and j (cyclically) can do without slot i. */
  ghost predicate Settled(t: Table, hash: Word -> Word, i: nat, j: nat)
    requires i < |t| && j < |t|
  {
    forall p: nat {:trigger Full(t, p)} :: p < |t| && 0 < Distance(|t|, i, p) < Distance(|t|, i, j) && Full(t, p) ==>
      Distance(|t|, Home(|t|, hash, t[p].key), i) >= Distance(|t|, Home(|t|, hash, t[p].key), p)
  }

  /**
   The state of the backward shift. Slot i is the gap: what it still shows is gone from the map
   or has moved. The scan is at j, on its way from i to the empty slot e.
   */
  ghost predicate Gap(t: Table, hash: Word -> Word, contents: map<Word, Word>, slots: map<Word, nat>, i: nat,
      j: nat, e: nat) {
    && i < |t| && j < |t| && e < |t|
    && Represents(t, contents, slots, i) && Probing(t, hash, i)
    && Full(t, i) && !Full(t, e)
    && Distance(|t|, i, j) <= Distance(|t|, i, e)
    && Settled(t, hash, i, j)
  }

  lemma GapOpens(t: Table, hash: Word -> Word, contents: map<Word, Word>, slots: map<Word, nat>, i: nat, e: nat)
    requires i < |t| && e < |t| && Represents(t, contents, slots, |t|) && Probing(t, hash, |t|)
    requires Full(t, i) && !Full(t, e)
    ensures Gap(t, hash, contents - {t[i].key}, slots - {t[i].key}, i, Next(|t|, i), e)
    ensures |contents - {t[i].key}| == |contents| - 1
  {
    var key := t[i].key;
    assert Full(t, i) && key in contents;
    assert (contents - {key}).Keys == contents.Keys - {key};
  }

  /** An entry that does not probe through the gap may stay where it is. */
  lemma GapScans(t: Table, hash: Word -> Word, contents: map<Word, Word>, slots: map<Word, nat>, i: nat, j: nat, e: nat)
    requires Gap(t, hash, contents, slots, i, j, e) && Full(t, j)
    requires i == j || !ShiftTest(i, j, Home(|t|, hash, t[j].key))
    ensures Gap(t, hash, contents, slots, i, Next(|t|, j), e)
    ensures Distance(|t|, Next(|t|, j), e) < Distance(|t|, j, e)
  {
    if i != j {
      ShiftTestIsOnPath(|t|, i, j, Home(|t|, hash, t[j].key));
    }
    assert j != e;
  }

  /** An entry that does is moved into the gap, and leaves the gap at its old slot. */
  lemma GapMoves(t: Table, hash: Word -> Word, contents: map<Word, Word>, slots: map<Word, nat>, i: nat, j: nat, e: nat)
    requires Gap(t, hash, contents, slots, i, j, e) && Full(t, j) && i != j
    requires ShiftTest(i, j, Home(|t|, hash, t[j].key))
    ensures Gap(t[i := t[j]], hash, contents, slots[t[j].key := i], j, Next(|t|, j), e)
    ensures Distance(|t|, Next(|t|, j), e) < Distance(|t|, j, e)
    ensures Filled(t[i := t[j]]) == Filled(t)
  {
    hide Represents, Probing, Filled, Home;
    FilledUpdate(t, i, t[j]);
    ShiftTestIsOnPath(|t|, i, j, Home(|t|, hash, t[j].key));
    MovedRepresents(t, contents, slots, i, j);
    MovedProbing(t, hash, i, j);
    assert j != e;
  }

  lemma MovedRepresents(t: Table, contents: map<Word, Word>, slots: map<Word, nat>, i: nat, j: nat)
    requires i < |t| && j < |t| && i != j && Full(t, i) && Full(t, j) && Represents(t, contents, slots, i)
    ensures Represents(t[i := t[j]], contents, slots[t[j].key := i], j)
  {
  }

  lemma MovedProbing(t: Table, hash: Word -> Word, i: nat, j: nat)
    requires i < |t| && j < |t| && i != j && Full(t, i) && Full(t, j) && Probing(t, hash, i)
    requires Distance(|t|, Home(|t|, hash, t[j].key), i) < Distance(|t|, Home(|t|, hash, t[j].key), j)
    ensures Probing(t[i := t[j]], hash, j)
  {
    hide Home;
    var t' := t[i := t[j]];
    forall p: nat | p < |t| && p != j && Full(t', p)
      ensures Reachable(t', hash, p)
    {
      var q := if p == i then j else p;
      assert Full(t, q) && Reachable(t, hash, q);
      var h := Home(|t|, hash, t'[p].key);
      forall x: nat | x < |t| && Distance(|t|, h, x) < Distance(|t|, h, p)
        ensures Full(t', x)
      {
        assert Full(t, x);
      }
    }
  }

  /** Once the scan meets an empty slot, emptying the gap leaves a proper table. */
  lemma GapCloses(t: Table, hash: Word -> Word, contents: map<Word, Word>, slots: map<Word, nat>, i: nat, j: nat,
      e: nat)
    requires Gap(t, hash, contents, slots, i, j, e) && !Full(t, j)
    ensures Represents(t[i := EMPTY], contents, slots, |t|)
    ensures Probing(t[i := EMPTY], hash, |t|)
    ensures Filled(t[i := EMPTY]) == Filled(t) - 1
  {
    hide Probing, Filled;
    FilledUpdate(t, i, EMPTY);
    ClearedProbing(t, hash, i, j);
  }

  lemma ClearedProbing(t: Table, hash: Word -> Word, i: nat, j: nat)
    requires i < |t| && j < |t| && Full(t, i) && !Full(t, j)
    requires Probing(t, hash, i) && Settled(t, hash, i, j)
    ensures Probing(t[i := EMPTY], hash, |t|)
  {
    hide Home;
    var t' := t[i := EMPTY];
    forall p: nat | p < |t| && Full(t', p)
      ensures Reachable(t', hash, p)
    {
      assert p != i && Full(t, p) && Reachable(t, hash, p);
      var h := Home(|t|, hash, t'[p].key);
      forall x: nat | x < |t| && Distance(|t|, h, x) < Distance(|t|, h, p)
        ensures Full(t', x)
      {
        assert Full(t, x);
      }
    }
  }

  // ---------------------------------------------------------------- rehash

  /** The part of the map that a left-to-right walk over the table has met before slot i. */
  ghost function Below(contents: map<Word, Word>, slots: map<Word, nat>, i: nat): map<Word, Word> {
    map k | k in contents && k in slots && slots[k] < i :: contents[k]
  }

  lemma BelowStarts(contents: map<Word, Word>, slots: map<Word, nat>)
    ensures Below(contents, slots, 0) == map[]
  {
  }

  lemma BelowSkips(t: Table, contents: map<Word, Word>, slots: map<Word, nat>, i: nat)
    requires i < |t| && Represents(t, contents, slots, |t|) && !Full(t, i)
    ensures Below(contents, slots, i + 1) == Below(contents, slots, i)
  {
  }

  lemma BelowAdds(t: Table, contents: map<Word, Word>, slots: map<Word, nat>, i: nat)
    requires i < |t| && Represents(t, contents, slots, |t|) && Full(t, i)
    ensures t[i].key !in Below(contents, slots, i)
    ensures Below(contents, slots, i + 1) == Below(contents, slots, i)[t[i].key := t[i].value]
    ensures |Below(contents, slots, i)| < |contents|
  {
    hide Represents;
    SlotOf(t, contents, slots, i);
    forall k | k in slots && slots[k] == i
      ensures k == t[i].key
    {
      SlotOwner(t, contents, slots, k);
    }
    BelowSmaller(contents, slots, i, t[i].key);
  }

  lemma SlotOf(t: Table, contents: map<Word, Word>, slots: map<Word, nat>, i: nat)
    requires i < |t| && Represents(t, contents, slots, |t|) && Full(t, i)
    ensures t[i].key in slots && t[i].key in contents && slots[t[i].key] == i && contents[t[i].key] == t[i].value
  {
  }

  lemma SlotOwner(t: Table, contents: map<Word, Word>, slots: map<Word, nat>, k: Word)
    requires Represents(t, contents, slots, |t|) && k in slots
    ensures slots[k] < |t| && t[slots[k]].key == k
  {
  }

  lemma BelowSmaller(contents: map<Word, Word>, slots: map<Word, nat>, i: nat, key: Word)
    requires key in contents && key !in Below(contents, slots, i)
    ensures |Below(contents, slots, i)| < |contents|
  {
    var met, rest := Below(contents, slots, i).Keys, contents.Keys - {key};
    assert |rest| == |contents.Keys| - 1;
    assert met <= rest;
    SubsetSmaller(met, rest);
  }

  lemma BelowEnds(t: Table, contents: map<Word, Word>, slots: map<Word, nat>)
    requires Represents(t, contents, slots, |t|)
    ensures Below(contents, slots, |t|) == contents
  {
  }

  lemma {:induction false} SubsetSmaller(a: set<Word>, b: set<Word>)
    requires a <= b
    ensures |a| <= |b|
    decreases b
  {
    if a != {} {
      var x :| x in a;
      SubsetSmaller(a - {x}, b - {x});
    }
  }
}
