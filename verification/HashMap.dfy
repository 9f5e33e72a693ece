/**
 The open-addressing hash map: a power-of-two array of entries, probed linearly, at most half
 full, with backward-shift deletion. Every method is tied to a finite map `contents`.
 */
module HashMap {
  import opened Words
  import opened ProbeTable

  const CAPACITY_MIN := 16

  /** The largest element count whose doubled capacity still fits a size. */
  const COUNT_MAX := 0x4000_0000_0000_0000

  class Map {
    const hash: Word -> Word
    var elements: array<Entry>
    var elementsCount: nat
    var elementsCapacity: nat
    ghost var contents: map<Word, Word>
    ghost var slots: map<Word, nat>

    ghost predicate Valid()
      reads this, elements
    {
      && elements.Length == elementsCapacity
      && IsPowerOfTwo(elementsCapacity) && elementsCapacity <= HALF_WORD
      && Represents(elements[..], contents, slots, elementsCapacity)
      && Probing(elements[..], hash, elementsCapacity)
      && elementsCount == |contents| == Filled(elements[..])
      && 2 * elementsCount <= elementsCapacity
    }

    constructor (hash: Word -> Word)
      ensures Valid() && fresh(elements)
      ensures this.hash == hash && contents == map[] && elementsCapacity == 16
    {
      this.hash := hash;
      elements := new Entry[0];
      elementsCount, elementsCapacity := 0, 0;
      contents, slots := map[], map[];
      new;
      assert CAPACITY_MIN == Pow2(4);
      Rehash(CAPACITY_MIN);
    }

    /** The stack-allocated map of a rehash: `capacity` empty slots. */
    constructor Blank(hash: Word -> Word, capacity: nat)
      requires IsPowerOfTwo(capacity) && capacity <= HALF_WORD
      ensures Valid() && fresh(elements)
      ensures this.hash == hash && contents == map[] && elementsCapacity == capacity
    {
      this.hash := hash;
      elements := new Entry[capacity];
      elementsCount, elementsCapacity := 0, capacity;
      contents, slots := map[], map[];
      new;
      for i := 0 to elementsCapacity
        invariant elements.Length == elementsCapacity == capacity && fresh(elements)
        invariant elementsCount == 0 && contents == map[] && slots == map[]
        invariant forall p :: 0 <= p < i ==> elements[p] == EMPTY
      {
        elements[i] := EMPTY;
      }
      AllEmpty(elements[..]);
    }

    /** Holds exactly while the elements are those of a valid map, or there are none at all. */
    ghost predicate ValidOrBlank()
      reads this, elements
    {
      || Valid()
      || (elements.Length == 0 && elementsCapacity == 0 && elementsCount == 0 && contents == map[] && slots == map[])
    }

    method Rehash(size: Word)
      requires ValidOrBlank() && 1 <= size <= HALF_WORD && 2 * elementsCount <= size
      modifies this
      ensures Valid() && fresh(elements)
      ensures contents == old(contents) && size <= elementsCapacity && LeastPower(elementsCapacity, size)
      ensures IsPowerOfTwo(size) ==> elementsCapacity == size
      decreases 4
    {
      hide Represents, Probing, Filled;
      var capacity := RoundUp(size);
      var rehashed := new Map.Blank(hash, capacity);
      if elementsCapacity > 0 {
        CopyInto(rehashed);
      }
      elements := rehashed.elements;
      elementsCount := rehashed.elementsCount;
      elementsCapacity := rehashed.elementsCapacity;
      contents, slots := rehashed.contents, rehashed.slots;
    }

    /** map.c:53-55: insert every element of this map into an empty one with room for all of them. */
    method CopyInto(rehashed: Map)
      requires Valid() && rehashed.Valid() && rehashed != this && rehashed.elements != elements
      requires rehashed.hash == hash && rehashed.contents == map[]
      requires 2 * |contents| <= rehashed.elementsCapacity
      modifies rehashed, rehashed.elements
      ensures rehashed.Valid() && rehashed.contents == contents
      ensures rehashed.elements == old(rehashed.elements) && rehashed.elementsCapacity == old(rehashed.elementsCapacity)
      decreases 3, 1
    {
      hide Represents, Probing, IsPowerOfTwo, Filled, Below;
      BelowStarts(contents, slots);
      for i := 0 to elementsCapacity
        invariant rehashed.Valid() && unchanged(this) && unchanged(elements)
        invariant rehashed.elements == old(rehashed.elements)
                  && rehashed.elementsCapacity == old(rehashed.elementsCapacity)
        invariant rehashed.contents == Below(contents, slots, i)
      {
        CopyEntry(rehashed, i);
      }
      BelowEnds(elements[..], contents, slots);
    }

    /** One round: an empty slot is passed over, and there is room for the element of a filled one. */
    method CopyEntry(rehashed: Map, i: nat)
      requires Valid() && rehashed.Valid() && rehashed != this && rehashed.elements != elements && i < elementsCapacity
      requires rehashed.hash == hash && rehashed.contents == Below(contents, slots, i)
      requires 2 * |contents| <= rehashed.elementsCapacity
      modifies rehashed, rehashed.elements
      ensures rehashed.Valid() && rehashed.contents == Below(contents, slots, i + 1)
      ensures rehashed.elements == old(rehashed.elements) && rehashed.elementsCapacity == old(rehashed.elementsCapacity)
      decreases 3, 0
    {
      hide Represents, Probing, IsPowerOfTwo, Filled, Below;
      if elements[i].key != 0 {
        BelowAdds(elements[..], contents, slots, i);
        rehashed.Insert(elements[i].key, elements[i].value);
      } else {
        BelowSkips(elements[..], contents, slots, i);
      }
    }

    /** Afterwards `size` elements fit without a further rehash. */
    method Reserve(size: Word)
      requires Valid() && size <= COUNT_MAX
      modifies this
      ensures Valid() && contents == old(contents)
      ensures 2 * size <= elementsCapacity
      ensures 2 * size > old(elementsCapacity) ==> LeastPower(elementsCapacity, 2 * size)
      ensures elements == old(elements) || fresh(elements)
      ensures 2 * size <= old(elementsCapacity) ==> unchanged(this)
      decreases if 2 * size > elementsCapacity then 5 else 1
    {
      if 2 * size > elementsCapacity {
        Rehash(2 * size);
      }
    }

    /** The slot that holds the key, or the empty slot at which its probe ends. */
    method At(key: Word) returns (i: nat)
      requires Valid()
      ensures i < elements.Length
      ensures key in contents ==> key != 0 && elements[i] == Entry(key, contents[key]) && slots[key] == i
      ensures key !in contents ==> elements[i] == EMPTY
      ensures key !in contents ==> Probed(elements[..], hash, key, i)
    {
      ghost var t := elements[..];
      ghost var e := SomeEmpty(t);
      i := Mask(hash(key), elementsCapacity);
      while true
        invariant i < elementsCapacity && Probed(t, hash, key, i)
        decreases Distance(elementsCapacity, i, e)
      {
        if elements[i].key == 0 {
          ProbeMiss(t, hash, contents, slots, key, i);
          return;
        }
        if elements[i].key == key {
          assert Full(t, i);
          return;
        }
        ProbeStep(t, hash, key, i, e);
        i := Mask(i + 1, elementsCapacity);
      }
    }

    /** Put-if-absent: an element whose key is present already is not stored. */
    method Insert(key: Word, value: Word)
      requires Valid() && key != 0 && |contents| < COUNT_MAX
      modifies this, elements
      ensures Valid() && contents == if key in old(contents) then old(contents) else old(contents)[key := value]
      ensures elements == old(elements) || fresh(elements)
      ensures 2 * (|old(contents)| + 1) <= old(elementsCapacity) ==>
                elements == old(elements) && elementsCapacity == old(elementsCapacity)
      decreases if 2 * (elementsCount + 1) > elementsCapacity then 6 else 2
    {
      hide Represents, Probing, Probed, IsPowerOfTwo;
      Reserve(elementsCount + 1);
      var i := At(key);
      if elements[i].key == 0 {
        ghost var t, e := elements[..], Entry(key, value);
        InsertKeepsProbing(t, hash, contents, slots, e, i);
        elements[i] := Entry(key, value);
        assert elements[..] == t[i := e];
        elementsCount := elementsCount + 1;
        contents, slots := contents[key := value], slots[key := i];
      }
    }

    /** Erasing an absent key, or the empty marker itself, changes nothing. */
    method Erase(key: Word)
      requires Valid()
      modifies this, elements
      ensures Valid() && contents == old(contents) - {key}
      ensures elements == old(elements) && elementsCapacity == old(elementsCapacity)
    {
      hide Represents, Probing, Probed, IsPowerOfTwo;
      var i := At(key);
      if elements[i].key == 0 {
        assert contents - {key} == contents;
        return;
      }
      elementsCount := elementsCount - 1;
      BackwardShift(i);
    }

    /** map.c:149-165: close the gap at slot i by shifting later entries of the cluster back. */
    method BackwardShift(start: nat)
      requires elements.Length == elementsCapacity && start < elementsCapacity
      requires IsPowerOfTwo(elementsCapacity) && elementsCapacity <= HALF_WORD
      requires Represents(elements[..], contents, slots, elementsCapacity)
               && Probing(elements[..], hash, elementsCapacity)
      requires elementsCount + 1 == |contents| == Filled(elements[..]) && 2 * elementsCount + 2 <= elementsCapacity
      requires elements[start].key != 0
      modifies elements, `contents, `slots
      ensures Valid() && contents == old(contents) - {old(elements[start].key)}
    {
      hide Represents, Probing, Gap, IsPowerOfTwo, LeastPower, Filled, Distance, Settled;
      var i, j := start, start;
      ghost var n := elementsCapacity;
      ghost var e := SomeEmpty(elements[..]);
      GapOpens(elements[..], hash, contents, slots, start, e);
      contents, slots := contents - {elements[start].key}, slots - {elements[start].key};
      while true
        invariant elements.Length == elementsCapacity == n && i < n && j < n
        invariant Gap(elements[..], hash, contents, slots, i, Next(n, j), e)
        invariant Filled(elements[..]) == elementsCount + 1
        invariant contents == old(contents) - {old(elements[start].key)}
        decreases Distance(n, Next(n, j), e)
      {
        ghost var t := elements[..];
        j := Mask(j + 1, elementsCapacity);
        if elements[j].key == 0 {
          break;
        }
        var k := Mask(hash(elements[j].key), elementsCapacity);
        if ShiftTest(i, j, k) {
          GapMoves(t, hash, contents, slots, i, j, e);
          slots := slots[elements[j].key := i];
          elements[i] := elements[j];
          assert elements[..] == t[i := t[j]];
          i := j;
        } else {
          GapScans(t, hash, contents, slots, i, j, e);
        }
      }
      ghost var t := elements[..];
      GapCloses(t, hash, contents, slots, i, j, e);
      elements[i] := EMPTY;
      assert elements[..] == t[i := EMPTY];
    }

    /** mapi_at: the value of the entry at the probe's end, which is 0 for an absent key. */
    method Get(key: Word) returns (value: Word)
      requires Valid()
      ensures value == if key in contents then contents[key] else 0
    {
      hide Represents, Probing, Probed, IsPowerOfTwo;
      var i := At(key);
      value := elements[i].value;
    }

    method Clear()
      requires Valid()
      modifies this
      ensures Valid() && fresh(elements) && contents == map[] && elementsCapacity == 16
    {
      elements := new Entry[0];
      elementsCount, elementsCapacity := 0, 0;
      contents, slots := map[], map[];
      assert CAPACITY_MIN == Pow2(4);
      Rehash(CAPACITY_MIN);
    }

    /** Any sequence of operations acts on the table as it does on a finite map. */
    method Run(ops: seq<Operation>)
      requires Valid() && |contents| + |ops| <= COUNT_MAX
      requires forall op :: op in ops ==> op.Allowed()
      modifies this, elements
      ensures Valid() && contents == ApplyAll(old(contents), ops)
      ensures elements == old(elements) || fresh(elements)
    {
      hide Represents, Probing, IsPowerOfTwo;
      for i := 0 to |ops|
        invariant Valid() && (elements == old(elements) || fresh(elements))
        invariant ApplyAll(contents, ops[i..]) == ApplyAll(old(contents), ops)
        invariant |contents| <= |old(contents)| + i
      {
        assert ops[i] in ops && ops[i].Allowed();
        assert ops[i..][0] == ops[i] && ops[i..][1..] == ops[i + 1..];
        match ops[i]
        case Insert(key, value) => Insert(key, value);
        case Erase(key) =>
          SubsetSmaller((contents - {key}).Keys, contents.Keys);
          Erase(key);
        case Reserve(size) => Reserve(size);
        case Clear => Clear();
      }
    }
  }

  datatype Operation = Insert(key: Word, value: Word) | Erase(key: Word) | Reserve(size: Word) | Clear
  {
    /** The callers' side of the contract: no element is the empty marker, and sizes can be doubled. */
    predicate Allowed() {
      && (Insert? ==> key != 0)
      && (Reserve? ==> size <= COUNT_MAX)
    }
  }

  function Apply(m: map<Word, Word>, op: Operation): map<Word, Word> {
    match op
    case Insert(key, value) => if key in m then m else m[key := value]
    case Erase(key) => m - {key}
    case Reserve(_) => m
    case Clear => map[]
  }

  function ApplyAll(m: map<Word, Word>, ops: seq<Operation>): map<Word, Word>
    decreases |ops|
  {
    if ops == [] then m else ApplyAll(Apply(m, ops[0]), ops[1..])
  }

  /** Operation i of the sequence removes the key. */
  predicate Removes(ops: seq<Operation>, i: nat, key: Word)
    requires i < |ops|
  {
    ops[i].Clear? || ops[i] == Operation.Erase(key)
  }

  /** Operation i stored the value that is looked up after the whole sequence. */
  ghost predicate Decides(ops: seq<Operation>, i: nat, key: Word, value: Word) {
    && i < |ops| && ops[i] == Operation.Insert(key, value)
    && (forall j :: i < j < |ops| ==> !Removes(ops, j, key))
    && (forall j :: 0 <= j < i && ops[j].Insert? && ops[j].key == key ==> exists r :: j < r < i && Removes(ops, r, key))
  }

  /**
   What the map holds after any run, told without running it: a key has a value exactly when some
   insert of it is not followed by a removal and every earlier insert of it is undone before.
   */
  lemma {:induction false} FirstInsertWins(ops: seq<Operation>, key: Word, value: Word)
    ensures key in ApplyAll(map[], ops) && ApplyAll(map[], ops)[key] == value <==>
            exists i: nat :: Decides(ops, i, key, value)
  {
    hide Decides, Removes;
    if key in ApplyAll(map[], ops) && ApplyAll(map[], ops)[key] == value {
      var i := Decider(ops, key, value);
    }
    if i: nat :| Decides(ops, i, key, value) {
      DecidedValue(ops, i, key, value);
    }
  }

  /** A value that is there was put there by an operation that decides. */
  lemma {:induction false} Decider(ops: seq<Operation>, key: Word, value: Word) returns (i: nat)
    requires key in ApplyAll(map[], ops) && ApplyAll(map[], ops)[key] == value
    ensures Decides(ops, i, key, value)
    decreases |ops|
  {
    var n := |ops| - 1;
    var init, last := ops[..n], ops[n];
    assert ops == init + [last];
    ApplyAllSnoc(map[], init, last);
    if key in ApplyAll(map[], init) {
      i := Decider(init, key, value);
      assert forall j :: 0 <= j < n ==> Removes(ops, j, key) == Removes(init, j, key);
    } else {
      i := n;
      AbsentMeansRemoved(init, key);
      assert forall j :: 0 <= j < n ==> Removes(ops, j, key) == Removes(init, j, key);
    }
  }

  /** And an operation that decides has put its value there. */
  lemma {:induction false} DecidedValue(ops: seq<Operation>, i: nat, key: Word, value: Word)
    requires Decides(ops, i, key, value)
    ensures key in ApplyAll(map[], ops) && ApplyAll(map[], ops)[key] == value
    decreases |ops|
  {
    var n := |ops| - 1;
    var init, last := ops[..n], ops[n];
    assert ops == init + [last];
    ApplyAllSnoc(map[], init, last);
    assert forall j :: 0 <= j < n ==> Removes(ops, j, key) == Removes(init, j, key);
    if i < n {
      assert !Removes(ops, n, key);
      DecidedValue(init, i, key, value);
    } else if key in ApplyAll(map[], init) {
      var k := Decider(init, key, ApplyAll(map[], init)[key]);
      assert false;
    }
  }

  lemma {:induction false} AbsentMeansRemoved(ops: seq<Operation>, key: Word)
    requires key !in ApplyAll(map[], ops)
    ensures forall j :: 0 <= j < |ops| && ops[j].Insert? && ops[j].key == key ==>
              exists r :: j < r < |ops| && Removes(ops, r, key)
  {
    if ops == [] {
      return;
    }
    var n := |ops| - 1;
    var init, last := ops[..n], ops[n];
    assert ops == init + [last];
    ApplyAllSnoc(map[], init, last);
    if key in ApplyAll(map[], init) {
      assert Removes(ops, n, key);
    } else {
      AbsentMeansRemoved(init, key);
      assert forall j :: 0 <= j < n ==> Removes(ops, j, key) == Removes(init, j, key);
    }
  }

  lemma {:induction false} ApplyAllSnoc(m: map<Word, Word>, ops: seq<Operation>, op: Operation)
    ensures ApplyAll(m, ops + [op]) == Apply(ApplyAll(m, ops), op)
    decreases |ops|
  {
    if ops != [] {
      assert (ops + [op])[1..] == ops[1..] + [op];
      ApplyAllSnoc(Apply(m, ops[0]), ops[1..], op);
    }
  }
}
