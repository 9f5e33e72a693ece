/**
 The item pool: objects come from chunks of 128 and go through a stack of free ones. An object is
 named by its position over all chunks.
 */
module Pool {

  const CHUNK_SIZE := 128

  datatype State = State(count: nat, chunks: nat, free: seq<nat>, live: set<nat>)
  {
    /** Every item of every chunk is either live or on the free stack, once. */
    ghost predicate Ok() {
      && count == |live|
      && (forall i :: 0 <= i < |free| ==> free[i] < chunks * CHUNK_SIZE && free[i] !in live)
      && (forall i, j :: 0 <= i < j < |free| ==> free[i] != free[j])
      && (forall x :: x in live ==> x < chunks * CHUNK_SIZE)
      && (forall x: nat :: x < chunks * CHUNK_SIZE ==> x in live || x in free)
    }
  }

  const EMPTY := State(0, 0, [], {})

  lemma EmptyOk()
    ensures EMPTY.Ok()
  {
  }

  /** The objects of a new chunk. */
  function Chunk(n: nat): (c: seq<nat>)
    ensures |c| == CHUNK_SIZE
  {
    seq(CHUNK_SIZE, i requires 0 <= i => n * CHUNK_SIZE + i)
  }

  function Malloc(s: State): (State, nat) {
    var free := if s.free == [] then Chunk(s.chunks) else s.free;
    var item := free[|free| - 1];
    (State(s.count + 1, if s.free == [] then s.chunks + 1 else s.chunks, free[..|free| - 1], s.live + {item}), item)
  }

  function Free(s: State, item: nat): State
    requires s.count > 0
  {
    State(s.count - 1, s.chunks, s.free + [item], s.live - {item})
  }

  lemma RefillOk(s: State)
    requires s.Ok() && s.free == []
    ensures s.(chunks := s.chunks + 1, free := Chunk(s.chunks)).Ok()
  {
    var t := s.(chunks := s.chunks + 1, free := Chunk(s.chunks));
    assert t.chunks * CHUNK_SIZE == s.chunks * CHUNK_SIZE + CHUNK_SIZE;
    forall x: nat | x < t.chunks * CHUNK_SIZE
      ensures x in t.live || x in t.free
    {
      if x >= s.chunks * CHUNK_SIZE {
        assert t.free[x - s.chunks * CHUNK_SIZE] == x;
      }
    }
  }

  /** An item handed out was not live before, and it is the one freed last if any was. */
  lemma MallocOk(s: State)
    requires s.Ok()
    ensures var (t, item) := Malloc(s);
            t.Ok() && item !in s.live && t.live == s.live + {item}
            && (s.free != [] ==> item == s.free[|s.free| - 1] && t.chunks == s.chunks)
  {
    if s.free == [] {
      RefillOk(s);
    }
    var full := if s.free == [] then s.(chunks := s.chunks + 1, free := Chunk(s.chunks)) else s;
    PopOk(full);
  }

  lemma MallocCounts(s: State)
    ensures Malloc(s).0.count == s.count + 1
  {
  }

  lemma PopOk(s: State)
    requires s.Ok() && s.free != []
    ensures var n := |s.free| - 1;
            var t := State(s.count + 1, s.chunks, s.free[..n], s.live + {s.free[n]});
            t.Ok() && s.free[n] !in s.live
  {
    var n := |s.free| - 1;
    var t := State(s.count + 1, s.chunks, s.free[..n], s.live + {s.free[n]});
    forall x: nat | x < s.chunks * CHUNK_SIZE
      ensures x in t.live || x in t.free
    {
      if x in s.free && x != s.free[n] {
        var i :| 0 <= i < |s.free| && s.free[i] == x;
        assert t.free[i] == x;
      }
    }
  }

  lemma FreeOk(s: State, item: nat)
    requires s.Ok() && item in s.live
    ensures s.count > 0 && Free(s, item).Ok() && Malloc(Free(s, item)).1 == item
  {
    assert |s.live - {item}| == |s.live| - 1;
    var t := Free(s, item);
    forall x: nat | x < s.chunks * CHUNK_SIZE
      ensures x in t.live || x in t.free
    {
      if x == item {
        assert t.free[|s.free|] == x;
      } else if x in s.free {
        var i :| 0 <= i < |s.free| && s.free[i] == x;
        assert t.free[i] == x;
      }
    }
  }

  class ObjectPool {
    var count: nat
    var chunks: nat
    var free: seq<nat>
    ghost var live: set<nat>

    ghost function Abstract(): State
      reads this
    {
      State(count, chunks, free, live)
    }

    constructor ()
      ensures Abstract() == EMPTY && EMPTY.Ok()
    {
      count, chunks, free, live := 0, 0, [], {};
    }

    /** pool_malloc: a new chunk is cut up when no item is free. */
    method Allocate() returns (item: nat)
      requires Abstract().Ok()
      modifies this
      ensures (Abstract(), item) == Malloc(old(Abstract())) && Abstract().Ok() && item !in old(live)
    {
      hide Chunk;
      MallocOk(Abstract());
      if |free| == 0 {
        NewChunk();
      }
      item := free[|free| - 1];
      free := free[..|free| - 1];
      count := count + 1;
      live := live + {item};
    }

    /** pool.c:33-38: the objects of a new chunk become free, one after the other. */
    method NewChunk()
      requires free == []
      modifies this`free, this`chunks
      ensures free == Chunk(old(chunks)) && |free| == 128 && chunks == old(chunks) + 1
    {
      var i := 0;
      while i < CHUNK_SIZE
        invariant 0 <= i <= CHUNK_SIZE && free == Chunk(chunks)[..i] && chunks == old(chunks)
      {
        free := free + [chunks * CHUNK_SIZE + i];
        i := i + 1;
      }
      assert free == Chunk(chunks);
      chunks := chunks + 1;
    }

    /** pool_free, for an item that is live. */
    method Release(item: nat)
      requires Abstract().Ok() && item in live
      modifies this
      ensures Abstract() == Free(old(Abstract()), item) && Abstract().Ok()
    {
      FreeOk(Abstract(), item);
      free := free + [item];
      count := count - 1;
      live := live - {item};
    }
  }
}
