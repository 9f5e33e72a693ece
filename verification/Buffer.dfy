/** The growable byte buffer under the streams, queues and vectors: a byte sequence in an array. */
module Buffer {
  import opened Bytes
  import opened Words

  class Buffer {
    var base: array<Byte>
    var size: nat

    predicate Valid()
      reads this
    {
      size <= base.Length
    }

    ghost function Contents(): (s: seq<Byte>)
      reads this, base
      requires Valid()
      ensures |s| == size
    {
      base[..size]
    }

    constructor ()
      ensures Valid() && fresh(base) && Contents() == []
    {
      base := new Byte[0];
      size := 0;
    }

    /** Room for `capacity` bytes; growing rounds up to a power of two and keeps the contents. */
    method Reserve(capacity: Word)
      requires Valid() && capacity <= HALF_WORD
      modifies this
      ensures Valid() && Contents() == old(Contents()) && size == old(size)
      ensures capacity <= base.Length && (base == old(base) || fresh(base))
      ensures capacity <= old(base.Length) ==> base == old(base)
    {
      if capacity > base.Length {
        var rounded := RoundUp(capacity);
        var grown := new Byte[rounded](_ => 0);
        forall i | 0 <= i < size {
          grown[i] := base[i];
        }
        assert grown[..size] == base[..size];
        base := grown;
      }
    }

    /** Bytes that a larger size brings in are whatever the storage holds. */
    method Resize(n: Word)
      requires Valid() && n <= HALF_WORD
      modifies this
      ensures Valid() && size == n && (base == old(base) || fresh(base))
      ensures n <= old(size) ==> Contents() == old(Contents())[..n]
      ensures n >= old(size) ==> Contents()[..old(size)] == old(Contents())
    {
      if n > base.Length {
        Reserve(n);
      }
      size := n;
    }

    method Compact()
      requires Valid()
      modifies this
      ensures Valid() && Contents() == old(Contents()) && base.Length == size
    {
      if base.Length > size {
        var exact := new Byte[size](_ => 0);
        forall i | 0 <= i < size {
          exact[i] := base[i];
        }
        assert exact[..] == base[..size];
        base := exact;
      }
    }

    /** Makes room for n bytes at the end, which the caller fills in from position p on. */
    method Allocate(n: nat) returns (p: nat)
      requires Valid() && size + n <= HALF_WORD
      modifies this
      ensures Valid() && p == old(size) && size == p + n
      ensures Contents()[..p] == old(Contents()) && (base == old(base) || fresh(base))
    {
      Reserve(size + n);
      p := size;
      size := size + n;
    }

    method Insert(position: nat, d: seq<Byte>)
      requires Valid() && position <= size && size + |d| <= HALF_WORD
      modifies this, base
      ensures Valid() && (base == old(base) || fresh(base))
      ensures Contents() == old(Contents())[..position] + d + old(Contents())[position..]
    {
      ghost var was := Contents();
      Reserve(size + |d|);
      assert base[..position] == was[..position] && base[position..size] == was[position..];
      MoveUp(base, position, size, |d|);
      InsertedPrefix(base[..], position, d, size + |d|);
      Memcpy(base, position, d);
      size := size + |d|;
      assert base[..size] == base[..][..size];
    }

    method Erase(position: nat, n: nat)
      requires Valid() && position + n <= size
      modifies this, base
      ensures Valid() && base == old(base)
      ensures Contents() == old(Contents())[..position] + old(Contents())[position + n..]
    {
      Memmove(base, position, position + n, size - position - n);
      size := size - n;
    }

    method Clear()
      requires Valid()
      modifies `size
      ensures Valid() && Contents() == []
    {
      size := 0;
    }
  }

  lemma InsertedPrefix(s: seq<Byte>, position: nat, d: seq<Byte>, n: nat)
    requires position + |d| <= n <= |s|
    ensures (s[..position] + d + s[position + |d|..])[..n] == s[..position] + d + s[position + |d|..n]
  {
  }

  /** buffer.c:99-100: the bytes from position on make room for n more. */
  method MoveUp(base: array<Byte>, position: nat, size: nat, n: nat)
    requires position <= size && size + n <= base.Length
    modifies base
    ensures base[..position] == old(base[..position])
    ensures base[position + n..size + n] == old(base[position..size])
  {
    if position < size {
      Memmove(base, position + n, position, size - position);
    }
  }
}
