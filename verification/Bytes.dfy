/** Bytes, the characters the protocol code names, and overlapping block moves. */
module Bytes {

  type Byte = b: nat | b < 256

  const HT: Byte := 9
  const LF: Byte := 10
  const CR: Byte := 13
  const SP: Byte := 32
  const COLON: Byte := 58
  const DEL: Byte := 127

  function Ascii(s: string): (r: seq<Byte>)
    requires forall i :: 0 <= i < |s| ==> s[i] as int < 256
    ensures |r| == |s|
    ensures forall i :: 0 <= i < |s| ==> r[i] == s[i] as int
  {
    seq(|s|, i requires 0 <= i < |s| => s[i] as int)
  }

  /** decode_hex: the value of a hexadecimal digit, or -1. */
  function DecodeHex(ch: Byte): (v: int)
    ensures -1 <= v < 16
  {
    if 48 <= ch <= 57 then ch - 48
    else if 65 <= ch <= 70 then ch - 65 + 10
    else if 97 <= ch <= 102 then ch - 97 + 10
    else -1
  }

  /** The first position at or after i that holds b, or |s|. */
  function Find(s: seq<Byte>, i: nat, b: Byte): (p: nat)
    requires i <= |s|
    ensures i <= p <= |s|
    ensures p < |s| ==> s[p] == b
    ensures forall k :: i <= k < p ==> s[k] != b
    decreases |s| - i
  {
    if i == |s| || s[i] == b then i else Find(s, i + 1, b)
  }

  lemma SliceOfSlice<T>(s: seq<T>, a: nat, b: nat, i: nat, j: nat)
    requires a <= b <= |s| && i <= j <= b - a
    ensures s[a..b][i..j] == s[a + i..a + j]
  {
    assert forall k :: 0 <= k < j - i ==> s[a..b][i..j][k] == s[a..b][i + k] == s[a + i + k];
  }

  lemma SliceOfTail<T>(s: seq<T>, a: nat, i: nat, j: nat)
    requires a <= |s| && i <= j <= |s| - a
    ensures s[a..][i..j] == s[a + i..a + j]
    ensures s[a..][j..] == s[a + j..]
  {
  }

  lemma TailParts(s: seq<Byte>, t: seq<Byte>, i: nat, j: nat)
    requires i <= j <= |s| == |t| && s[i..] == t[i..]
    ensures s[i..j] == t[i..j] && s[j..] == t[j..]
  {
    assert s[i..j] == s[i..][..j - i] && s[j..] == s[i..][j - i..];
    assert t[i..j] == t[i..][..j - i] && t[j..] == t[i..][j - i..];
  }

  /** Contents after moving n bytes from src to dst within one buffer. */
  function Moved(s: seq<Byte>, dst: nat, src: nat, n: nat): (r: seq<Byte>)
    requires dst + n <= |s| && src + n <= |s|
    ensures |r| == |s|
  {
    s[..dst] + s[src..src + n] + s[dst + n..]
  }

  lemma MovedDown(s: seq<Byte>, dst: nat, src: nat, n: nat)
    requires dst <= src && src + n <= |s|
    ensures Moved(s, dst, src, n)[..dst] == s[..dst]
    ensures Moved(s, dst, src, n)[dst..dst + n] == s[src..src + n]
    ensures Moved(s, dst, src, n)[src + n..] == s[src + n..]
  {
  }

  method Memmove(a: array<Byte>, dst: nat, src: nat, n: nat)
    requires dst + n <= a.Length && src + n <= a.Length
    modifies a
    ensures a[..] == Moved(old(a[..]), dst, src, n)
  {
    forall k | 0 <= k < n {
      a[dst + k] := a[src + k];
    }
  }

  method Memcpy(a: array<Byte>, p: nat, d: seq<Byte>)
    requires p + |d| <= a.Length
    modifies a
    ensures a[..] == old(a[..p]) + d + old(a[p + |d|..])
  {
    forall k | 0 <= k < |d| {
      a[p + k] := d[k];
    }
  }

  function Flatten<T>(pieces: seq<seq<T>>): seq<T> {
    if pieces == [] then [] else pieces[0] + Flatten(pieces[1..])
  }

  lemma {:induction false} FlattenSnoc<T>(pieces: seq<seq<T>>, last: seq<T>)
    ensures Flatten(pieces + [last]) == Flatten(pieces) + last
  {
    if pieces != [] {
      assert (pieces + [last])[1..] == pieces[1..] + [last];
      FlattenSnoc(pieces[1..], last);
    } else {
      assert pieces + [last] == [last];
    }
  }
}
