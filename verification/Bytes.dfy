/** Octets, host-order 16-bit fields and the block moves that the stream buffers use. */
module Bytes {

  type Byte = b: int | 0 <= b < 256

  /** A little-endian 16-bit field starting at index `i`. */
  function U16(s: seq<Byte>, i: nat): (v: nat)
    requires i + 1 < |s|
    ensures v < 0x1_0000
  {
    (s[i] as int) + 256 * (s[i + 1] as int)
  }

  function Lo(v: nat): (b: Byte)
    requires v < 0x1_0000
  {
    v % 256
  }

  function Hi(v: nat): (b: Byte)
    requires v < 0x1_0000
  {
    v / 256
  }

  function Flatten<T>(ss: seq<seq<T>>): (s: seq<T>) {
    if ss == [] then [] else ss[0] + Flatten(ss[1..])
  }

  lemma {:induction false} FlattenAppend<T>(a: seq<seq<T>>, b: seq<seq<T>>)
    ensures Flatten(a + b) == Flatten(a) + Flatten(b)
  {
    if a == [] {
      assert a + b == b;
    } else {
      assert (a + b)[1..] == a[1..] + b;
      FlattenAppend(a[1..], b);
    }
  }

  lemma FlattenCons<T>(x: seq<T>, a: seq<seq<T>>)
    ensures Flatten([x] + a) == x + Flatten(a)
  {
    assert ([x] + a)[1..] == a;
  }

  lemma FlattenSnoc<T>(a: seq<seq<T>>, x: seq<T>)
    ensures Flatten(a + [x]) == Flatten(a) + x
  {
    FlattenAppend(a, [x]);
    assert Flatten([x]) == x;
  }

  lemma SlicePrefix<T>(a: seq<T>, i: nat, j: nat, k: nat)
    requires i <= j <= k <= |a|
    ensures a[..k][i..j] == a[i..j]
  {
  }

  lemma SliceTail<T>(a: seq<T>, i: nat, m: nat, k: nat)
    requires i <= m <= k <= |a|
    ensures a[i..k][m - i..] == a[m..k]
  {
  }

  lemma JoinSlices<T>(a: seq<T>, i: nat, j: nat, k: nat)
    requires i <= j <= k <= |a|
    ensures a[i..k] == a[i..j] + a[j..k]
  {
  }

  /** A block copy into the array. */
  method Store(a: array<Byte>, at: nat, s: seq<Byte>)
    requires at + |s| <= a.Length
    modifies a
    ensures a[..at] == old(a[..at])
    ensures a[at..at + |s|] == s
    ensures a[at + |s|..] == old(a[at + |s|..])
  {
    forall k | 0 <= k < |s| {
      a[at + k] := s[k];
    }
  }

  /** The block at `src` moves to the front; the two places may overlap. */
  method MoveToFront(a: array<Byte>, src: nat, n: nat)
    requires src + n <= a.Length
    modifies a
    ensures a[..n] == old(a[src..src + n])
    ensures a[n..] == old(a[n..])
  {
    forall k | 0 <= k < n {
      a[k] := a[src + k];
    }
  }
}
