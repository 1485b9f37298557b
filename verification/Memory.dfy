/**
 memmove of lib/string.c, which memcpy calls.
 */
module Memory {
  import opened Words

  // b is was after the descending loop has left the first left bytes.
  ghost predicate MovedDown(b: seq<Byte>, was: seq<Byte>, dst: nat, src: nat, n: nat, left: nat) {
    left <= n && dst + n <= |was| && src + n <= |was| &&
    b == was[..dst + left] + was[src + left..src + n] + was[dst + n..]
  }

  lemma MoveDownNone(was: seq<Byte>, dst: nat, src: nat, n: nat)
    requires dst + n <= |was| && src + n <= |was|
    ensures MovedDown(was, was, dst, src, n, n)
  {
  }

  lemma MoveDownOne(b: seq<Byte>, was: seq<Byte>, dst: nat, src: nat, n: nat, left: nat)
    requires 0 < left && src < dst && MovedDown(b, was, dst, src, n, left)
    ensures |b| == |was| && MovedDown(b[dst + left - 1 := b[src + left - 1]], was, dst, src, n, left - 1)
  {
  }

  lemma MoveDownAll(b: seq<Byte>, was: seq<Byte>, dst: nat, src: nat, n: nat)
    requires MovedDown(b, was, dst, src, n, 0)
    ensures |b| == |was| && b[dst..dst + n] == was[src..src + n]
    ensures b[..dst] == was[..dst] && b[dst + n..] == was[dst + n..]
  {
  }

  // The descending loop.
  method MoveDown(a: array<Byte>, dst: nat, src: nat, n: nat)
    requires src < dst && dst + n <= a.Length
    modifies a
    ensures a[dst..dst + n] == old(a[src..src + n])
    ensures a[..dst] == old(a[..dst]) && a[dst + n..] == old(a[dst + n..])
  {
    hide MovedDown;
    ghost var was := a[..];
    var s, d, left := src + n, dst + n, n;
    MoveDownNone(was, dst, src, n);
    while left > 0
      invariant 0 <= left <= n && s == src + left && d == dst + left
      invariant MovedDown(a[..], was, dst, src, n, left)
    {
      ghost var b := a[..];
      MoveDownOne(b, was, dst, src, n, left);
      left := left - 1;
      s, d := s - 1, d - 1;
      a[d] := a[s];
      assert a[..] == b[d := b[s]];
    }
    MoveDownAll(a[..], was, dst, src, n);
  }

  // b is was after k steps of the ascending loop.
  ghost predicate MovedUp(b: seq<Byte>, was: seq<Byte>, dst: nat, src: nat, k: nat) {
    dst + k <= |was| && src + k <= |was| && b == was[..dst] + was[src..src + k] + was[dst + k..]
  }

  lemma MoveUpNone(was: seq<Byte>, dst: nat, src: nat, n: nat)
    requires dst + n <= |was| && src + n <= |was|
    ensures MovedUp(was, was, dst, src, 0)
  {
  }

  lemma MoveUpOne(b: seq<Byte>, was: seq<Byte>, dst: nat, src: nat, k: nat, n: nat)
    requires k < n && dst + n <= |was| && src + n <= |was| && (dst <= src || src + n <= dst)
    requires MovedUp(b, was, dst, src, k)
    ensures |b| == |was| && MovedUp(b[dst + k := b[src + k]], was, dst, src, k + 1)
  {
  }

  lemma MoveUpAll(b: seq<Byte>, was: seq<Byte>, dst: nat, src: nat, n: nat)
    requires MovedUp(b, was, dst, src, n)
    ensures |b| == |was| && b[dst..dst + n] == was[src..src + n]
    ensures b[..dst] == was[..dst] && b[dst + n..] == was[dst + n..]
  {
  }

  // The ascending loop.
  method MoveUp(a: array<Byte>, dst: nat, src: nat, n: nat)
    requires dst + n <= a.Length && src + n <= a.Length && (dst <= src || src + n <= dst)
    modifies a
    ensures a[dst..dst + n] == old(a[src..src + n])
    ensures a[..dst] == old(a[..dst]) && a[dst + n..] == old(a[dst + n..])
  {
    hide MovedUp;
    ghost var was := a[..];
    var s, d, left := src, dst, n;
    MoveUpNone(was, dst, src, n);
    while left > 0
      invariant 0 <= left <= n && s == src + n - left && d == dst + n - left
      invariant MovedUp(a[..], was, dst, src, n - left)
    {
      ghost var b := a[..];
      MoveUpOne(b, was, dst, src, n - left, n);
      left := left - 1;
      a[d] := a[s];
      assert a[..] == b[d := b[s]];
      s, d := s + 1, d + 1;
    }
    MoveUpAll(a[..], was, dst, src, n);
  }

  // The bytes after a move are the source bytes before it, wherever the regions overlap.
  method Memmove(a: array<Byte>, dst: nat, src: nat, n: nat)
    requires dst + n <= a.Length && src + n <= a.Length
    modifies a
    ensures a[dst..dst + n] == old(a[src..src + n])
    ensures a[..dst] == old(a[..dst]) && a[dst + n..] == old(a[dst + n..])
  {
    if src < dst && src + n > dst {
      MoveDown(a, dst, src, n);
    } else {
      MoveUp(a, dst, src, n);
    }
  }
}
