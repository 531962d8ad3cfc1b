/** Writing into a buffer in place. */
module Buffers {

  import opened Basics

  /** The buffer `b` with `s` written over it from `off` on. */
  ghost function Splice(b: seq<Byte>, off: nat, s: seq<Byte>): (r: seq<Byte>)
    requires off + |s| <= |b|
    ensures |r| == |b|
  {
    b[..off] + s + b[off + |s|..]
  }

  lemma SpliceJoin(b: seq<Byte>, off: nat, s: seq<Byte>, t: seq<Byte>)
    requires off + |s| + |t| <= |b|
    ensures Splice(Splice(b, off, s), off + |s|, t) == Splice(b, off, s + t)
  {
  }

  lemma SpliceAt(b: seq<Byte>, off: nat, s: seq<Byte>, r: seq<Byte>)
    requires off + |s| <= |b| == |r|
    requires forall k :: 0 <= k < |b| ==> r[k] == if off <= k < off + |s| then s[k - off] else b[k]
    ensures r == Splice(b, off, s)
  {
  }

  method Put(a: array<Byte>, off: nat, s: seq<Byte>)
    requires off + |s| <= a.Length
    modifies a
    ensures a[..] == Splice(old(a[..]), off, s)
  {
    ghost var was := a[..];
    for i := 0 to |s|
      invariant forall k :: 0 <= k < a.Length ==> a[k] == if off <= k < off + i then s[k - off] else was[k]
    {
      a[off + i] := s[i];
    }
    SpliceAt(was, off, s, a[..]);
  }

  /** Bytes written just after those that are `done`. */
  method Append(a: array<Byte>, at: nat, s: seq<Byte>, ghost was: seq<Byte>, ghost off: nat, ghost done: seq<Byte>)
    returns (ghost written: seq<Byte>)
    requires at == off + |done| && at + |s| <= a.Length == |was| && a[..] == Splice(was, off, done)
    modifies a
    ensures written == done + s && off + |written| <= |was| && a[..] == Splice(was, off, written)
  {
    SpliceJoin(was, off, done, s);
    Put(a, at, s);
    written := done + s;
  }

  lemma SpliceNone(b: seq<Byte>, off: nat)
    requires off <= |b|
    ensures Splice(b, off, []) == b
  {
  }

  lemma SpliceSlices(b: seq<Byte>, off: nat, s: seq<Byte>)
    requires off + |s| <= |b|
    ensures Splice(b, off, s)[..off] == b[..off] && Splice(b, off, s)[off..off + |s|] == s
    ensures Splice(b, off, s)[off + |s|..] == b[off + |s|..]
  {
  }

  /** A piece of what stands in the buffer stands in it too. */
  lemma PieceBack(b: seq<Byte>, i: nat, s: seq<Byte>, p: nat, q: nat)
    requires i + |s| <= |b| && b[i..i + |s|] == s && p <= q <= |s|
    ensures b[i + p..i + q] == s[p..q]
  {
    var u, v := b[i..i + |s|], b[i + p..i + q];
    forall k | 0 <= k < q - p
      ensures v[k] == s[p..q][k]
    {
      assert u[p + k] == b[i + (p + k)];
    }
  }

  lemma ThreePieces(b: seq<Byte>, i: nat, x: seq<Byte>, y: seq<Byte>, z: seq<Byte>)
    requires i + |x| + |y| + |z| <= |b| && b[i..i + |x| + |y| + |z|] == x + y + z
    ensures b[i..i + |x|] == x
    ensures b[i + |x|..i + |x| + |y|] == y
    ensures b[i + |x| + |y|..i + |x| + |y| + |z|] == z
  {
    var s, m, n := x + y + z, |x|, |x| + |y|;
    PieceBack(b, i, s, 0, m);
    PieceBack(b, i, s, m, n);
    PieceBack(b, i, s, n, |s|);
    assert s[0..m] == x && s[m..n] == y && s[n..|s|] == z;
  }

  lemma TwoPieces(b: seq<Byte>, i: nat, x: seq<Byte>, y: seq<Byte>)
    requires i + |x| + |y| <= |b| && b[i..i + |x| + |y|] == x + y
    ensures b[i..i + |x|] == x && b[i + |x|..i + |x| + |y|] == y
  {
    assert x + y + [] == x + y;
    ThreePieces(b, i, x, y, []);
  }

  /** The pieces `f` makes of the elements, one after the other. */
  ghost function Concat<T>(f: T -> seq<Byte>, xs: seq<T>): seq<Byte> {
    if xs == [] then [] else Concat(f, xs[..|xs| - 1]) + f(xs[|xs| - 1])
  }

  lemma ConcatMore<T>(head: seq<Byte>, f: T -> seq<Byte>, xs: seq<T>, x: T)
    ensures head + Concat(f, xs) + f(x) == head + Concat(f, xs + [x])
  {
    assert (xs + [x])[..|xs|] == xs;
    assert head + Concat(f, xs) + f(x) == head + (Concat(f, xs) + f(x));
  }

  /** Wherever the pieces stand, each of them stands after those before it. */
  lemma {:induction false} ConcatPlaced<T>(b: seq<Byte>, p: nat, f: T -> seq<Byte>, xs: seq<T>, k: nat)
    requires k < |xs| && p + |Concat(f, xs)| <= |b| && b[p..p + |Concat(f, xs)|] == Concat(f, xs)
    ensures var q, s := p + |Concat(f, xs[..k])|, f(xs[k]);
            q + |s| <= p + |Concat(f, xs)| && b[q..q + |s|] == s
    decreases |xs|
  {
    var n := |xs| - 1;
    var init := xs[..n];
    TwoPieces(b, p, Concat(f, init), f(xs[n]));
    if k == n {
    } else {
      assert init[..k] == xs[..k] && init[k] == xs[k];
      ConcatPlaced(b, p, f, init, k);
    }
  }

  lemma JoinThree(a: seq<Byte>, b: seq<Byte>, c: seq<Byte>)
    ensures a + b + c == a + (b + c)
  {
  }

  lemma JoinFour(a: seq<Byte>, b: seq<Byte>, c: seq<Byte>, d: seq<Byte>)
    ensures a + b + c + d == a + (b + c + d)
  {
  }
}
