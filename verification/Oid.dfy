/** Object identifiers (asn1.c, asn1_oid_decode) and their encoding by X.690, section 8.19. */
module Oid {

  import Arith
  import opened Basics
  import opened Buffers
  import opened Ber

  const MAX_ARCS: nat := 0xFFFF_FFFF / 8

  datatype Walk = Walk(ids: seq<nat>, end: nat)

  /** The sub-identifiers from `p` on that start before `eoc`; the last one may end after it. */
  ghost function SubidsAt(b: seq<Byte>, p: nat, eoc: nat): (r: Option<Walk>)
    ensures r.Some? && p <= eoc ==> |r.value.ids| <= eoc - p
    ensures r.Some? && p < eoc ==> |r.value.ids| > 0
    ensures r.Some? ==> p <= r.value.end && (p <= |b| ==> r.value.end <= |b|)
    decreases |b| - p
  {
    if p >= eoc then Some(Walk([], p))
    else
      match RunEnd(b, p)
      case None => None
      case Some(q) =>
        match SubidsAt(b, q, eoc)
        case None => None
        case Some(w) => Some(Walk([Fold128(b[p..q], U64)] + w.ids, w.end))
  }

  /** The first sub-identifier stands for the first two arcs. */
  function FirstPair(subid: nat): (r: seq<nat>)
    ensures |r| == 2
  {
    if subid < 40 then [0, subid] else if subid < 80 then [1, subid - 40] else [2, subid - 80]
  }

  /** The arcs decoded from the contents between `p` and `eoc`. */
  ghost function ArcsAt(b: seq<Byte>, p: nat, eoc: nat): Option<seq<nat>>
    requires p <= eoc
  {
    if p == eoc || eoc - p + 1 > MAX_ARCS then None
    else
      match SubidsAt(b, p, eoc)
      case None => None
      case Some(w) => Some(FirstPair(w.ids[0]) + w.ids[1..])
  }

  /** Where decoding the arcs leaves the pointer, whether it succeeds or not. */
  ghost function ArcsEnd(b: seq<Byte>, p: nat, eoc: nat): (r: nat)
    requires p <= eoc <= |b|
    ensures p <= r <= |b|
  {
    if p == eoc || eoc - p + 1 > MAX_ARCS then p
    else
      match SubidsAt(b, p, eoc)
      case None => |b|
      case Some(w) => w.end
  }

  ghost predicate Extends(w: Option<Walk>, ids: seq<nat>, rest: Option<Walk>) {
    match rest
    case None => w == None
    case Some(r) => w == Some(Walk(ids + r.ids, r.end))
  }

  lemma ExtendsNext(b: seq<Byte>, p: nat, eoc: nat, w: Option<Walk>, ids: seq<nat>)
    requires p < eoc && Extends(w, ids, SubidsAt(b, p, eoc))
    ensures RunEnd(b, p).None? ==> w == None
    ensures RunEnd(b, p).Some? ==>
              var q := RunEnd(b, p).value;
              Extends(w, ids + [Fold128(b[p..q], U64)], SubidsAt(b, q, eoc))
  {
    if RunEnd(b, p).Some? {
      var q := RunEnd(b, p).value;
      var id, rest := Fold128(b[p..q], U64), SubidsAt(b, q, eoc);
      if rest.Some? {
        assert ids + ([id] + rest.value.ids) == ids + [id] + rest.value.ids;
      }
    }
  }

  method StoreFirst(oid: array<nat>, subid: nat)
    requires oid.Length >= 2
    modifies oid
    ensures oid[..2] == FirstPair(subid)
  {
    if subid < 40 {
      oid[0], oid[1] := 0, subid;
    } else if subid < 80 {
      oid[0], oid[1] := 1, subid - 40;
    } else {
      oid[0], oid[1] := 2, subid - 80;
    }
  }

  /** The arcs stored so far, `len` of them, are those of the sub-identifiers read so far. */
  ghost predicate Stored(oid: array<nat>, len: nat, ids: seq<nat>)
    reads oid
  {
    1 <= |ids| && len == |ids| + 1 <= oid.Length && oid[..len] == FirstPair(ids[0]) + ids[1..]
  }

  /** One turn of the loop of asn1_oid_decode. */
  method NextArc(ctx: Ctx, eoc: nat, oid: array<nat>, len: nat, ghost all: Option<Walk>, ghost ids: seq<nat>)
    returns (ok: bool, ghost more: seq<nat>)
    requires ctx.Valid() && ctx.pointer < eoc && len < oid.Length
    requires Stored(oid, len, ids) && Extends(all, ids, SubidsAt(ctx.buf, ctx.pointer, eoc))
    modifies ctx, oid
    ensures ctx.Valid() && old(ctx.pointer) <= ctx.pointer
    ensures !ok ==> all == None && ctx.error == DecEmpty && ctx.pointer == |ctx.buf|
    ensures ok ==> old(ctx.pointer) < ctx.pointer && ctx.error == old(ctx.error)
    ensures ok ==> Stored(oid, len + 1, more) && Extends(all, more, SubidsAt(ctx.buf, ctx.pointer, eoc))
  {
    ExtendsNext(ctx.buf, ctx.pointer, eoc, all, ids);
    more := ids;
    var subid;
    ok, subid := ctx.SubidDecode();
    if ok {
      more := ids + [subid];
      oid[len] := subid;
      assert oid[..len + 1] == oid[..len] + [subid];
    }
  }

  /** The loop of asn1_oid_decode. The array has one cell more than there are octets of contents, and
      every octet ends one sub-identifier at most, so the test for too many arcs never holds. */
  method MoreArcs(ctx: Ctx, eoc: nat, oid: array<nat>, ghost start: nat, ghost all: Option<Walk>, ghost first: nat)
    returns (ok: bool, len: nat)
    requires ctx.Valid() && start < ctx.pointer && start < eoc && oid.Length == eoc - start + 1
    requires Stored(oid, 2, [first]) && Extends(all, [first], SubidsAt(ctx.buf, ctx.pointer, eoc))
    modifies ctx, oid
    ensures ctx.Valid() && old(ctx.pointer) <= ctx.pointer && ok == all.Some?
    ensures ctx.pointer == if ok then all.value.end else |ctx.buf|
    ensures ok ==> Stored(oid, len, all.value.ids)
    ensures ctx.error == old(ctx.error) || ctx.error == DecEmpty
  {
    len := 2;
    ghost var ids := [first];
    while ctx.pointer < eoc
      invariant ctx.Valid() && old(ctx.pointer) <= ctx.pointer && |ids| <= ctx.pointer - start
      invariant Stored(oid, len, ids) && Extends(all, ids, SubidsAt(ctx.buf, ctx.pointer, eoc))
      invariant ctx.error == old(ctx.error)
      decreases |ctx.buf| - ctx.pointer
    {
      assert len + 1 <= oid.Length;
      ok, ids := NextArc(ctx, eoc, oid, len, all, ids);
      if !ok {
        return false, len;
      }
      len := len + 1;
    }
    assert ids + [] == ids;
    return true, len;
  }

  /** asn1_oid_decode, for contents that end inside the buffer. */
  method OidDecode(ctx: Ctx, eoc: nat) returns (ok: bool, oid: array<nat>, len: nat)
    requires ctx.Valid() && ctx.pointer <= eoc <= |ctx.buf|
    modifies ctx
    ensures ctx.Valid() && ctx.pointer == ArcsEnd(ctx.buf, old(ctx.pointer), eoc)
    ensures ok == ArcsAt(ctx.buf, old(ctx.pointer), eoc).Some? && fresh(oid)
    ensures ok ==> len <= oid.Length == eoc - old(ctx.pointer) + 1
    ensures ok ==> ArcsAt(ctx.buf, old(ctx.pointer), eoc) == Some(oid[..len])
    ensures ctx.error == old(ctx.error) || ctx.error == DecEmpty
  {
    ghost var start := ctx.pointer;
    var size := eoc - ctx.pointer + 1;
    oid, len := new nat[size], 0;
    if size < 2 || size > MAX_ARCS {
      return false, oid, len;
    }
    ghost var all := SubidsAt(ctx.buf, start, eoc);
    assert all.Some? ==> [] + all.value.ids == all.value.ids;
    ExtendsNext(ctx.buf, start, eoc, all, []);
    var got, subid := ctx.SubidDecode();
    if !got {
      return false, oid, len;
    }
    StoreFirst(oid, subid);
    assert [] + [subid] == [subid];
    ok, len := MoreArcs(ctx, eoc, oid, start, all, subid);
  }

  // ---- Encoding, X.690 section 8.19 ----

  /** The octets of a sub-identifier before the last, each with its high bit set. */
  function Lead(v: nat): (r: seq<Byte>)
    ensures forall k :: 0 <= k < |r| ==> r[k] >= 128
  {
    if v == 0 then [] else Lead(v / 128) + [128 + v % 128]
  }

  function EncodeSubid(v: nat): (r: seq<Byte>)
    ensures |r| > 0
  {
    Lead(v / 128) + [v % 128]
  }

  function EncodeSubids(ids: seq<nat>): seq<Byte> {
    if ids == [] then [] else EncodeSubid(ids[0]) + EncodeSubids(ids[1..])
  }

  /** An object identifier has two arcs or more; the first is 0, 1 or 2, and below 2 the second is
      below 40. */
  predicate Legal(arcs: seq<nat>) {
    |arcs| >= 2 && arcs[0] <= 2 && (arcs[0] < 2 ==> arcs[1] < 40)
  }

  function Subids(arcs: seq<nat>): (r: seq<nat>)
    requires Legal(arcs)
    ensures |r| == |arcs| - 1
  {
    [40 * arcs[0] + arcs[1]] + arcs[2..]
  }

  function EncodeOid(arcs: seq<nat>): (r: seq<Byte>)
    requires Legal(arcs)
    ensures |r| > 0
  {
    EncodeSubids(Subids(arcs))
  }

  lemma ShiftMod(q: nat, r: nat, m: nat)
    requires r < 128 && m > 0 && m % 128 == 0
    ensures q % m * 128 % m + r == (128 * q + r) % m
  {
    var k := m / 128;
    Arith.ShiftIn(128, q, r, k);
    Arith.ShiftIn(128, q % m, 0, k);
    Arith.ModMod(128, q, k);
  }

  lemma FoldNext(s: seq<Byte>, c: Byte, m: nat)
    requires m > 0
    ensures Fold128(s + [c], m) == Fold128(s, m) * 128 % m + c % 128
  {
    assert (s + [c])[..|s|] == s;
  }

  lemma {:induction false} LeadValue(v: nat, m: nat)
    requires m > 0 && m % 128 == 0
    ensures Fold128(Lead(v), m) == v % m
  {
    if v == 0 {
      assert Lead(v) == [];
    } else {
      var q, r: nat, c: Byte := v / 128, v % 128, 128 + v % 128;
      assert c % 128 == r && v == 128 * q + r;
      LeadValue(q, m);
      FoldNext(Lead(q), c, m);
      ShiftMod(q, r, m);
    }
  }

  /** Decoding a sub-identifier's octets gives it back modulo the width of the integer. */
  lemma SubidValue(v: nat, m: nat)
    requires m > 0 && m % 128 == 0
    ensures Fold128(EncodeSubid(v), m) == v % m
  {
    var q, r: nat, c: Byte := v / 128, v % 128, v % 128;
    assert c % 128 == r && v == 128 * q + r;
    LeadValue(q, m);
    FoldNext(Lead(q), c, m);
    ShiftMod(q, r, m);
  }

  lemma {:induction false} RunOver(b: seq<Byte>, p: nat, n: nat)
    requires p + n <= |b| && forall k :: p <= k < p + n ==> b[k] >= 128
    ensures RunEnd(b, p) == RunEnd(b, p + n)
    decreases n
  {
    if n == 0 {
    } else {
      RunOver(b, p + 1, n - 1);
    }
  }

  lemma SubidEnd(b: seq<Byte>, p: nat, v: nat)
    requires p + |EncodeSubid(v)| <= |b| && b[p..p + |EncodeSubid(v)|] == EncodeSubid(v)
    ensures RunEnd(b, p) == Some(p + |EncodeSubid(v)|)
  {
    var s, n := b[p..p + |EncodeSubid(v)|], |EncodeSubid(v)| - 1;
    forall k | p <= k < p + n
      ensures b[k] >= 128
    {
      assert b[k] == s[k - p] == Lead(v / 128)[k - p];
    }
    RunOver(b, p, n);
    assert b[p + n] == s[n];
  }

  function Wrapped(ids: seq<nat>): (r: seq<nat>)
    ensures |r| == |ids| && forall k :: 0 <= k < |ids| ==> r[k] == ids[k] % U64
  {
    if ids == [] then [] else [ids[0] % U64] + Wrapped(ids[1..])
  }

  lemma SubidHere(b: seq<Byte>, p: nat, v: nat, x: seq<Byte>)
    requires x == EncodeSubid(v) && p + |x| <= |b| && b[p..p + |x|] == x
    ensures RunEnd(b, p) == Some(p + |x|) && Fold128(b[p..p + |x|], U64) == v % U64
  {
    SubidEnd(b, p, v);
    SubidValue(v, U64);
  }

  lemma SubidsCons(b: seq<Byte>, p: nat, q: nat, eoc: nat, id: nat, w: Walk)
    requires p < eoc && RunEnd(b, p) == Some(q) && Fold128(b[p..q], U64) == id && SubidsAt(b, q, eoc) == Some(w)
    ensures SubidsAt(b, p, eoc) == Some(Walk([id] + w.ids, w.end))
  {
  }

  lemma {:induction false} SubidsFrom(b: seq<Byte>, p: nat, ids: seq<nat>, s: seq<Byte>, eoc: nat)
    requires s == EncodeSubids(ids) && eoc == p + |s| <= |b| && b[p..eoc] == s
    ensures SubidsAt(b, p, eoc) == Some(Walk(Wrapped(ids), eoc))
    decreases |ids|
  {
    if ids == [] {
    } else {
      var x, y := EncodeSubid(ids[0]), EncodeSubids(ids[1..]);
      TwoPieces(b, p, x, y);
      SubidHere(b, p, ids[0], x);
      SubidsFrom(b, p + |x|, ids[1..], y, eoc);
      SubidsCons(b, p, p + |x|, eoc, ids[0] % U64, Walk(Wrapped(ids[1..]), eoc));
    }
  }

  lemma SubidsBack(b: seq<Byte>, p: nat, ids: seq<nat>)
    requires p + |EncodeSubids(ids)| <= |b| && b[p..p + |EncodeSubids(ids)|] == EncodeSubids(ids)
    ensures SubidsAt(b, p, p + |EncodeSubids(ids)|) == Some(Walk(Wrapped(ids), p + |EncodeSubids(ids)|))
  {
    SubidsFrom(b, p, ids, EncodeSubids(ids), p + |EncodeSubids(ids)|);
  }

  /** The arcs that survive: each sub-identifier fits an `unsigned long`. */
  predicate Fits(arcs: seq<nat>)
    requires Legal(arcs)
  {
    40 * arcs[0] + arcs[1] < U64 && AllBelow(arcs[2..], U64)
  }

  /** What is decoded when the arcs are sent. */
  function Received(arcs: seq<nat>): (r: seq<nat>)
    requires Legal(arcs)
    ensures |r| == |arcs|
  {
    FirstPair((40 * arcs[0] + arcs[1]) % U64) + Wrapped(arcs[2..])
  }

  lemma ReceivedBack(b: seq<Byte>, p: nat, arcs: seq<nat>)
    requires Legal(arcs) && |EncodeOid(arcs)| < MAX_ARCS
    requires p + |EncodeOid(arcs)| <= |b| && b[p..p + |EncodeOid(arcs)|] == EncodeOid(arcs)
    ensures ArcsAt(b, p, p + |EncodeOid(arcs)|) == Some(Received(arcs))
  {
    var ids := Subids(arcs);
    SubidsBack(b, p, ids);
    assert ids[1..] == arcs[2..];
  }

  predicate AllBelow(ids: seq<nat>, m: nat) {
    ids == [] || (ids[0] < m && AllBelow(ids[1..], m))
  }

  lemma {:induction false} WrappedExact(ids: seq<nat>)
    ensures Wrapped(ids) == ids <==> AllBelow(ids, U64)
    decreases |ids|
  {
    if ids == [] {
    } else {
      var tail, w := ids[1..], Wrapped(ids[1..]);
      WrappedExact(tail);
      Arith.ModSame(ids[0], U64);
      assert Wrapped(ids) == [ids[0] % U64] + w && ids == [ids[0]] + tail;
      assert Wrapped(ids)[1..] == w;
    }
  }

  lemma FirstPairExact(a: nat, b: nat, x: nat, pair: seq<nat>)
    requires a <= 2 && (a < 2 ==> b < 40) && pair == FirstPair(x)
    ensures pair[0] == a && pair[1] == b <==> x == 40 * a + b
  {
  }

  lemma ReceivedExact(arcs: seq<nat>)
    requires Legal(arcs)
    ensures Received(arcs) == arcs <==> Fits(arcs)
  {
    var first, rest := 40 * arcs[0] + arcs[1], arcs[2..];
    var x := first % U64;
    Arith.ModSame(first, U64);
    WrappedExact(rest);
    SameJoin(FirstPair(x), Wrapped(rest), [arcs[0], arcs[1]], rest);
    assert arcs == [arcs[0], arcs[1]] + rest;
    FirstPairExact(arcs[0], arcs[1], x, FirstPair(x));
  }

  lemma SameJoin(a: seq<nat>, b: seq<nat>, c: seq<nat>, d: seq<nat>)
    requires |a| == |c| == 2
    ensures a + b == c + d <==> a[0] == c[0] && a[1] == c[1] && b == d
  {
    if a + b == c + d {
      assert (a + b)[..2] == a && (a + b)[2..] == b && (c + d)[..2] == c && (c + d)[2..] == d;
    }
  }

  /** Decoding the encoding of an object identifier gives its arcs back exactly when every
      sub-identifier is below 2^64; for the first one that is a bound on 40 times the first arc plus
      the second. */
  lemma DecodeEncode(b: seq<Byte>, p: nat, arcs: seq<nat>)
    requires Legal(arcs) && |EncodeOid(arcs)| < MAX_ARCS
    requires p + |EncodeOid(arcs)| <= |b| && b[p..p + |EncodeOid(arcs)|] == EncodeOid(arcs)
    ensures ArcsAt(b, p, p + |EncodeOid(arcs)|) == Some(arcs) <==> Fits(arcs)
  {
    ReceivedBack(b, p, arcs);
    ReceivedExact(arcs);
  }

  /** 128 to the power `k`. */
  ghost function Power128(k: nat): nat {
    if k == 0 then 1 else 128 * Power128(k - 1)
  }

  lemma {:induction false} LeadLength(v: nat, k: nat)
    requires v < Power128(k)
    ensures |Lead(v)| <= k
    decreases k
  {
    if v == 0 {
    } else {
      LeadLength(v / 128, k - 1);
    }
  }

  /** Arcs below 2^64 are not enough: 2.(2^64 - 80) reads back as 0.0. */
  lemma SecondArcWraps(b: seq<Byte>, p: nat, arcs: seq<nat>)
    requires arcs == [2, U64 - 80]
    requires p + |EncodeOid(arcs)| <= |b| && b[p..p + |EncodeOid(arcs)|] == EncodeOid(arcs)
    ensures ArcsAt(b, p, p + |EncodeOid(arcs)|) == Some([0, 0])
  {
    assert Subids(arcs) == [U64] && [U64][1..] == [];
    assert EncodeSubids([U64]) == EncodeSubid(U64) + EncodeSubids([]);
    assert U64 / 128 < Power128(9) == 0x7FFF_FFFF_FFFF_FFFF + 1;
    LeadLength(U64 / 128, 9);
    ReceivedBack(b, p, arcs);
    assert Received(arcs) == [0, 0];
  }
}
