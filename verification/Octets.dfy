/** The octets that the encoders write, spelled out: lengths and object identifiers as X.690 sections 8.1.3 and
    8.19 give them, the identifiers of the mechanisms, and the response of section 4.2.2 of RFC 4178. */
module Octets {

  import opened Basics
  import opened Buffers
  import opened Der
  import Ber
  import opened Oid
  import NegToken
  import Spnego

  /** The first octets of a header decide how it is read: class, method and tag in the identifier octet, a
      length in one octet if it has no high bit, and the indefinite form, for constructed values only, if it is
      0x80. */
  lemma HeaderRead(b: seq<Byte>, p: nat)
    requires p + 2 <= |b| && b[p] % 32 != 31
    ensures b[p + 1] < 0x80 ==>
              Ber.HeaderAt(b, p) ==
              if p + 2 + b[p + 1] as int > |b| then None
              else Some(Ber.Header(b[p] / 64, b[p] / 32 % 2, b[p] % 32, Some(p + 2 + b[p + 1] as int), p + 2))
    ensures b[p + 1] == 0x80 ==>
              Ber.HeaderAt(b, p) ==
              if b[p] / 32 % 2 == 0 then None else Some(Ber.Header(b[p] / 64, 1, b[p] % 32, None, p + 2))
  {
  }

  /** Lengths of one and two octets in the long form. */
  lemma LongLengthRead(b: seq<Byte>, p: nat, len: nat)
    requires p + 2 <= |b| && (b[p] == 0x81 || (b[p] == 0x82 && p + 3 <= |b|))
    requires len == if b[p] == 0x81 then b[p + 1] as int else 256 * (b[p + 1] as int) + b[p + 2] as int
    ensures var next := if b[p] == 0x81 then p + 2 else p + 3;
            Ber.LengthAt(b, p) == if next + len > |b| then None else Some(Ber.Length(true, len, next))
  {
    var s := b[p + 1..p + 1 + (b[p] as int - 128)];
    if b[p] == 0x81 {
      OneOctet(s, b[p + 1]);
    } else {
      TwoOctets(s, b[p + 1], b[p + 2]);
    }
  }

  /** A tag above 30 follows the identifier octet, seven bits to an octet. */
  lemma HighTagRead(b: seq<Byte>, p: nat)
    requires p + 3 <= |b| && b[p] % 32 == 31
    ensures b[p + 1] < 128 ==> Ber.IdAt(b, p) == Some(Ber.Id(b[p] / 64, b[p] / 32 % 2, b[p + 1], p + 2))
    ensures b[p + 1] >= 128 > b[p + 2] ==>
              Ber.IdAt(b, p) ==
              Some(Ber.Id(b[p] / 64, b[p] / 32 % 2, 128 * (b[p + 1] as int - 128) + b[p + 2] as int, p + 3))
  {
    if b[p + 1] < 128 {
      OneOctet(b[p + 1..p + 2], b[p + 1]);
    } else if b[p + 2] < 128 {
      assert Ber.RunEnd(b, p + 2) == Some(p + 3);
      TwoOctets(b[p + 1..p + 3], b[p + 1], b[p + 2]);
    }
  }

  lemma OneOctet(s: seq<Byte>, x: Byte)
    requires s == [x]
    ensures Ber.Fold256(s, Ber.U32) == x && Ber.Fold128(s, Ber.U32) == x % 128
  {
    assert s[..0] == [];
  }

  lemma TwoOctets(s: seq<Byte>, x: Byte, y: Byte)
    requires s == [x, y]
    ensures Ber.Fold256(s, Ber.U32) == 256 * (x as int) + y as int
    ensures Ber.Fold128(s, Ber.U32) == 128 * (x as int % 128) + y as int % 128
  {
    OneOctet(s[..1], x);
    assert s[..|s| - 1] == s[..1] && s[|s| - 1] == y;
  }

  lemma LowOctets(n: nat)
    ensures BigEndian(n, 0) == [] && BigEndian(n, 1) == [n % 256]
    ensures BigEndian(n, 2) == [n / 256 % 256, n % 256]
  {
    assert BigEndian(n / 256, 1) == BigEndian(n / 256 / 256, 0) + [n / 256 % 256];
  }

  /** Every length below 2^24 in the field it is given. */
  lemma LengthSpelled(len: nat)
    requires len < 0x1000000
    ensures LengthBytes(len, HdrLenBytes(len)) ==
              if len < 0x80 then [len]
              else if len < 0x100 then [0x81, len]
              else if len < 0x10000 then [0x82, len / 0x100, len % 0x100]
              else [0x83, len / 0x10000, len / 0x100 % 0x100, len % 0x100]
  {
    LowOctets(len);
    LowOctets(len / 256);
    if len >= 0x10000 {
      assert BigEndian(len, 3) == BigEndian(len / 256, 2) + [len % 256];
      assert len / 256 / 256 == len / 0x10000 < 256;
    }
  }

  /** A sub-identifier of one or two octets. */
  lemma SubidSpelled(v: nat)
    ensures v < 128 ==> EncodeSubid(v) == [v]
    ensures 128 <= v < 0x4000 ==> EncodeSubid(v) == [128 + v / 128, v % 128]
    ensures 0x4000 <= v < 0x200000 ==> EncodeSubid(v) == [128 + v / 0x4000, 128 + v / 128 % 128, v % 128]
  {
    var q := v / 128;
    assert Lead(0) == [];
    if 128 <= v < 0x4000 {
      assert q / 128 == 0 && Lead(q) == Lead(0) + [128 + q % 128];
    } else if 0x4000 <= v < 0x200000 {
      var r := q / 128;
      assert r == v / 0x4000 < 128 && r / 128 == 0;
      assert Lead(r) == Lead(0) + [128 + r % 128] && Lead(q) == Lead(r) + [128 + q % 128];
    }
  }

  lemma SubidsSpelled(id: nat, ids: seq<nat>)
    ensures EncodeSubids([id] + ids) == EncodeSubid(id) + EncodeSubids(ids)
  {
    assert ([id] + ids)[1..] == ids;
  }

  /** The example of X.690 section 8.19.5, 2.999.3. */
  lemma StandardExample()
    ensures EncodeOid([2, 999, 3]) == [0x88, 0x37, 0x03]
  {
    assert Subids([2, 999, 3]) == [1079] + ([3] + []);
    SubidsSpelled(1079, [3] + []);
    SubidsSpelled(3, []);
    SubidSpelled(1079);
    SubidSpelled(3);
  }

  /** Sub-identifiers below 128 take an octet each. */
  lemma {:induction false} SmallSubids(ids: seq<nat>)
    requires forall k :: 0 <= k < |ids| ==> ids[k] < 128
    ensures |EncodeSubids(ids)| == |ids| && forall k :: 0 <= k < |ids| ==> EncodeSubids(ids)[k] == ids[k]
    decreases |ids|
  {
    if ids == [] {
    } else {
      SubidSpelled(ids[0]);
      SmallSubids(ids[1..]);
      assert forall k :: 0 < k < |ids| ==> ids[k] == ids[1..][k - 1];
    }
  }

  lemma SmallSubidsAre(ids: seq<nat>, octets: seq<Byte>)
    requires |ids| == |octets| && forall k :: 0 <= k < |ids| ==> ids[k] == octets[k] < 128
    ensures EncodeSubids(ids) == octets
  {
    SmallSubids(ids);
  }

  lemma {:induction false} SubidsConcat(a: seq<nat>, b: seq<nat>)
    ensures EncodeSubids(a + b) == EncodeSubids(a) + EncodeSubids(b)
    decreases |a|
  {
    if a == [] {
      assert a + b == b;
    } else {
      assert (a + b)[1..] == a[1..] + b;
      SubidsConcat(a[1..], b);
    }
  }

  /** Small arcs, one of two octets, and small arcs again. */
  lemma MiddleSubid(a: seq<nat>, x: seq<Byte>, v: nat, c: seq<nat>, z: seq<Byte>, ids: seq<nat>)
    requires |a| == |x| && forall k :: 0 <= k < |a| ==> a[k] == x[k] < 128
    requires |c| == |z| && forall k :: 0 <= k < |c| ==> c[k] == z[k] < 128
    requires 128 <= v < 0x4000 && ids == a + ([v] + c)
    ensures EncodeSubids(ids) == x + ([128 + v / 128, v % 128] + z)
  {
    SubidsConcat(a, [v] + c);
    SubidsSpelled(v, c);
    SubidSpelled(v);
    SmallSubidsAre(a, x);
    SmallSubidsAre(c, z);
  }

  /** The mechanism identifier the builder writes is the one the decoder looks for. */
  lemma NtlmsspOctets(arcs: seq<nat>, octets: seq<Byte>)
    requires arcs == NegToken.OidOf(NegToken.Ntlmssp) && octets == Spnego.NTLMSSP_OID_STR
    ensures arcs == [1, 3, 6, 1, 4, 1, 311, 2, 2, 10] && Encodes(arcs, octets)
    ensures octets == [0x2b, 0x06, 0x01, 0x04, 0x01, 0x82, 0x37, 0x02, 0x02, 0x0a]
  {
    var ids, z := NtlmsspPieces(arcs, octets);
    MiddleSubid([43, 6, 1, 4, 1], [43, 6, 1, 4, 1], 311, [2, 2, 10], [2, 2, 10], ids);
    EncodedAs(arcs, ids, octets, z);
  }

  lemma NtlmsspPieces(arcs: seq<nat>, octets: seq<Byte>) returns (ids: seq<nat>, z: seq<Byte>)
    requires arcs == [1, 3, 6, 1, 4, 1, 311, 2, 2, 10]
    requires octets == [0x2b, 0x06, 0x01, 0x04, 0x01, 0x82, 0x37, 0x02, 0x02, 0x0a]
    ensures Legal(arcs) && ids == Subids(arcs) && ids == [43, 6, 1, 4, 1] + ([311] + [2, 2, 10]) && z == octets
    ensures z == [43, 6, 1, 4, 1] + ([128 + 311 / 128, 311 % 128] + [2, 2, 10])
  {
    ids, z := Subids(arcs), octets;
  }

  lemma EncodedAs(arcs: seq<nat>, ids: seq<nat>, octets: seq<Byte>, z: seq<Byte>)
    requires Legal(arcs) && ids == Subids(arcs) && EncodeSubids(ids) == z && z == octets
    ensures Encodes(arcs, octets)
  {
  }

  /** The SPNEGO identifier itself. */
  lemma SpnegoOctets()
    ensures EncodeOid(NegToken.SPNEGO_OID) == [0x2b, 0x06, 0x01, 0x05, 0x05, 0x02]
  {
    assert Subids(NegToken.SPNEGO_OID) == [43, 6, 1, 5, 5, 2];
    SmallSubidsAre([43, 6, 1, 5, 5, 2], [0x2b, 0x06, 0x01, 0x05, 0x05, 0x02]);
  }

  lemma SubidThen(id: nat, ids: seq<nat>, all: seq<nat>, x: seq<Byte>, y: seq<Byte>, z: seq<Byte>)
    requires EncodeSubid(id) == x && EncodeSubids(ids) == y && all == [id] + ids && z == x + y
    ensures EncodeSubids(all) == z
  {
    SubidsSpelled(id, ids);
  }

  lemma KerberosTail(arc: nat, x: seq<Byte>, tail: seq<nat>, low: seq<Byte>, ids: seq<nat>, octets: seq<Byte>)
    requires 0x4000 <= arc < 0x200000 && x == [128 + arc / 0x4000, 128 + arc / 128 % 128, arc % 128]
    requires |tail| == |low| && forall k :: 0 <= k < |tail| ==> tail[k] == low[k] < 128
    requires ids == [42] + ([840] + ([arc] + tail)) && octets == [0x2a] + ([0x86, 0x48] + (x + low))
    ensures EncodeSubids(ids) == octets
  {
    var one, two := [arc] + tail, [840] + ([arc] + tail);
    var y, z := x + low, [0x86, 0x48] + (x + low);
    SmallSubidsAre(tail, low);
    SubidSpelled(arc);
    SubidThen(arc, tail, one, x, low, y);
    SubidSpelled(840);
    SubidThen(840, one, two, [0x86, 0x48], y, z);
    SubidSpelled(42);
    SubidThen(42, two, ids, [0x2a], z, octets);
  }

  /** The octets are the encoding of the arcs. */
  ghost predicate Encodes(arcs: seq<nat>, octets: seq<Byte>) {
    Legal(arcs) && EncodeOid(arcs) == octets
  }

  ghost predicate SameSmall(tail: seq<nat>, low: seq<Byte>) {
    |tail| == |low| && forall k :: 0 <= k < |tail| ==> tail[k] == low[k] < 128
  }

  lemma KerberosOid(arcs: seq<nat>, arc: nat, tail: seq<nat>, low: seq<Byte>, octets: seq<Byte>)
    requires 0x4000 <= arc < 0x200000 && arcs == [1, 2, 840, arc] + tail && SameSmall(tail, low)
    requires octets == [0x2a, 0x86, 0x48, 128 + arc / 0x4000, 128 + arc / 128 % 128, arc % 128] + low
    ensures Encodes(arcs, octets)
  {
    var x: seq<Byte> := [128 + arc / 0x4000, 128 + arc / 128 % 128, arc % 128];
    assert Subids(arcs) == [42] + ([840] + ([arc] + tail));
    assert octets == [0x2a] + ([0x86, 0x48] + (x + low));
    KerberosTail(arc, x, tail, low, Subids(arcs), octets);
  }

  lemma KerberosPieces(arcs: seq<nat>, arc: nat, ids: seq<nat>, octs: seq<Byte>, octets: seq<Byte>)
    returns (tail: seq<nat>, low: seq<Byte>)
    requires 0x4000 <= arc < 0x200000 && |arcs| >= 4 && |octets| >= 6 && arcs[..4] == [1, 2, 840, arc]
    requires octets[..6] == [0x2a, 0x86, 0x48, 128 + arc / 0x4000, 128 + arc / 128 % 128, arc % 128]
    requires arcs[4..] == ids && octets[6..] == octs && SameSmall(ids, octs)
    ensures arcs == [1, 2, 840, arc] + tail && SameSmall(tail, low)
    ensures octets == [0x2a, 0x86, 0x48, 128 + arc / 0x4000, 128 + arc / 128 % 128, arc % 128] + low
  {
    tail, low := ids, octs;
    assert arcs == arcs[..4] + arcs[4..] && octets == octets[..6] + octets[6..];
  }

  /** The three identifiers of Kerberos. */
  lemma KerberosOctets(arcs: seq<nat>, octets: seq<Byte>)
    requires arcs == NegToken.OidOf(NegToken.Kerberos) && octets == [0x2a, 0x86, 0x48, 0x86, 0xf7, 0x12, 1, 2, 2]
    ensures arcs == [1, 2, 840, 113554, 1, 2, 2] && Encodes(arcs, octets)
  {
    var tail, low := KerberosPieces(arcs, 113554, [1, 2, 2], [1, 2, 2], octets);
    KerberosOid(arcs, 113554, tail, low, octets);
  }

  lemma KerberosU2uOctets(arcs: seq<nat>, octets: seq<Byte>)
    requires arcs == NegToken.OidOf(NegToken.KerberosU2u) && octets == [0x2a, 0x86, 0x48, 0x86, 0xf7, 0x12, 1, 2, 2, 3]
    ensures arcs == [1, 2, 840, 113554, 1, 2, 2, 3] && Encodes(arcs, octets)
  {
    var tail, low := KerberosPieces(arcs, 113554, [1, 2, 2, 3], [1, 2, 2, 3], octets);
    KerberosOid(arcs, 113554, tail, low, octets);
  }

  lemma MsKerberosOctets(arcs: seq<nat>, octets: seq<Byte>)
    requires arcs == NegToken.OidOf(NegToken.MsKerberos) && octets == [0x2a, 0x86, 0x48, 0x82, 0xf7, 0x12, 1, 2, 2]
    ensures arcs == [1, 2, 840, 48018, 1, 2, 2] && Encodes(arcs, octets)
  {
    var tail, low := KerberosPieces(arcs, 48018, [1, 2, 2], [1, 2, 2], octets);
    KerberosOid(arcs, 48018, tail, low, octets);
  }

  /** A short value under two headers. */
  lemma WrapSpelled(tag: Byte, inner: Byte, payload: seq<Byte>)
    requires |payload| < 128
    ensures Spnego.Wrap(tag, inner, payload) == [tag, |payload| + 2, inner, |payload|] + payload
  {
    var n := |payload|;
    assert HeaderBytes(tag, n + 2, 0) == [tag, n + 2] && HeaderBytes(inner, n, 0) == [inner, n];
  }

  lemma ItemsMore(items: seq<Spnego.Item>, i: Spnego.Item, done: seq<Byte>, x: seq<Byte>, more: seq<Spnego.Item>)
    requires done == Spnego.EncodeItems(items) && x == Spnego.WrapItem(i) && more == items + [i]
    ensures Spnego.EncodeItems(more) == done + x
  {
    ConcatMore([], Spnego.WrapItem, items, i);
    assert [] + done == done && [] + Spnego.EncodeItems(more) == Spnego.EncodeItems(more);
  }

  lemma ThreeItems(a: Spnego.Item, b: Spnego.Item, c: Spnego.Item, x: seq<Byte>, y: seq<Byte>, z: seq<Byte>)
    requires x == Spnego.WrapItem(a) && y == Spnego.WrapItem(b) && z == Spnego.WrapItem(c)
    ensures Spnego.EncodeItems([a, b, c]) == x + y + z
  {
    ItemsMore([], a, [], x, [a]);
    assert [] + x == x;
    ItemsMore([a], b, x, y, [a, b]);
    ItemsMore([a, b], c, x + y, z, [a, b, c]);
  }

  /** The whole response for a token of up to 102 octets: a negTokenResp with accept-incomplete, the mechanism
      and the token. */
  lemma ResponseSpelled(blob: seq<Byte>, n: nat, items: seq<Byte>)
    requires n == |blob| <= 102 && items == Spnego.EncodeItems(Spnego.NegItems(blob))
    ensures items == [0xa0, 0x03, 0x0a, 0x01, 0x01] + ([0xa1, 0x0c, 0x06, 0x0a] + Spnego.NTLMSSP_OID_STR)
                     + ([0xa2, n + 2, 0x04, n] + blob)
    ensures Spnego.Wrap(0xa1, 0x30, items) == [0xa1, n + 25, 0x30, n + 23] + items
  {
    var a, b, c := Spnego.NegItems(blob)[0], Spnego.NegItems(blob)[1], Spnego.NegItems(blob)[2];
    WrapSpelled(a.tag, a.inner, a.payload);
    WrapSpelled(b.tag, b.inner, b.payload);
    WrapSpelled(c.tag, c.inner, c.payload);
    assert [0xa0, 0x03, 0x0a, 0x01] + [1] == [0xa0, 0x03, 0x0a, 0x01, 0x01];
    ThreeItems(a, b, c, Spnego.WrapItem(a), Spnego.WrapItem(b), Spnego.WrapItem(c));
    WrapSpelled(0xa1, 0x30, items);
  }
}
