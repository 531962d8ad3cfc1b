/** Decoding a client's negTokenInit (asn1.c, cifsd_decode_negTokenInit; section 4.2.1 of RFC 4178). */
module NegToken {

  import opened Basics
  import opened Buffers
  import opened Ber
  import opened Der
  import opened Oid

  const SPNEGO_OID: seq<nat> := [1, 3, 6, 1, 5, 5, 2]
  const NTLMSSP_OID: seq<nat> := [1, 3, 6, 1, 4, 1, 311, 2, 2, 10]
  const KRB5_OID: seq<nat> := [1, 2, 840, 113554, 1, 2, 2]
  const KRB5U2U_OID: seq<nat> := [1, 2, 840, 113554, 1, 2, 2, 3]
  const MSKRB5_OID: seq<nat> := [1, 2, 840, 48018, 1, 2, 2]

  datatype Mech = MsKerberos | KerberosU2u | Kerberos | Ntlmssp

  function OidOf(m: Mech): seq<nat> {
    match m
    case MsKerberos => MSKRB5_OID
    case KerberosU2u => KRB5U2U_OID
    case Kerberos => KRB5_OID
    case Ntlmssp => NTLMSSP_OID
  }

  /** The mechanisms, one or none, an object identifier names. */
  ghost function Named(arcs: seq<nat>): set<Mech> {
    set m: Mech | OidOf(m) == arcs
  }

  // ---- What the decoder makes of a buffer ----

  ghost function Expect(b: seq<Byte>, p: nat, cls: nat, con: nat, tag: nat): (r: Option<Header>)
    ensures r.Some? ==> HeaderAt(b, p) == r
  {
    match HeaderAt(b, p)
    case None => None
    case Some(h) => if h.cls == cls && h.con == con && h.tag == tag then Some(h) else None
  }

  ghost predicate IsOid(h: Header) {
    h.tag == 6 && h.con == 0 && h.eoc.Some?
  }

  /** The mechanisms an entry of the list names. An entry that is no object identifier names none, and
      its contents are not skipped. */
  ghost function EntryNames(b: seq<Byte>, h: Header): set<Mech>
    requires h.eoc.Some? ==> h.next <= h.eoc.value
  {
    if IsOid(h) && ArcsAt(b, h.next, h.eoc.value).Some? then Named(ArcsAt(b, h.next, h.eoc.value).value) else {}
  }

  ghost function EntryEnd(b: seq<Byte>, h: Header): (r: nat)
    requires h.next <= |b| && (h.eoc.Some? ==> h.next <= h.eoc.value <= |b|)
    ensures h.next <= r <= |b|
  {
    if IsOid(h) then ArcsEnd(b, h.next, h.eoc.value) else h.next
  }

  datatype Scan = Scan(ok: bool, next: nat, seen: set<Mech>)

  /** The mechanism list from `p` on. The list may overrun its end, and then goes on until a header does
      not decode. */
  ghost function ScanList(b: seq<Byte>, p: nat, eoc: Option<nat>, seen: set<Mech>): (r: Scan)
    requires p <= |b|
    ensures p <= r.next <= |b| && seen <= r.seen
    decreases |b| - p
  {
    var q := EocNext(b, p, eoc);
    if EocAt(b, p, eoc) then Scan(true, q, seen)
    else
      match HeaderAt(b, q)
      case None => Scan(false, q, seen)
      case Some(h) => ScanList(b, EntryEnd(b, h), eoc, seen + EntryNames(b, h))
  }

  /** The headers up to that of the mechanism list. */
  ghost function ListHeader(b: seq<Byte>): (r: Option<Header>)
    ensures r.Some? ==> r.value.next <= |b| && (r.value.eoc.Some? ==> r.value.next <= r.value.eoc.value <= |b|)
  {
    match Expect(b, 0, 1, 1, 0)
    case None => None
    case Some(gss) =>
      match Expect(b, gss.next, 0, 0, 6)
      case None => None
      case Some(oid) =>
        if ArcsAt(b, oid.next, oid.eoc.value) != Some(SPNEGO_OID) then None
        else InitHeader(b, ArcsEnd(b, oid.next, oid.eoc.value))
  }

  /** A sequence inside a context tag 0. */
  ghost function SequenceAt(b: seq<Byte>, p: nat): (r: Option<Header>)
    ensures r.Some? ==> r.value.next <= |b| && (r.value.eoc.Some? ==> r.value.next <= r.value.eoc.value <= |b|)
  {
    match Expect(b, p, 2, 1, 0)
    case None => None
    case Some(outer) => Expect(b, outer.next, 0, 1, 16)
  }

  /** The headers of the negTokenInit at `p`, up to that of the mechanism list. */
  ghost function InitHeader(b: seq<Byte>, p: nat): (r: Option<Header>)
    ensures r.Some? ==> r.value.next <= |b| && (r.value.eoc.Some? ==> r.value.next <= r.value.eoc.value <= |b|)
  {
    match SequenceAt(b, p)
    case None => None
    case Some(init) => SequenceAt(b, init.next)
  }

  /** Where the mechanism token starts, after the list. */
  ghost function TokenAt(b: seq<Byte>, p: nat): (r: Option<nat>)
    ensures r.Some? ==> r.value <= |b|
  {
    match Expect(b, p, 2, 1, 2)
    case None => None
    case Some(outer) =>
      match Expect(b, outer.next, 0, 0, 4)
      case None => None
      case Some(h) => Some(h.next)
  }

  datatype Outcome = Outcome(seen: set<Mech>, token: Option<seq<Byte>>)

  /** The token of an accepted message is all that follows its header. */
  ghost function Kept(b: seq<Byte>, seen: set<Mech>, token: Option<nat>): Outcome
    requires token.Some? ==> token.value <= |b|
  {
    match token
    case None => Outcome(seen, None)
    case Some(q) => Outcome(seen, Some(b[q..]))
  }

  ghost function DecodedList(b: seq<Byte>, s: Scan): Outcome {
    if s.ok then Kept(b, s.seen, TokenAt(b, s.next)) else Outcome(s.seen, None)
  }

  ghost function DecodedFrom(b: seq<Byte>, list: Option<Header>): Outcome
    requires list.Some? ==> list.value.next <= |b|
  {
    match list
    case None => Outcome({}, None)
    case Some(h) => DecodedList(b, ScanList(b, h.next, h.eoc, {}))
  }

  /** The mechanisms noted, and the token if the message is accepted. */
  ghost function Decoded(b: seq<Byte>): Outcome {
    DecodedFrom(b, ListHeader(b))
  }

  // ---- The decoder ----

  /** What the decoder leaves in the connection. */
  class Conn {
    var mechs: set<Mech>
    var mechToken: seq<Byte>

    constructor ()
      ensures mechs == {} && mechToken == []
    {
      mechs, mechToken := {}, [];
    }
  }

  /** compare_oid */
  method CompareOid(oid: array<nat>, len: nat, other: seq<nat>) returns (same: bool)
    requires len <= oid.Length
    ensures same <==> oid[..len] == other
  {
    if len != |other| {
      return false;
    }
    for i := 0 to len
      invariant forall k :: 0 <= k < i ==> oid[k] == other[k]
    {
      if oid[i] != other[i] {
        return false;
      }
    }
    return true;
  }

  /** A header and the test of its class, method and tag. */
  method ExpectHeader(ctx: Ctx, cls: nat, con: nat, tag: nat) returns (ok: bool, eoc: Option<nat>)
    requires ctx.Valid()
    modifies ctx
    ensures ctx.Valid() && ok == Expect(ctx.buf, old(ctx.pointer), cls, con, tag).Some?
    ensures ok ==> Expect(ctx.buf, old(ctx.pointer), cls, con, tag) == Some(Header(cls, con, tag, eoc, ctx.pointer))
  {
    var c, m, t;
    ok, eoc, c, m, t := ctx.HeaderDecode();
    ok := ok && c == cls && m == con && t == tag;
  }

  lemma OidsApart()
    ensures forall m, n: Mech :: OidOf(m) == OidOf(n) ==> m == n
  {
    assert MSKRB5_OID[3] != KRB5_OID[3] && |KRB5U2U_OID| != |KRB5_OID|;
    assert |NTLMSSP_OID| == 10 && |KRB5U2U_OID| == 8 && |KRB5_OID| == 7 && |MSKRB5_OID| == 7;
  }

  /** The mechanism of a decoded object identifier, noted in the connection. */
  method NoteMech(oid: array<nat>, len: nat, conn: Conn)
    requires len <= oid.Length
    modifies conn
    ensures conn.mechs == old(conn.mechs) + Named(oid[..len]) && conn.mechToken == old(conn.mechToken)
  {
    OidsApart();
    var same := CompareOid(oid, len, MSKRB5_OID);
    if same {
      conn.mechs := conn.mechs + {MsKerberos};
      return;
    }
    same := CompareOid(oid, len, KRB5U2U_OID);
    if same {
      conn.mechs := conn.mechs + {KerberosU2u};
      return;
    }
    same := CompareOid(oid, len, KRB5_OID);
    if same {
      conn.mechs := conn.mechs + {Kerberos};
      return;
    }
    same := CompareOid(oid, len, NTLMSSP_OID);
    if same {
      conn.mechs := conn.mechs + {Ntlmssp};
    }
  }

  /** The SPNEGO object identifier at the pointer. */
  method ExpectSpnego(ctx: Ctx) returns (ok: bool)
    requires ctx.Valid()
    modifies ctx
    ensures ctx.Valid()
    ensures var h := Expect(ctx.buf, old(ctx.pointer), 0, 0, 6);
            && (ok <==> h.Some? && ArcsAt(ctx.buf, h.value.next, h.value.eoc.value) == Some(SPNEGO_OID))
            && (ok ==> ctx.pointer == ArcsEnd(ctx.buf, h.value.next, h.value.eoc.value))
  {
    var eoc;
    ok, eoc := ExpectHeader(ctx, 0, 0, 6);
    if ok {
      var oid, len;
      ok, oid, len := OidDecode(ctx, eoc.value);
      if ok {
        ok := CompareOid(oid, len, SPNEGO_OID);
      }
    }
  }

  method DecodeSequence(ctx: Ctx) returns (ok: bool, eoc: Option<nat>)
    requires ctx.Valid()
    modifies ctx
    ensures ctx.Valid() && ok == SequenceAt(ctx.buf, old(ctx.pointer)).Some?
    ensures ok ==> var h := SequenceAt(ctx.buf, old(ctx.pointer)).value; eoc == h.eoc && ctx.pointer == h.next
  {
    ok, eoc := ExpectHeader(ctx, 2, 1, 0);
    if !ok {
      return;
    }
    ok, eoc := ExpectHeader(ctx, 0, 1, 16);
  }

  method DecodeListHeader(ctx: Ctx) returns (ok: bool, eoc: Option<nat>)
    requires ctx.Valid() && ctx.pointer == 0
    modifies ctx
    ensures ctx.Valid() && ok == ListHeader(ctx.buf).Some?
    ensures ok ==> var h := ListHeader(ctx.buf).value; eoc == h.eoc && ctx.pointer == h.next
  {
    ok, eoc := ExpectHeader(ctx, 1, 1, 0);
    if !ok {
      return;
    }
    ok := ExpectSpnego(ctx);
    if !ok {
      return;
    }
    ok, eoc := DecodeSequence(ctx);
    if !ok {
      return;
    }
    ok, eoc := DecodeSequence(ctx);
  }

  /** One entry of the mechanism list. */
  method DecodeEntry(ctx: Ctx, conn: Conn) returns (ok: bool)
    requires ctx.Valid()
    modifies ctx, conn
    ensures ctx.Valid() && conn.mechToken == old(conn.mechToken)
    ensures ok == HeaderAt(ctx.buf, old(ctx.pointer)).Some?
    ensures !ok ==> conn.mechs == old(conn.mechs)
    ensures ok ==>
              var h := HeaderAt(ctx.buf, old(ctx.pointer)).value;
              ctx.pointer == EntryEnd(ctx.buf, h) && conn.mechs == old(conn.mechs) + EntryNames(ctx.buf, h)
  {
    var eoc, cls, con, tag;
    ok, eoc, cls, con, tag := ctx.HeaderDecode();
    if ok && tag == 6 && con == 0 {
      var got, oid, len := OidDecode(ctx, eoc.value);
      if got {
        NoteMech(oid, len, conn);
      }
    }
  }

  /** The loop over the mechanism list. It ends on every buffer, each turn having moved the pointer on by
      two octets or more. */
  method DecodeList(ctx: Ctx, eoc: Option<nat>, conn: Conn) returns (ok: bool)
    requires ctx.Valid()
    modifies ctx, conn
    ensures ctx.Valid() && conn.mechToken == old(conn.mechToken)
    ensures var s := ScanList(ctx.buf, old(ctx.pointer), eoc, old(conn.mechs));
            ok == s.ok && conn.mechs == s.seen && (ok ==> ctx.pointer == s.next)
  {
    ghost var goal := ScanList(ctx.buf, ctx.pointer, eoc, conn.mechs);
    var done := ctx.EocDecode(eoc);
    ghost var at: nat := old(ctx.pointer);
    while !done
      invariant ctx.Valid() && at <= ctx.pointer && conn.mechToken == old(conn.mechToken)
      invariant ctx.pointer == EocNext(ctx.buf, at, eoc) && done == EocAt(ctx.buf, at, eoc)
      invariant ScanList(ctx.buf, at, eoc, conn.mechs) == goal
      decreases |ctx.buf| - ctx.pointer, !done
    {
      ok := DecodeEntry(ctx, conn);
      if !ok {
        return;
      }
      at := ctx.pointer;
      done := ctx.EocDecode(eoc);
    }
    ok := true;
  }

  lemma {:induction false} ScanFrom(b: seq<Byte>, p: nat, eoc: Option<nat>, seen: set<Mech>)
    requires p <= |b|
    ensures var s, t := ScanList(b, p, eoc, seen), ScanList(b, p, eoc, {});
            s.ok == t.ok && s.next == t.next && s.seen == seen + t.seen
    decreases |b| - p
  {
    if !EocAt(b, p, eoc) && HeaderAt(b, EocNext(b, p, eoc)).Some? {
      var h := HeaderAt(b, EocNext(b, p, eoc)).value;
      var names := EntryNames(b, h);
      ScanFrom(b, EntryEnd(b, h), eoc, seen + names);
      ScanFrom(b, EntryEnd(b, h), eoc, {} + names);
    }
  }

  /** cifsd_decode_negTokenInit: it ends on every buffer, notes the mechanisms and, if the message is
      accepted, keeps the token. */
  method DecodeNegTokenInit(blob: seq<Byte>, conn: Conn) returns (ok: bool)
    modifies conn
    ensures conn.mechs == old(conn.mechs) + Decoded(blob).seen
    ensures ok == Decoded(blob).token.Some?
    ensures conn.mechToken == if ok then Decoded(blob).token.value else old(conn.mechToken)
  {
    var ctx := new Ctx(blob);
    var eoc;
    ok, eoc := DecodeListHeader(ctx);
    if !ok {
      return;
    }
    ScanFrom(blob, ctx.pointer, eoc, conn.mechs);
    ok := DecodeList(ctx, eoc, conn);
    if !ok {
      return;
    }
    ok, eoc := ExpectHeader(ctx, 2, 1, 2);
    if !ok {
      return;
    }
    ok, eoc := ExpectHeader(ctx, 0, 0, 4);
    if !ok {
      return;
    }
    conn.mechToken := blob[ctx.pointer..];
  }

  // ---- Well-formed messages ----

  predicate Sendable(arcs: seq<nat>) {
    Legal(arcs) && Fits(arcs) && |EncodeOid(arcs)| < MAX_ARCS
  }

  function OidTlv(arcs: seq<nat>): seq<Byte> {
    Tlv(6, if Legal(arcs) then EncodeOid(arcs) else [])
  }

  /** Two headers, one inside the other. */
  function Within(tag: Byte, inner: Byte, content: seq<Byte>): seq<Byte> {
    Tlv(tag, Tlv(inner, content))
  }

  /** The negTokenInit around a mechanism list and a token. */
  ghost function Init(list: seq<Byte>, token: seq<Byte>): seq<Byte> {
    Within(0xA0, 0x30, Within(0xA0, 0x30, list) + Within(0xA2, 0x04, token))
  }

  /** A message: the SPNEGO object identifier, then the negTokenInit. */
  ghost function Message(mechs: seq<seq<nat>>, token: seq<Byte>): seq<Byte> {
    Tlv(0x60, OidTlv(SPNEGO_OID) + Init(Concat(OidTlv, mechs), token))
  }

  // ---- An object identifier is read back ----

  lemma ArcsEndBack(b: seq<Byte>, q: nat, ids: seq<nat>, s: seq<Byte>, e: nat)
    requires s == EncodeSubids(ids) && Stands(b, q, s) && e == q + |s|
    ensures ArcsEnd(b, q, e) == if e - q + 1 > MAX_ARCS then q else e
  {
    SubidsBack(b, q, ids);
  }

  lemma ArcsBack(b: seq<Byte>, q: nat, arcs: seq<nat>, s: seq<Byte>, e: nat)
    requires Sendable(arcs) && s == EncodeOid(arcs) && Stands(b, q, s) && e == q + |s|
    ensures ArcsAt(b, q, e) == Some(arcs)
  {
    DecodeEncode(b, q, arcs);
  }

  /** At `p` stands an object identifier whose header leads to `q` and which ends at `e`. */
  ghost predicate OidAt(b: seq<Byte>, p: nat, q: nat, e: nat, arcs: seq<nat>) {
    && p < q <= e <= |b| && HeaderAt(b, p) == Some(Header(0, 0, 6, Some(e), q))
    && ArcsAt(b, q, e) == Some(arcs) && ArcsEnd(b, q, e) == e
  }

  lemma OidEnter(b: seq<Byte>, p: nat, tag: Byte, content: seq<Byte>, e: nat) returns (q: nat)
    requires tag == 6 && |content| < U32 && Stands(b, p, Tlv(tag, content)) && e == p + |Tlv(tag, content)|
    ensures p < q && q + |content| == e <= |b| && HeaderAt(b, p) == Some(Header(0, 0, 6, Some(e), q))
    ensures Stands(b, q, content)
  {
    q := Enter(b, p, tag, content);
  }

  lemma OidBack(b: seq<Byte>, p: nat, arcs: seq<nat>, content: seq<Byte>, e: nat, q: nat)
    requires Sendable(arcs) && content == EncodeOid(arcs)
    requires p < q && q + |content| == e <= |b| && HeaderAt(b, p) == Some(Header(0, 0, 6, Some(e), q))
    requires Stands(b, q, content)
    ensures OidAt(b, p, q, e, arcs)
  {
    ArcsBack(b, q, arcs, content, e);
    ArcsEndBack(b, q, Subids(arcs), content, e);
  }

  lemma OidTlvIs(arcs: seq<nat>, content: seq<Byte>)
    requires Sendable(arcs) && content == EncodeOid(arcs)
    ensures OidTlv(arcs) == Tlv(6, content) && |content| < U32
  {
  }

  /** A sent object identifier is read back, up to its end. */
  lemma OidPlaced(b: seq<Byte>, p: nat, arcs: seq<nat>, content: seq<Byte>, s: seq<Byte>, e: nat) returns (q: nat)
    requires Sendable(arcs) && content == EncodeOid(arcs) && s == OidTlv(arcs) && Stands(b, p, s) && e == p + |s|
    ensures OidAt(b, p, q, e, arcs)
  {
    OidTlvIs(arcs, content);
    q := OidEnter(b, p, 6, content, e);
    OidBack(b, p, arcs, content, e, q);
  }

  // ---- The mechanism list is read back ----

  /** The mechanisms whose object identifiers are in the list. */
  ghost function Listed(mechs: seq<seq<nat>>): set<Mech> {
    set m: Mech | OidOf(m) in mechs
  }

  /** What is seen and what the entries from `k` on name make `all`. */
  ghost predicate Completes(seen: set<Mech>, mechs: seq<seq<nat>>, k: nat, all: set<Mech>) {
    k <= |mechs| && all == seen + Listed(mechs[k..])
  }

  lemma CompletesNext(seen: set<Mech>, mechs: seq<seq<nat>>, k: nat, all: set<Mech>)
    requires Completes(seen, mechs, k, all)
    ensures k < |mechs| ==> Completes(seen + Named(mechs[k]), mechs, k + 1, all)
    ensures k == |mechs| ==> seen == all
  {
    if k < |mechs| {
      assert mechs[k..] == [mechs[k]] + mechs[k + 1..];
    }
  }

  lemma CompletesFrom(mechs: seq<seq<nat>>, all: set<Mech>)
    requires all == Listed(mechs)
    ensures Completes({}, mechs, 0, all)
  {
    assert mechs[0..] == mechs;
  }

  ghost predicate AllSendable(mechs: seq<seq<nat>>) {
    forall k :: 0 <= k < |mechs| ==> Sendable(mechs[k])
  }

  /** `at` is where entry `k` of the list at `p`, which ends at `end`, starts. */
  ghost predicate EntryAt(b: seq<Byte>, p: nat, end: nat, mechs: seq<seq<nat>>, k: nat, at: nat) {
    && Stands(b, p, Concat(OidTlv, mechs)) && end == p + |Concat(OidTlv, mechs)|
    && k <= |mechs| && at == p + |Concat(OidTlv, mechs[..k])| && at <= |b|
  }

  lemma FirstEntry(b: seq<Byte>, p: nat, end: nat, mechs: seq<seq<nat>>)
    requires Stands(b, p, Concat(OidTlv, mechs)) && end == p + |Concat(OidTlv, mechs)|
    ensures EntryAt(b, p, end, mechs, 0, p)
  {
    assert Concat(OidTlv, mechs[..0]) == [];
  }

  lemma LastEntry(b: seq<Byte>, p: nat, end: nat, mechs: seq<seq<nat>>, at: nat)
    requires EntryAt(b, p, end, mechs, |mechs|, at)
    ensures at == end
  {
    assert mechs[..|mechs|] == mechs;
  }

  lemma EntryPlaced(b: seq<Byte>, p: nat, end: nat, mechs: seq<seq<nat>>, k: nat, at: nat, s: seq<Byte>)
    requires EntryAt(b, p, end, mechs, k, at) && k < |mechs| && s == OidTlv(mechs[k])
    ensures Stands(b, at, s) && EntryAt(b, p, end, mechs, k + 1, at + |s|) && at < end
  {
    ConcatPlaced(b, p, OidTlv, mechs, k);
    ConcatMore([], OidTlv, mechs[..k], mechs[k]);
    assert mechs[..k] + [mechs[k]] == mechs[..k + 1];
  }

  lemma ScanNext(b: seq<Byte>, p: nat, q: nat, e: nat, arcs: seq<nat>, end: nat, seen: set<Mech>)
    requires OidAt(b, p, q, e, arcs) && p != end
    ensures ScanList(b, p, Some(end), seen) == ScanList(b, e, Some(end), seen + Named(arcs))
  {
  }

  lemma ScanStop(b: seq<Byte>, p: nat, seen: set<Mech>)
    requires p <= |b|
    ensures ScanList(b, p, Some(p), seen) == Scan(true, p, seen)
  {
  }

  lemma ScanOne(b: seq<Byte>, p: nat, arcs: seq<nat>, content: seq<Byte>, s: seq<Byte>, e: nat, end: nat,
                seen: set<Mech>)
    requires Sendable(arcs) && content == EncodeOid(arcs) && s == OidTlv(arcs) && Stands(b, p, s) && e == p + |s| <= |b|
    requires p != end
    ensures ScanList(b, p, Some(end), seen) == ScanList(b, e, Some(end), seen + Named(arcs))
  {
    var q := OidPlaced(b, p, arcs, content, s, e);
    ScanNext(b, p, q, e, arcs, end, seen);
  }

  lemma ScanEntry(b: seq<Byte>, p: nat, mechs: seq<seq<nat>>, k: nat, seen: set<Mech>, at: nat, end: nat,
                  arcs: seq<nat>, s: seq<Byte>)
    returns (next: nat)
    requires EntryAt(b, p, end, mechs, k, at) && k < |mechs| && arcs == mechs[k] && Sendable(arcs) && s == OidTlv(arcs)
    ensures EntryAt(b, p, end, mechs, k + 1, next) && next <= |b|
    ensures ScanList(b, at, Some(end), seen) == ScanList(b, next, Some(end), seen + Named(arcs))
  {
    EntryPlaced(b, p, end, mechs, k, at, s);
    next := at + |s|;
    ScanOne(b, at, arcs, EncodeOid(arcs), s, next, end, seen);
  }

  lemma {:induction false} ScanBack(b: seq<Byte>, p: nat, mechs: seq<seq<nat>>, k: nat, seen: set<Mech>, at: nat,
                                    end: nat, all: set<Mech>)
    requires AllSendable(mechs) && EntryAt(b, p, end, mechs, k, at) && at <= |b| && Completes(seen, mechs, k, all)
    ensures ScanList(b, at, Some(end), seen) == Scan(true, end, all)
    decreases |mechs| - k
  {
    CompletesNext(seen, mechs, k, all);
    if k == |mechs| {
      LastEntry(b, p, end, mechs, at);
      ScanStop(b, at, seen);
    } else {
      var next := ScanEntry(b, p, mechs, k, seen, at, end, mechs[k], OidTlv(mechs[k]));
      ScanBack(b, p, mechs, k + 1, seen + Named(mechs[k]), next, end, all);
    }
  }

  lemma ListDecodes(b: seq<Byte>, p: nat, mechs: seq<seq<nat>>, end: nat, all: set<Mech>)
    requires AllSendable(mechs) && Stands(b, p, Concat(OidTlv, mechs)) && end == p + |Concat(OidTlv, mechs)|
    requires all == Listed(mechs)
    ensures ScanList(b, p, Some(end), {}) == Scan(true, end, all)
  {
    FirstEntry(b, p, end, mechs);
    CompletesFrom(mechs, all);
    ScanBack(b, p, mechs, 0, {}, p, end, all);
  }

  // ---- The headers are read back ----

  /** Where a value stands, its header is the expected one and leads to the content. */
  lemma EnterAs(b: seq<Byte>, p: nat, tag: Byte, content: seq<Byte>, s: seq<Byte>, cls: nat, con: nat, t: nat)
    returns (h: Header, q: nat, e: nat)
    requires |content| < U32 && s == Tlv(tag, content) && Stands(b, p, s)
    requires cls == tag / 64 && con == tag / 32 % 2 && t == tag % 32 != 31
    ensures Expect(b, p, cls, con, t) == Some(h) && h.next == q && h.eoc == Some(e)
    ensures e == q + |content| && e == p + |s| && Stands(b, q, content)
  {
    q := Enter(b, p, tag, content);
    e := q + |content|;
    h := Definite(tag, |content|, q);
  }

  lemma TwoHeaders(b: seq<Byte>, p: nat, tag: Byte, inner: Byte, content: seq<Byte>, mid: seq<Byte>, s: seq<Byte>,
                   t: nat, con: nat, u: nat)
    returns (outer: Header, h: Header, q: nat, e: nat)
    requires |content| < U32 && |mid| < U32 && mid == Tlv(inner, content) && s == Tlv(tag, mid) && Stands(b, p, s)
    requires tag / 64 == 2 && tag / 32 % 2 == 1 && t == tag % 32 != 31
    requires inner / 64 == 0 && con == inner / 32 % 2 && u == inner % 32 != 31
    ensures Expect(b, p, 2, 1, t) == Some(outer) && Expect(b, outer.next, 0, con, u) == Some(h)
    ensures h.next == q && h.eoc == Some(e) && e == q + |content| && e == p + |s| && Stands(b, q, content)
  {
    var r, f;
    outer, r, f := EnterAs(b, p, tag, mid, s, 2, 1, t);
    h, q, e := EnterAs(b, r, inner, content, mid, 0, con, u);
  }

  lemma TlvFits(tag: Byte, content: seq<Byte>, s: seq<Byte>)
    requires |content| + 6 < U32 && s == Tlv(tag, content)
    ensures |s| < U32
  {
  }

  /** A sequence inside a context tag 0 is found, and leads to its content. */
  lemma SequenceBack(b: seq<Byte>, p: nat, content: seq<Byte>, s: seq<Byte>) returns (h: Header, q: nat, e: nat)
    requires |content| + 6 < U32 && s == Within(0xA0, 0x30, content) && Stands(b, p, s)
    ensures SequenceAt(b, p) == Some(h) && h.next == q && h.eoc == Some(e)
    ensures e == q + |content| && e == p + |s| && Stands(b, q, content)
  {
    var mid := Tlv(0x30, content);
    TlvFits(0x30, content, mid);
    var outer;
    outer, h, q, e := TwoHeaders(b, p, 0xA0, 0x30, content, mid, s, 0, 1, 16);
  }

  lemma TokenBack(b: seq<Byte>, p: nat, token: seq<Byte>, s: seq<Byte>) returns (q: nat)
    requires |token| + 6 < U32 && s == Within(0xA2, 0x04, token) && Stands(b, p, s)
    ensures q + |token| == p + |s| && Stands(b, q, token) && TokenAt(b, p) == Some(q)
  {
    var mid := Tlv(0x04, token);
    TlvFits(0x04, token, mid);
    var outer, h, e;
    outer, h, q, e := TwoHeaders(b, p, 0xA2, 0x04, token, mid, s, 2, 0, 4);
  }

  lemma SequenceInSequence(b: seq<Byte>, p: nat, outer: Header, r: nat, h: Header)
    requires SequenceAt(b, p) == Some(outer) && outer.next == r && SequenceAt(b, r) == Some(h)
    ensures InitHeader(b, p) == Some(h)
  {
  }

  lemma InitBack(b: seq<Byte>, p: nat, list: seq<Byte>, types: seq<Byte>, rest: seq<Byte>, both: seq<Byte>,
                 s: seq<Byte>)
    returns (h: Header, q: nat, e: nat)
    requires types == Within(0xA0, 0x30, list) && both == types + rest && s == Within(0xA0, 0x30, both)
    requires |both| + 6 < U32 && |list| + 6 < U32 && Stands(b, p, s)
    ensures InitHeader(b, p) == Some(h) && h.next == q && h.eoc == Some(e)
    ensures e == q + |list| && Stands(b, q, list) && Stands(b, e, rest) && e + |rest| == p + |s|
  {
    var outer, r, at := OuterBack(b, p, types, rest, both, s);
    h, q, e := ListSequenceBack(b, r, list, types, at, rest, p + |s|);
    SequenceInSequence(b, p, outer, r, h);
  }

  lemma SplitAt(b: seq<Byte>, r: nat, x: seq<Byte>, y: seq<Byte>, both: seq<Byte>, end: nat) returns (at: nat)
    requires both == x + y && Stands(b, r, both) && r + |both| == end
    ensures at == r + |x| && Stands(b, r, x) && Stands(b, at, y) && at + |y| == end
  {
    StandsTwo(b, r, x, y, both);
    at := r + |x|;
  }

  lemma StandsThere(b: seq<Byte>, at: nat, e: nat, s: seq<Byte>)
    requires at == e && Stands(b, at, s)
    ensures Stands(b, e, s)
  {
  }

  lemma OuterBack(b: seq<Byte>, p: nat, types: seq<Byte>, rest: seq<Byte>, both: seq<Byte>, s: seq<Byte>)
    returns (h: Header, r: nat, at: nat)
    requires both == types + rest && s == Within(0xA0, 0x30, both) && |both| + 6 < U32 && Stands(b, p, s)
    ensures SequenceAt(b, p) == Some(h) && h.next == r && at == r + |types| && Stands(b, r, types)
    ensures Stands(b, at, rest) && at + |rest| == p + |s|
  {
    var e;
    h, r, e := SequenceBack(b, p, both, s);
    at := SplitAt(b, r, types, rest, both, p + |s|);
  }

  lemma ListSequenceBack(b: seq<Byte>, r: nat, list: seq<Byte>, types: seq<Byte>, at: nat, rest: seq<Byte>, end: nat)
    returns (h: Header, q: nat, e: nat)
    requires types == Within(0xA0, 0x30, list) && |list| + 6 < U32 && Stands(b, r, types) && at == r + |types|
    requires Stands(b, at, rest) && at + |rest| == end
    ensures SequenceAt(b, r) == Some(h) && h.next == q && h.eoc == Some(e)
    ensures e == q + |list| && Stands(b, q, list) && Stands(b, e, rest) && e + |rest| == end
  {
    h, q, e := SequenceBack(b, r, list, types);
    StandsThere(b, at, e, rest);
  }

  lemma {:induction false} ShortIds(ids: seq<nat>)
    requires forall k :: 0 <= k < |ids| ==> ids[k] < 128
    ensures |EncodeSubids(ids)| == |ids|
  {
    if ids == [] {
    } else {
      assert Lead(ids[0] / 128) == [];
      ShortIds(ids[1..]);
    }
  }

  lemma SpnegoSendable()
    ensures Sendable(SPNEGO_OID)
  {
    assert Subids(SPNEGO_OID) == [43, 6, 1, 5, 5, 2];
    ShortIds(Subids(SPNEGO_OID));
  }

  lemma SpnegoFound(b: seq<Byte>, gss: Header, q: nat, p: nat, arcs: seq<nat>)
    requires Expect(b, 0, 1, 1, 0) == Some(gss) && OidAt(b, gss.next, q, p, arcs) && arcs == SPNEGO_OID
    ensures ListHeader(b) == InitHeader(b, p)
  {
  }

  lemma GssBack(b: seq<Byte>, tag: Byte, spnego: seq<Byte>, init: seq<Byte>, both: seq<Byte>)
    returns (gss: Header, r: nat, p: nat)
    requires tag == 0x60 && both == spnego + init && b == Tlv(tag, both) && |both| < U32
    ensures Expect(b, 0, 1, 1, 0) == Some(gss) && gss.next == r && Stands(b, r, spnego) && p == r + |spnego|
    ensures Stands(b, p, init) && p + |init| == |b|
  {
    StandsWhole(b);
    var e;
    gss, r, e := EnterAs(b, 0, tag, both, b, 1, 1, 0);
    p := SplitAt(b, r, spnego, init, both, |b|);
  }

  /** The outer header and the SPNEGO object identifier lead to the negTokenInit. */
  lemma ListBack(b: seq<Byte>, arcs: seq<nat>, spnego: seq<Byte>, init: seq<Byte>, both: seq<Byte>) returns (p: nat)
    requires arcs == SPNEGO_OID && Sendable(arcs) && spnego == OidTlv(arcs)
    requires both == spnego + init && b == Tlv(0x60, both) && |both| < U32
    ensures ListHeader(b) == InitHeader(b, p) && Stands(b, p, init) && p + |init| == |b|
  {
    var gss, r;
    gss, r, p := GssBack(b, 0x60, spnego, init, both);
    SpnegoPlaced(b, gss, r, p, arcs, spnego);
  }

  lemma SpnegoPlaced(b: seq<Byte>, gss: Header, r: nat, p: nat, arcs: seq<nat>, spnego: seq<Byte>)
    requires Expect(b, 0, 1, 1, 0) == Some(gss) && gss.next == r && Stands(b, r, spnego) && p == r + |spnego|
    requires arcs == SPNEGO_OID && Sendable(arcs) && spnego == OidTlv(arcs)
    ensures ListHeader(b) == InitHeader(b, p)
  {
    var q := OidPlaced(b, r, arcs, EncodeOid(arcs), spnego, p);
    SpnegoFound(b, gss, q, p, arcs);
  }

  // ---- The whole message is read back ----

  lemma RestDecodes(b: seq<Byte>, p: nat, seen: set<Mech>, token: seq<Byte>, rest: seq<Byte>)
    requires rest == Within(0xA2, 0x04, token) && |token| + 6 < U32 && Stands(b, p, rest) && p + |rest| == |b|
    ensures DecodedList(b, Scan(true, p, seen)) == Outcome(seen, Some(token))
  {
    var t := TokenBack(b, p, token, rest);
    StandsEnd(b, t, token);
  }

  lemma FromScan(b: seq<Byte>, h: Header, q: nat, e: nat, s: Scan, o: Outcome)
    requires h.next == q <= |b| && h.eoc == Some(e) && ScanList(b, q, Some(e), {}) == s && DecodedList(b, s) == o
    ensures DecodedFrom(b, Some(h)) == o
  {
  }

  lemma BodyDecodes(b: seq<Byte>, q: nat, mechs: seq<seq<nat>>, list: seq<Byte>, end: nat, token: seq<Byte>,
                    rest: seq<Byte>, h: Header, all: set<Mech>)
    requires AllSendable(mechs) && list == Concat(OidTlv, mechs) && Stands(b, q, list) && end == q + |list|
    requires all == Listed(mechs)
    requires rest == Within(0xA2, 0x04, token) && |token| + 6 < U32 && Stands(b, end, rest) && end + |rest| == |b|
    requires h.next == q <= |b| && h.eoc == Some(end)
    ensures DecodedFrom(b, Some(h)) == Outcome(all, Some(token))
  {
    ListDecodes(b, q, mechs, end, all);
    RestDecodes(b, end, all, token, rest);
    FromScan(b, h, q, end, Scan(true, end, all), Outcome(all, Some(token)));
  }

  lemma HeadersDecode(b: seq<Byte>, arcs: seq<nat>, spnego: seq<Byte>, list: seq<Byte>, types: seq<Byte>,
                      rest: seq<Byte>, both: seq<Byte>, init: seq<Byte>, whole: seq<Byte>)
    returns (h: Header, q: nat, e: nat)
    requires types == Within(0xA0, 0x30, list) && both == types + rest && init == Within(0xA0, 0x30, both)
    requires |both| + 6 < U32 && |list| + 6 < U32 && arcs == SPNEGO_OID && Sendable(arcs) && spnego == OidTlv(arcs)
    requires whole == spnego + init && b == Tlv(0x60, whole) && |whole| < U32
    ensures ListHeader(b) == Some(h) && h.next == q <= |b| && h.eoc == Some(e)
    ensures e == q + |list| && Stands(b, q, list) && Stands(b, e, rest) && e + |rest| == |b|
  {
    var p := ListBack(b, arcs, spnego, init, whole);
    h, q, e := InitBack(b, p, list, types, rest, both, init);
  }

  lemma Sizes(mechs: seq<seq<nat>>, token: seq<Byte>, list: seq<Byte>, types: seq<Byte>, rest: seq<Byte>,
              both: seq<Byte>, init: seq<Byte>, whole: seq<Byte>)
    requires list == Concat(OidTlv, mechs) && types == Within(0xA0, 0x30, list) && rest == Within(0xA2, 0x04, token)
    requires both == types + rest && init == Within(0xA0, 0x30, both) && whole == OidTlv(SPNEGO_OID) + init
    ensures Message(mechs, token) == Tlv(0x60, whole)
    ensures |Tlv(0x60, whole)| >= |whole| >= |init| >= |both| + 4 >= |list| + |token| + 12
  {
  }

  lemma HeaderThenBody(b: seq<Byte>, h: Header, o: Outcome)
    requires ListHeader(b) == Some(h) && h.next <= |b| && DecodedFrom(b, Some(h)) == o
    ensures Decoded(b) == o
  {
  }

  lemma MessageFrom(b: seq<Byte>, mechs: seq<seq<nat>>, all: set<Mech>, token: seq<Byte>, arcs: seq<nat>,
                    spnego: seq<Byte>, list: seq<Byte>, types: seq<Byte>, rest: seq<Byte>, both: seq<Byte>,
                    init: seq<Byte>, whole: seq<Byte>)
    requires AllSendable(mechs) && all == Listed(mechs) && arcs == SPNEGO_OID && Sendable(arcs)
    requires spnego == OidTlv(arcs)
    requires list == Concat(OidTlv, mechs) && types == Within(0xA0, 0x30, list) && rest == Within(0xA2, 0x04, token)
    requires both == types + rest && init == Within(0xA0, 0x30, both) && whole == spnego + init && b == Tlv(0x60, whole)
    requires |both| + 6 < U32 && |list| + 6 < U32 && |token| + 6 < U32 && |whole| < U32
    ensures Decoded(b) == Outcome(all, Some(token))
  {
    var h, q, e := HeadersDecode(b, arcs, spnego, list, types, rest, both, init, whole);
    BodyDecodes(b, q, mechs, list, e, token, rest, h, all);
    HeaderThenBody(b, h, Outcome(all, Some(token)));
  }

  /** Every well-formed message, whatever mechanisms it lists and whatever its token: exactly the listed
      mechanisms are noted and exactly the token is kept. */
  lemma MessageDecodes(mechs: seq<seq<nat>>, token: seq<Byte>)
    requires AllSendable(mechs) && |Message(mechs, token)| < 0x8000_0000
    ensures Decoded(Message(mechs, token)) == Outcome(Listed(mechs), Some(token))
  {
    var b, list, rest := Message(mechs, token), Concat(OidTlv, mechs), Within(0xA2, 0x04, token);
    var types := Within(0xA0, 0x30, list);
    var both := types + rest;
    var init := Within(0xA0, 0x30, both);
    var spnego := OidTlv(SPNEGO_OID);
    Sizes(mechs, token, list, types, rest, both, init, spnego + init);
    SpnegoSendable();
    MessageFrom(b, mechs, Listed(mechs), token, SPNEGO_OID, spnego, list, types, rest, both, init, spnego + init);
  }
}
