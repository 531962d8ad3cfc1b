/** The SPNEGO response builder (asn1.c): values wrapped in two headers, written through an offset. */
module Spnego {

  import opened Basics
  import opened Buffers
  import opened Ber
  import opened Der

  const NTLMSSP_OID_STR: seq<Byte> := [0x2b, 0x06, 0x01, 0x04, 0x01, 0x82, 0x37, 0x02, 0x02, 0x0a]

  /** The two headers encode_asn_tag writes. The outer length counts the inner header too, but both
      length fields have the width that suits the inner length. */
  function TagBytes(tag: Byte, inner: Byte, len: nat): (r: seq<Byte>)
    ensures |r| == 4 + 2 * HdrLenBytes(len)
  {
    var w := HdrLenBytes(len);
    HeaderBytes(tag, len + 2 + w, w) + HeaderBytes(inner, len, w)
  }

  /** `n` shifted right by `i` octets. */
  function Shift(n: nat, i: nat): nat {
    if i == 0 then n else Shift(n, i - 1) / 256
  }

  lemma OctetsNext(done: seq<Byte>, len: nat, w: nat, i: nat)
    requires 0 < i <= w
    ensures done + BigEndian(Shift(len, i), w - i) + [Shift(len, i - 1) % 256] ==
              done + BigEndian(Shift(len, i - 1), w - i + 1)
  {
    var x, y := BigEndian(Shift(len, i), w - i), [Shift(len, i - 1) % 256];
    assert done + x + y == done + (x + y);
  }

  /** The octets of a long form, one by one, after what is `done`. */
  method PutOctets(a: array<Byte>, at: nat, len: nat, w: nat, ghost was: seq<Byte>, ghost off: nat,
                   ghost done: seq<Byte>)
    returns (next: nat, ghost written: seq<Byte>)
    requires w <= 4 && at == off + |done| && at + w <= a.Length == |was| && a[..] == Splice(was, off, done)
    modifies a
    ensures next == at + w <= |was| && next == off + |written| && written == done + BigEndian(len, w)
    ensures a[..] == Splice(was, off, written)
  {
    next, written := at, done;
    var i: nat := w;
    while i > 0
      invariant i <= w && next == at + w - i && next == off + |written| <= |was|
      invariant written == done + BigEndian(Shift(len, i), w - i) && a[..] == Splice(was, off, written)
    {
      OctetsNext(done, len, w, i);
      i := i - 1;
      written := Append(a, next, [Shift(len, i) % 256], was, off, written);
      next := next + 1;
    }
  }

  /** A tag and its length field, after what is `done`. */
  method PutHeader(a: array<Byte>, at: nat, tag: Byte, len: nat, w: nat, ghost was: seq<Byte>, ghost off: nat,
                   ghost done: seq<Byte>)
    returns (next: nat, ghost written: seq<Byte>)
    requires w <= 4 && at == off + |done| && at + 2 + w <= a.Length == |was| && a[..] == Splice(was, off, done)
    modifies a
    ensures next == at + 2 + w <= |was| && next == off + |written| && written == done + HeaderBytes(tag, len, w)
    ensures a[..] == Splice(was, off, written)
  {
    if w == 0 {
      written := Append(a, at, [tag, len % 256], was, off, done);
      return at + 2, written;
    }
    written := Append(a, at, [tag, 128 + w], was, off, done);
    next, written := PutOctets(a, at + 2, len, w, was, off, written);
    assert done + [tag, 128 + w] + BigEndian(len, w) == done + ([tag] + ([128 + w] + BigEndian(len, w)));
  }

  /** Two headers, after what is `done`, so that `all` stands in the buffer; the inner length is what is left
      of the outer one. */
  method PutHeaders(a: array<Byte>, at: nat, tag: Byte, inner: Byte, outer: nat, length: nat, w: nat,
                    ghost was: seq<Byte>, ghost off: nat, ghost done: seq<Byte>, ghost all: seq<Byte>)
    returns (next: nat)
    requires w <= 4 && outer == length + 2 + w && at == off + |done| && at + 4 + 2 * w <= a.Length == |was|
    requires a[..] == Splice(was, off, done)
    requires all == done + HeaderBytes(tag, outer, w) + HeaderBytes(inner, length, w)
    modifies a
    ensures next == at + 4 + 2 * w <= |was| && next == off + |all| && a[..] == Splice(was, off, all)
  {
    ghost var first, written;
    next, first := PutHeader(a, at, tag, outer, w, was, off, done);
    var len := outer - (next - at);
    assert len == length;
    next, written := PutHeader(a, next, inner, len, w, was, off, first);
  }

  lemma JoinAs(a: seq<Byte>, x: seq<Byte>, y: seq<Byte>, z: seq<Byte>) returns (all: seq<Byte>)
    requires z == x + y
    ensures all == a + x + y && all == a + z
  {
    all := a + z;
  }

  /** What is `done` and the two headers, however they are put together. */
  lemma TagJoins(done: seq<Byte>, tag: Byte, inner: Byte, length: nat, w: nat, outer: nat) returns (all: seq<Byte>)
    requires w == HdrLenBytes(length) && outer == length + 2 + w
    ensures all == done + HeaderBytes(tag, outer, w) + HeaderBytes(inner, length, w)
    ensures all == done + TagBytes(tag, inner, length)
  {
    all := JoinAs(done, HeaderBytes(tag, outer, w), HeaderBytes(inner, length, w), TagBytes(tag, inner, length));
  }

  /** encode_asn_tag, after what is `done`. */
  method EncodeAsnTag(a: array<Byte>, at: nat, tag: Byte, inner: Byte, length: nat, ghost was: seq<Byte>,
                      ghost off: nat, ghost done: seq<Byte>)
    returns (next: nat, ghost written: seq<Byte>)
    requires at == off + |done| && at + 4 + 2 * HdrLenBytes(length) <= a.Length == |was|
    requires a[..] == Splice(was, off, done)
    modifies a
    ensures next == at + 4 + 2 * HdrLenBytes(length) <= |was| && next == off + |written|
    ensures written == done + TagBytes(tag, inner, length) && a[..] == Splice(was, off, written)
  {
    var w := HdrLenBytes(length);
    var outer := length + 2 + w;
    written := TagJoins(done, tag, inner, length, w, outer);
    next := PutHeaders(a, at, tag, inner, outer, length, w, was, off, done, written);
  }

  /** A value under the two headers. */
  function Wrap(tag: Byte, inner: Byte, payload: seq<Byte>): (r: seq<Byte>)
    ensures |r| == 4 + 2 * HdrLenBytes(|payload|) + |payload|
  {
    TagBytes(tag, inner, |payload|) + payload
  }

  /** The headers, then the value, after what is `done`. */
  method PutWrap(a: array<Byte>, at: nat, tag: Byte, inner: Byte, payload: seq<Byte>, ghost was: seq<Byte>,
                 ghost off: nat, ghost done: seq<Byte>)
    returns (next: nat, ghost written: seq<Byte>)
    requires at == off + |done| && at + 4 + 2 * HdrLenBytes(|payload|) + |payload| <= a.Length == |was|
    requires a[..] == Splice(was, off, done)
    modifies a
    ensures next == at + 4 + 2 * HdrLenBytes(|payload|) + |payload| && next == off + |written| <= |was|
    ensures written == done + Wrap(tag, inner, payload) && a[..] == Splice(was, off, written)
  {
    JoinThree(done, TagBytes(tag, inner, |payload|), payload);
    next, written := EncodeAsnTag(a, at, tag, inner, |payload|, was, off, done);
    written := Append(a, next, payload, was, off, written);
    next := next + |payload|;
  }

  /** A value and the tags of its two headers. */
  datatype Item = Item(tag: Byte, inner: Byte, payload: seq<Byte>)

  function WrapItem(i: Item): seq<Byte> {
    Wrap(i.tag, i.inner, i.payload)
  }

  /** Wrapped items, one after the other. */
  ghost function EncodeItems(items: seq<Item>): seq<Byte> {
    Concat(WrapItem, items)
  }

  /** The negotiation result, the mechanism and the response token. */
  function NegItems(blob: seq<Byte>): (r: seq<Item>)
    ensures |r| == 3
  {
    [Item(0xa0, 0x0a, [1]), Item(0xa1, 0x06, NTLMSSP_OID_STR), Item(0xa2, 0x04, blob)]
  }

  /** One more item after the main header `head`. */
  method PutItem(a: array<Byte>, at: nat, i: Item, ghost was: seq<Byte>, ghost head: seq<Byte>,
                 ghost items: seq<Item>, ghost done: seq<Byte>)
    returns (next: nat, ghost written: seq<Byte>)
    requires done == head + EncodeItems(items) && at == |done| && |was| == a.Length
    requires at + 4 + 2 * HdrLenBytes(|i.payload|) + |i.payload| <= a.Length && a[..] == Splice(was, 0, done)
    modifies a
    ensures next == at + 4 + 2 * HdrLenBytes(|i.payload|) + |i.payload| && next == |written| <= |was|
    ensures written == head + EncodeItems(items + [i]) && a[..] == Splice(was, 0, written)
  {
    ConcatMore(head, WrapItem, items, i);
    next, written := PutWrap(a, at, i.tag, i.inner, i.payload, was, 0, done);
  }

  /** The items after the main header. */
  method PutNegItems(a: array<Byte>, at: nat, blob: seq<Byte>, ghost was: seq<Byte>, ghost head: seq<Byte>)
    returns (next: nat, ghost written: seq<Byte>)
    requires at == |head| && |was| == a.Length && at + 23 + 2 * HdrLenBytes(|blob|) + |blob| <= a.Length
    requires a[..] == Splice(was, 0, head)
    modifies a
    ensures next == at + 23 + 2 * HdrLenBytes(|blob|) + |blob| && next == |written| <= |was|
    ensures written == head + EncodeItems(NegItems(blob)) && a[..] == Splice(was, 0, written)
  {
    var items := NegItems(blob);
    assert head + [] == head;
    next, written := PutItem(a, at, items[0], was, head, [], head);
    assert [] + [items[0]] == [items[0]];
    next, written := PutItem(a, next, items[1], was, head, [items[0]], written);
    assert [items[0]] + [items[1]] == [items[0], items[1]];
    next, written := PutItem(a, next, items[2], was, head, [items[0], items[1]], written);
    assert [items[0], items[1]] + [items[2]] == items;
  }

  lemma SpliceAll(b: seq<Byte>, s: seq<Byte>)
    requires |b| == |s|
    ensures Splice(b, 0, s) == s
  {
  }

  /** build_spnego_ntlmssp_neg_blob: for every blob the offset ends at the computed total, which fills
      the buffer; the length handed out has 16 bits. */
  method BuildNegBlob(blob: seq<Byte>) returns (buf: array<Byte>, buflen: nat)
    ensures fresh(buf) && buf[..] == Wrap(0xa1, 0x30, EncodeItems(NegItems(blob)))
    ensures buflen == buf.Length % 0x10000
  {
    var negResultLen := 4 + HdrLenBytes(1) * 2 + 1;
    var oidLen := 4 + HdrLenBytes(10) * 2 + 10;
    var ntlmsspLen := 4 + HdrLenBytes(|blob|) * 2 + |blob|;
    var bodyLen := negResultLen + oidLen + ntlmsspLen;
    var totalLen := 4 + HdrLenBytes(bodyLen) * 2 + bodyLen;
    buf := new Byte[totalLen];
    ghost var was := buf[..];
    SpliceNone(was, 0);
    var ofs, head := EncodeAsnTag(buf, 0, 0xa1, 0x30, bodyLen, was, 0, []);
    assert [] + TagBytes(0xa1, 0x30, bodyLen) == TagBytes(0xa1, 0x30, bodyLen);
    ghost var written;
    ofs, written := PutNegItems(buf, ofs, blob, was, head);
    assert ofs == totalLen;
    SpliceAll(was, written);
    buflen := totalLen % 0x10000;
  }

  // ---- Reading it back ----

  /** The outer length fits the width chosen for the inner one. */
  predicate SameWidth(len: nat) {
    HdrLenBytes(len + 2 + HdrLenBytes(len)) == HdrLenBytes(len)
  }

  lemma WidthEnough(len: nat, w: nat)
    requires w == HdrLenBytes(len) && len + 6 < U32
    ensures len < Limit(w)
    ensures SameWidth(len) <==> len + 2 + w < Limit(w)
  {
  }

  /** At `p` stand two headers around `payload`, and both decode to end where it does. */
  ghost predicate Unwraps(b: seq<Byte>, p: nat, q: nat, r: nat, tag: Byte, inner: Byte, outer: nat,
                          payload: seq<Byte>) {
    Reads(b, p, tag, outer, q) && Reads(b, q, inner, |payload|, r) && Stands(b, r, payload)
  }

  lemma WrapPieces(b: seq<Byte>, p: nat, q: nat, r: nat, x: seq<Byte>, y: seq<Byte>, payload: seq<Byte>, s: seq<Byte>)
    requires s == x + y + payload && Stands(b, p, s) && q == p + |x| && r == q + |y|
    ensures b[p..q] == x && b[q..r] == y && Stands(b, r, payload)
  {
    ThreePieces(b, p, x, y, payload);
  }

  lemma OuterExact(b: seq<Byte>, p: nat, tag: Byte, n: nat, w: nat, q: nat, outer: nat)
    requires tag % 32 != 31 && n + 6 < U32 && w == HdrLenBytes(n) && q == p + 2 + w && outer == n + 2 + w
    requires q + outer <= |b|
    requires b[p..q] == HeaderBytes(tag, outer, w)
    ensures Reads(b, p, tag, outer, q) <==> SameWidth(n)
  {
    WidthEnough(n, w);
    HeaderBytesBack(b, p, tag, outer, w, q);
  }

  lemma InnerReads(b: seq<Byte>, q: nat, inner: Byte, n: nat, w: nat, r: nat)
    requires inner % 32 != 31 && n + 6 < U32 && w == HdrLenBytes(n) && r == q + 2 + w && r + n <= |b|
    requires b[q..r] == HeaderBytes(inner, n, w)
    ensures Reads(b, q, inner, n, r)
  {
    WidthEnough(n, w);
    HeaderBytesBack(b, q, inner, n, w, r);
  }

  /** Both tags fit one octet, and the lengths 32 bits. */
  predicate Plain(i: Item) {
    i.tag % 32 != 31 && i.inner % 32 != 31 && |i.payload| + 6 < U32
  }

  /** A wrapped item at `p` unwraps to its payload. */
  ghost predicate ItemAt(b: seq<Byte>, p: nat, i: Item) {
    var w := HdrLenBytes(|i.payload|);
    Unwraps(b, p, p + 2 + w, p + 4 + 2 * w, i.tag, i.inner, |i.payload| + 2 + w, i.payload)
  }

  lemma ItemMeans(b: seq<Byte>, p: nat, i: Item, w: nat, q: nat, r: nat, outer: nat)
    requires w == HdrLenBytes(|i.payload|) && q == p + 2 + w && r == p + 4 + 2 * w && outer == |i.payload| + 2 + w
    ensures ItemAt(b, p, i) <==> Unwraps(b, p, q, r, i.tag, i.inner, outer, i.payload)
  {
  }

  lemma HeadersExact(b: seq<Byte>, p: nat, i: Item, w: nat, q: nat, r: nat, outer: nat, s: seq<Byte>)
    requires Plain(i) && s == WrapItem(i) && Stands(b, p, s)
    requires w == HdrLenBytes(|i.payload|) && q == p + 2 + w && r == p + 4 + 2 * w && outer == |i.payload| + 2 + w
    ensures Reads(b, p, i.tag, outer, q) <==> SameWidth(|i.payload|)
    ensures Reads(b, q, i.inner, |i.payload|, r) && Stands(b, r, i.payload)
  {
    WrapPieces(b, p, q, r, HeaderBytes(i.tag, outer, w), HeaderBytes(i.inner, |i.payload|, w), i.payload, s);
    OuterExact(b, p, i.tag, |i.payload|, w, q, outer);
    InnerReads(b, q, i.inner, |i.payload|, w, r);
  }

  lemma BothRead(b: seq<Byte>, p: nat, q: nat, r: nat, tag: Byte, inner: Byte, outer: nat, payload: seq<Byte>)
    requires Reads(b, q, inner, |payload|, r) && Stands(b, r, payload)
    ensures Unwraps(b, p, q, r, tag, inner, outer, payload) <==> Reads(b, p, tag, outer, q)
  {
  }

  /** Decoding the two headers recovers both tags, both lengths and the payload exactly when the outer
      length needs no wider field than the inner one. */
  lemma UnwrapExact(b: seq<Byte>, p: nat, i: Item, s: seq<Byte>)
    requires Plain(i) && s == WrapItem(i) && Stands(b, p, s)
    ensures ItemAt(b, p, i) <==> SameWidth(|i.payload|)
  {
    var w := HdrLenBytes(|i.payload|);
    var q, r, outer := p + 2 + w, p + 4 + 2 * w, |i.payload| + 2 + w;
    ItemMeans(b, p, i, w, q, r, outer);
    HeadersExact(b, p, i, w, q, r, outer, s);
    BothRead(b, p, q, r, i.tag, i.inner, outer, i.payload);
  }

  lemma ItemPlaced(b: seq<Byte>, p: nat, items: seq<Item>, k: nat, q: nat, s: seq<Byte>)
    requires k < |items| && Stands(b, p, EncodeItems(items)) && q == p + |EncodeItems(items[..k])|
    requires s == WrapItem(items[k])
    ensures Stands(b, q, s)
  {
    ConcatStands(b, p, WrapItem, items, k, q, s);
  }

  /** Of any list of items inside any value, each is recovered exactly when its length does not outgrow
      its field. */
  lemma ItemsExact(b: seq<Byte>, p: nat, items: seq<Item>, k: nat, q: nat, i: Item)
    requires k < |items| && i == items[k] && Plain(i)
    requires Stands(b, p, EncodeItems(items)) && q == p + |EncodeItems(items[..k])|
    ensures ItemAt(b, q, i) <==> SameWidth(|i.payload|)
  {
    var s := WrapItem(i);
    ItemPlaced(b, p, items, k, q, s);
    UnwrapExact(b, q, i, s);
  }

  ghost function ItemOffset(main: Item, items: seq<Item>, k: nat): nat
    requires k <= |items|
  {
    4 + 2 * HdrLenBytes(|main.payload|) + |EncodeItems(items[..k])|
  }

  lemma PayloadBack(i: Item, b: seq<Byte>, p: nat)
    requires b == WrapItem(i) && p == 4 + 2 * HdrLenBytes(|i.payload|)
    ensures Stands(b, p, i.payload)
  {
  }

  lemma ResponseItem(main: Item, items: seq<Item>, b: seq<Byte>, k: nat, q: nat, i: Item)
    requires Plain(main) && main.payload == EncodeItems(items) && b == WrapItem(main)
    requires k < |items| && i == items[k] && Plain(i) && q == ItemOffset(main, items, k)
    ensures ItemAt(b, q, i) <==> SameWidth(|i.payload|)
  {
    var p := 4 + 2 * HdrLenBytes(|main.payload|);
    PayloadBack(main, b, p);
    ItemsExact(b, p, items, k, q, i);
  }

  /** The main header and every item decode to their tags, lengths and payloads. */
  ghost predicate Recovered(b: seq<Byte>, main: Item, items: seq<Item>) {
    ItemAt(b, 0, main) && forall k :: 0 <= k < |items| ==> ItemAt(b, ItemOffset(main, items, k), items[k])
  }

  /** For every list of items under a main header: all of it is recovered exactly when no length
      outgrows its field. */
  lemma ResponseExact(main: Item, items: seq<Item>, b: seq<Byte>)
    requires Plain(main) && main.payload == EncodeItems(items) && b == WrapItem(main)
    requires forall k :: 0 <= k < |items| ==> Plain(items[k])
    ensures Recovered(b, main, items) <==>
              SameWidth(|main.payload|) && forall k :: 0 <= k < |items| ==> SameWidth(|items[k].payload|)
  {
    StandsWhole(b);
    UnwrapExact(b, 0, main, b);
    forall k | 0 <= k < |items|
      ensures ItemAt(b, ItemOffset(main, items, k), items[k]) <==> SameWidth(|items[k].payload|)
    {
      ResponseItem(main, items, b, k, ItemOffset(main, items, k), items[k]);
    }
  }

  /** The lengths that fail: those within two, three, four or five of a change of width. */
  lemma SameWidthMeans(len: nat)
    ensures SameWidth(len) <==>
              && !(126 <= len < 128) && !(253 <= len < 0x100)
              && !(65532 <= len < 0x10000) && !(16777211 <= len < 0x1000000)
  {
  }

  /** The response to a negotiation is recovered exactly when neither the blob's length nor the length
      of the three items outgrows its field. */
  lemma NegBlobExact(blob: seq<Byte>)
    requires |blob| + 64 < U32
    ensures var items := NegItems(blob);
            var main := Item(0xa1, 0x30, EncodeItems(items));
            && |main.payload| == 23 + 2 * HdrLenBytes(|blob|) + |blob|
            && (Recovered(WrapItem(main), main, items) <==> SameWidth(|blob|) && SameWidth(|main.payload|))
  {
    var items := NegItems(blob);
    var main := Item(0xa1, 0x30, EncodeItems(items));
    NegItemsLength(blob);
    ResponseExact(main, items, WrapItem(main));
  }

  lemma NegItemsLength(blob: seq<Byte>)
    ensures |EncodeItems(NegItems(blob))| == 23 + 2 * HdrLenBytes(|blob|) + |blob|
  {
    var items := NegItems(blob);
    assert [] + [items[0]] == items[..1] && items[..1] + [items[1]] == items[..2] && items[..2] + [items[2]] == items;
    ConcatMore([], WrapItem, [], items[0]);
    ConcatMore([], WrapItem, items[..1], items[1]);
    ConcatMore([], WrapItem, items[..2], items[2]);
  }
}
