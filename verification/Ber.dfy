/** The BER decoding routines (asn1.c): a context whose pointer moves over a buffer. */
module Ber {

  import opened Basics

  datatype Error = NoError | DecEmpty | EocMismatch | LengthMismatch | BadValue

  /** The width of an `unsigned int` and of an `unsigned long`. */
  const U32: nat := 0x1_0000_0000
  const U64: nat := 0x1_0000_0000_0000_0000

  // ---- Base 128: tags above 30 and sub-identifiers ----

  /** The place just after the first octet from `p` on whose high bit is clear. */
  function RunEnd(b: seq<Byte>, p: nat): (r: Option<nat>)
    ensures r.Some? ==> p < r.value <= |b|
    decreases |b| - p
  {
    if p >= |b| then None else if b[p] < 128 then Some(p + 1) else RunEnd(b, p + 1)
  }

  /** The number the low seven bits of the octets spell, in an unsigned integer of `m` values. */
  function Fold128(s: seq<Byte>, m: nat): (r: nat)
    requires m > 0
  {
    if s == [] then 0 else Fold128(s[..|s| - 1], m) * 128 % m + s[|s| - 1] % 128
  }

  /** The number the octets spell in base 256, in an unsigned integer of `m` values. */
  function Fold256(s: seq<Byte>, m: nat): (r: nat)
    requires m > 0
  {
    if s == [] then 0 else Fold256(s[..|s| - 1], m) * 256 % m + s[|s| - 1]
  }

  // ---- Headers ----

  datatype Length = Length(def: bool, len: nat, next: nat)

  /** The length field at `p`: short form, long form, or the indefinite form. */
  ghost function LengthAt(b: seq<Byte>, p: nat): (r: Option<Length>)
    ensures r.Some? ==> p < r.value.next && r.value.next + r.value.len <= |b|
  {
    if p >= |b| then None
    else if b[p] == 128 then Some(Length(false, 0, p + 1))
    else
      var n := if b[p] < 128 then 0 else b[p] - 128;
      if p + 1 + n > |b| then None
      else
        var len := if b[p] < 128 then b[p] else Fold256(b[p + 1..p + 1 + n], U32);
        if len > |b| - (p + 1 + n) then None else Some(Length(true, len, p + 1 + n))
  }

  datatype Id = Id(cls: nat, con: nat, tag: nat, next: nat)

  ghost function IdAt(b: seq<Byte>, p: nat): (r: Option<Id>)
    ensures r.Some? ==> p < r.value.next <= |b|
  {
    if p >= |b| then None
    else if b[p] % 32 != 31 then Some(Id(b[p] / 64, b[p] / 32 % 2, b[p] % 32, p + 1))
    else
      match RunEnd(b, p + 1)
      case None => None
      case Some(q) => Some(Id(b[p] / 64, b[p] / 32 % 2, Fold128(b[p + 1..q], U32), q))
  }

  /** A decoded header: `eoc` is where the contents end, unless the form is indefinite. */
  datatype Header = Header(cls: nat, con: nat, tag: nat, eoc: Option<nat>, next: nat)

  /** The header at `p`. Whatever the octets, a header takes two of them or more, and the contents it
      announces lie inside the buffer. */
  ghost function HeaderAt(b: seq<Byte>, p: nat): (r: Option<Header>)
    ensures r.Some? ==> p + 2 <= r.value.next <= |b|
    ensures r.Some? && r.value.eoc.Some? ==> r.value.next <= r.value.eoc.value <= |b|
    ensures r.Some? && r.value.con == 0 ==> r.value.eoc.Some?
  {
    match IdAt(b, p)
    case None => None
    case Some(id) =>
      match LengthAt(b, id.next)
      case None => None
      case Some(l) =>
        if id.con == 0 && !l.def then None
        else Some(Header(id.cls, id.con, id.tag, if l.def then Some(l.next + l.len) else None, l.next))
  }

  /** The end of the contents is reached at `p`. */
  ghost predicate EocAt(b: seq<Byte>, p: nat, eoc: Option<nat>) {
    match eoc
    case Some(e) => p == e
    case None => p + 2 <= |b| && b[p] == 0 && b[p + 1] == 0
  }

  /** Where looking for the end of the contents leaves the pointer: octets read for the indefinite form
      stay read, mismatch or not. */
  ghost function EocNext(b: seq<Byte>, p: nat, eoc: Option<nat>): (r: nat)
    requires p <= |b|
    ensures p <= r <= p + 2 && r <= |b|
  {
    if eoc.Some? || p == |b| then p else if b[p] != 0 || p + 1 == |b| then p + 1 else p + 2
  }

  /** struct asn1_ctx, over a buffer whose length is an `int`. `begin` is 0 and `end` is |buf|. */
  class Ctx {
    const buf: seq<Byte>
    var pointer: nat
    var error: Error

    ghost predicate Valid()
      reads this
    {
      pointer <= |buf|
    }

    /** asn1_open */
    constructor (b: seq<Byte>)
      ensures Valid() && buf == b && pointer == 0 && error == NoError
    {
      buf, pointer, error := b, 0, NoError;
    }

    /** asn1_octet_decode */
    method OctetDecode() returns (ok: bool, ch: Byte)
      requires Valid()
      modifies this
      ensures Valid() && ok == (old(pointer) < |buf|)
      ensures ok ==> ch == buf[old(pointer)] && pointer == old(pointer) + 1 && error == old(error)
      ensures !ok ==> pointer == old(pointer) && error == DecEmpty
    {
      ch := 0;
      if pointer >= |buf| {
        error := DecEmpty;
        return false, ch;
      }
      ch := buf[pointer];
      pointer := pointer + 1;
      return true, ch;
    }

    /** The loop of asn1_tag_decode and asn1_subid_decode. */
    method Base128Decode(m: nat) returns (ok: bool, v: nat)
      requires Valid() && m > 0
      modifies this
      ensures Valid() && ok == RunEnd(buf, old(pointer)).Some?
      ensures ok ==> pointer == RunEnd(buf, old(pointer)).value
      ensures ok ==> v == Fold128(buf[old(pointer)..pointer], m) && error == old(error)
      ensures !ok ==> pointer == |buf| && error == DecEmpty
    {
      v := 0;
      var more := true;
      while more
        invariant Valid() && old(pointer) <= pointer && error == old(error)
        invariant v == Fold128(buf[old(pointer)..pointer], m)
        invariant RunEnd(buf, old(pointer)) == if more then RunEnd(buf, pointer) else Some(pointer)
        decreases more, |buf| - pointer
      {
        ghost var done := buf[old(pointer)..pointer];
        var got, ch := OctetDecode();
        if !got {
          return false, v;
        }
        assert buf[old(pointer)..pointer][..|done|] == done;
        v := v * 128 % m + ch % 128;
        more := ch >= 128;
      }
      return true, v;
    }

    /** asn1_tag_decode */
    method TagDecode() returns (ok: bool, tag: nat)
      requires Valid()
      modifies this
      ensures Valid() && ok == RunEnd(buf, old(pointer)).Some?
      ensures ok ==> pointer == RunEnd(buf, old(pointer)).value
      ensures ok ==> tag == Fold128(buf[old(pointer)..pointer], U32) && error == old(error)
      ensures !ok ==> pointer == |buf| && error == DecEmpty
    {
      ok, tag := Base128Decode(U32);
    }

    /** asn1_subid_decode */
    method SubidDecode() returns (ok: bool, subid: nat)
      requires Valid()
      modifies this
      ensures Valid() && ok == RunEnd(buf, old(pointer)).Some?
      ensures ok ==> pointer == RunEnd(buf, old(pointer)).value
      ensures ok ==> subid == Fold128(buf[old(pointer)..pointer], U64) && error == old(error)
      ensures !ok ==> pointer == |buf| && error == DecEmpty
    {
      ok, subid := Base128Decode(U64);
    }

    /** asn1_id_decode */
    method IdDecode() returns (ok: bool, cls: nat, con: nat, tag: nat)
      requires Valid()
      modifies this
      ensures Valid() && old(pointer) <= pointer && ok == IdAt(buf, old(pointer)).Some?
      ensures ok ==> IdAt(buf, old(pointer)) == Some(Id(cls, con, tag, pointer))
    {
      cls, con, tag := 0, 0, 0;
      var got, ch := OctetDecode();
      if !got {
        return false, cls, con, tag;
      }
      cls, con, tag := ch / 64, ch / 32 % 2, ch % 32;
      if tag == 31 {
        got, tag := TagDecode();
        if !got {
          return false, cls, con, tag;
        }
      }
      return true, cls, con, tag;
    }

    /** The loop of asn1_length_decode over the octets of a long form. */
    method LongLength(cnt: nat) returns (ok: bool, len: nat)
      requires Valid()
      modifies this
      ensures Valid() && old(pointer) <= pointer && ok == (old(pointer) + cnt <= |buf|)
      ensures ok ==> pointer == old(pointer) + cnt && len == Fold256(buf[old(pointer)..pointer], U32)
    {
      len := 0;
      for i := 0 to cnt
        invariant Valid() && pointer == old(pointer) + i
        invariant len == Fold256(buf[old(pointer)..pointer], U32)
      {
        ghost var done := buf[old(pointer)..pointer];
        var got, ch := OctetDecode();
        if !got {
          return false, len;
        }
        assert buf[old(pointer)..pointer][..|done|] == done;
        len := len * 256 % U32 + ch;
      }
      return true, len;
    }

    /** asn1_length_decode, from a length of zero. */
    method LengthDecode() returns (ok: bool, def: bool, len: nat)
      requires Valid()
      modifies this
      ensures Valid() && old(pointer) <= pointer && ok == LengthAt(buf, old(pointer)).Some?
      ensures ok ==> LengthAt(buf, old(pointer)) == Some(Length(def, len, pointer))
    {
      def, len := false, 0;
      var got, ch := OctetDecode();
      if !got {
        return false, def, len;
      }
      if ch != 128 {
        def := true;
        if ch < 128 {
          len := ch;
        } else {
          got, len := LongLength(ch - 128);
          if !got {
            return false, def, len;
          }
        }
      }
      return len <= |buf| - pointer, def, len;
    }

    /** asn1_header_decode: it decodes the header at the pointer, and on every buffer leaves the pointer
        inside it, two octets further or more when it succeeds. */
    method HeaderDecode() returns (ok: bool, eoc: Option<nat>, cls: nat, con: nat, tag: nat)
      requires Valid()
      modifies this
      ensures Valid() && old(pointer) <= pointer && ok == HeaderAt(buf, old(pointer)).Some?
      ensures ok ==> HeaderAt(buf, old(pointer)) == Some(Header(cls, con, tag, eoc, pointer))
    {
      var got, def, len;
      eoc := None;
      got, cls, con, tag := IdDecode();
      if !got {
        return false, eoc, cls, con, tag;
      }
      got, def, len := LengthDecode();
      if !got || (con == 0 && !def) {
        return false, eoc, cls, con, tag;
      }
      eoc := if def then Some(pointer + len) else None;
      return true, eoc, cls, con, tag;
    }

    /** asn1_eoc_decode */
    method EocDecode(eoc: Option<nat>) returns (ok: bool)
      requires Valid()
      modifies this
      ensures Valid() && ok == EocAt(buf, old(pointer), eoc) && pointer == EocNext(buf, old(pointer), eoc)
    {
      if eoc.Some? {
        if pointer != eoc.value {
          error := LengthMismatch;
          return false;
        }
        return true;
      }
      var got, ch := OctetDecode();
      if !got {
        return false;
      }
      if ch != 0 {
        error := EocMismatch;
        return false;
      }
      got, ch := OctetDecode();
      if !got {
        return false;
      }
      if ch != 0 {
        error := EocMismatch;
        return false;
      }
      return true;
    }
  }
}
