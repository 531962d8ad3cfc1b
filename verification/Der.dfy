/** Definite lengths and values under a tag, as X.690 section 8.1.3 writes them, and what the header
    decoder makes of them. */
module Der {

  import Arith
  import opened Basics
  import opened Buffers
  import opened Ber

  /** compute_asn_hdr_len_bytes: how many octets a long form takes; 0 where the short form will do. */
  function HdrLenBytes(len: nat): (r: nat)
    ensures r == 0 <==> len < 128
    ensures r <= 4 && (r > 0 && len < U32 ==> len < Power(r) && (r > 1 ==> Power(r - 1) <= len))
  {
    if len > 0xFFFFFF then 4 else if len > 0xFFFF then 3 else if len > 0xFF then 2 else if len > 0x7F then 1 else 0
  }

  /** 256 to the power `k`, for up to four octets. */
  function Power(k: nat): nat {
    match k case 0 => 1 case 1 => 0x100 case 2 => 0x10000 case 3 => 0x1000000 case _ => U32
  }

  /** The low `k` octets of `n`, the most significant first. */
  function BigEndian(n: nat, k: nat): (r: seq<Byte>)
    ensures |r| == k
  {
    if k == 0 then [] else BigEndian(n / 256, k - 1) + [n % 256]
  }

  lemma OctetIn(n: nat, k: nat)
    requires 1 <= k <= 4
    ensures n / 256 % Power(k - 1) * 256 % U32 + n % 256 == n % Power(k)
  {
    Arith.ShiftIn(256, n / 256, n % 256, Power(k - 1));
    assert Power(k) == 256 * Power(k - 1) <= U32;
  }

  lemma {:induction false} BigEndianValue(n: nat, k: nat)
    requires k <= 4
    ensures Fold256(BigEndian(n, k), U32) == n % Power(k)
  {
    if k == 0 {
    } else {
      BigEndianValue(n / 256, k - 1);
      assert BigEndian(n, k)[..k - 1] == BigEndian(n / 256, k - 1);
      OctetIn(n, k);
    }
  }

  /** The lengths a field of that width can say are those below this. */
  function Limit(w: nat): nat {
    if w == 0 then 128 else Power(w)
  }

  /** A length field whose long form, if any, has `w` octets. */
  function LengthBytes(len: nat, w: nat): (r: seq<Byte>)
    requires w <= 4
    ensures |r| == 1 + w
  {
    if w == 0 then [len % 256] else [128 + w] + BigEndian(len, w)
  }

  lemma ShortBack(b: seq<Byte>, p: nat, len: nat)
    requires len < U32 && p + 1 + len <= |b| && b[p] == len % 256
    ensures LengthAt(b, p) == Some(Length(true, len, p + 1)) <==> len < 128
  {
  }

  lemma LongBack(b: seq<Byte>, p: nat, len: nat, w: nat, v: nat)
    requires 1 <= w <= 4 && p + 1 + w + len <= |b| && b[p] == 128 + w && v <= len
    requires Fold256(b[p + 1..p + 1 + w], U32) == v
    ensures LengthAt(b, p) == Some(Length(true, v, p + 1 + w))
  {
  }

  lemma LowOctets(len: nat, w: nat) returns (v: nat)
    requires 1 <= w <= 4
    ensures v == Fold256(BigEndian(len, w), U32) && v <= len && (v == len <==> len < Power(w))
  {
    v := len % Power(w);
    BigEndianValue(len, w);
    Arith.ModSame(len, Power(w));
  }

  /** Such a field says its length, when that many octets follow, exactly when the width is enough. */
  lemma LengthBack(b: seq<Byte>, p: nat, len: nat, w: nat)
    requires w <= 4 && len < U32 && p + 1 + w + len <= |b| && b[p..p + 1 + w] == LengthBytes(len, w)
    ensures LengthAt(b, p) == Some(Length(true, len, p + 1 + w)) <==> len < Limit(w)
  {
    var s := b[p..p + 1 + w];
    assert s[0] == b[p];
    if w == 0 {
      ShortBack(b, p, len);
    } else {
      assert b[p + 1..p + 1 + w] == s[1..] == BigEndian(len, w);
      var v := LowOctets(len, w);
      LongBack(b, p, len, w, v);
    }
  }

  /** The header decoded from a tag octet and a definite length. */
  function Definite(tag: Byte, len: nat, next: nat): Header {
    Header(tag / 64, tag / 32 % 2, tag % 32, Some(next + len), next)
  }

  lemma HeaderFromLength(b: seq<Byte>, p: nat, tag: Byte, len: nat, next: nat)
    requires tag % 32 != 31 && p + 1 <= |b| && b[p] == tag
    ensures HeaderAt(b, p) == Some(Definite(tag, len, next)) <==> LengthAt(b, p + 1) == Some(Length(true, len, next))
  {
  }

  /** A tag octet and such a field decode to that tag and length exactly when the width is enough. */
  lemma HeaderBack(b: seq<Byte>, p: nat, tag: Byte, len: nat, w: nat)
    requires tag % 32 != 31 && w <= 4 && len < U32 && p + 2 + w + len <= |b|
    requires b[p] == tag && b[p + 1..p + 2 + w] == LengthBytes(len, w)
    ensures HeaderAt(b, p) == Some(Definite(tag, len, p + 2 + w)) <==> len < Limit(w)
  {
    LengthBack(b, p + 1, len, w);
    HeaderFromLength(b, p, tag, len, p + 2 + w);
  }

  function HeaderBytes(tag: Byte, len: nat, w: nat): (r: seq<Byte>)
    requires w <= 4
    ensures |r| == 2 + w
  {
    [tag] + LengthBytes(len, w)
  }

  /** The header at `p` decodes to the tag and the length, and leads to `q`. */
  ghost predicate Reads(b: seq<Byte>, p: nat, tag: Byte, len: nat, q: nat) {
    HeaderAt(b, p) == Some(Definite(tag, len, q))
  }

  lemma HeaderBytesBack(b: seq<Byte>, p: nat, tag: Byte, len: nat, w: nat, q: nat)
    requires tag % 32 != 31 && w <= 4 && len < U32 && q == p + 2 + w && q + len <= |b|
    requires b[p..q] == HeaderBytes(tag, len, w)
    ensures Reads(b, p, tag, len, q) <==> len < Limit(w)
  {
    var field := LengthBytes(len, w);
    TwoPieces(b, p, [tag], field);
    assert b[p] == b[p..p + 1][0];
    HeaderBack(b, p, tag, len, w);
  }

  /** A value under a tag and the shortest definite length. */
  function Tlv(tag: Byte, content: seq<Byte>): (r: seq<Byte>)
    ensures |r| == 2 + HdrLenBytes(|content|) + |content|
  {
    HeaderBytes(tag, |content|, HdrLenBytes(|content|)) + content
  }

  ghost predicate Stands(b: seq<Byte>, p: nat, s: seq<Byte>) {
    p + |s| <= |b| && b[p..p + |s|] == s
  }

  /** Where such a value stands, its header decodes and leads to the content. */
  lemma Enter(b: seq<Byte>, p: nat, tag: Byte, content: seq<Byte>) returns (q: nat)
    requires tag % 32 != 31 && |content| < U32 && Stands(b, p, Tlv(tag, content))
    ensures HeaderAt(b, p) == Some(Definite(tag, |content|, q)) && Stands(b, q, content)
    ensures q + |content| == p + |Tlv(tag, content)|
  {
    var w := HdrLenBytes(|content|);
    q := p + 2 + w;
    TwoPieces(b, p, HeaderBytes(tag, |content|, w), content);
    HeaderBytesBack(b, p, tag, |content|, w, q);
  }

  lemma StandsTwo(b: seq<Byte>, p: nat, x: seq<Byte>, y: seq<Byte>, s: seq<Byte>)
    requires s == x + y && Stands(b, p, s)
    ensures |s| == |x| + |y| && Stands(b, p, x) && Stands(b, p + |x|, y)
  {
    TwoPieces(b, p, x, y);
  }

  lemma StandsWhole(b: seq<Byte>)
    ensures Stands(b, 0, b)
  {
  }

  lemma StandsEnd(b: seq<Byte>, p: nat, s: seq<Byte>)
    requires Stands(b, p, s) && p + |s| == |b|
    ensures b[p..] == s
  {
  }

  lemma ConcatStands<T>(b: seq<Byte>, p: nat, f: T -> seq<Byte>, xs: seq<T>, k: nat, q: nat, s: seq<Byte>)
    requires Stands(b, p, Concat(f, xs)) && k < |xs| && q == p + |Concat(f, xs[..k])| && s == f(xs[k])
    ensures Stands(b, q, s)
  {
    ConcatPlaced(b, p, f, xs, k);
  }
}
