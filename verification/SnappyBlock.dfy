/** The length header in front of a block, and decoding a whole block. */
module SnappyBlock {
  import opened Bytes
  import opened SnappyFormat
  import opened SnappyDecode

  const MAX_UINT32 := 0xffff_ffff
  const MAX_VARINT_LEN64 := 10

  // ----- varints

  /** The varint that starts at buf[i], and the index after it. */
  function UvarintFrom(buf: seq<byte>, i: nat): (r: Option<(nat, nat)>)
    requires i <= |buf|
    ensures r.Some? ==> i < r.value.1 <= |buf|
    decreases |buf| - i
  {
    if i == |buf| || i == MAX_VARINT_LEN64 then None
    else if buf[i] < 0x80 then
      if i == MAX_VARINT_LEN64 - 1 && buf[i] > 1 then None else Some((buf[i] as int, i + 1))
    else
      match UvarintFrom(buf, i + 1)
      case None => None
      case Some((v, n)) => Some((buf[i] % 0x80 + 0x80 * v, n))
  }

  function UvarintBytes(v: nat): (bs: seq<byte>)
    ensures bs != []
  {
    if v < 0x80 then [v] else [v % 0x80 + 0x80] + UvarintBytes(v / 0x80)
  }

  lemma {:induction false} UvarintSize(v: nat, k: nat)
    requires v < if k == 0 then 0x80 else if k == 1 then 0x4000 else if k == 2 then 0x20_0000
                 else if k == 3 then 0x1000_0000 else 0x1_0000_0000
    ensures |UvarintBytes(v)| <= k + 1
    decreases k
  {
    if v >= 0x80 { UvarintSize(v / 0x80, if k > 4 then 3 else k - 1); }
  }

  lemma {:induction false} UvarintRoundTrip(buf: seq<byte>, i: nat, v: nat)
    requires i + |UvarintBytes(v)| < MAX_VARINT_LEN64
    requires i <= |buf| && UvarintBytes(v) <= buf[i..]
    ensures UvarintFrom(buf, i) == Some((v, i + |UvarintBytes(v)|))
    decreases v
  {
    assert buf[i] == UvarintBytes(v)[0];
    if v >= 0x80 {
      assert buf[i + 1..] == buf[i..][1..];
      UvarintRoundTrip(buf, i + 1, v / 0x80);
      assert (v % 0x80 + 0x80) % 0x80 == v % 0x80;
    }
  }

  // ----- blocks

  /** The decoded length a block announces and the size of that header. */
  function DecodedLen(src: seq<byte>): (r: Option<(nat, nat)>)
    ensures r.Some? ==> r.value.0 <= MAX_UINT32 && 1 <= r.value.1 <= |src|
  {
    match UvarintFrom(src, 0)
    case None => None
    case Some((v, n)) => if v > MAX_UINT32 then None else Some((v, n))
  }

  /** `src` is a well-formed block whose data is `m`. */
  ghost predicate DenotesBlock(src: seq<byte>, m: seq<byte>) {
    && DecodedLen(src).Some?
    && DecodedLen(src).value.0 == |m|
    && Denotes(src[DecodedLen(src).value.1..], m)
  }

  /** The data of a block, computed. */
  function BlockData(src: seq<byte>): Option<seq<byte>> {
    match DecodedLen(src)
    case None => None
    case Some((len, header)) =>
      match DecodeFrom([], src[header..])
      case None => None
      case Some(m) => if |m| == len then Some(m) else None
  }

  lemma BlockDataIsDenotesBlock(src: seq<byte>, m: seq<byte>)
    ensures BlockData(src) == Some(m) <==> DenotesBlock(src, m)
  {
    if DecodedLen(src).Some? {
      DecodeFromIsDenotes(src[DecodedLen(src).value.1..], m);
    }
  }

  lemma DenotesBlockUnique(src: seq<byte>, m1: seq<byte>, m2: seq<byte>)
    requires DenotesBlock(src, m1) && DenotesBlock(src, m2)
    ensures m1 == m2
  {
    DenotesUnique(src[DecodedLen(src).value.1..], m1, m2);
  }

  /** A length header followed by a body is a block of the body's data. */
  lemma HeaderAndBody(src: seq<byte>, body: seq<byte>, m: seq<byte>)
    requires src == UvarintBytes(|m|) + body && |m| <= MAX_UINT32 && Denotes(body, m)
    ensures DenotesBlock(src, m)
  {
    UvarintSize(|m|, 4);
    UvarintRoundTrip(src, 0, |m|);
    assert src[|UvarintBytes(|m|)|..] == body;
  }

  /**
   Decodes a block. The data is the first `n` bytes of `buf`, which is `dst` itself when
   that is long enough; not ok exactly when `src` is not a block.
  */
  method Decode(amd64: bool, dst: array<byte>, src: seq<byte>) returns (ok: bool, buf: array<byte>, n: nat)
    modifies dst
    ensures ok <==> exists m :: DenotesBlock(src, m)
    ensures ok ==> n <= buf.Length && DenotesBlock(src, buf[..n])
    ensures ok ==> (if n <= dst.Length then buf == dst else fresh(buf))
    ensures ok && n <= dst.Length ==> dst[n..] == old(dst[n..])
  {
    var header := DecodedLen(src);
    if header.None? { return false, dst, 0; }
    n := header.value.0;
    if n <= dst.Length {
      buf := dst;
    } else {
      buf := new byte[n];
    }
    var code := DecodeInto(amd64, buf, n, src[header.value.1..]);
    ok := code == DECODE_OK;
    assert ok ==> DenotesBlock(src, buf[..n]);
  }
}
