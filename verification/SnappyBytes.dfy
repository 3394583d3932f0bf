/**
 The block format byte by byte, as its description gives it: the value of a length header and
 what each kind of tag byte adds to the output.
*/
module SnappyBytes {
  import opened Bytes
  import opened SnappyFormat
  import opened SnappyBlock

  // ----- length headers

  /** The low seven bits of each byte, the first the least significant. */
  function Base128(bs: seq<byte>): nat {
    if bs == [] then 0 else bs[0] % 128 + 128 * Base128(bs[1..])
  }

  /** All bytes but the last say that there is more. */
  predicate IsVarint(bs: seq<byte>) {
    bs != [] && bs[|bs| - 1] < 128 && forall i :: 0 <= i < |bs| - 1 ==> bs[i] >= 128
  }

  lemma {:induction false} UvarintFromMeans(buf: seq<byte>, i: nat)
    requires i <= |buf| && i <= 10
    ensures match UvarintFrom(buf, i)
            case Some((v, n)) => n <= 10 && IsVarint(buf[i..n]) && v == Base128(buf[i..n]) && (n == 10 ==> buf[9] <= 1)
            case None =>
              forall n :: i < n <= |buf| && n <= 10 && IsVarint(buf[i..n]) ==> n == 10 && buf[9] > 1
    decreases |buf| - i
  {
    if i < |buf| && i < 10 {
      if buf[i] < 128 {
        assert buf[i..i + 1][1..] == [];
        forall n | i + 1 < n <= |buf| ensures !IsVarint(buf[i..n]) {
          assert buf[i..n][0] == buf[i];
        }
      } else {
        UvarintFromMeans(buf, i + 1);
        forall n | i < n <= |buf| ensures IsVarint(buf[i..n]) <==> i + 1 < n && IsVarint(buf[i + 1..n]) {
          Continued(buf, i, n);
        }
        match UvarintFrom(buf, i + 1)
        case None =>
        case Some((v, n)) => assert buf[i..n][1..] == buf[i + 1..n];
      }
    }
  }

  lemma Continued(buf: seq<byte>, i: nat, n: nat)
    requires i < n <= |buf| && buf[i] >= 128
    ensures IsVarint(buf[i..n]) <==> i + 1 < n && IsVarint(buf[i + 1..n])
  {
    var a := buf[i..n];
    if i + 1 < n {
      var b := buf[i + 1..n];
      assert forall k :: 0 <= k < |b| ==> b[k] == a[k + 1];
      assert IsVarint(b) ==> forall k :: 0 <= k < |a| - 1 ==> k == 0 || a[k] == b[k - 1];
    }
  }

  function Pow128(k: nat): nat {
    if k == 0 then 1 else 128 * Pow128(k - 1)
  }

  lemma {:induction false} Base128AtLeast(bs: seq<byte>, k: nat)
    requires IsVarint(bs) && |bs| == k + 1 && bs[k] > 1
    ensures Base128(bs) >= 2 * Pow128(k)
    decreases k
  {
    if k == 0 {
      assert bs[1..] == [];
    } else {
      var t := bs[1..];
      assert forall i :: 0 <= i < |t| ==> t[i] == bs[i + 1];
      Base128AtLeast(t, k - 1);
    }
  }

  /** Ten bytes with more than a one at the end are too much for 32 bits. */
  lemma TenBytes(bs: seq<byte>)
    requires IsVarint(bs) && |bs| == 10 && bs[9] > 1
    ensures Base128(bs) > MAX_UINT32
  {
    Base128AtLeast(bs, 9);
    assert Pow128(4) == 128 * Pow128(3) == 128 * (128 * Pow128(2)) == 0x1000_0000;
    assert Pow128(5) == 128 * Pow128(4);
    assert Pow128(9) == 128 * Pow128(8) && Pow128(8) == 128 * Pow128(7) && Pow128(7) == 128 * Pow128(6);
    assert Pow128(6) == 128 * Pow128(5);
  }

  /**
   The announced length: of a varint of up to ten bytes, however many of them are needed, its
   value when that has 32 bits. Anything else is no header.
  */
  lemma DecodedLenMeans(src: seq<byte>, v: nat, n: nat)
    ensures DecodedLen(src) == Some((v, n)) <==>
            1 <= n <= 10 && n <= |src| && IsVarint(src[..n]) && v == Base128(src[..n]) && v < 0x1_0000_0000
  {
    UvarintFromMeans(src, 0);
    if 1 <= n <= 10 && n <= |src| && IsVarint(src[..n]) {
      assert src[0..n] == src[..n];
      match UvarintFrom(src, 0) {
        case None =>
          assert n == 10 && src[9] > 1;
          TenBytes(src[..n]);
        case Some((u, m)) =>
          OneEnd(src, m, n);
      }
    }
  }

  lemma OneEnd(src: seq<byte>, m: nat, n: nat)
    requires 1 <= m <= |src| && 1 <= n <= |src| && IsVarint(src[0..m]) && IsVarint(src[..n])
    ensures m == n
  {
    Ends(src, m);
    Ends(src, n);
  }

  lemma Ends(src: seq<byte>, n: nat)
    requires 1 <= n <= |src| && IsVarint(src[..n])
    ensures src[n - 1] < 128 && forall i :: 0 <= i < n - 1 ==> src[i] >= 128
  {
    forall i | 0 <= i < n - 1 ensures src[i] >= 128 { assert src[..n][i] >= 128; }
  }

  // ----- tags

  /** A tag ending in 00: the length in the tag, or after it in one to four bytes. */
  lemma LiteralBytes(a: seq<byte>, out: seq<byte>, tag: byte, len: seq<byte>, data: seq<byte>)
    requires Denotes(a, out) && tag % 4 == 0
    requires if tag / 4 < 60 then len == [] && |data| == tag / 4 + 1
             else |len| == tag / 4 - 59 && |data| == LE(len) + 1
    ensures Denotes(a + ([tag] + len + data), out + data)
  {
    hide Denotes, LE, ToLE;
    TagParts(tag);
    var k := |len|;
    ToLELE(len);
    DenotesStep(a, out, Literal(k, data));
    assert Wire(Literal(k, data)) == [tag] + len + data;
  }

  lemma TagParts(tag: byte)
    ensures tag == tag / 4 * 4 + tag % 4 && tag / 4 < 64
    ensures tag / 32 < 8 && tag / 4 == tag / 32 * 8 + tag / 4 % 8
  {
  }

  /** A tag ending in 01: length 4 to 11 and 11 bits of offset. */
  lemma Copy1Bytes(a: seq<byte>, out: seq<byte>, tag: byte, b: byte)
    requires Denotes(a, out) && tag % 4 == 1
    requires 1 <= tag / 32 * 256 + b <= |out|
    ensures Denotes(a + [tag, b], ForwardCopy(out, tag / 32 * 256 + b, 4 + tag / 4 % 8))
  {
    hide Denotes, ForwardCopy, Wire;
    TagParts(tag);
    var e := Copy1(tag / 32 * 256 + b, 4 + tag / 4 % 8);
    Copy1Wire(tag, b);
    DenotesStep(a, out, e);
  }

  lemma Copy1Wire(tag: byte, b: byte)
    requires tag % 4 == 1
    ensures var e := Copy1(tag / 32 * 256 + b, 4 + tag / 4 % 8); Valid(e) && Wire(e) == [tag, b]
  {
    TagParts(tag);
    ModUnique(tag / 32 * 256 + b, 256, tag / 32, b);
  }

  /** A tag ending in 10: length 1 to 64 and 16 bits of offset. */
  lemma Copy2Bytes(a: seq<byte>, out: seq<byte>, tag: byte, offset: seq<byte>)
    requires Denotes(a, out) && tag % 4 == 2 && |offset| == 2 && 1 <= LE(offset) <= |out|
    ensures Denotes(a + ([tag] + offset), ForwardCopy(out, LE(offset), 1 + tag / 4))
  {
    hide Denotes, ForwardCopy, LE, ToLE;
    TagParts(tag);
    Pow256Values();
    ToLELE(offset);
    DenotesStep(a, out, Copy2(LE(offset), 1 + tag / 4));
  }

  /** A tag ending in 11: length 1 to 64 and 32 bits of offset. */
  lemma Copy4Bytes(a: seq<byte>, out: seq<byte>, tag: byte, offset: seq<byte>)
    requires Denotes(a, out) && tag % 4 == 3 && |offset| == 4 && 1 <= LE(offset) <= |out|
    ensures Denotes(a + ([tag] + offset), ForwardCopy(out, LE(offset), 1 + tag / 4))
  {
    hide Denotes, ForwardCopy, LE, ToLE;
    TagParts(tag);
    Pow256Values();
    ToLELE(offset);
    DenotesStep(a, out, Copy4(LE(offset), 1 + tag / 4));
  }
}
