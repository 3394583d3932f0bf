/** Bytes, little-endian integers and an optional value. */
module Bytes {

  datatype Option<+T> = None | Some(value: T)

  type byte = x: int | 0 <= x < 256

  type word32 = x: int | 0 <= x < 0x1_0000_0000

  function Pow256(k: nat): (p: nat)
    ensures p > 0
  {
    if k == 0 then 1 else 256 * Pow256(k - 1)
  }

  /** The unsigned integer that `bs` denotes, least significant byte first. */
  function LE(bs: seq<byte>): (v: nat)
    ensures v < Pow256(|bs|)
  {
    if bs == [] then 0 else bs[0] + 256 * LE(bs[1..])
  }

  /** The `k` low bytes of `v`, least significant first. */
  function ToLE(v: nat, k: nat): (bs: seq<byte>)
    ensures |bs| == k
  {
    if k == 0 then [] else [v % 256] + ToLE(v / 256, k - 1)
  }

  lemma {:induction false} LEToLE(v: nat, k: nat)
    requires v < Pow256(k)
    ensures LE(ToLE(v, k)) == v
  {
    if k > 0 {
      LEToLE(v / 256, k - 1);
      assert ToLE(v, k)[1..] == ToLE(v / 256, k - 1);
    }
  }

  lemma {:induction false} ToLELE(bs: seq<byte>)
    ensures ToLE(LE(bs), |bs|) == bs
  {
    if bs != [] {
      ToLELE(bs[1..]);
      assert LE(bs) / 256 == LE(bs[1..]) && LE(bs) % 256 == bs[0];
    }
  }

  lemma LEInjective(a: seq<byte>, b: seq<byte>)
    requires |a| == |b| && LE(a) == LE(b)
    ensures a == b
  {
    ToLELE(a);
    ToLELE(b);
  }

  /** Keeping the low `k` bytes of a value keeps its first `k` bytes. */
  lemma {:induction false} LEPrefix(bs: seq<byte>, k: nat)
    requires k <= |bs|
    ensures LE(bs) % Pow256(k) == LE(bs[..k])
  {
    if k > 0 {
      LEPrefix(bs[1..], k - 1);
      var t, p := LE(bs[1..]), Pow256(k - 1);
      assert bs[..k][1..] == bs[1..][..k - 1];
      LowDigits(bs[0], t, p);
    }
  }

  lemma LowDigits(b: byte, t: nat, p: nat)
    requires p > 0
    ensures (b + 256 * t) % (256 * p) == b + 256 * (t % p)
  {
    var q, r := t / p, t % p;
    assert t == q * p + r;
    assert b + 256 * t == (256 * p) * q + (b + 256 * r);
    ModUnique(b + 256 * t, 256 * p, q, b + 256 * r);
  }

  lemma ModUnique(x: int, d: nat, q: int, r: int)
    requires d > 0 && x == d * q + r && 0 <= r < d
    ensures x % d == r && x / d == q
  {
    var e := x / d - q;
    assert d * e == r - x % d;
    MulAtLeast(d, e);
    MulAtLeast(d, -e);
  }

  lemma MulAtLeast(d: nat, e: int)
    ensures e >= 1 ==> d * e >= d
  {
    if e >= 1 { assert d * e == d + d * (e - 1); }
  }

  lemma Pow256Values()
    ensures Pow256(1) == 0x100 && Pow256(2) == 0x1_0000
    ensures Pow256(3) == 0x100_0000 && Pow256(4) == 0x1_0000_0000
  {
    assert Pow256(1) == 256;
    assert Pow256(2) == 256 * Pow256(1);
    assert Pow256(3) == 256 * Pow256(2);
    assert Pow256(4) == 256 * Pow256(3);
  }

  lemma Associative(a: seq<byte>, b: seq<byte>, c: seq<byte>)
    ensures a + (b + c) == (a + b) + c
  {
  }

  lemma SlicesMeet(s: seq<byte>, lo: nat, mid: nat, hi: nat)
    requires lo <= mid <= hi <= |s|
    ensures s[lo..mid] + s[mid..hi] == s[lo..hi]
  {
  }

  lemma SliceOfTail(s: seq<byte>, k: nat, lo: nat, hi: nat)
    requires k <= |s| && lo <= hi <= |s| - k
    ensures s[k..][lo..hi] == s[k + lo..k + hi]
  {
  }
}
