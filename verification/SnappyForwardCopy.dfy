/**
 The forward copy of the amd64 decoder: two 8-byte moves for short copies, pattern
 doubling followed by 8-byte moves when there is room to overrun, and byte by byte
 otherwise. Each way is proved to leave the same data as the byte-by-byte copy.
*/
module SnappyForwardCopy {
  import opened Bytes
  import opened SnappyFormat

  // ----- repeating patterns

  /** The place in a pattern of length p that position x falls on. */
  function Phase(x: nat, p: nat): (r: nat)
    requires p > 0
    ensures r < p
  {
    if x < p then x else Phase(x - p, p)
  }

  predicate Multiple(n: nat, p: nat)
    requires p > 0
  {
    n == 0 || (n >= p && Multiple(n - p, p))
  }

  lemma {:induction false} MultipleSum(m: nat, n: nat, p: nat)
    requires p > 0 && Multiple(m, p) && Multiple(n, p)
    ensures Multiple(m + n, p)
    decreases m
  {
    if m > 0 { MultipleSum(m - p, n, p); }
  }

  lemma {:induction false} PhaseShift(x: nat, n: nat, p: nat)
    requires p > 0 && Multiple(n, p)
    ensures Phase(x + n, p) == Phase(x, p)
    decreases n
  {
    if n > 0 { PhaseShift(x, n - p, p); }
  }

  /** s[base..hi] repeats `pat`. */
  ghost predicate Repeats(s: seq<byte>, pat: seq<byte>, base: nat, hi: nat) {
    pat != [] && hi <= |s| && forall j :: base <= j < hi ==> s[j] == pat[Phase(j - base, |pat|)]
  }

  /** Moving the pattern along by a multiple of its length extends the repetition. */
  lemma RepeatsExtend(before: seq<byte>, after: seq<byte>, pat: seq<byte>, base: nat, a: nat, stride: nat, n: nat)
    requires Repeats(before, pat, base, a) && base + stride <= a && Multiple(stride, |pat|)
    requires |after| == |before| && a + n <= |after|
    requires n <= stride
    requires forall j :: base <= j < a ==> after[j] == before[j]
    requires forall j :: a <= j < a + n ==> after[j] == before[j - stride]
    ensures Repeats(after, pat, base, a + n)
  {
    forall j | base <= j < a + n ensures after[j] == pat[Phase(j - base, |pat|)] {
      if j >= a { PhaseShift(j - stride - base, stride, |pat|); }
    }
  }

  lemma RepeatsShorter(s: seq<byte>, pat: seq<byte>, base: nat, hi: nat, lo: nat)
    requires lo <= hi && Repeats(s, pat, base, hi)
    ensures Repeats(s, pat, base, lo)
  {
  }

  lemma SamePrefix(s: seq<byte>, t: seq<byte>, n: nat)
    requires n <= |s| == |t| && forall j :: 0 <= j < n ==> t[j] == s[j]
    ensures t[..n] == s[..n]
  {
  }

  lemma RepeatsIsForwardCopy(before: seq<byte>, after: seq<byte>, d: nat, offset: nat, length: nat)
    requires d + length <= |before| == |after| && 1 <= offset <= d
    requires after[..d] == before[..d]
    requires Repeats(after, before[d - offset..d], d - offset, d + length)
    ensures after[..d + length] == ForwardCopy(before[..d], offset, length)
  {
    var r := after[..d + length];
    forall j | d <= j < d + length ensures r[j] == r[j - offset] {
      assert after[j] == after[j - offset];
    }
    assert r[..d] == after[..d];
    ForwardCopyPeriod(before[..d], offset, length, r);
  }

  // ----- byte by byte

  /** The built-in copy of a byte string into a buffer. */
  method CopyIn(dst: array<byte>, d: nat, data: seq<byte>)
    requires d + |data| <= dst.Length
    modifies dst
    ensures dst[..] == old(dst[..d]) + data + old(dst[d + |data|..])
  {
    forall i | 0 <= i < |data| { dst[d + i] := data[i]; }
  }

  /** A copy from earlier in `dst` that always runs forwards. */
  method ForwardCopyInto(dst: array<byte>, d: nat, offset: nat, length: nat)
    requires 1 <= offset <= d && d + length <= dst.Length
    modifies dst
    ensures dst[..d + length] == ForwardCopy(old(dst[..d]), offset, length)
    ensures dst[d + length..] == old(dst[d + length..])
  {
    hide ForwardCopy;
    ghost var before := dst[..];
    if offset >= length {
      CopyIn(dst, d, dst[d - offset..d - offset + length]);
    } else {
      CopyForward(dst, d, offset, length);
    }
    SamePrefix(before, dst[..], d);
    assert dst[..d + length][..d] == dst[..d] == before[..d];
    ForwardCopyPeriod(before[..d], offset, length, dst[..d + length]);
  }

  method CopyForward(dst: array<byte>, d: nat, offset: nat, length: nat)
    requires 1 <= offset <= d && d + length <= dst.Length
    modifies dst
    ensures forall j :: d <= j < d + length ==> dst[j] == dst[j - offset]
    ensures forall j :: 0 <= j < dst.Length && !(d <= j < d + length) ==> dst[j] == old(dst[j])
  {
    var i := 0;
    while i < length
      invariant 0 <= i <= length
      invariant forall j :: d <= j < d + i ==> dst[j] == dst[j - offset]
      invariant forall j :: 0 <= j < dst.Length && !(d <= j < d + i) ==> dst[j] == old(dst[j])
    {
      dst[d + i] := dst[d - offset + i];
      i := i + 1;
    }
  }

  // ----- 8 bytes at a time

  /** One 8-byte load from dst[from..] and store to dst[to..]. */
  method Move8(dst: array<byte>, to: nat, from: nat)
    requires to + 8 <= dst.Length && from + 8 <= dst.Length
    modifies dst
    ensures forall j :: to <= j < to + 8 ==> dst[j] == old(dst[..])[j - to + from]
    ensures forall j :: 0 <= j < dst.Length && !(to <= j < to + 8) ==> dst[j] == old(dst[j])
  {
    var word := dst[from..from + 8];
    forall i | 0 <= i < 8 { dst[to + i] := word[i]; }
  }

  /** Two 8-byte moves; the second load comes after the first store. */
  method ShortForwardCopy(dst: array<byte>, d: nat, offset: nat, length: nat)
    requires 8 <= offset <= d && 1 <= length <= 16 && d + 16 <= dst.Length
    modifies dst
    ensures dst[..d + length] == ForwardCopy(old(dst[..d]), offset, length)
    ensures dst[d + 16..] == old(dst[d + 16..])
  {
    ghost var before := dst[..];
    Move8(dst, d, d - offset);
    ghost var between := dst[..];
    Move8(dst, d + 8, d - offset + 8);
    assert dst[..d + length][..d] == before[..d];
    forall j | d <= j < d + length ensures dst[j] == dst[j - offset] {
      if j < d + 8 { assert dst[j] == between[j]; }
    }
    ForwardCopyPeriod(before[..d], offset, length, dst[..d + length]);
  }

  /**
   Repeats the pattern dst[d - offset..d] from dst[d..] until it is at least 8 bytes long.
   `stride` is the grown offset; the next byte goes to dst[a].
  */
  method MakeOffsetAtLeast8(dst: array<byte>, d: nat, offset: nat) returns (a: nat, stride: nat)
    requires 1 <= offset <= d && d + 11 <= dst.Length
    modifies dst
    ensures a == d + stride - offset && 8 <= stride && Multiple(stride, offset)
    ensures a <= d + 11
    ensures Repeats(dst[..], old(dst[d - offset..d]), d - offset, a)
    ensures forall j :: 0 <= j < dst.Length && !(d <= j < d + 11) ==> dst[j] == old(dst[j])
  {
    a, stride := d, offset;
    ghost var base, pat := d - offset, dst[d - offset..d];
    while stride < 8
      invariant a == d + stride - offset && Multiple(stride, offset)
      invariant stride == offset || stride == 2 * offset || stride == 4 * offset || stride >= 8
      invariant a <= d + 11
      invariant Repeats(dst[..], pat, base, a)
      invariant forall j :: 0 <= j < dst.Length && !(d <= j < d + 11) ==> dst[j] == old(dst[j])
      decreases 8 - stride
    {
      ghost var before := dst[..];
      Move8(dst, a, a - stride);
      RepeatsExtend(before, dst[..], pat, base, a, stride, stride);
      MultipleSum(stride, stride, offset);
      a, stride := a + stride, stride + stride;
    }
  }

  /** 8 bytes at a time from dst[start - stride..] to dst[start..] until `length` bytes are copied. */
  method FinishSlowForwardCopy(dst: array<byte>, start: nat, stride: nat, length: int,
                               ghost base: nat, ghost pat: seq<byte>)
    requires pat != [] && 8 <= stride && Multiple(stride, |pat|) && base + stride == start <= dst.Length
    requires start + length + 7 <= dst.Length
    requires Repeats(dst[..], pat, base, start)
    modifies dst
    ensures Repeats(dst[..], pat, base, if length > 0 then start + length else start)
    ensures forall j :: 0 <= j < dst.Length && !(start <= j < start + length + 7) ==> dst[j] == old(dst[j])
  {
    var a, left := start, length;
    while left > 0
      invariant a + left == start + length && start <= a
      invariant left > 0 ==> a < start + length
      invariant left <= 0 ==> a == start || a < start + length + 8
      invariant a <= dst.Length
      invariant Repeats(dst[..], pat, base, a)
      invariant forall j :: 0 <= j < dst.Length && !(start <= j < start + length + 7) ==> dst[j] == old(dst[j])
    {
      ghost var before := dst[..];
      Move8(dst, a, a - stride);
      RepeatsExtend(before, dst[..], pat, base, a, stride, 8);
      a, left := a + 8, left - 8;
    }
  }

  /** Pattern doubling and then 8-byte moves; at most 10 bytes past the copy are overwritten. */
  method SlowForwardCopy(dst: array<byte>, d: nat, offset: nat, length: nat) returns (d': nat)
    requires 1 <= offset <= d && 1 <= length && d + length + 10 <= dst.Length
    modifies dst
    ensures d' == d + length
    ensures dst[..d'] == ForwardCopy(old(dst[..d]), offset, length)
    ensures dst[d' + 10..] == old(dst[d + length + 10..])
  {
    ghost var before, pat := dst[..], dst[d - offset..d];
    var a, stride := MakeOffsetAtLeast8(dst, d, offset);
    ghost var grown := dst[..];
    assert |pat| == offset;
    assert forall j :: 0 <= j < d ==> grown[j] == before[j];
    d' := d + length;
    FinishSlowForwardCopy(dst, a, stride, d' - a, d - offset, pat);
    assert forall j :: d' + 10 <= j < dst.Length ==> dst[j] == before[j];
    assert dst[d' + 10..] == before[d' + 10..];
    assert dst[..d'] == ForwardCopy(before[..d], offset, length) by {
      ghost var after := dst[..];
      assert forall j :: 0 <= j < d ==> after[j] == grown[j];
      RepeatsShorter(after, pat, d - offset, if d' > a then d' else a, d');
      SamePrefix(before, after, d);
      RepeatsIsForwardCopy(before, after, d, offset, length);
      assert after[..d'] == dst[..d'];
    }
    assert before[..d] == old(dst[..d]);
  }

  /**
   The whole forward copy into dst[d..d + length], where `dst` ends at n. It may overrun:
   up to 16 bytes past d for a short copy and 10 bytes past its end for a slow one, but
   never past n.
  */
  method ForwardCopyFast(dst: array<byte>, n: nat, d: nat, offset: nat, length: nat) returns (d': nat)
    requires n <= dst.Length && 1 <= offset <= d && 1 <= length && d + length <= n
    modifies dst
    ensures d' == d + length
    ensures dst[..d'] == ForwardCopy(old(dst[..d]), offset, length)
    ensures dst[n..] == old(dst[n..])
    ensures Short(n, d, offset, length) ==> dst[d + 16..] == old(dst[d + 16..])
    ensures !Short(n, d, offset, length) && d' + 10 <= n ==> dst[d' + 10..] == old(dst[d + length + 10..])
    ensures !Short(n, d, offset, length) && d' + 10 > n ==> dst[d'..] == old(dst[d + length..])
  {
    if length <= 16 && offset >= 8 && n - d >= 16 {
      ShortForwardCopy(dst, d, offset, length);
      d' := d + length;
      assert dst[n..] == dst[d + 16..][n - d - 16..] == old(dst[d + 16..])[n - d - 16..];
    } else if length <= n - d - 10 {
      d' := SlowForwardCopy(dst, d, offset, length);
      assert dst[n..] == dst[d' + 10..][n - d' - 10..] == old(dst[d + length + 10..])[n - d' - 10..];
    } else {
      d' := VerySlowForwardCopy(dst, d, offset, length);
      assert dst[n..] == dst[d'..][n - d'..] == old(dst[d + length..])[n - d'..];
    }
  }

  predicate Short(n: nat, d: nat, offset: nat, length: nat) {
    length <= 16 && offset >= 8 && d + 16 <= n
  }

  method VerySlowForwardCopy(dst: array<byte>, start: nat, offset: nat, length: nat) returns (d: nat)
    requires 1 <= offset <= start && 1 <= length <= dst.Length - start
    modifies dst
    ensures d == start + length
    ensures dst[..d] == ForwardCopy(old(dst[..start]), offset, length)
    ensures dst[d..] == old(dst[start + length..])
  {
    d := start;
    var left := length;
    while true
      invariant d + left == start + length && left > 0 && start <= d
      invariant dst[..start] == old(dst[..start])
      invariant forall j :: start <= j < d ==> dst[j] == dst[j - offset]
      invariant dst[d..] == old(dst[..])[d..]
      decreases left
    {
      dst[d] := dst[d - offset];
      d, left := d + 1, left - 1;
      if left == 0 { break; }
    }
    assert dst[..d][..start] == dst[..start];
    ForwardCopyPeriod(old(dst[..start]), offset, length, dst[..d]);
  }
}
