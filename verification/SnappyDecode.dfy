/** Reading the Snappy block format: the tag interpreter, the length header and Decode. */
module SnappyDecode {
  import opened Bytes
  import opened SnappyFormat
  import opened SnappyForwardCopy

  const TAG_LITERAL := 0
  const TAG_COPY1 := 1
  const TAG_COPY2 := 2
  const TAG_COPY4 := 3

  const DECODE_OK := 0
  const DECODE_ERR_CORRUPT := 1

  // ----- the first element of a block

  type Parsed = Option<(Element, nat)>

  predicate InRange(src: seq<byte>, r: Parsed) {
    r.Some? ==> 2 <= r.value.1 <= |src| && Valid(r.value.0)
  }

  function ParseLiteral(src: seq<byte>): (r: Parsed)
    requires src != [] && src[0] % 4 == TAG_LITERAL
    ensures InRange(src, r)
  {
    Pow256Values();
    var m := src[0] / 4;
    var k := if m < 60 then 0 else m - 59;
    if |src| < 1 + k then None
    else
      var n := (if m < 60 then m else LE(src[1..1 + k])) + 1;
      if |src| < 1 + k + n then None
      else
        Some((Literal(k, src[1 + k..1 + k + n]), 1 + k + n))
  }

  function ParseCopy1(src: seq<byte>): (r: Parsed)
    requires src != [] && src[0] % 4 == TAG_COPY1
    ensures InRange(src, r)
  {
    if |src| < 2 then None
    else Some((Copy1((src[0] as int) / 32 * 256 + src[1], 4 + src[0] / 4 % 8), 2))
  }

  function ParseCopy2(src: seq<byte>): (r: Parsed)
    requires src != [] && src[0] % 4 == TAG_COPY2
    ensures InRange(src, r)
  {
    if |src| < 3 then None
    else
      Pow256Values();
      Some((Copy2(LE(src[1..3]), 1 + src[0] / 4), 3))
  }

  function ParseCopy4(src: seq<byte>): (r: Parsed)
    requires src != [] && src[0] % 4 == TAG_COPY4
    ensures InRange(src, r)
  {
    if |src| < 5 then None
    else
      Pow256Values();
      Some((Copy4(LE(src[1..5]), 1 + src[0] / 4), 5))
  }

  /** The first element of `src` and the number of bytes it takes; None when it is cut short. */
  function Parse(src: seq<byte>): (r: Parsed)
    requires src != []
    ensures InRange(src, r)
  {
    if src[0] % 4 == TAG_LITERAL then ParseLiteral(src)
    else if src[0] % 4 == TAG_COPY1 then ParseCopy1(src)
    else if src[0] % 4 == TAG_COPY2 then ParseCopy2(src)
    else ParseCopy4(src)
  }

  lemma ParseWireShortLiteral(data: seq<byte>, src: seq<byte>)
    requires Valid(Literal(0, data)) && [(|data| - 1) * 4] + data <= src
    ensures Parse(src) == Some((Literal(0, data), 1 + |data|))
  {
    assert src[0] == (|data| - 1) * 4;
    assert src[1..1 + |data|] == data;
  }

  lemma ParseWireLongLiteral(k: nat, data: seq<byte>, src: seq<byte>)
    requires k > 0 && Valid(Literal(k, data)) && Wire(Literal(k, data)) <= src
    ensures Parse(src) == Some((Literal(k, data), 1 + k + |data|))
  {
    var size := ToLE(|data| - 1, k);
    LEToLE(|data| - 1, k);
    assert src[0] == (59 + k) * 4;
    assert src[1..1 + k] == size;
    assert src[1 + k..1 + k + |data|] == data;
  }

  lemma Copy1Fields(high: nat, low: nat)
    requires high < 8 && low < 8
    ensures var tag := high * 32 + low * 4 + 1;
            tag % 4 == 1 && tag / 32 == high && tag / 4 % 8 == low
  {
    assert high * 32 + low * 4 + 1 == 4 * (high * 8 + low) + 1;
  }

  lemma ParseWireCopy1(offset: nat, length: nat, src: seq<byte>)
    requires Valid(Copy1(offset, length)) && Wire(Copy1(offset, length)) <= src
    ensures Parse(src) == Some((Copy1(offset, length), 2))
  {
    var w := Wire(Copy1(offset, length));
    assert src[0] == w[0] && src[1] == w[1];
    Copy1Fields(offset / 256, length - 4);
  }

  lemma ParseWireCopy2(offset: nat, length: nat, src: seq<byte>)
    requires Valid(Copy2(offset, length)) && Wire(Copy2(offset, length)) <= src
    ensures Parse(src) == Some((Copy2(offset, length), 3))
  {
    Pow256Values();
    LEToLE(offset, 2);
    assert src[1..3] == ToLE(offset, 2);
  }

  lemma ParseWireCopy4(offset: nat, length: nat, src: seq<byte>)
    requires Valid(Copy4(offset, length)) && Wire(Copy4(offset, length)) <= src
    ensures Parse(src) == Some((Copy4(offset, length), 5))
  {
    Pow256Values();
    LEToLE(offset, 4);
    assert src[1..5] == ToLE(offset, 4);
  }

  lemma WireParseLiteral(src: seq<byte>)
    requires src != [] && src[0] % 4 == TAG_LITERAL && Parse(src).Some?
    ensures Wire(Parse(src).value.0) == src[..Parse(src).value.1]
  {
    var (e, n) := Parse(src).value;
    var k := e.lenBytes;
    if k > 0 { ToLELE(src[1..1 + k]); }
  }

  lemma WireParseCopy1(src: seq<byte>)
    requires |src| >= 2 && src[0] % 4 == TAG_COPY1
    ensures Wire(ParseCopy1(src).value.0) == src[..2]
  {
    var b: int := src[0];
    assert b / 32 * 32 + b / 4 % 8 * 4 + 1 == b;
    assert (b / 32 * 256 + src[1]) / 256 == b / 32 && (b / 32 * 256 + src[1]) % 256 == src[1];
  }

  lemma WireParseCopy2(src: seq<byte>)
    requires |src| >= 3 && src[0] % 4 == TAG_COPY2
    ensures Wire(ParseCopy2(src).value.0) == src[..3]
  {
    ToLELE(src[1..3]);
  }

  lemma WireParseCopy4(src: seq<byte>)
    requires |src| >= 5 && src[0] % 4 == TAG_COPY4
    ensures Wire(ParseCopy4(src).value.0) == src[..5]
  {
    ToLELE(src[1..5]);
  }

  /** Writing back what was read gives the bytes it was read from. */
  lemma WireParse(src: seq<byte>)
    requires src != [] && Parse(src).Some?
    ensures Wire(Parse(src).value.0) == src[..Parse(src).value.1]
  {
    if src[0] % 4 == TAG_LITERAL { WireParseLiteral(src); }
    else if src[0] % 4 == TAG_COPY1 { WireParseCopy1(src); }
    else if src[0] % 4 == TAG_COPY2 { WireParseCopy2(src); }
    else { WireParseCopy4(src); }
  }

  /** Reading back a written element returns it and its size, whatever follows. */
  lemma ParseWire(e: Element, rest: seq<byte>)
    requires Valid(e)
    ensures Parse(Wire(e) + rest) == Some((e, |Wire(e)|))
  {
    match e
    case Literal(k, data) =>
      if k == 0 { ParseWireShortLiteral(data, Wire(e) + rest); }
      else { ParseWireLongLiteral(k, data, Wire(e) + rest); }
    case Copy1(offset, length) => ParseWireCopy1(offset, length, Wire(e) + rest);
    case Copy2(offset, length) => ParseWireCopy2(offset, length, Wire(e) + rest);
    case Copy4(offset, length) => ParseWireCopy4(offset, length, Wire(e) + rest);
  }

  // ----- whole blocks

  /** Continues decoding `src` after `out` has been produced. */
  function DecodeFrom(out: seq<byte>, src: seq<byte>): (r: Option<seq<byte>>)
    ensures r.Some? ==> |out| <= |r.value|
    decreases |src|
  {
    if src == [] then Some(out)
    else
      match Parse(src)
      case None => None
      case Some((e, n)) =>
        match Apply(out, e)
        case None => None
        case Some(next) => DecodeFrom(next, src[n..])
  }

  lemma {:induction false} DecodeFromWire(out: seq<byte>, es: seq<Element>)
    requires AllValid(es)
    ensures DecodeFrom(out, WireAll(es)) == Meaning(out, es)
    decreases |es|
  {
    if es != [] {
      var w, rest := Wire(es[0]), WireAll(es[1..]);
      ParseWire(es[0], rest);
      assert (w + rest)[|w|..] == rest;
      var next := Apply(out, es[0]);
      if next.Some? { DecodeFromWire(next.value, es[1..]); }
    }
  }

  /** No continuation of `out` by `src` has length `n`. */
  ghost predicate Misses(out: seq<byte>, src: seq<byte>, n: nat) {
    DecodeFrom(out, src).Some? ==> |DecodeFrom(out, src).value| != n
  }

  lemma DecodeFromLiteral(out: seq<byte>, src: seq<byte>)
    requires src != [] && Parse(src).Some? && Parse(src).value.0.Literal?
    ensures var (e, size) := Parse(src).value;
            DecodeFrom(out, src) == DecodeFrom(out + e.data, src[size..])
  {
  }

  lemma DecodeFromCopy(out: seq<byte>, src: seq<byte>)
    requires src != [] && Parse(src).Some? && !Parse(src).value.0.Literal?
    ensures var (e, size) := Parse(src).value;
            DecodeFrom(out, src) ==
            if 1 <= e.offset <= |out| then DecodeFrom(ForwardCopy(out, e.offset, e.length), src[size..]) else None
  {
  }

  lemma MissesCutShort(out: seq<byte>, src: seq<byte>, n: nat)
    requires src != [] && Parse(src).None?
    ensures Misses(out, src, n)
  {
  }

  lemma MissesTooLong(out: seq<byte>, src: seq<byte>, next: seq<byte>, rest: seq<byte>, n: nat)
    requires DecodeFrom(out, src) == DecodeFrom(next, rest) && |next| > n
    ensures Misses(out, src, n)
  {
  }

  lemma MissesNone(out: seq<byte>, src: seq<byte>, n: nat)
    requires DecodeFrom(out, src).None?
    ensures Misses(out, src, n)
  {
  }

  lemma {:induction false} DecodeFromElements(out: seq<byte>, src: seq<byte>) returns (es: seq<Element>)
    requires DecodeFrom(out, src).Some?
    ensures AllValid(es) && WireAll(es) == src && Meaning(out, es) == DecodeFrom(out, src)
    decreases |src|
  {
    hide Wire, Parse, Apply;
    es := [];
    if src != [] {
      var (e, n) := Parse(src).value;
      WireParse(src);
      var rest := DecodeFromElements(Apply(out, e).value, src[n..]);
      es := [e] + rest;
      assert es[1..] == rest && src == src[..n] + src[n..];
    }
  }

  /** The tag interpreter accepts exactly the written forms of element lists. */
  lemma DecodeFromIsDenotes(src: seq<byte>, m: seq<byte>)
    ensures DecodeFrom([], src) == Some(m) <==> Denotes(src, m)
  {
    if DecodeFrom([], src) == Some(m) {
      var es := DecodeFromElements([], src);
    }
    if Denotes(src, m) {
      var es: seq<Element> :| AllValid(es) && WireAll(es) == src && Meaning([], es) == Some(m);
      DecodeFromWire([], es);
    }
  }

  lemma DenotesUnique(src: seq<byte>, m1: seq<byte>, m2: seq<byte>)
    requires Denotes(src, m1) && Denotes(src, m2)
    ensures m1 == m2
  {
    DecodeFromIsDenotes(src, m1);
    DecodeFromIsDenotes(src, m2);
  }

  // ----- in-place decoding

  /**
   Decodes `src` into dst[..n]. The code is 0 exactly when `src` is the written form of
   elements whose data has length n, and then dst[..n] is that data. The amd64 build makes
   its forward copies with overrunning 8-byte moves, which never shows in the result.
  */
  method DecodeInto(amd64: bool, dst: array<byte>, n: nat, src: seq<byte>) returns (code: nat)
    requires n <= dst.Length
    modifies dst
    ensures code == DECODE_OK || code == DECODE_ERR_CORRUPT
    ensures code == DECODE_OK <==> exists m :: |m| == n && Denotes(src, m)
    ensures code == DECODE_OK ==> Denotes(src, dst[..n])
    ensures dst[n..] == old(dst[n..])
  {
    ghost var goal := DecodeFrom([], src);
    forall m ensures goal == Some(m) <==> Denotes(src, m) { DecodeFromIsDenotes(src, m); }
    var d, s, ok := 0, 0, true;
    while s < |src|
      invariant 0 <= s <= |src| && 0 <= d <= n
      invariant DecodeFrom(dst[..d], src[s..]) == goal
      invariant dst[n..] == old(dst[n..])
      decreases |src| - s
    {
      if src[s] % 4 == TAG_LITERAL {
        ok, d, s := LiteralCase(dst, n, d, src, s);
      } else {
        ok, d, s := CopyCase(amd64, dst, n, d, src, s);
      }
      if !ok { return DECODE_ERR_CORRUPT; }
    }
    assert src[s..] == [];
    if d != n { return DECODE_ERR_CORRUPT; }
    return DECODE_OK;
  }

  method LiteralCase(dst: array<byte>, n: nat, d: nat, src: seq<byte>, s: nat)
    returns (ok: bool, d': nat, s': nat)
    requires d <= n <= dst.Length && s < |src| && src[s] % 4 == TAG_LITERAL
    modifies dst
    ensures dst[n..] == old(dst[n..])
    ensures !ok ==> Misses(old(dst[..d]), src[s..], n)
    ensures ok ==> d' <= n && s < s' <= |src|
    ensures ok ==> DecodeFrom(dst[..d'], src[s'..]) == DecodeFrom(old(dst[..d]), src[s..])
  {
    hide *;
    ghost var out, rest := dst[..d], src[s..];
    var next, length;
    ok, next, length := LiteralHeader(src, s);
    if !ok || length > |src| - next {
      MissesCutShort(out, rest, n);
      return false, d, s;
    }
    d', s' := d + length, next + length;
    DecodeFromLiteral(out, rest);
    assert rest[s' - s..] == src[s'..];
    if length > n - d {
      MissesTooLong(out, rest, out + src[next..s'], src[s'..], n);
      return false, d, s;
    }
    CopyIn(dst, d, src[next..s']);
    assert dst[..d'] == out + src[next..s'];
  }

  method CopyCase(amd64: bool, dst: array<byte>, n: nat, d: nat, src: seq<byte>, s: nat)
    returns (ok: bool, d': nat, s': nat)
    requires d <= n <= dst.Length && s < |src| && src[s] % 4 != TAG_LITERAL
    modifies dst
    ensures dst[n..] == old(dst[n..])
    ensures !ok ==> Misses(old(dst[..d]), src[s..], n)
    ensures ok ==> d' <= n && s < s' <= |src|
    ensures ok ==> DecodeFrom(dst[..d'], src[s'..]) == DecodeFrom(old(dst[..d]), src[s..])
  {
    hide *;
    ghost var out, rest := dst[..d], src[s..];
    var offset, length;
    ok, s', offset, length := CopyHeader(src, s);
    if !ok {
      MissesCutShort(out, rest, n);
      return false, d, s;
    }
    DecodeFromCopy(out, rest);
    assert rest[s' - s..] == src[s'..];
    if offset <= 0 || d < offset {
      MissesNone(out, rest, n);
      return false, d, s;
    }
    if length > n - d {
      MissesTooLong(out, rest, ForwardCopy(out, offset, length), src[s'..], n);
      return false, d, s;
    }
    if amd64 {
      d' := ForwardCopyFast(dst, n, d, offset, length);
    } else {
      ForwardCopyInto(dst, d, offset, length);
      d' := d + length;
      assert old(dst[..])[d'..][n - d'..] == old(dst[n..]);
    }
  }

  /**
   The literal case up to its data, which starts at `next`; not ok when the length is
   cut short.
  */
  method LiteralHeader(src: seq<byte>, s: nat) returns (ok: bool, next: nat, length: nat)
    requires s < |src| && src[s] % 4 == TAG_LITERAL
    ensures ok ==> s < next <= |src| && next - s <= 5 && length > 0
    ensures ok && length <= |src| - next ==>
              Parse(src[s..]) == Some((Literal(next - s - 1, src[next..next + length]), next - s + length))
    ensures !ok || length > |src| - next ==> Parse(src[s..]).None?
  {
    ghost var rest := src[s..];
    var x := src[s] / 4;
    if x < 60 {
      next, length := s + 1, x + 1;
    } else {
      next := s + x - 58;
      if next > |src| { return false, s, 0; }
      length := LE(src[s + 1..next]) + 1;
      assert rest[1..1 + (x - 59)] == src[s + 1..next];
    }
    if length <= |src| - next {
      assert rest[next - s..next - s + length] == src[next..next + length];
    }
    return true, next, length;
  }

  /** The three copy cases up to the copy itself; not ok when the element is cut short. */
  method CopyHeader(src: seq<byte>, s: nat) returns (ok: bool, next: nat, offset: nat, length: nat)
    requires s < |src| && src[s] % 4 != TAG_LITERAL
    ensures ok == Parse(src[s..]).Some?
    ensures ok ==> s < next <= |src| && length > 0 && Parse(src[s..]).value.1 == next - s
    ensures ok ==>
              var e := Parse(src[s..]).value.0;
              !e.Literal? && e.offset == offset && e.length == length
  {
    ghost var rest := src[s..];
    ok, offset, length := false, 0, 0;
    if src[s] % 4 == TAG_COPY1 {
      next := s + 2;
      if next > |src| { return; }
      length := 4 + src[next - 2] / 4 % 8;
      offset := (src[next - 2] as int) / 32 * 256 + src[next - 1];
    } else if src[s] % 4 == TAG_COPY2 {
      next := s + 3;
      if next > |src| { return; }
      length := 1 + src[next - 3] / 4;
      offset := LE(src[next - 2..next]);
      assert rest[1..3] == src[next - 2..next];
    } else {
      next := s + 5;
      if next > |src| { return; }
      length := 1 + src[next - 5] / 4;
      offset := LE(src[next - 4..next]);
      assert rest[1..5] == src[next - 4..next];
    }
    ok := true;
  }
}
