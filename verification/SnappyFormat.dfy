/**
 The Snappy block format as a grammar: elements, the bytes that write each one, and
 the data a list of elements denotes.
*/
module SnappyFormat {
  import opened Bytes

  /** A longer input is encoded, or sent, in parts of this size. */
  const MAX_BLOCK_SIZE := 0x1_0000

  /**
   One chunk of a block. `lenBytes` is the number of bytes after the tag that hold a
   literal's length; 0 puts the length in the tag itself.
  */
  datatype Element =
    | Literal(lenBytes: nat, data: seq<byte>)
    | Copy1(offset: nat, length: nat)
    | Copy2(offset: nat, length: nat)
    | Copy4(offset: nat, length: nat)

  /** The element has a form its tag can represent. */
  predicate Valid(e: Element) {
    match e
    case Literal(k, data) => k <= 4 && 1 <= |data| <= (if k == 0 then 60 else Pow256(k))
    case Copy1(offset, length) => offset < 2048 && 4 <= length < 12
    case Copy2(offset, length) => offset < 0x1_0000 && 1 <= length <= 64
    case Copy4(offset, length) => offset < 0x1_0000_0000 && 1 <= length <= 64
  }

  predicate AllValid(es: seq<Element>) {
    forall i :: 0 <= i < |es| ==> Valid(es[i])
  }

  function Wire(e: Element): (w: seq<byte>)
    requires Valid(e)
    ensures |w| >= 2
  {
    match e
    case Literal(k, data) =>
      if k == 0 then [(|data| - 1) * 4] + data
      else [(59 + k) * 4] + ToLE(|data| - 1, k) + data
    case Copy1(offset, length) => [offset / 256 * 32 + (length - 4) * 4 + 1, offset % 256]
    case Copy2(offset, length) => [(length - 1) * 4 + 2] + ToLE(offset, 2)
    case Copy4(offset, length) => [(length - 1) * 4 + 3] + ToLE(offset, 4)
  }

  function WireAll(es: seq<Element>): seq<byte>
    requires AllValid(es)
  {
    if es == [] then [] else Wire(es[0]) + WireAll(es[1..])
  }

  /** Appends `length` bytes, each a repeat of the byte `offset` places before it. */
  function ForwardCopy(out: seq<byte>, offset: nat, length: nat): (r: seq<byte>)
    requires 1 <= offset <= |out|
    ensures |r| == |out| + length && r[..|out|] == out
    decreases length
  {
    if length == 0 then out
    else
      var next := out + [out[|out| - offset]];
      var r := ForwardCopy(next, offset, length - 1);
      assert r[..|out|] == r[..|next|][..|out|];
      r
  }

  function CopyBack(out: seq<byte>, offset: nat, length: nat): Option<seq<byte>> {
    if 1 <= offset <= |out| then Some(ForwardCopy(out, offset, length)) else None
  }

  function Apply(out: seq<byte>, e: Element): (r: Option<seq<byte>>)
    requires Valid(e)
    ensures r.Some? ==> |out| < |r.value|
  {
    match e
    case Literal(_, data) => Some(out + data)
    case Copy1(offset, length) => CopyBack(out, offset, length)
    case Copy2(offset, length) => CopyBack(out, offset, length)
    case Copy4(offset, length) => CopyBack(out, offset, length)
  }

  /** What `es` denotes after `out` has been produced; None when a copy reaches back too far. */
  function Meaning(out: seq<byte>, es: seq<Element>): Option<seq<byte>>
    requires AllValid(es)
    decreases |es|
  {
    if es == [] then Some(out)
    else
      match Apply(out, es[0])
      case None => None
      case Some(next) => Meaning(next, es[1..])
  }

  /** `src` is the whole of some list of elements, and they denote `m`. */
  ghost predicate Denotes(src: seq<byte>, m: seq<byte>) {
    exists es: seq<Element> :: AllValid(es) && WireAll(es) == src && Meaning([], es) == Some(m)
  }

  // ----- forward copies

  /** The copied region repeats with period `offset`, and that determines it. */
  lemma {:induction false} ForwardCopyPeriod(out: seq<byte>, offset: nat, length: nat, r: seq<byte>)
    requires 1 <= offset <= |out|
    requires |r| == |out| + length && r[..|out|] == out
    requires forall j :: |out| <= j < |r| ==> r[j] == r[j - offset]
    ensures r == ForwardCopy(out, offset, length)
    decreases length
  {
    if length == 0 {
      assert r == out;
    } else {
      var next := out + [out[|out| - offset]];
      assert r[|out|] == r[..|out|][|out| - offset];
      assert r[..|next|] == next;
      ForwardCopyPeriod(next, offset, length - 1, r);
    }
  }

  lemma {:induction false} ForwardCopyAt(out: seq<byte>, offset: nat, length: nat)
    requires 1 <= offset <= |out|
    ensures forall j :: |out| <= j < |out| + length ==>
              ForwardCopy(out, offset, length)[j] == ForwardCopy(out, offset, length)[j - offset]
    decreases length
  {
    if length > 0 {
      var next := out + [out[|out| - offset]];
      ForwardCopyAt(next, offset, length - 1);
      var r := ForwardCopy(out, offset, length);
      assert r == ForwardCopy(next, offset, length - 1);
      assert next[|out|] == next[|out| - offset];
      forall j | |out| <= j < |r| ensures r[j] == r[j - offset] {
        if j == |out| {
          assert r[..|next|][j] == next[j] && r[..|next|][j - offset] == next[j - offset];
        }
      }
    }
  }

  lemma {:induction false} ForwardCopySplit(out: seq<byte>, offset: nat, a: nat, b: nat)
    requires 1 <= offset <= |out|
    ensures ForwardCopy(ForwardCopy(out, offset, a), offset, b) == ForwardCopy(out, offset, a + b)
    decreases a
  {
    if a > 0 {
      ForwardCopySplit(out + [out[|out| - offset]], offset, a - 1, b);
    }
  }

  lemma ForwardCopyPrefix(p: seq<byte>, out: seq<byte>, offset: nat, length: nat)
    requires 1 <= offset <= |out|
    ensures ForwardCopy(p + out, offset, length) == p + ForwardCopy(out, offset, length)
  {
    ForwardCopyAt(out, offset, length);
    var f := ForwardCopy(out, offset, length);
    var r := p + f;
    assert r[..|p + out|] == p + f[..|out|];
    forall j | |p + out| <= j < |r| ensures r[j] == r[j - offset] {
      var i := j - |p|;
      assert f[i] == f[i - offset];
    }
    ForwardCopyPeriod(p + out, offset, length, r);
  }

  // ----- lists of elements

  lemma AllValidAppend(a: seq<Element>, b: seq<Element>)
    requires AllValid(a) && AllValid(b)
    ensures AllValid(a + b)
  {
  }

  lemma {:induction false} WireAllAppend(a: seq<Element>, b: seq<Element>)
    requires AllValid(a) && AllValid(b)
    ensures AllValid(a + b) && WireAll(a + b) == WireAll(a) + WireAll(b)
  {
    hide Wire, Valid;
    AllValidAppend(a, b);
    if a == [] {
      assert a + b == b;
    } else {
      WireAllAppend(a[1..], b);
      var ab := a + b;
      assert ab[0] == a[0] && ab[1..] == a[1..] + b;
      assert WireAll(ab) == Wire(ab[0]) + WireAll(ab[1..]);
      Associative(Wire(a[0]), WireAll(a[1..]), WireAll(b));
    }
  }

  lemma {:induction false} MeaningAppend(out: seq<byte>, a: seq<Element>, b: seq<Element>)
    requires AllValid(a) && AllValid(b)
    ensures AllValid(a + b)
    ensures Meaning(out, a).None? ==> Meaning(out, a + b).None?
    ensures Meaning(out, a).Some? ==> Meaning(out, a + b) == Meaning(Meaning(out, a).value, b)
    decreases |a|
  {
    if a == [] {
      assert a + b == b;
    } else {
      assert (a + b)[1..] == a[1..] + b;
      var next := Apply(out, a[0]);
      if next.Some? { MeaningAppend(next.value, a[1..], b); }
    }
  }

  /** Elements that make sense on their own mean the same after any earlier output. */
  lemma {:induction false} MeaningPrefix(p: seq<byte>, out: seq<byte>, es: seq<Element>)
    requires AllValid(es) && Meaning(out, es).Some?
    ensures Meaning(p + out, es) == Some(p + Meaning(out, es).value)
    decreases |es|
  {
    if es != [] {
      var next := Apply(out, es[0]).value;
      match es[0] {
        case Literal(_, data) => assert p + (out + data) == (p + out) + data;
        case Copy1(offset, length) => ForwardCopyPrefix(p, out, offset, length);
        case Copy2(offset, length) => ForwardCopyPrefix(p, out, offset, length);
        case Copy4(offset, length) => ForwardCopyPrefix(p, out, offset, length);
      }
      assert Apply(p + out, es[0]) == Some(p + next);
      MeaningPrefix(p, next, es[1..]);
    }
  }

  /** Two parts of a block written one after the other denote their data one after the other. */
  lemma DenotesAppend(a: seq<byte>, x: seq<byte>, b: seq<byte>, y: seq<byte>)
    requires Denotes(a, x) && Denotes(b, y)
    ensures Denotes(a + b, x + y)
  {
    var ea: seq<Element> :| AllValid(ea) && WireAll(ea) == a && Meaning([], ea) == Some(x);
    var eb: seq<Element> :| AllValid(eb) && WireAll(eb) == b && Meaning([], eb) == Some(y);
    WireAllAppend(ea, eb);
    MeaningAppend([], ea, eb);
    MeaningPrefix(x, [], eb);
    assert x + [] == x;
  }

  lemma DenotesEmpty()
    ensures Denotes([], [])
  {
    assert AllValid([]) && WireAll([]) == [] && Meaning([], []) == Some([]);
  }

  /** One more element extends what has been written and what it denotes. */
  lemma DenotesStep(src: seq<byte>, out: seq<byte>, e: Element)
    requires Denotes(src, out) && Valid(e) && Apply(out, e).Some?
    ensures Denotes(src + Wire(e), Apply(out, e).value)
  {
    var es: seq<Element> :| AllValid(es) && WireAll(es) == src && Meaning([], es) == Some(out);
    var one := [e];
    hide Wire;
    assert one[0] == e && one[1..] == [];
    assert WireAll(one) == Wire(e) + WireAll([]) == Wire(e);
    assert Meaning(out, one) == Meaning(Apply(out, e).value, []);
    WireAllAppend(es, one);
    MeaningAppend([], es, one);
  }
}
