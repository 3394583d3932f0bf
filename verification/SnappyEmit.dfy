/** Writing single literals and copies of the Snappy block format. */
module SnappyEmit {
  import opened Bytes
  import opened SnappyFormat


  // ----- literals

  /** The shortest form of a literal of at most 65536 bytes. */
  function LiteralOf(lit: seq<byte>): (e: Element)
    requires 1 <= |lit| <= MAX_BLOCK_SIZE
    ensures Valid(e) && e.Literal? && e.data == lit
    ensures |lit| <= 60 ==> |Wire(e)| == |lit| + 1
    ensures 60 < |lit| <= 256 ==> |Wire(e)| == |lit| + 2
    ensures 256 < |lit| ==> |Wire(e)| == |lit| + 3
  {
    Pow256Values();
    Literal(if |lit| <= 60 then 0 else if |lit| <= 256 then 1 else 2, lit)
  }

  lemma ToLE1(v: nat)
    requires v < 0x100
    ensures ToLE(v, 1) == [v]
  {
    assert ToLE(v / 256, 0) == [];
  }

  lemma ToLE2(v: nat)
    requires v < 0x1_0000
    ensures ToLE(v, 2) == [v % 256, v / 256]
  {
    assert ToLE(v, 2) == [v % 256] + ToLE(v / 256, 1);
    ToLE1(v / 256);
  }

  method EmitLiteral(dst: array<byte>, at: nat, lit: seq<byte>) returns (n: nat)
    requires 1 <= |lit| <= MAX_BLOCK_SIZE
    requires at + |Wire(LiteralOf(lit))| <= dst.Length
    modifies dst
    ensures n == |Wire(LiteralOf(lit))|
    ensures dst[..at + n] == old(dst[..at]) + Wire(LiteralOf(lit))
    ensures dst[at + n..] == old(dst[at + n..])
  {
    var i, m := 0, |lit| - 1;
    if m < 60 {
      dst[at] := m * 4;
      i := 1;
    } else if m < 0x100 {
      dst[at], dst[at + 1] := 60 * 4, m;
      i := 2;
      ToLE1(m);
    } else {
      dst[at], dst[at + 1], dst[at + 2] := 61 * 4, m % 256, m / 256 % 256;
      i := 3;
      ToLE2(m);
    }
    forall k | 0 <= k < |lit| { dst[at + i + k] := lit[k]; }
    n := i + |lit|;
  }

  // ----- copies

  function LastCopy(offset: nat, length: nat): (e: Element)
    requires 1 <= offset < 0x1_0000 && 4 <= length <= 64
    ensures Valid(e) && !e.Literal? && e.offset == offset && e.length == length
    ensures |Wire(e)| <= 3
  {
    if length >= 12 || offset >= 2048 then Copy2(offset, length) else Copy1(offset, length)
  }

  /** How much of a copy too long for one tag goes into its first tag. */
  function FirstPiece(length: nat): nat {
    if length >= 68 then 64 else 60
  }

  /** The elements that stand for one long copy. */
  function SplitCopy(offset: nat, length: nat): (es: seq<Element>)
    requires 1 <= offset < 0x1_0000 && 4 <= length
    ensures AllValid(es)
  {
    if length > 64 then [Copy2(offset, FirstPiece(length))] + SplitCopy(offset, length - FirstPiece(length))
    else [LastCopy(offset, length)]
  }

  lemma MeaningCopy(out: seq<byte>, e: Element, es: seq<Element>)
    requires Valid(e) && !e.Literal? && AllValid(es) && 1 <= e.offset <= |out|
    ensures AllValid([e] + es)
    ensures Meaning(out, [e] + es) == Meaning(ForwardCopy(out, e.offset, e.length), es)
  {
    assert ([e] + es)[0] == e && ([e] + es)[1..] == es;
  }

  /** The pieces of a split copy do together what one forward copy does. */
  lemma {:induction false} SplitCopyMeaning(out: seq<byte>, offset: nat, length: nat)
    requires 1 <= offset < 0x1_0000 && offset <= |out| && 4 <= length
    ensures Meaning(out, SplitCopy(offset, length)) == Some(ForwardCopy(out, offset, length))
    decreases length
  {
    if length > 64 {
      var first := FirstPiece(length);
      MeaningCopy(out, Copy2(offset, first), SplitCopy(offset, length - first));
      SplitCopyMeaning(ForwardCopy(out, offset, first), offset, length - first);
      ForwardCopySplit(out, offset, first, length - first);
    } else {
      assert SplitCopy(offset, length) == [LastCopy(offset, length)] + [];
      MeaningCopy(out, LastCopy(offset, length), []);
    }
  }

  lemma WireAllOne(e: Element)
    requires Valid(e)
    ensures AllValid([e]) && WireAll([e]) == Wire(e)
  {
    assert [e][1..] == [];
    assert WireAll([e]) == Wire(e) + WireAll([]);
  }

  lemma WireAllCons(e: Element, es: seq<Element>)
    requires Valid(e) && AllValid(es)
    ensures AllValid([e] + es) && WireAll([e] + es) == Wire(e) + WireAll(es)
  {
    WireAllOne(e);
    WireAllAppend([e], es);
  }

  /** The first tag of a split and what is left of the copy after it. */
  lemma SplitCopyWire(offset: nat, length: nat)
    requires 1 <= offset < 0x1_0000 && 4 <= length
    ensures length > 64 ==>
              var first := FirstPiece(length);
              WireAll(SplitCopy(offset, length)) == Wire(Copy2(offset, first)) + WireAll(SplitCopy(offset, length - first))
    ensures length <= 64 ==> WireAll(SplitCopy(offset, length)) == Wire(LastCopy(offset, length))
  {
    if length > 64 {
      var first := FirstPiece(length);
      WireAllCons(Copy2(offset, first), SplitCopy(offset, length - first));
    } else {
      WireAllOne(LastCopy(offset, length));
    }
  }

  /** A copy always takes fewer bytes than it stands for. */
  lemma {:induction false} SplitCopySize(offset: nat, length: nat)
    requires 1 <= offset < 0x1_0000 && 4 <= length
    ensures 2 <= |WireAll(SplitCopy(offset, length))| < length
    decreases length
  {
    SplitCopyWire(offset, length);
    if length > 64 { SplitCopySize(offset, length - FirstPiece(length)); }
  }

  /** Three bytes stand for 64 of them, but for the last tags. */
  lemma {:induction false} SplitCopyShort(offset: nat, length: nat)
    requires 1 <= offset < 0x1_0000 && 4 <= length
    ensures 64 * |WireAll(SplitCopy(offset, length))| <= 3 * length + 204
    ensures length <= 64 ==> |WireAll(SplitCopy(offset, length))| <= 3
    decreases length
  {
    SplitCopyWire(offset, length);
    if length > 64 { SplitCopyShort(offset, length - FirstPiece(length)); }
  }

  /** One 3-byte copy tag. */
  method EmitCopy2(dst: array<byte>, at: nat, offset: nat, length: nat)
    requires offset < 0x1_0000 && 1 <= length <= 64 && at + 3 <= dst.Length
    modifies dst
    ensures dst[..at + 3] == old(dst[..at]) + Wire(Copy2(offset, length))
    ensures dst[at + 3..] == old(dst[at + 3..])
  {
    dst[at], dst[at + 1], dst[at + 2] := (length - 1) * 4 + 2, offset % 256, offset / 256 % 256;
    ToLE2(offset);
  }

  /** One 2-byte copy tag. */
  method EmitCopy1(dst: array<byte>, at: nat, offset: nat, length: nat)
    requires offset < 2048 && 4 <= length < 12 && at + 2 <= dst.Length
    modifies dst
    ensures dst[..at + 2] == old(dst[..at]) + Wire(Copy1(offset, length))
    ensures dst[at + 2..] == old(dst[at + 2..])
  {
    dst[at] := offset / 256 % 256 * 32 % 256 + (length - 4) * 4 + 1;
    dst[at + 1] := offset % 256;
  }

  method EmitCopy(dst: array<byte>, at: nat, offset: nat, length: nat) returns (n: nat)
    requires 1 <= offset < 0x1_0000 && 4 <= length
    requires at + |WireAll(SplitCopy(offset, length))| <= dst.Length
    modifies dst
    ensures n == |WireAll(SplitCopy(offset, length))|
    ensures dst[..at + n] == old(dst[..at]) + WireAll(SplitCopy(offset, length))
    ensures dst[at + n..] == old(dst[at + n..])
  {
    hide Wire, WireAll, SplitCopy;
    ghost var before, done := dst[..], [];
    var i, left := 0, length;
    while left >= 68
      invariant Partial(dst[..], before, at, i, offset, length, left, done)
    {
      done := EmitPiece(dst, at, i, offset, length, left, 64, before, done);
      i, left := i + 3, left - 64;
    }
    if left > 64 {
      done := EmitPiece(dst, at, i, offset, length, left, 60, before, done);
      i, left := i + 3, left - 60;
    }
    SplitCopyWire(offset, left);
    n := EmitLastCopy(dst, at, i, offset, left, before, done);
  }

  /** The first i bytes of a split copy have been written at `at`; `left` is still to be copied. */
  ghost predicate Partial(now: seq<byte>, before: seq<byte>, at: nat, i: nat,
                          offset: nat, length: nat, left: nat, done: seq<byte>)
    requires 1 <= offset < 0x1_0000 && 4 <= length
  {
    && 4 <= left && |done| == i && |now| == |before| && at + |WireAll(SplitCopy(offset, length))| <= |now|
    && WireAll(SplitCopy(offset, length)) == done + WireAll(SplitCopy(offset, left))
    && now[..at + i] == before[..at] + done
    && now[at + i..] == before[at + i..]
  }

  method EmitPiece(dst: array<byte>, at: nat, i: nat, offset: nat, length: nat, left: nat, piece: nat,
                   ghost before: seq<byte>, ghost done: seq<byte>) returns (ghost done': seq<byte>)
    requires 1 <= offset < 0x1_0000 && 4 <= length
    requires left > 64 && piece == FirstPiece(left)
    requires Partial(dst[..], before, at, i, offset, length, left, done)
    modifies dst
    ensures Partial(dst[..], before, at, i + 3, offset, length, left - piece, done')
  {
    hide WireAll, SplitCopy;
    ghost var now, w, rest := dst[..], Wire(Copy2(offset, piece)), WireAll(SplitCopy(offset, left - piece));
    SplitCopyWire(offset, left);
    assert now[..at + i] == dst[..at + i] && now[at + i..] == dst[at + i..];
    assert now[at + i..][3..] == before[at + i..][3..] == before[at + i + 3..];
    assert dst[at + i + 3..] == now[at + i..][3..];
    EmitCopy2(dst, at + i, offset, piece);
    done' := done + w;
    Associative(done, w, rest);
    Associative(before[..at], done, w);
    assert dst[..][..at + i + 3] == dst[..at + i + 3] && dst[..][at + i + 3..] == dst[at + i + 3..];
  }

  method EmitLastCopy(dst: array<byte>, at: nat, i: nat, offset: nat, length: nat,
                      ghost before: seq<byte>, ghost done: seq<byte>) returns (n: nat)
    requires 1 <= offset < 0x1_0000 && 4 <= length <= 64
    requires |before| == dst.Length && at + i + |Wire(LastCopy(offset, length))| <= dst.Length
    requires dst[..at + i] == before[..at] + done && dst[at + i..] == before[at + i..]
    modifies dst
    ensures n == i + |Wire(LastCopy(offset, length))|
    ensures dst[..at + n] == before[..at] + (done + Wire(LastCopy(offset, length)))
    ensures dst[at + n..] == before[at + n..]
  {
    if length >= 12 || offset >= 2048 {
      assert dst[at + i..][3..] == before[at + i..][3..];
      EmitCopy2(dst, at + i, offset, length);
      n := i + 3;
    } else {
      assert dst[at + i..][2..] == before[at + i..][2..];
      EmitCopy1(dst, at + i, offset, length);
      n := i + 2;
    }
  }
}
