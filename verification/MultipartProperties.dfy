/**
 When the in-place merge is sound, exactly, and reading the multipart format back.
*/
module MultipartProperties {
  import opened Bytes
  import opened Multipart

  // ----- an overrun spoils some data

  /** Blocks of the given sizes, all ones in number i and zeros in the others. */
  function Marked(sizes: seq<nat>, i: nat): (r: seq<seq<byte>>)
    ensures Sizes(r) == sizes
    ensures forall k, x :: 0 <= k < |r| && 0 <= x < |r[k]| ==> r[k][x] == if k == i then 1 else 0
  {
    var r: seq<seq<byte>> := seq(|sizes|, k requires 0 <= k < |sizes| => seq(sizes[k], _ => if k == i then 1 else 0));
    assert Sizes(r) == sizes;
    r
  }

  lemma {:induction false} ConcatAt(blocks: seq<seq<byte>>, k: nat)
    requires k < |blocks| && |blocks[k]| >= 1
    ensures |Concat(blocks[..k])| < |Concat(blocks)| && Concat(blocks)[|Concat(blocks[..k])|] == blocks[k][0]
    decreases |blocks|
  {
    var n := |blocks| - 1;
    if k < n {
      ConcatAt(blocks[..n], k);
      assert blocks[..n][..k] == blocks[..k];
    }
  }

  lemma {:induction false} FirstOverrun(blockSize: nat, sizes: seq<nat>, n: nat) returns (i: nat)
    requires n < |sizes| && !(forall k :: 0 <= k < n ==> Ends(sizes, k) <= Offset(blockSize, k + 1))
    ensures i < n && Ends(sizes, i) > Offset(blockSize, i + 1)
    ensures forall k :: 0 <= k < i ==> Ends(sizes, k) <= Offset(blockSize, k + 1)
  {
    if forall k :: 0 <= k < n - 1 ==> Ends(sizes, k) <= Offset(blockSize, k + 1) {
      i := n - 1;
    } else {
      i := FirstOverrun(blockSize, sizes, n - 1);
    }
  }

  lemma MergeUnfold(out: seq<byte>, blockSize: nat, sizes: seq<nat>, i: nat, dst: nat)
    requires i < |sizes| && MergeFits(|out|, blockSize, sizes, i, dst)
    ensures dst + sizes[i] <= |out| && Offset(blockSize, i) + sizes[i] <= |out|
    ensures MergeFits(|out|, blockSize, sizes, i + 1, dst + sizes[i])
    ensures var src := Offset(blockSize, i);
            MergeFrom(out, blockSize, sizes, i, dst) ==
            MergeFrom(Put(out, dst, out[src..src + sizes[i]]), blockSize, sizes, i + 1, dst + sizes[i])
  {
  }

  lemma MergeDone(out: seq<byte>, blockSize: nat, sizes: seq<nat>, dst: nat)
    requires MergeFits(|out|, blockSize, sizes, |sizes|, dst)
    ensures MergeFrom(out, blockSize, sizes, |sizes|, dst) == out
  {
  }

  lemma PutAt(out: seq<byte>, at: nat, data: seq<byte>, x: nat)
    requires at + |data| <= |out| && at <= x < at + |data|
    ensures Put(out, at, data)[x] == data[x - at]
  {
  }

  /** The byte after a spoiling block comes from that block. */
  lemma SpoiledByte(out: seq<byte>, blockSize: nat, blocks: seq<seq<byte>>, i: nat, dst: nat)
    requires i + 1 < |blocks| && InPlace(out, blockSize, blocks, i) && |blocks[i + 1]| >= 1
    requires MergeFits(|out|, blockSize, Sizes(blocks), i, dst)
    requires dst <= Offset(blockSize, i + 1) < dst + |blocks[i]|
    requires forall x :: 0 <= x < |blocks[i]| ==> blocks[i][x] == 1
    ensures dst + |blocks[i]| < |out|
    ensures MergeFrom(out, blockSize, Sizes(blocks), i, dst)[dst + |blocks[i]|] == 1
  {
    hide InPlace, Put, MergeFrom, MergeFits, Offset;
    var sizes, src, end := Sizes(blocks), Offset(blockSize, i + 1), dst + |blocks[i]|;
    BlockInPlace(out, blockSize, blocks, i, i);
    MergeUnfold(out, blockSize, sizes, i, dst);
    var next := Put(out, dst, blocks[i]);
    PutAt(out, dst, blocks[i], src);
    MergeUnfold(next, blockSize, sizes, i + 1, end);
    var moved := next[src..src + sizes[i + 1]];
    var after := Put(next, end, moved);
    PutAt(next, end, moved, end);
    MergeKeepsBelow(after, blockSize, sizes, i + 2, end + sizes[i + 1]);
  }

  lemma {:induction false} SpoilFrom(out: seq<byte>, blockSize: nat, blocks: seq<seq<byte>>, j: nat, i: nat)
    requires j <= i && i + 1 < |blocks| && InPlace(out, blockSize, blocks, j) && |blocks[i + 1]| >= 1
    requires MergeFits(|out|, blockSize, Sizes(blocks), j, TableSize(|blocks|) + |Concat(blocks[..j])|)
    requires forall k :: j <= k < i ==> Ends(Sizes(blocks), k) <= Offset(blockSize, k + 1)
    requires TableSize(|blocks|) + |Concat(blocks[..i])| <= Offset(blockSize, i + 1) < Ends(Sizes(blocks), i)
    requires forall x :: 0 <= x < |blocks[i]| ==> blocks[i][x] == 1
    ensures Ends(Sizes(blocks), i) < |out|
    ensures MergeFrom(out, blockSize, Sizes(blocks), j, TableSize(|blocks|) + |Concat(blocks[..j])|)[Ends(Sizes(blocks), i)] == 1
    decreases i - j
  {
    hide InPlace, Offset, Put, MergeFrom, MergeFits, Concat, Sum;
    var dst := TableSize(|blocks|) + |Concat(blocks[..j])|;
    SumIsConcat(blocks, j + 1);
    ConcatNext(blocks, j);
    BlockInPlace(out, blockSize, blocks, j, j);
    MergeUnfold(out, blockSize, Sizes(blocks), j, dst);
    if j == i {
      SpoiledByte(out, blockSize, blocks, i, dst);
    } else {
      assert Ends(Sizes(blocks), j) <= Offset(blockSize, j + 1);
      MoveKeepsPlaces(out, blockSize, blocks, j, dst);
      SpoilFrom(Put(out, dst, blocks[j]), blockSize, blocks, j + 1, i);
    }
  }

  /** The shape of sizes that reach the merge: the table fits the first block's place. */
  predicate SizesFit(len: nat, blockSize: nat, sizes: seq<nat>) {
    && sizes != [] && TableSize(|sizes|) <= blockSize
    && (forall k :: 0 <= k < |sizes| ==> 1 <= sizes[k] <= blockSize && Offset(blockSize, k) + sizes[k] <= len)
    && TableSize(|sizes|) + Sum(sizes) <= len
  }

  lemma OverrunSpoils(out: seq<byte>, blockSize: nat, sizes: seq<nat>) returns (blocks: seq<seq<byte>>)
    requires SizesFit(|out|, blockSize, sizes) && !NoOverrun(blockSize, sizes)
    ensures Sizes(blocks) == sizes && Merged(out, blockSize, blocks) != Format(blocks)
  {
    hide InPlace, Offset, Put, Placed, Table, MergeFrom, MergeFits, Merged, Concat, Marked, All;
    var i := FirstOverrun(blockSize, sizes, |sizes| - 1);
    blocks := Marked(sizes, i);
    var placed, n := Placed(out, blockSize, blocks, All(|blocks|)), TableSize(|blocks|);
    MergedSteps(out, blockSize, blocks);
    SumIsConcat(blocks, 0);
    assert sizes[..0] == [] && blocks[..0] == [];
    DestinationBefore(blockSize, blocks, i);
    assert |blocks[i + 1]| >= 1 && blocks[i + 1][0] == 0;
    SpoilFrom(placed, blockSize, blocks, 0, i);
    var merged := MergeFrom(placed, blockSize, sizes, 0, n);
    SpoiledFormat(merged, blocks, i);
  }

  /** With a one where block i + 1 starts, all zeros, the result is not the format. */
  lemma SpoiledFormat(merged: seq<byte>, blocks: seq<seq<byte>>, i: nat)
    requires i + 1 < |blocks| && |blocks[i + 1]| >= 1 && blocks[i + 1][0] == 0
    requires TableSize(|blocks|) + |Concat(blocks)| <= |merged|
    requires Ends(Sizes(blocks), i) < |merged| && merged[Ends(Sizes(blocks), i)] == 1
    ensures Put(merged, 0, Table(Sizes(blocks)))[..TableSize(|blocks|) + |Concat(blocks)|] != Format(blocks)
  {
    hide Table, Concat;
    var end, n := Ends(Sizes(blocks), i), TableSize(|blocks|);
    SumIsConcat(blocks, i + 1);
    ConcatAt(blocks, i + 1);
    assert Format(blocks)[end] == Concat(blocks)[end - n];
    assert Put(merged, 0, Table(Sizes(blocks)))[end] == merged[end];
  }

  lemma DestinationBefore(blockSize: nat, blocks: seq<seq<byte>>, i: nat)
    requires i + 1 < |blocks| && TableSize(|blocks|) <= blockSize
    requires forall k :: 0 <= k < i ==> Ends(Sizes(blocks), k) <= Offset(blockSize, k + 1)
    ensures TableSize(|blocks|) + |Concat(blocks[..i])| <= Offset(blockSize, i + 1)
  {
    if i == 0 {
      assert blocks[..0] == [];
    } else {
      SumIsConcat(blocks, i);
      assert Ends(Sizes(blocks), i - 1) <= Offset(blockSize, i);
    }
  }

  /**
   The merge is sound for all per-block results of given sizes exactly when every block but
   the last ends, after the merge, no later than the next one starts before it.
  */
  lemma MergeSoundIff(out: seq<byte>, blockSize: nat, sizes: seq<nat>)
    requires SizesFit(|out|, blockSize, sizes)
    ensures NoOverrun(blockSize, sizes) <==>
            forall blocks :: Sizes(blocks) == sizes ==> Merged(out, blockSize, blocks) == Format(blocks)
  {
    hide NoOverrun, Merged;
    if NoOverrun(blockSize, sizes) {
      forall blocks | Sizes(blocks) == sizes ensures Merged(out, blockSize, blocks) == Format(blocks) {
        NoOverrunMerges(out, blockSize, blocks);
      }
    } else {
      var blocks := OverrunSpoils(out, blockSize, sizes);
    }
  }

  /** A first block that leaves room for the table is enough. */
  lemma RoomInFirstBlock(blockSize: nat, sizes: seq<nat>)
    requires sizes != [] && forall k :: 0 <= k < |sizes| ==> sizes[k] <= blockSize
    requires sizes[0] + TableSize(|sizes|) <= blockSize
    ensures NoOverrun(blockSize, sizes)
  {
    forall i | 0 <= i < |sizes| - 1 ensures Ends(sizes, i) <= Offset(blockSize, i + 1) {
      SumWithinBlocks(blockSize, sizes, i);
    }
  }

  lemma {:induction false} SumWithinBlocks(blockSize: nat, sizes: seq<nat>, i: nat)
    requires i < |sizes| && forall k :: 0 <= k < |sizes| ==> sizes[k] <= blockSize
    requires sizes[0] + TableSize(|sizes|) <= blockSize
    ensures TableSize(|sizes|) + Sum(sizes[..i + 1]) <= Offset(blockSize, i + 1)
  {
    SumNext(sizes, i);
    if i > 0 {
      SumWithinBlocks(blockSize, sizes, i - 1);
    }
  }

  lemma TwoBlocks(a: seq<byte>, b: seq<byte>)
    ensures Concat([a, b]) == a + b && Sum(Sizes([a, b])) == |a| + |b|
  {
    var blocks := [a, b];
    assert blocks[..1] == [a] && [a][..0] == [];
    assert Concat([a]) == [] + a == a;
    SumIsConcat(blocks, 2);
    assert blocks[..2] == blocks && Sizes(blocks)[..2] == Sizes(blocks);
  }

  /** The last bytes of `a`, as many as it overruns by, take the place of the first of `b`. */
  function Overwritten(blockSize: nat, a: seq<byte>, b: seq<byte>): (r: seq<byte>)
    requires blockSize < TableSize(2) + |a| <= blockSize + |b| && TableSize(2) <= blockSize
    ensures |r| == |b|
  {
    var overrun := TableSize(2) + |a| - blockSize;
    a[|a| - overrun..] + b[overrun..]
  }

  /** What the merge makes of two blocks when the first overruns a part of the second. */
  lemma OverrunOfTwo(out: seq<byte>, blockSize: nat, a: seq<byte>, b: seq<byte>)
    requires 1 <= |a| <= blockSize && 1 <= |b| <= blockSize && TableSize(2) <= blockSize
    requires blockSize + |b| <= |out| && TableSize(2) + |a| + |b| <= |out|
    requires blockSize < TableSize(2) + |a| <= blockSize + |b|
    ensures Sum(Sizes([a, b])) == |a| + |b| && Offset(blockSize, 0) == 0 && Offset(blockSize, 1) == blockSize
    ensures Merged(out, blockSize, [a, b]) == Format([a, Overwritten(blockSize, a, b)])
  {
    hide InPlace, Placed, Table, Put, MergeFrom, MergeFits, Merged, Concat, All, Overwritten, Sum;
    var blocks, n := [a, b], TableSize(2);
    var sizes, c := Sizes(blocks), Overwritten(blockSize, a, b);
    TwoBlocks(a, b);
    TwoBlocks(a, c);
    assert Offset(blockSize, 1) == Offset(blockSize, 0) + blockSize;
    assert sizes == [|a|, |b|];
    MergedSteps(out, blockSize, blocks);
    var placed := Placed(out, blockSize, blocks, All(2));
    BlockInPlace(placed, blockSize, blocks, 0, 0);
    BlockInPlace(placed, blockSize, blocks, 0, 1);
    MergeUnfold(placed, blockSize, sizes, 0, n);
    var next := Put(placed, n, a);
    MergeUnfold(next, blockSize, sizes, 1, n + |a|);
    MovedOver(placed, blockSize, a, b);
    var after := Put(next, n + |a|, c);
    MergeDone(after, blockSize, sizes, n + |a| + |b|);
    TwoPut(placed, n, a, c);
    FinishSplits(after, Table(sizes), a + c);
    assert Sizes([a, c]) == sizes;
  }

  /** What stands in the second place once the first block has moved. */
  lemma MovedOver(placed: seq<byte>, blockSize: nat, a: seq<byte>, b: seq<byte>)
    requires blockSize + |b| <= |placed| && placed[blockSize..blockSize + |b|] == b
    requires blockSize < TableSize(2) + |a| <= blockSize + |b| && TableSize(2) <= blockSize
    ensures Put(placed, TableSize(2), a)[blockSize..blockSize + |b|] == Overwritten(blockSize, a, b)
  {
    var r, end, c := Put(placed, TableSize(2), a), TableSize(2) + |a|, Overwritten(blockSize, a, b);
    var at := blockSize - TableSize(2);
    forall x | 0 <= x < |b| ensures r[blockSize + x] == c[x] {
      if blockSize + x < end {
        assert r[blockSize + x] == a[at + x];
      } else {
        assert r[blockSize + x] == placed[blockSize + x] == placed[blockSize..blockSize + |b|][x];
      }
    }
  }

  lemma TwoPut(out: seq<byte>, at: nat, a: seq<byte>, b: seq<byte>)
    requires at + |a| + |b| <= |out|
    ensures Put(Put(out, at, a), at + |a|, b)[at..at + |a + b|] == a + b
  {
  }

  // ----- reading back

  /** The sizes of a table that starts at `pos`, and where it ends. */
  function ReadTable(src: seq<byte>, pos: nat): (r: (seq<nat>, nat))
    requires pos <= |src|
    ensures pos <= r.1 <= |src|
    decreases |src| - pos
  {
    if pos + 4 >= |src| then ([], pos)
    else
      var size := LE(src[pos..pos + 4]);
      if size == 0 then ([], pos + 4)
      else
        var (rest, end) := ReadTable(src, pos + 4);
        ([size] + rest, end)
  }

  /** The blocks of those sizes from `pos` on; None when one goes past the end. */
  function ReadBlocks(src: seq<byte>, pos: nat, sizes: seq<nat>): Option<seq<seq<byte>>>
    requires pos <= |src|
    decreases |sizes|
  {
    if sizes == [] || pos == |src| then Some([])
    else if pos + sizes[0] > |src| then None
    else
      match ReadBlocks(src, pos + sizes[0], sizes[1..])
      case None => None
      case Some(rest) => Some([src[pos..pos + sizes[0]]] + rest)
  }

  /** Panics stands for slicing past the end of the input. */
  datatype Unpacked = Nothing | Data(bytes: seq<byte>) | Panics

  function Unpack(src: seq<byte>, decode: Codec): Unpacked {
    var (sizes, pos) := ReadTable(src, 0);
    if sizes == [] then Nothing
    else
      match ReadBlocks(src, pos, sizes)
      case None => Panics
      case Some(blocks) => Data(Concat(Compressed(decode, blocks)))
  }

  lemma {:induction false} ReadTableBack(src: seq<byte>, pos: nat, sizes: seq<nat>)
    requires pos + TableSize(|sizes|) < |src| && src[pos..pos + TableSize(|sizes|)] == Table(sizes)
    requires forall k :: 0 <= k < |sizes| ==> 1 <= sizes[k] < 0x1_0000_0000
    ensures ReadTable(src, pos) == (sizes, pos + TableSize(|sizes|))
    decreases |sizes|
  {
    Pow256Values();
    var t := Table(sizes);
    assert src[pos..pos + 4] == src[pos..pos + TableSize(|sizes|)][..4] == t[..4];
    if sizes == [] {
      LEToLE(0, 4);
      assert t[..4] == t;
    } else {
      LEToLE(sizes[0], 4);
      assert t[..4] == ToLE(sizes[0], 4) && t[4..] == Table(sizes[1..]);
      assert src[pos + 4..pos + TableSize(|sizes|)] == src[pos..pos + TableSize(|sizes|)][4..];
      ReadTableBack(src, pos + 4, sizes[1..]);
      assert sizes == [sizes[0]] + sizes[1..];
    }
  }

  lemma {:induction false} ReadBlocksBack(src: seq<byte>, pos: nat, blocks: seq<seq<byte>>, junk: seq<byte>)
    requires pos <= |src| && src[pos..] == Concat(blocks) + junk && forall k :: 0 <= k < |blocks| ==> |blocks[k]| >= 1
    ensures ReadBlocks(src, pos, Sizes(blocks)) == Some(blocks)
    decreases |blocks|
  {
    hide Concat;
    if blocks != [] {
      var first, rest := blocks[0], blocks[1..];
      assert blocks == [first] + rest;
      ConcatCons(first, rest);
      Associative(first, Concat(rest), junk);
      assert src[pos..][..|first|] == first && src[pos..pos + |first|] == src[pos..][..|first|];
      assert src[pos + |first|..] == src[pos..][|first|..] == Concat(rest) + junk;
      assert Sizes(blocks)[1..] == Sizes(rest);
      ReadBlocksBack(src, pos + |first|, rest, junk);
    }
  }

  /** The format can be read back: its blocks are those it was made from. */
  lemma UnpackFormat(blocks: seq<seq<byte>>, decode: Codec)
    requires blocks != [] && forall k :: 0 <= k < |blocks| ==> 1 <= |blocks[k]| < 0x1_0000_0000
    ensures Unpack(Format(blocks), decode) == Data(Concat(Compressed(decode, blocks)))
  {
    hide ReadTable, ReadBlocks, Table, Concat;
    var src, n := Format(blocks), TableSize(|blocks|);
    ConcatAt(blocks, 0);
    assert blocks[..0] == [];
    assert |src| > n;
    assert src[0..n] == Table(Sizes(blocks));
    ReadTableBack(src, 0, Sizes(blocks));
    assert src[n..] == Concat(blocks);
    assert Concat(blocks) + [] == Concat(blocks);
    ReadBlocksBack(src, n, blocks, []);
  }

  /** What follows the last block does not matter. */
  lemma UnpackTrailing(blocks: seq<seq<byte>>, junk: seq<byte>, decode: Codec)
    requires blocks != [] && forall k :: 0 <= k < |blocks| ==> 1 <= |blocks[k]| < 0x1_0000_0000
    ensures Unpack(Format(blocks) + junk, decode) == Data(Concat(Compressed(decode, blocks)))
  {
    hide ReadTable, ReadBlocks, Table, Concat;
    var src, n := Format(blocks) + junk, TableSize(|blocks|);
    ConcatAt(blocks, 0);
    assert blocks[..0] == [];
    assert |src| > n;
    assert src[0..n] == Table(Sizes(blocks));
    ReadTableBack(src, 0, Sizes(blocks));
    assert src[n..] == Concat(blocks) + junk;
    ReadBlocksBack(src, n, blocks, junk);
  }

  /** Without sizes there is nothing, and a block cut short is a panic. */
  lemma UnpackBad(sizes: seq<nat>, body: seq<byte>, decode: Codec)
    requires body != [] && forall k :: 0 <= k < |sizes| ==> 1 <= sizes[k] < 0x1_0000_0000
    ensures sizes == [] ==> Unpack(Table(sizes) + body, decode) == Nothing
    ensures sizes != [] && sizes[0] > |body| ==> Unpack(Table(sizes) + body, decode) == Panics
  {
    hide Table, ReadTable;
    var src, n := Table(sizes) + body, TableSize(|sizes|);
    assert src[0..n] == Table(sizes);
    ReadTableBack(src, 0, sizes);
  }

  /** On pieces of up to a block, `decode` undoes `encode`, which never returns nothing or 4 GB. */
  ghost predicate Inverse(encode: Codec, decode: Codec, blockSize: nat) {
    forall b {:trigger encode(b)} :: |b| <= blockSize ==>
      decode(encode(b)) == b && 1 <= |encode(b)| < 0x1_0000_0000
  }

  /** Reading back what the pieces of some data were compressed to gives the data. */
  lemma UnpackCompressed(data: seq<byte>, blockSize: nat, encode: Codec, decode: Codec)
    requires blockSize > 0 && data != [] && Inverse(encode, decode, blockSize)
    ensures Unpack(Format(Compressed(encode, Split(data, blockSize))), decode) == Data(data)
  {
    hide Unpack, Format, Concat;
    var pieces := Split(data, blockSize);
    var blocks := Compressed(encode, pieces);
    UnpackFormat(blocks, decode);
    assert Compressed(decode, blocks) == pieces;
    ConcatSplit(data, blockSize);
  }
}
