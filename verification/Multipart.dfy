/**
 The multipart format and the in-place merge that builds it: pieces compressed side by
 side in one buffer, moved together behind a table of their sizes.
*/
module Multipart {
  import opened Bytes

  type Codec = seq<byte> -> seq<byte>

  // ----- the format

  function Concat(blocks: seq<seq<byte>>): seq<byte> {
    if blocks == [] then [] else Concat(blocks[..|blocks| - 1]) + blocks[|blocks| - 1]
  }

  function Sizes(blocks: seq<seq<byte>>): (r: seq<nat>)
    ensures |r| == |blocks| && forall i :: 0 <= i < |blocks| ==> r[i] == |blocks[i]|
  {
    seq(|blocks|, i requires 0 <= i < |blocks| => |blocks[i]|)
  }

  function Sum(sizes: seq<nat>): nat {
    if sizes == [] then 0 else Sum(sizes[..|sizes| - 1]) + sizes[|sizes| - 1]
  }

  /** The sizes as 32-bit words and a zero after them. */
  function Table(sizes: seq<nat>): (r: seq<byte>)
    ensures |r| == TableSize(|sizes|)
  {
    if sizes == [] then ToLE(0, 4) else ToLE(sizes[0], 4) + Table(sizes[1..])
  }

  function TableSize(n: nat): nat {
    4 * (n + 1)
  }

  function Format(blocks: seq<seq<byte>>): seq<byte> {
    Table(Sizes(blocks)) + Concat(blocks)
  }

  // ----- pieces

  /** The input cut into pieces of `blockSize` bytes, the last one possibly shorter. */
  function Split(data: seq<byte>, blockSize: nat): (r: seq<seq<byte>>)
    requires blockSize > 0
    ensures data != [] ==> r != []
    ensures forall i :: 0 <= i < |r| ==> 1 <= |r[i]| <= blockSize
    ensures forall i :: 0 <= i < |r| - 1 ==> |r[i]| == blockSize
    decreases |data|
  {
    if data == [] then []
    else if |data| <= blockSize then [data]
    else [data[..blockSize]] + Split(data[blockSize..], blockSize)
  }

  lemma ConcatNone()
    ensures Concat([]) == []
  {
  }

  lemma ConcatOne(block: seq<byte>)
    ensures Concat([block]) == block
  {
    assert [block][..0] == [];
    assert [] + block == block;
  }

  lemma ConcatNext(blocks: seq<seq<byte>>, i: nat)
    requires i < |blocks|
    ensures Concat(blocks[..i + 1]) == Concat(blocks[..i]) + blocks[i]
  {
    assert blocks[..i + 1][..i] == blocks[..i];
  }

  lemma {:induction false} ConcatCons(first: seq<byte>, rest: seq<seq<byte>>)
    ensures Concat([first] + rest) == first + Concat(rest)
  {
    hide Concat;
    var all, n := [first] + rest, |rest|;
    if rest == [] {
      ConcatNone();
      ConcatOne(first);
      assert all == [first] && first + [] == first;
    } else {
      ConcatCons(first, rest[..n - 1]);
      ConcatNext(all, n);
      ConcatNext(rest, n - 1);
      assert all[..n + 1] == all && all[..n] == [first] + rest[..n - 1] && rest[..n] == rest;
      Associative(first, Concat(rest[..n - 1]), rest[n - 1]);
    }
  }

  lemma {:induction false} ConcatSplit(data: seq<byte>, blockSize: nat)
    requires blockSize > 0
    ensures Concat(Split(data, blockSize)) == data
    decreases |data|
  {
    hide Concat;
    if data == [] {
      ConcatNone();
    } else {
      if |data| <= blockSize {
        ConcatOne(data);
      } else {
        ConcatSplit(data[blockSize..], blockSize);
        ConcatCons(data[..blockSize], Split(data[blockSize..], blockSize));
      }
    }
  }

  /** The per-piece results, in order. */
  function Compressed(codec: Codec, pieces: seq<seq<byte>>): (r: seq<seq<byte>>)
    ensures |r| == |pieces| && forall i :: 0 <= i < |pieces| ==> r[i] == codec(pieces[i])
  {
    seq(|pieces|, i requires 0 <= i < |pieces| => codec(pieces[i]))
  }

  // ----- places in the buffer

  /** Where piece i starts. */
  function Offset(blockSize: nat, i: nat): nat {
    if i == 0 then 0 else Offset(blockSize, i - 1) + blockSize
  }

  /** Which piece a position belongs to. */
  function Index(blockSize: nat, x: nat): nat
    requires blockSize > 0
  {
    if x < blockSize then 0 else 1 + Index(blockSize, x - blockSize)
  }

  lemma {:induction false} OffsetIndex(blockSize: nat, i: nat, x: nat)
    requires blockSize > 0
    ensures Offset(blockSize, i) <= x < Offset(blockSize, i) + blockSize <==> Index(blockSize, x) == i
    decreases x
  {
    if x < blockSize {
      if i > 0 { OffsetAtLeast(blockSize, i); }
    } else {
      OffsetShift(blockSize, i);
      if i > 0 { OffsetIndex(blockSize, i - 1, x - blockSize); }
    }
  }

  lemma {:induction false} OffsetAtLeast(blockSize: nat, i: nat)
    requires i > 0
    ensures Offset(blockSize, i) >= blockSize
  {
    if i > 1 { OffsetAtLeast(blockSize, i - 1); }
  }

  lemma OffsetShift(blockSize: nat, i: nat)
    ensures i > 0 ==> Offset(blockSize, i) == Offset(blockSize, i - 1) + blockSize
  {
  }

  lemma {:induction false} OffsetMonotone(blockSize: nat, i: nat, j: nat)
    requires i <= j
    ensures Offset(blockSize, i) <= Offset(blockSize, j)
    ensures i < j ==> Offset(blockSize, i) + blockSize <= Offset(blockSize, j)
    decreases j - i
  {
    if i < j { OffsetMonotone(blockSize, i, j - 1); }
  }

  /** The byte at x once the blocks of the pieces in `done` have been written over `out`. */
  function PlacedAt(out: seq<byte>, blockSize: nat, blocks: seq<seq<byte>>, done: set<nat>, x: nat): byte
    requires blockSize > 0 && x < |out|
  {
    var k := Index(blockSize, x);
    if k in done && k < |blocks| && Offset(blockSize, k) <= x < Offset(blockSize, k) + |blocks[k]|
    then blocks[k][x - Offset(blockSize, k)] else out[x]
  }

  /** The buffer once those pieces are finished, in whatever order they were. */
  function Placed(out: seq<byte>, blockSize: nat, blocks: seq<seq<byte>>, done: set<nat>): (r: seq<byte>)
    requires blockSize > 0
    ensures |r| == |out|
  {
    seq(|out|, x requires 0 <= x < |out| => PlacedAt(out, blockSize, blocks, done, x))
  }

  /** Overwrites out[at..] with `data`. */
  function Put(out: seq<byte>, at: nat, data: seq<byte>): (r: seq<byte>)
    requires at + |data| <= |out|
    ensures |r| == |out|
  {
    out[..at] + data + out[at + |data|..]
  }

  lemma PlacedNext(out: seq<byte>, blockSize: nat, blocks: seq<seq<byte>>, done: set<nat>, k: nat)
    requires blockSize > 0 && k < |blocks| && k !in done && |blocks[k]| <= blockSize
    requires Offset(blockSize, k) + |blocks[k]| <= |out|
    ensures Put(Placed(out, blockSize, blocks, done), Offset(blockSize, k), blocks[k]) ==
            Placed(out, blockSize, blocks, done + {k})
  {
    var a, b := Placed(out, blockSize, blocks, done), Placed(out, blockSize, blocks, done + {k});
    var r := Put(a, Offset(blockSize, k), blocks[k]);
    forall x | 0 <= x < |out| ensures r[x] == b[x] {
      OffsetIndex(blockSize, k, x);
    }
  }

  lemma PlacedBlock(out: seq<byte>, blockSize: nat, blocks: seq<seq<byte>>, done: set<nat>, k: nat)
    requires blockSize > 0 && k < |blocks| && k in done && |blocks[k]| <= blockSize
    requires Offset(blockSize, k) + |blocks[k]| <= |out|
    ensures Placed(out, blockSize, blocks, done)[Offset(blockSize, k)..Offset(blockSize, k) + |blocks[k]|] == blocks[k]
  {
    var r := Placed(out, blockSize, blocks, done);
    forall i | 0 <= i < |blocks[k]| ensures r[Offset(blockSize, k) + i] == blocks[k][i] {
      OffsetIndex(blockSize, k, Offset(blockSize, k) + i);
    }
  }

  // ----- the merge

  /** Moves the blocks i, i + 1, ... down to `dst`, one after the other, each read when its turn comes. */
  function MergeFrom(out: seq<byte>, blockSize: nat, sizes: seq<nat>, i: nat, dst: nat): (r: seq<byte>)
    requires i <= |sizes| && MergeFits(|out|, blockSize, sizes, i, dst)
    ensures |r| == |out|
    decreases |sizes| - i
  {
    if i == |sizes| then out
    else
      var src := Offset(blockSize, i);
      MergeFrom(Put(out, dst, out[src..src + sizes[i]]), blockSize, sizes, i + 1, dst + sizes[i])
  }

  /** Every block from i on is inside the buffer, and so is every place it is moved to. */
  predicate MergeFits(len: nat, blockSize: nat, sizes: seq<nat>, i: nat, dst: nat)
    requires i <= |sizes|
    decreases |sizes| - i
  {
    i < |sizes| ==>
      && dst + sizes[i] <= len && Offset(blockSize, i) + sizes[i] <= len
      && MergeFits(len, blockSize, sizes, i + 1, dst + sizes[i])
  }

  lemma {:induction false} FitsBySum(len: nat, blockSize: nat, sizes: seq<nat>, i: nat)
    requires i <= |sizes| && TableSize(|sizes|) + Sum(sizes) <= len
    requires forall k :: 0 <= k < |sizes| ==> Offset(blockSize, k) + sizes[k] <= len
    ensures MergeFits(len, blockSize, sizes, i, TableSize(|sizes|) + Sum(sizes[..i]))
    decreases |sizes| - i
  {
    hide Sum, Offset;
    if i < |sizes| {
      SumNext(sizes, i);
      SumPrefix(sizes, i + 1);
      FitsBySum(len, blockSize, sizes, i + 1);
    }
  }

  lemma SumNext(sizes: seq<nat>, i: nat)
    requires i < |sizes|
    ensures Sum(sizes[..i + 1]) == Sum(sizes[..i]) + sizes[i]
  {
    assert sizes[..i + 1][..i] == sizes[..i];
  }

  lemma {:induction false} SumPrefix(sizes: seq<nat>, i: nat)
    requires i <= |sizes|
    ensures Sum(sizes[..i]) <= Sum(sizes)
    decreases |sizes|
  {
    if i < |sizes| {
      SumPrefix(sizes[..|sizes| - 1], i);
      assert sizes[..|sizes| - 1][..i] == sizes[..i];
    } else {
      assert sizes[..i] == sizes;
    }
  }

  /** The whole merge: blocks first, then the table in front. */
  function Finish(out: seq<byte>, blockSize: nat, sizes: seq<nat>): (r: seq<byte>)
    requires TableSize(|sizes|) + Sum(sizes) <= |out|
    requires forall k :: 0 <= k < |sizes| ==> Offset(blockSize, k) + sizes[k] <= |out|
    ensures |r| == |out|
  {
    FitsBySum(|out|, blockSize, sizes, 0);
    assert sizes[..0] == [];
    Put(MergeFrom(out, blockSize, sizes, 0, TableSize(|sizes|)), 0, Table(sizes))
  }

  /** Each block but the last ends up before the next one's place. */
  predicate NoOverrun(blockSize: nat, sizes: seq<nat>) {
    forall i :: 0 <= i < |sizes| - 1 ==> Ends(sizes, i) <= Offset(blockSize, i + 1)
  }

  /** Where block i ends after the merge. */
  function Ends(sizes: seq<nat>, i: nat): nat
    requires i < |sizes|
  {
    TableSize(|sizes|) + Sum(sizes[..i + 1])
  }

  /** The blocks from i on are in their places. */
  ghost predicate InPlace(out: seq<byte>, blockSize: nat, blocks: seq<seq<byte>>, i: nat) {
    forall k :: i <= k < |blocks| ==>
      && Offset(blockSize, k) + |blocks[k]| <= |out|
      && out[Offset(blockSize, k)..Offset(blockSize, k) + |blocks[k]|] == blocks[k]
  }

  lemma MoveKeepsPlaces(out: seq<byte>, blockSize: nat, blocks: seq<seq<byte>>, i: nat, dst: nat)
    requires i < |blocks| && InPlace(out, blockSize, blocks, i) && dst + |blocks[i]| <= |out|
    requires i + 1 < |blocks| ==> dst + |blocks[i]| <= Offset(blockSize, i + 1)
    ensures InPlace(Put(out, dst, blocks[i]), blockSize, blocks, i + 1)
  {
    var r := Put(out, dst, blocks[i]);
    forall k | i + 1 <= k < |blocks|
      ensures r[Offset(blockSize, k)..Offset(blockSize, k) + |blocks[k]|] == blocks[k]
    {
      OffsetMonotone(blockSize, i + 1, k);
      assert forall x :: Offset(blockSize, k) <= x < |out| ==> r[x] == out[x];
    }
  }

  lemma {:induction false} MergeKeepsBelow(out: seq<byte>, blockSize: nat, sizes: seq<nat>, i: nat, dst: nat)
    requires i <= |sizes| && MergeFits(|out|, blockSize, sizes, i, dst)
    ensures forall x :: 0 <= x < dst && x < |out| ==> MergeFrom(out, blockSize, sizes, i, dst)[x] == out[x]
    decreases |sizes| - i
  {
    if i < |sizes| {
      var src := Offset(blockSize, i);
      MergeKeepsBelow(Put(out, dst, out[src..src + sizes[i]]), blockSize, sizes, i + 1, dst + sizes[i]);
    }
  }

  lemma SumIsConcat(blocks: seq<seq<byte>>, i: nat)
    requires i <= |blocks|
    ensures Sum(Sizes(blocks)[..i]) == |Concat(blocks[..i])|
  {
    if i > 0 {
      SumIsConcat(blocks, i - 1);
      assert Sizes(blocks)[..i][..i - 1] == Sizes(blocks)[..i - 1];
      assert blocks[..i][..i - 1] == blocks[..i - 1];
    }
  }

  /** The first i blocks are together behind the table's place. */
  ghost predicate Gathered(out: seq<byte>, blocks: seq<seq<byte>>, i: nat)
    requires i <= |blocks|
  {
    var start, end := TableSize(|blocks|), TableSize(|blocks|) + |Concat(blocks[..i])|;
    end <= |out| && out[start..end] == Concat(blocks[..i])
  }

  lemma GatherNext(out: seq<byte>, blocks: seq<seq<byte>>, i: nat)
    requires i < |blocks| && Gathered(out, blocks, i)
    requires TableSize(|blocks|) + |Concat(blocks[..i])| + |blocks[i]| <= |out|
    ensures Gathered(Put(out, TableSize(|blocks|) + |Concat(blocks[..i])|, blocks[i]), blocks, i + 1)
    ensures |Concat(blocks[..i + 1])| == |Concat(blocks[..i])| + |blocks[i]|
  {
    var start, dst := TableSize(|blocks|), TableSize(|blocks|) + |Concat(blocks[..i])|;
    var next := Put(out, dst, blocks[i]);
    assert blocks[..i + 1][..i] == blocks[..i];
    assert next[start..dst] == out[start..dst];
    assert next[start..dst + |blocks[i]|] == next[start..dst] + next[dst..dst + |blocks[i]|];
  }

  /** With no overrun up to block n, the blocks before it end up together, and the rest in place. */
  lemma {:induction false} MergeGathers(out: seq<byte>, blockSize: nat, blocks: seq<seq<byte>>, i: nat)
    requires i <= |blocks| && InPlace(out, blockSize, blocks, i) && NoOverrun(blockSize, Sizes(blocks))
    requires Gathered(out, blocks, i)
    requires MergeFits(|out|, blockSize, Sizes(blocks), i, TableSize(|blocks|) + |Concat(blocks[..i])|)
    ensures Gathered(MergeFrom(out, blockSize, Sizes(blocks), i, TableSize(|blocks|) + |Concat(blocks[..i])|), blocks, |blocks|)
    decreases |blocks| - i
  {
    hide InPlace, Gathered, Offset, Concat, Put;
    if i < |blocks| {
      var dst := TableSize(|blocks|) + |Concat(blocks[..i])|;
      BlockInPlace(out, blockSize, blocks, i, i);
      GatherNext(out, blocks, i);
      SumIsConcat(blocks, i + 1);
      if i + 1 < |blocks| { assert Ends(Sizes(blocks), i) <= Offset(blockSize, i + 1); }
      MoveKeepsPlaces(out, blockSize, blocks, i, dst);
      MergeGathers(Put(out, dst, blocks[i]), blockSize, blocks, i + 1);
    }
  }

  lemma BlockInPlace(out: seq<byte>, blockSize: nat, blocks: seq<seq<byte>>, i: nat, k: nat)
    requires i <= k < |blocks| && InPlace(out, blockSize, blocks, i)
    ensures Offset(blockSize, k) + |blocks[k]| <= |out|
    ensures out[Offset(blockSize, k)..Offset(blockSize, k) + |blocks[k]|] == blocks[k]
  {
  }

  ghost predicate BlocksFit(len: nat, blockSize: nat, blocks: seq<seq<byte>>) {
    && (forall k :: 0 <= k < |blocks| ==> 1 <= |blocks[k]| <= blockSize && Offset(blockSize, k) + |blocks[k]| <= len)
    && TableSize(|blocks|) + Sum(Sizes(blocks)) <= len
  }

  function All(n: nat): (r: set<nat>)
    ensures forall k: nat :: k in r <==> k < n
  {
    if n == 0 then {} else All(n - 1) + {n - 1}
  }

  /** What the merge of finished pieces leaves. */
  function Merged(out: seq<byte>, blockSize: nat, blocks: seq<seq<byte>>): seq<byte>
    requires blockSize > 0 && TableSize(|blocks|) + Sum(Sizes(blocks)) <= |out|
    requires forall k :: 0 <= k < |blocks| ==> Offset(blockSize, k) + |blocks[k]| <= |out|
  {
    Finish(Placed(out, blockSize, blocks, All(|blocks|)), blockSize, Sizes(blocks))[..TableSize(|blocks|) + Sum(Sizes(blocks))]
  }

  lemma FinishSplits(merged: seq<byte>, table: seq<byte>, body: seq<byte>)
    requires |table| + |body| <= |merged| && merged[|table|..|table| + |body|] == body
    ensures Put(merged, 0, table)[..|table| + |body|] == table + body
  {
    var r := Put(merged, 0, table);
    assert r[..|table|] == table;
    assert forall x :: |table| <= x < |merged| ==> r[x] == merged[x];
    assert r[|table|..|table| + |body|] == body;
    assert r[..|table| + |body|] == r[..|table|] + r[|table|..|table| + |body|];
  }

  lemma PlacedInPlace(out: seq<byte>, blockSize: nat, blocks: seq<seq<byte>>)
    requires blockSize > 0 && BlocksFit(|out|, blockSize, blocks)
    ensures InPlace(Placed(out, blockSize, blocks, All(|blocks|)), blockSize, blocks, 0)
  {
    hide Placed, Offset;
    forall k | 0 <= k < |blocks|
      ensures Placed(out, blockSize, blocks, All(|blocks|))[Offset(blockSize, k)..Offset(blockSize, k) + |blocks[k]|] == blocks[k]
    {
      PlacedBlock(out, blockSize, blocks, All(|blocks|), k);
    }
  }

  /** The merge of finished blocks, step by step. */
  lemma MergedSteps(out: seq<byte>, blockSize: nat, blocks: seq<seq<byte>>)
    requires blockSize > 0 && BlocksFit(|out|, blockSize, blocks)
    ensures InPlace(Placed(out, blockSize, blocks, All(|blocks|)), blockSize, blocks, 0)
    ensures MergeFits(|out|, blockSize, Sizes(blocks), 0, TableSize(|blocks|))
    ensures TableSize(|blocks|) + |Concat(blocks)| <= |out|
    ensures var merged := MergeFrom(Placed(out, blockSize, blocks, All(|blocks|)), blockSize, Sizes(blocks), 0, TableSize(|blocks|));
            Merged(out, blockSize, blocks) == Put(merged, 0, Table(Sizes(blocks)))[..TableSize(|blocks|) + |Concat(blocks)|]
  {
    hide InPlace, Placed, Offset, Table, Put, MergeFrom, MergeFits;
    var sizes := Sizes(blocks);
    PlacedInPlace(out, blockSize, blocks);
    SumIsConcat(blocks, |blocks|);
    assert sizes[..|blocks|] == sizes && blocks[..|blocks|] == blocks;
    FitsBySum(|out|, blockSize, sizes, 0);
    assert sizes[..0] == [];
  }

  lemma NoOverrunMerges(out: seq<byte>, blockSize: nat, blocks: seq<seq<byte>>)
    requires blockSize > 0 && BlocksFit(|out|, blockSize, blocks) && NoOverrun(blockSize, Sizes(blocks))
    ensures Merged(out, blockSize, blocks) == Format(blocks)
  {
    hide InPlace, Placed, Offset, NoOverrun, Table, Put, MergeFrom, MergeFits, Merged;
    var placed, sizes := Placed(out, blockSize, blocks, All(|blocks|)), Sizes(blocks);
    MergedSteps(out, blockSize, blocks);
    assert blocks[..|blocks|] == blocks && blocks[..0] == [];
    MergeGathers(placed, blockSize, blocks, 0);
    FinishSplits(MergeFrom(placed, blockSize, sizes, 0, TableSize(|sizes|)), Table(sizes), Concat(blocks));
  }
}
