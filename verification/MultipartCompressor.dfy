/**
 The compressor: pieces handed to workers that finish in any order, the merge in the same
 buffer, the fast path for short inputs, and Uncompress.
*/
module MultipartCompressor {
  import opened Bytes
  import opened Multipart
  import opened MultipartProperties

  const MAX_IN_PROGRESS := 12

  /** Nil is the nil slice; Out(n) is out[0:n]; OutOfRange is a panic, slicing past the buffer. */
  datatype Result = Nil | Out(n: nat) | OutOfRange

  /** A worker's rules: no gain on a block of some size, or no room, is a refusal. */
  predicate Rejects(piece: seq<byte>, block: seq<byte>, room: nat, blockSize: nat) {
    (|block| >= |piece| && |block| > blockSize / 3) || |block| > room
  }

  predicate AnyRejected(pieces: seq<seq<byte>>, encode: Codec, blockSize: nat) {
    exists k :: 0 <= k < |pieces| && Rejects(pieces[k], encode(pieces[k]), |pieces[k]|, blockSize)
  }

  /** The worker's rules and the total's, in sizes. */
  lemma RulesMean(piece: seq<byte>, block: seq<byte>, room: nat, blockSize: nat, compressed: nat, data: seq<byte>)
    ensures Rejects(piece, block, room, blockSize) <==>
            |block| > room || (|block| >= |piece| && 3 * |block| > blockSize)
    ensures TooLarge(compressed, data) <==> 5 * compressed > 4 * |data|
  {
  }

  /** More than 80 percent of the input is not worth it. */
  predicate TooLarge(compressed: nat, data: seq<byte>) {
    10 * compressed > 8 * |data|
  }

  function Blocks(data: seq<byte>, encode: Codec, blockSize: nat): seq<seq<byte>>
    requires blockSize > 0
  {
    Compressed(encode, Split(data, blockSize))
  }

  /** No piece is refused and the sizes pay off. */
  ghost predicate Worthwhile(data: seq<byte>, encode: Codec, blockSize: nat)
    requires blockSize > 0
  {
    && !AnyRejected(Split(data, blockSize), encode, blockSize)
    && !TooLarge(Sum(Sizes(Blocks(data, encode, blockSize))), data)
  }

  /** The same in sizes: what makes a large input worth compressing. */
  lemma WorthwhileMeans(data: seq<byte>, encode: Codec, blockSize: nat)
    requires blockSize > 0
    ensures var pieces, blocks := Split(data, blockSize), Blocks(data, encode, blockSize);
            Worthwhile(data, encode, blockSize) <==>
            && 5 * Sum(Sizes(blocks)) <= 4 * |data|
            && forall k :: 0 <= k < |pieces| ==>
                 |blocks[k]| <= |pieces[k]| && (|blocks[k]| < |pieces[k]| || 3 * |blocks[k]| <= blockSize)
  {
    hide Sum, Split;
    var pieces, blocks := Split(data, blockSize), Blocks(data, encode, blockSize);
    forall k | 0 <= k < |pieces|
      ensures Rejects(pieces[k], encode(pieces[k]), |pieces[k]|, blockSize) <==>
              !(|blocks[k]| <= |pieces[k]| && (|blocks[k]| < |pieces[k]| || 3 * |blocks[k]| <= blockSize))
    {
      RulesMean(pieces[k], blocks[k], |pieces[k]|, blockSize, 0, data);
    }
  }

  lemma {:induction false} SplitOffsets(data: seq<byte>, blockSize: nat, k: nat)
    requires blockSize > 0 && k < |Split(data, blockSize)|
    ensures Offset(blockSize, k) + |Split(data, blockSize)[k]| <= |data|
    ensures Split(data, blockSize)[k] == data[Offset(blockSize, k)..Offset(blockSize, k) + |Split(data, blockSize)[k]|]
    ensures Offset(blockSize, k) < |data|
    ensures |Split(data, blockSize)[k]| == if Offset(blockSize, k) + blockSize > |data| then |data| - Offset(blockSize, k) else blockSize
    decreases k
  {
    hide Offset;
    OffsetZero(blockSize);
    if |data| > blockSize && k > 0 {
      var tail := data[blockSize..];
      SplitOffsets(tail, blockSize, k - 1);
      OffsetFromTail(blockSize, k - 1);
      var at, n := Offset(blockSize, k - 1), |Split(tail, blockSize)[k - 1]|;
      assert Split(data, blockSize) == [data[..blockSize]] + Split(tail, blockSize);
      SliceOfTail(data, blockSize, at, at + n);
    }
  }

  lemma OffsetZero(blockSize: nat)
    ensures Offset(blockSize, 0) == 0
  {
  }

  lemma OffsetFromTail(blockSize: nat, k: nat)
    ensures Offset(blockSize, k + 1) == blockSize + Offset(blockSize, k)
  {
  }

  lemma {:induction false} SplitCovers(data: seq<byte>, blockSize: nat, k: nat)
    requires blockSize > 0 && Offset(blockSize, k) < |data|
    ensures k < |Split(data, blockSize)|
    decreases k
  {
    if |data| > blockSize && k > 0 {
      OffsetFromTail(blockSize, k - 1);
      SplitCovers(data[blockSize..], blockSize, k - 1);
    } else if k > 0 {
      OffsetAtLeast(blockSize, k);
    }
  }

  // ----- dispatch and collection

  /**
   Everything the coordinator and the workers share. `finished` holds the pieces whose
   results have been received, `inProgress` those handed out and not yet received.
  */
  class Job {
    const data: seq<byte>
    const encode: Codec
    const blockSize: nat
    const out: array<byte>
    var pieceNo: nat
    var inProgress: set<nat>
    var chunks: map<nat, nat>
    var outSizeTotal: nat
    var isBroken: bool
    ghost var original: seq<byte>

    constructor (data: seq<byte>, encode: Codec, blockSize: nat, out: array<byte>)
      requires 0 < blockSize <= |data| <= out.Length
      ensures Valid() && pieceNo == 0 && inProgress == {} && !isBroken && original == out[..]
      ensures this.data == data && this.encode == encode && this.blockSize == blockSize && this.out == out
    {
      this.data, this.encode, this.blockSize, this.out := data, encode, blockSize, out;
      pieceNo, inProgress, chunks, outSizeTotal, isBroken, original := 0, {}, map[], 0, false, out[..];
      new;
      NothingPlaced(out[..], blockSize, Results());
      SumOverNone(Results());
      assert chunks.Keys == {};
    }

    ghost function Pieces(): seq<seq<byte>>
      requires blockSize > 0
    {
      Split(data, blockSize)
    }

    ghost function Results(): seq<seq<byte>>
      requires blockSize > 0
    {
      Blocks(data, encode, blockSize)
    }

    ghost predicate Valid()
      reads this, out
    {
      && 0 < blockSize <= |data| <= out.Length && |original| == out.Length
      && pieceNo <= |Pieces()|
      && (forall k :: k in inProgress ==> k < pieceNo)
      && (!isBroken ==> Progress())
      && (isBroken ==> AnyRejected(Pieces(), encode, blockSize))
    }

    /** Without a refusal so far: what has been received and what that left in the buffer. */
    ghost predicate Progress()
      requires blockSize > 0
      reads this, out
    {
      && (forall k: nat :: k in chunks <==> k < pieceNo && k !in inProgress)
      && (forall k :: k in chunks ==> k < |Pieces()| && Accepted(k) && chunks[k] == |Results()[k]|)
      && outSizeTotal == SumOver(Results(), chunks.Keys)
      && out[..] == Placed(original, blockSize, Results(), chunks.Keys)
    }

    ghost predicate Accepted(k: nat)
      requires blockSize > 0 && k < |Pieces()|
    {
      !Rejects(Pieces()[k], Results()[k], |Pieces()[k]|, blockSize)
    }

    /** Hands out the next piece. */
    method Dispatch()
      requires Valid() && !isBroken && pieceNo < |Pieces()|
      modifies this`pieceNo, this`inProgress
      ensures Valid() && !isBroken
      ensures pieceNo == old(pieceNo) + 1 && inProgress == old(inProgress) + {old(pieceNo)}
    {
      inProgress, pieceNo := inProgress + {pieceNo}, pieceNo + 1;
    }

    /** A worker's turn: it writes its result to the piece's own part of the buffer, or refuses. */
    method Work(k: nat) returns (size: Option<nat>)
      requires 0 < blockSize <= |data| <= out.Length && k < |Pieces()|
      modifies out
      ensures Offset(blockSize, k) + |Pieces()[k]| <= out.Length
      ensures size.None? <==> !Accepted(k)
      ensures size.None? ==> out[..] == old(out[..])
      ensures size.Some? ==> size.value == |Results()[k]| <= |Pieces()[k]|
      ensures size.Some? ==> out[..] == Put(old(out[..]), Offset(blockSize, k), Results()[k])
    {
      hide Split, Offset;
      SplitOffsetsAsBytes(k);
      var from := Offset(blockSize, k);
      var to := if from + blockSize > |data| then |data| else from + blockSize;
      var block := encode(data[from..to]);
      if Rejects(data[from..to], block, to - from, blockSize) { return None; }
      ghost var before := out[..];
      forall x | 0 <= x < |block| { out[from + x] := block[x]; }
      assert out[..] == Put(before, from, block);
      return Some(|block|);
    }

    /** Receives the result of some piece in progress, whichever comes. */
    method GetNextPiece()
      requires Valid() && inProgress != {}
      modifies this`inProgress, this`chunks, this`outSizeTotal, this`isBroken, out
      ensures Valid() && pieceNo == old(pieceNo)
      ensures inProgress < old(inProgress)
      ensures old(isBroken) ==> isBroken
    {
      var k: nat :| k in inProgress;
      var size := Work(k);
      inProgress := inProgress - {k};
      if size.None? || isBroken {
        if size.None? { Refused(k); }
        isBroken := true;
        return;
      }
      outSizeTotal := outSizeTotal + size.value;
      Record(k, size.value);
    }

    lemma Refused(k: nat)
      requires blockSize > 0 && k < |Pieces()| && !Accepted(k)
      ensures AnyRejected(Pieces(), encode, blockSize)
    {
    }

    /** The last part of a receipt: the size is noted. */
    method Record(k: nat, size: nat)
      requires 0 < blockSize <= |data| <= out.Length && |original| == out.Length && !isBroken
      requires pieceNo <= |Pieces()| && k < pieceNo && k !in inProgress && (forall j :: j in inProgress ==> j < pieceNo)
      requires forall j: nat :: j in chunks <==> j < pieceNo && j !in inProgress && j != k
      requires forall j :: j in chunks ==> j < |Pieces()| && Accepted(j) && chunks[j] == |Results()[j]|
      requires Accepted(k) && size == |Results()[k]| <= |Pieces()[k]|
      requires Offset(blockSize, k) + |Pieces()[k]| <= out.Length
      requires outSizeTotal == SumOver(Results(), chunks.Keys) + size
      requires out[..] == Put(Placed(original, blockSize, Results(), chunks.Keys), Offset(blockSize, k), Results()[k])
      modifies this`chunks
      ensures Valid()
    {
      hide Split, Offset, Placed, Put, SumOver;
      SumOverAdd(Results(), chunks.Keys, k);
      PlacedNext(original, blockSize, Results(), chunks.Keys, k);
      ghost var keys := chunks.Keys;
      chunks := chunks[k := size];
      assert chunks.Keys == keys + {k};
    }

    lemma SplitOffsetsAsBytes(k: nat)
      requires 0 < blockSize && k < |Pieces()|
      ensures var from := Offset(blockSize, k);
              var to := if from + blockSize > |data| then |data| else from + blockSize;
              from <= to <= |data| && data[from..to] == Pieces()[k] && to - from == |Pieces()[k]|
    {
      SplitOffsets(data, blockSize, k);
    }
  }

  lemma NothingPlaced(out: seq<byte>, blockSize: nat, blocks: seq<seq<byte>>)
    requires blockSize > 0
    ensures Placed(out, blockSize, blocks, {}) == out
  {
  }

  /** The total size of some of the blocks. */
  function SumOver(blocks: seq<seq<byte>>, some: set<nat>): nat {
    if blocks == [] then 0
    else SumOver(blocks[..|blocks| - 1], some) + if |blocks| - 1 in some then |blocks[|blocks| - 1]| else 0
  }

  lemma {:induction false} SumOverNone(blocks: seq<seq<byte>>)
    ensures SumOver(blocks, {}) == 0
  {
    if blocks != [] { SumOverNone(blocks[..|blocks| - 1]); }
  }

  lemma {:induction false} SumOverAdd(blocks: seq<seq<byte>>, some: set<nat>, k: nat)
    requires k < |blocks| && k !in some
    ensures SumOver(blocks, some + {k}) == SumOver(blocks, some) + |blocks[k]|
  {
    var n := |blocks| - 1;
    if k < n { SumOverAdd(blocks[..n], some, k); } else { SumOverBeyond(blocks[..n], some, k); }
  }

  lemma {:induction false} SumOverBeyond(blocks: seq<seq<byte>>, some: set<nat>, k: nat)
    requires k >= |blocks|
    ensures SumOver(blocks, some + {k}) == SumOver(blocks, some)
  {
    if blocks != [] { SumOverBeyond(blocks[..|blocks| - 1], some, k); }
  }

  lemma {:induction false} SumOverAll(blocks: seq<seq<byte>>, some: set<nat>)
    requires forall k: nat :: k < |blocks| ==> k in some
    ensures SumOver(blocks, some) == Sum(Sizes(blocks))
  {
    if blocks != [] {
      var n := |blocks| - 1;
      SumOverAll(blocks[..n], some);
      assert Sizes(blocks)[..n] == Sizes(blocks[..n]);
    }
  }

  // ----- the merge, in the buffer

  lemma {:induction false} PlacesInBuffer(data: seq<byte>, encode: Codec, blockSize: nat, k: nat)
    requires blockSize > 0 && k < |Split(data, blockSize)|
    requires |encode(Split(data, blockSize)[k])| <= |Split(data, blockSize)[k]|
    ensures Offset(blockSize, k) + |Blocks(data, encode, blockSize)[k]| <= |data|
  {
    SplitOffsets(data, blockSize, k);
  }

  /** Moves all blocks together, behind the place for the table. */
  method MergeBlocks(out: array<byte>, blockSize: nat, sizes: seq<nat>) returns (dst: nat)
    requires MergeFits(out.Length, blockSize, sizes, 0, TableSize(|sizes|))
    modifies out
    ensures out[..] == MergeFrom(old(out[..]), blockSize, sizes, 0, TableSize(|sizes|))
    ensures dst == TableSize(|sizes|) + Sum(sizes)
  {
    hide MergeFrom, MergeFits, Put;
    ghost var before := out[..];
    var i := 0;
    dst := 4 * (|sizes| + 1);
    assert sizes[..0] == [];
    var src := 0;
    while i < |sizes|
      invariant 0 <= i <= |sizes| && src == Offset(blockSize, i)
      invariant dst == TableSize(|sizes|) + Sum(sizes[..i])
      invariant MergeFits(out.Length, blockSize, sizes, i, dst)
      invariant MergeFrom(out[..], blockSize, sizes, i, dst) == MergeFrom(before, blockSize, sizes, 0, TableSize(|sizes|))
    {
      MergeUnfold(out[..], blockSize, sizes, i, dst);
      assert out[..][src..src + sizes[i]] == out[src..src + sizes[i]];
      CopyWithin(out, dst, src, sizes[i]);
      SumNext(sizes, i);
      dst := dst + sizes[i];
      src := src + blockSize;
      i := i + 1;
    }
    assert sizes[..i] == sizes;
    MergeDone(out[..], blockSize, sizes, dst);
  }

  /** The built-in copy between two parts of one buffer, which may overlap. */
  method CopyWithin(out: array<byte>, dst: nat, src: nat, n: nat)
    requires dst + n <= out.Length && src + n <= out.Length
    modifies out
    ensures out[..] == Put(old(out[..]), dst, old(out[src..src + n]))
  {
    var moved := out[src..src + n];
    ghost var before := out[..];
    forall x | 0 <= x < n { out[dst + x] := moved[x]; }
    assert moved == before[src..src + n];
  }

  method PutUint32(out: array<byte>, at: nat, v: nat)
    requires at + 4 <= out.Length
    modifies out
    ensures out[..] == Put(old(out[..]), at, ToLE(v, 4))
  {
    ghost var before := out[..];
    var bytes := ToLE(v, 4);
    out[at], out[at + 1], out[at + 2], out[at + 3] := bytes[0], bytes[1], bytes[2], bytes[3];
    assert out[..] == Put(before, at, bytes);
  }

  /** Writes the sizes and a zero at the start of the buffer. */
  method PutTable(out: array<byte>, sizes: seq<nat>)
    requires TableSize(|sizes|) <= out.Length
    modifies out
    ensures out[..] == Put(old(out[..]), 0, Table(sizes))
  {
    ghost var before := out[..];
    ghost var written: seq<byte> := [];
    var i := 0;
    while i < |sizes|
      invariant 0 <= i <= |sizes| && |written| == 4 * i
      invariant Table(sizes) == written + Table(sizes[i..])
      invariant out[..] == Put(before, 0, written)
    {
      PutUint32(out, 4 * i, sizes[i]);
      assert sizes[i..][1..] == sizes[i + 1..];
      Associative(written, ToLE(sizes[i], 4), Table(sizes[i + 1..]));
      PutTwice(before, written, ToLE(sizes[i], 4));
      written := written + ToLE(sizes[i], 4);
      i := i + 1;
    }
    PutUint32(out, 4 * i, 0);
    PutTwice(before, written, ToLE(0, 4));
  }

  lemma PutTwice(before: seq<byte>, a: seq<byte>, b: seq<byte>)
    requires |a| + |b| <= |before|
    ensures Put(Put(before, 0, a), |a|, b) == Put(before, 0, a + b)
  {
  }

  // ----- Compress

  method FastPath(data: seq<byte>, encode: Codec, blockSize: nat, out: array<byte>) returns (r: Result)
    requires 8 <= out.Length
    modifies out
    ensures !r.OutOfRange?
    ensures r == Nil <==> Rejects(data, encode(data), out.Length - 8, blockSize) || TooLarge(|encode(data)|, data)
    ensures r.Out? ==> r.n <= out.Length && out[..r.n] == Format([encode(data)])
  {
    hide Format, ToLE;
    var block := encode(data);
    if Rejects(data, block, out.Length - 8, blockSize) { return Nil; }
    forall x | 0 <= x < |block| { out[8 + x] := block[x]; }
    if TooLarge(|block|, data) { return Nil; }
    ghost var filled := out[..];
    assert filled[8..8 + |block|] == block;
    PutUint32(out, 0, |block|);
    PutUint32(out, 4, 0);
    OneBlockFormat(block);
    TwoWords(filled, ToLE(|block|, 4), ToLE(0, 4), block);
    assert out[..8 + |block|] == out[..][..8 + |block|];
    return Out(8 + |block|);
  }

  lemma TwoWords(out: seq<byte>, a: seq<byte>, b: seq<byte>, rest: seq<byte>)
    requires |a| == 4 && |b| == 4 && 8 + |rest| <= |out| && out[8..8 + |rest|] == rest
    ensures Put(Put(out, 0, a), 4, b)[..8 + |rest|] == a + b + rest
  {
    var r := Put(Put(out, 0, a), 4, b);
    assert r[8..8 + |rest|] == out[8..8 + |rest|];
    assert r[..8] == a + b && r[..8 + |rest|] == r[..8] + r[8..8 + |rest|];
  }

  lemma OneBlockFormat(block: seq<byte>)
    ensures Format([block]) == ToLE(|block|, 4) + ToLE(0, 4) + block
  {
    hide Concat, ToLE, Table;
    assert Sizes([block]) == [|block|];
    TableOfOne(|block|);
    ConcatOne(block);
  }

  lemma TableOfOne(size: nat)
    ensures Table([size]) == ToLE(size, 4) + ToLE(0, 4)
  {
    hide ToLE;
    assert [size][1..] == [] && Table([]) == ToLE(0, 4);
  }

  /** Hands out all pieces, at most 12 in progress at a time, and collects all results. */
  method RunJob(job: Job)
    requires job.Valid() && job.pieceNo == 0 && job.inProgress == {} && !job.isBroken
    modifies job, job.out
    ensures job.Valid() && job.inProgress == {} && job.original == old(job.original)
    ensures !job.isBroken ==> job.pieceNo == |job.Pieces()|
  {
    hide Split, Offset, Placed, SumOver, Job.Progress;
    var i := 0;
    OffsetZero(job.blockSize);
    while i < |job.data|
      invariant job.Valid() && !job.isBroken && i == Offset(job.blockSize, job.pieceNo)
      invariant job.original == old(job.original)
      decreases |job.data| - i
    {
      SplitCovers(job.data, job.blockSize, job.pieceNo);
      OffsetFromTail(job.blockSize, job.pieceNo);
      job.Dispatch();
      i := i + job.blockSize;
      if |job.inProgress| >= MAX_IN_PROGRESS {
        job.GetNextPiece();
        if job.isBroken { break; }
      }
    }
    if !job.isBroken && job.pieceNo < |job.Pieces()| {
      SplitOffsets(job.data, job.blockSize, job.pieceNo);
    }
    while job.inProgress != {}
      invariant job.Valid() && job.original == old(job.original)
      invariant !job.isBroken ==> job.pieceNo == |job.Pieces()|
      decreases job.inProgress
    {
      job.GetNextPiece();
    }
  }

  /**
   Compresses piece by piece. The result is nil exactly when some piece is refused or the
   total does not pay off; otherwise the output is the merge of the per-piece results. The
   order in which the workers finish makes no difference.
  */
  method CompressLarge(data: seq<byte>, encode: Codec, blockSize: nat, out: array<byte>) returns (r: Result)
    requires 0 < blockSize <= |data| <= out.Length
    modifies out
    ensures r == Nil <==> !Worthwhile(data, encode, blockSize)
    ensures var blocks := Blocks(data, encode, blockSize);
            r != Nil ==>
              && (forall k :: 0 <= k < |blocks| ==> Offset(blockSize, k) + |blocks[k]| <= |data|)
              && r == (if TableSize(|blocks|) + Sum(Sizes(blocks)) > out.Length then OutOfRange
                       else Out(TableSize(|blocks|) + Sum(Sizes(blocks))))
              && (r.Out? ==> out[..r.n] == Merged(old(out[..]), blockSize, blocks))
  {
    hide Job.Valid, Merged, AnyRejected, Offset, Split, Compressed, Sum, SumOver, Placed;
    ghost var blocks := Blocks(data, encode, blockSize);
    var job := new Job(data, encode, blockSize, out);
    RunJob(job);
    if job.isBroken {
      BrokenIsRejected(job);
      return Nil;
    }
    AllCollected(job);
    if TooLarge(job.outSizeTotal, data) { return Nil; }
    forall k | 0 <= k < |blocks| ensures Offset(blockSize, k) + |blocks[k]| <= |data| {
      PlacesInBuffer(data, encode, blockSize, k);
    }
    if 4 * (job.pieceNo + 1) + job.outSizeTotal > out.Length { return OutOfRange; }
    var n := MergeJob(job);
    return Out(n);
  }

  lemma BrokenIsRejected(job: Job)
    requires job.Valid() && job.isBroken
    ensures AnyRejected(job.Pieces(), job.encode, job.blockSize)
  {
  }

  /** The merge of a finished job, all of whose pieces were accepted. */
  method MergeJob(job: Job) returns (n: nat)
    requires job.blockSize > 0 && job.pieceNo == |job.Pieces()|
    requires forall k: nat :: k < |job.Pieces()| ==> k in job.chunks && job.chunks[k] == |job.Results()[k]|
    requires forall k :: 0 <= k < |job.Results()| ==> Offset(job.blockSize, k) + |job.Results()[k]| <= |job.original| == job.out.Length
    requires TableSize(|job.Results()|) + Sum(Sizes(job.Results())) <= |job.original| == job.out.Length
    requires job.out[..] == Placed(job.original, job.blockSize, job.Results(), All(|job.Pieces()|))
    modifies job.out
    ensures n == TableSize(|job.Results()|) + Sum(Sizes(job.Results())) <= job.out.Length
    ensures job.out[..n] == Merged(job.original, job.blockSize, job.Results())
  {
    hide Placed, Offset, Split, MergeFrom, MergeFits, Put, Table, All;
    var sizes := seq(job.pieceNo, k requires 0 <= k < job.pieceNo && k in job.chunks reads job => job.chunks[k]);
    assert sizes == Sizes(job.Results());
    FitsBySum(job.out.Length, job.blockSize, sizes, 0);
    assert sizes[..0] == [];
    n := MergeBlocks(job.out, job.blockSize, sizes);
    PutTable(job.out, sizes);
    assert job.out[..][..n] == job.out[..n];
  }

  lemma AllCollected(job: Job)
    requires job.Valid() && job.inProgress == {} && !job.isBroken && job.pieceNo == |job.Pieces()|
    ensures job.chunks.Keys == All(|job.Pieces()|)
    ensures forall k: nat :: k < |job.Pieces()| ==> k in job.chunks && job.chunks[k] == |job.Results()[k]|
    ensures !AnyRejected(job.Pieces(), job.encode, job.blockSize)
    ensures job.outSizeTotal == Sum(Sizes(job.Results()))
    ensures job.out[..] == Placed(job.original, job.blockSize, job.Results(), All(|job.Pieces()|))
    ensures forall k :: 0 <= k < |job.Pieces()| ==> |job.encode(job.Pieces()[k])| <= |job.Pieces()[k]|
  {
    forall k: nat ensures k in job.chunks.Keys <==> k in All(|job.Pieces()|) {}
    SumOverAll(job.Results(), job.chunks.Keys);
    forall k | 0 <= k < |job.Pieces()| ensures job.Accepted(k) {}
  }

  ghost predicate NeverEmpty(encode: Codec, blockSize: nat) {
    forall p: seq<byte> :: |p| <= blockSize ==> encode(p) != []
  }

  method Compress(data: seq<byte>, encode: Codec, blockSize: nat, out: array<byte>) returns (r: Result)
    requires blockSize > 0 && 8 <= out.Length && (|data| >= blockSize ==> |data| <= out.Length)
    modifies out
    ensures |data| >= blockSize ==> (r == Nil <==> !Worthwhile(data, encode, blockSize))
    ensures |data| < blockSize ==>
              (r == Nil <==> Rejects(data, encode(data), out.Length - 8, blockSize) || TooLarge(|encode(data)|, data))
    ensures r.Out? && |data| < blockSize ==> r.n <= out.Length && out[..r.n] == Format([encode(data)])
    ensures |data| >= blockSize && r.Out? ==>
              var blocks := Blocks(data, encode, blockSize);
              && (forall k :: 0 <= k < |blocks| ==> Offset(blockSize, k) + |blocks[k]| <= |data|)
              && r.n == TableSize(|blocks|) + Sum(Sizes(blocks)) <= out.Length
              && out[..r.n] == Merged(old(out[..]), blockSize, blocks)
    ensures r.Out? && |data| >= blockSize && NoOverrun(blockSize, Sizes(Blocks(data, encode, blockSize)))
            && NeverEmpty(encode, blockSize) ==>
              r.n <= out.Length && out[..r.n] == Format(Blocks(data, encode, blockSize))
  {
    if |data| < blockSize {
      r := FastPath(data, encode, blockSize, out);
      return;
    }
    ghost var original := out[..];
    r := CompressLarge(data, encode, blockSize, out);
    ghost var blocks := Blocks(data, encode, blockSize);
    if r.Out? && NoOverrun(blockSize, Sizes(blocks)) && NeverEmpty(encode, blockSize) {
      forall k | 0 <= k < |blocks| ensures 1 <= |blocks[k]| <= blockSize {
        assert !Rejects(Split(data, blockSize)[k], encode(Split(data, blockSize)[k]), |Split(data, blockSize)[k]|, blockSize);
      }
      NoOverrunMerges(original, blockSize, blocks);
    }
  }

  // ----- Uncompress

  method Uncompress(src: seq<byte>, decode: Codec) returns (r: Unpacked)
    ensures r == Unpack(src, decode)
  {
    var chunks: seq<nat>, pos: nat := [], 0;
    ghost var table := ReadTable(src, 0);
    assert [] + table.0 == table.0;
    while pos + 4 < |src|
      invariant pos <= |src|
      invariant table == (chunks + ReadTable(src, pos).0, ReadTable(src, pos).1)
      decreases |src| - pos
    {
      var size := LE(src[pos..pos + 4]);
      if size == 0 {
        pos := pos + 4;
        break;
      }
      assert chunks + ([size] + ReadTable(src, pos + 4).0) == chunks + [size] + ReadTable(src, pos + 4).0;
      pos, chunks := pos + 4, chunks + [size];
    }
    assert table == (chunks, pos) by { assert chunks + [] == chunks; }
    if |chunks| == 0 { return Nothing; }
    r := ReadChunks(src, pos, chunks, decode);
  }

  method ReadChunks(src: seq<byte>, start: nat, chunks: seq<nat>, decode: Codec) returns (r: Unpacked)
    requires start <= |src|
    ensures r == match ReadBlocks(src, start, chunks)
                 case None => Panics
                 case Some(blocks) => Data(Concat(Compressed(decode, blocks)))
  {
    hide Concat, Compressed;
    var bytes: seq<byte>, pos: nat, chunk := [], start, 0;
    ghost var goal, done := ReadBlocks(src, start, chunks), [];
    assert chunks[0..] == chunks;
    NoBlocks(decode);
    OptionPrefix([], goal);
    while pos < |src| && chunk < |chunks|
      invariant pos <= |src| && 0 <= chunk <= |chunks|
      invariant bytes == Concat(Compressed(decode, done))
      invariant goal == Prefixed(done, ReadBlocks(src, pos, chunks[chunk..]))
      decreases |chunks| - chunk
    {
      var chunkSize := chunks[chunk];
      if pos + chunkSize > |src| { return Panics; }
      var content := src[pos..pos + chunkSize];
      assert chunks[chunk..][1..] == chunks[chunk + 1..];
      PrefixedNext(done, content, ReadBlocks(src, pos + chunkSize, chunks[chunk + 1..]));
      OneMoreBlock(decode, done, content);
      done := done + [content];
      chunk, pos, bytes := chunk + 1, pos + chunkSize, bytes + decode(content);
    }
    assert Prefixed(done, Some([])) == Some(done) by { assert done + [] == done; }
    return Data(bytes);
  }

  lemma NoBlocks(decode: Codec)
    ensures Concat(Compressed(decode, [])) == []
  {
  }

  lemma OneMoreBlock(decode: Codec, done: seq<seq<byte>>, content: seq<byte>)
    ensures Concat(Compressed(decode, done + [content])) == Concat(Compressed(decode, done)) + decode(content)
  {
    var all := Compressed(decode, done + [content]);
    assert all[..|done|] == Compressed(decode, done);
  }

  function Prefixed(done: seq<seq<byte>>, rest: Option<seq<seq<byte>>>): Option<seq<seq<byte>>> {
    match rest
    case None => None
    case Some(blocks) => Some(done + blocks)
  }

  lemma OptionPrefix(done: seq<seq<byte>>, rest: Option<seq<seq<byte>>>)
    requires done == []
    ensures Prefixed(done, rest) == rest
  {
    if rest.Some? { assert done + rest.value == rest.value; }
  }

  lemma PrefixedNext(done: seq<seq<byte>>, block: seq<byte>, rest: Option<seq<seq<byte>>>)
    ensures Prefixed(done, Prefixed([block], rest)) == Prefixed(done + [block], rest)
  {
    if rest.Some? { assert done + ([block] + rest.value) == done + [block] + rest.value; }
  }

  /**
   Uncompress undoes Compress whenever that gives an output whose blocks did not overrun,
   for any codec with an inverse and any order of the workers.
  */
  method RoundTrip(data: seq<byte>, encode: Codec, decode: Codec, blockSize: nat, out: array<byte>)
    returns (r: Result, back: Unpacked)
    requires blockSize > 0 && 8 <= out.Length && (|data| >= blockSize ==> |data| <= out.Length)
    requires Inverse(encode, decode, blockSize)
    modifies out
    ensures r.Out? && (|data| >= blockSize ==> NoOverrun(blockSize, Sizes(Blocks(data, encode, blockSize)))) ==>
              back == Data(data)
  {
    r := Compress(data, encode, blockSize, out);
    back := Nothing;
    if r.Out? && r.n <= out.Length {
      back := Uncompress(out[..r.n], decode);
      if |data| >= blockSize {
        UnpackCompressed(data, blockSize, encode, decode);
      } else {
        UnpackFormat([encode(data)], decode);
        assert Compressed(decode, [encode(data)]) == [data];
        ConcatOne(data);
      }
    }
  }
}
