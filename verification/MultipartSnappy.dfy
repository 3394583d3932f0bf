/** Snappy as the codec of the multipart compressor. */
module MultipartSnappy {
  import opened Bytes
  import opened SnappyFormat
  import opened SnappyBlock
  import SnappyEncode
  import opened Multipart
  import opened MultipartProperties
  import opened MultipartCompressor

  const BLOCK_SIZE := 120000

  /** The data of a block; a nil slice, for a corrupt one, adds nothing to the output. */
  function UncompressSimple(src: seq<byte>): seq<byte> {
    match BlockData(src)
    case None => []
    case Some(m) => m
  }

  /** What SnappyEncode.Encode promises of each result, for inputs of up to a block. */
  ghost predicate EncodesAsSnappy(encode: Codec, blockSize: nat) {
    forall b {:trigger encode(b)} :: |b| <= blockSize ==>
      DenotesBlock(encode(b), b) && 1 <= |encode(b)| <= SnappyEncode.MaxEncodedLen(|b|)
  }

  lemma SnappyIsInverse(encode: Codec)
    requires EncodesAsSnappy(encode, BLOCK_SIZE)
    ensures Inverse(encode, UncompressSimple, BLOCK_SIZE)
  {
    hide DenotesBlock, BlockData;
    forall b: seq<byte> | |b| <= BLOCK_SIZE
      ensures UncompressSimple(encode(b)) == b && 1 <= |encode(b)| < 0x1_0000_0000
    {
      BlockDataIsDenotesBlock(encode(b), b);
    }
  }

  /** The multipart compressor over snappy loses nothing where no block overruns. */
  method SnappyRoundTrip(data: seq<byte>, encode: Codec, out: array<byte>) returns (r: Result, back: Unpacked)
    requires 8 <= out.Length && (|data| >= BLOCK_SIZE ==> |data| <= out.Length)
    requires EncodesAsSnappy(encode, BLOCK_SIZE)
    modifies out
    ensures r.Out? && (|data| >= BLOCK_SIZE ==> NoOverrun(BLOCK_SIZE, Sizes(Blocks(data, encode, BLOCK_SIZE)))) ==>
              back == Data(data)
  {
    SnappyIsInverse(encode);
    r, back := RoundTrip(data, encode, UncompressSimple, BLOCK_SIZE, out);
  }

  // ----- an overrun that pays off

  function Fill(v: byte, n: nat): (r: seq<byte>)
    ensures |r| == n && forall i :: 0 <= i < n ==> r[i] == v
  {
    seq(n, _ => v)
  }

  lemma CopyOfFill(src: seq<byte>, v: byte, n: nat, length: nat)
    requires n >= 1 && 1 <= length <= 64 && Denotes(src, Fill(v, n))
    ensures Denotes(src + Wire(Copy2(1, length)), Fill(v, n + length))
  {
    hide Denotes, Wire;
    assert Fill(v, n + length)[..n] == Fill(v, n);
    ForwardCopyPeriod(Fill(v, n), 1, length, Fill(v, n + length));
    DenotesStep(src, Fill(v, n), Copy2(1, length));
  }

  const COPY_LENGTH := 60

  function Copies(k: nat): (r: seq<byte>)
    ensures |r| == 3 * k
  {
    if k == 0 then [] else Copies(k - 1) + Wire(Copy2(1, COPY_LENGTH))
  }

  lemma {:induction false} CopiesOfFill(src: seq<byte>, v: byte, n: nat, k: nat)
    requires n >= 1 && Denotes(src, Fill(v, n))
    ensures Denotes(src + Copies(k), Fill(v, n + COPY_LENGTH * k))
  {
    hide Denotes, Wire;
    if k == 0 {
      assert src + [] == src;
    } else {
      CopiesOfFill(src, v, n, k - 1);
      CopyOfFill(src + Copies(k - 1), v, n + COPY_LENGTH * (k - 1), COPY_LENGTH);
      Associative(src, Copies(k - 1), Wire(Copy2(1, COPY_LENGTH)));
    }
  }

  /** All of `data` as one literal. */
  function LiteralBody(data: seq<byte>): (r: seq<byte>)
    requires |data| <= MAX_UINT32
    ensures |r| <= 5 + |data|
    ensures data != [] ==> |r| == 5 + |data| && r[5..] == data
  {
    Pow256Values();
    if data == [] then [] else Wire(Literal(4, data))
  }

  lemma LiteralBodyDenotes(data: seq<byte>)
    requires |data| <= MAX_UINT32
    ensures Denotes(LiteralBody(data), data)
  {
    hide Denotes, Wire;
    Pow256Values();
    DenotesEmpty();
    if data != [] {
      DenotesStep([], [], Literal(4, data));
      assert [] + Wire(Literal(4, data)) == Wire(Literal(4, data)) && [] + data == data;
    }
  }

  /** A block of zeros with hardly any copy, 119996 bytes long. */
  function FirstBlock(): seq<byte> {
    UvarintBytes(BLOCK_SIZE) + (LiteralBody(Fill(0, BLOCK_SIZE - 15)) + Wire(Copy2(1, 15)))
  }

  /** A block of ones, 6065 bytes long. */
  function SecondBlock(): seq<byte> {
    UvarintBytes(BLOCK_SIZE) + (LiteralBody(Fill(1, COPY_LENGTH)) + Copies(1999))
  }

  /** An encoder that keeps to the format, with any other data as one literal. */
  function SomeEncode(data: seq<byte>): seq<byte> {
    if data == Fill(0, BLOCK_SIZE) then FirstBlock()
    else if data == Fill(1, BLOCK_SIZE) then SecondBlock()
    else if |data| > MAX_UINT32 then []
    else UvarintBytes(|data|) + LiteralBody(data)
  }

  lemma BlocksOfFill()
    ensures DenotesBlock(FirstBlock(), Fill(0, BLOCK_SIZE)) && DenotesBlock(SecondBlock(), Fill(1, BLOCK_SIZE))
    ensures |FirstBlock()| == 119996 && |SecondBlock()| == 6065
    ensures FirstBlock()[119988] == 0
  {
    hide Denotes, DenotesBlock, LiteralBody, Copies;
    HeaderIsThree();
    var zeros := Fill(0, BLOCK_SIZE - 15);
    LiteralBodyDenotes(zeros);
    CopyOfFill(LiteralBody(zeros), 0, BLOCK_SIZE - 15, 15);
    HeaderAndBody(FirstBlock(), LiteralBody(zeros) + Wire(Copy2(1, 15)), Fill(0, BLOCK_SIZE));
    LiteralBodyDenotes(Fill(1, COPY_LENGTH));
    CopiesOfFill(LiteralBody(Fill(1, COPY_LENGTH)), 1, COPY_LENGTH, 1999);
    HeaderAndBody(SecondBlock(), LiteralBody(Fill(1, COPY_LENGTH)) + Copies(1999), Fill(1, BLOCK_SIZE));
    assert FirstBlock()[119988] == LiteralBody(zeros)[119985] == LiteralBody(zeros)[5..][119980];
  }

  lemma HeaderIsThree()
    ensures |UvarintBytes(BLOCK_SIZE)| == 3
  {
    assert |UvarintBytes(7)| == 1;
    assert |UvarintBytes(937)| == 2;
  }

  lemma SomeEncodeIsSnappy()
    ensures EncodesAsSnappy(SomeEncode, BLOCK_SIZE)
  {
    hide DenotesBlock, Denotes, LiteralBody, FirstBlock, SecondBlock;
    forall b: seq<byte> | |b| <= BLOCK_SIZE
      ensures DenotesBlock(SomeEncode(b), b) && 1 <= |SomeEncode(b)| <= SnappyEncode.MaxEncodedLen(|b|)
    {
      BlocksOfFill();
      LiteralBodyDenotes(b);
      HeaderAndBody(UvarintBytes(|b|) + LiteralBody(b), LiteralBody(b), b);
      UvarintSize(|b|, 4);
    }
  }

  /** A block that announces no data has none. */
  lemma ZeroLength(block: seq<byte>)
    requires block != [] && block[0] == 0
    ensures UncompressSimple(block) == []
  {
    assert UvarintFrom(block, 0) == Some((0, 1));
    if BlockData(block).Some? { BlockDataIsDenotesBlock(block, BlockData(block).value); }
  }

  /** Half zeros, half ones. */
  function TwoPieces(): seq<byte> {
    Fill(0, BLOCK_SIZE) + Fill(1, BLOCK_SIZE)
  }

  lemma TwoPiecesBlocks()
    ensures Split(TwoPieces(), BLOCK_SIZE) == [Fill(0, BLOCK_SIZE), Fill(1, BLOCK_SIZE)]
    ensures Blocks(TwoPieces(), SomeEncode, BLOCK_SIZE) == [FirstBlock(), SecondBlock()]
  {
    hide FirstBlock, SecondBlock;
    var data := TwoPieces();
    assert data[..BLOCK_SIZE] == Fill(0, BLOCK_SIZE) && data[BLOCK_SIZE..] == Fill(1, BLOCK_SIZE);
    assert Split(data[BLOCK_SIZE..], BLOCK_SIZE) == [Fill(1, BLOCK_SIZE)];
    assert Fill(0, BLOCK_SIZE)[0] != Fill(1, BLOCK_SIZE)[0];
  }

  /**
   The acceptance rules let overruns through: with a codec that keeps to the snappy format
   there are 240000 bytes that are compressed, as worth while, to something that does not
   give them back.
  */
  lemma OverrunPaysOff(out: seq<byte>)
    requires |out| >= 2 * BLOCK_SIZE
    ensures EncodesAsSnappy(SomeEncode, BLOCK_SIZE) && Inverse(SomeEncode, UncompressSimple, BLOCK_SIZE)
    ensures |TwoPieces()| == 2 * BLOCK_SIZE && Worthwhile(TwoPieces(), SomeEncode, BLOCK_SIZE)
    ensures var blocks := Blocks(TwoPieces(), SomeEncode, BLOCK_SIZE);
            && BlocksFit(|out|, BLOCK_SIZE, blocks)
            && Unpack(Merged(out, BLOCK_SIZE, blocks), UncompressSimple) == Data(Fill(0, BLOCK_SIZE))
            && Fill(0, BLOCK_SIZE) != TwoPieces()
  {
    hide FirstBlock, SecondBlock, DenotesBlock, Merged, Format, Unpack, Split, Sum, UncompressSimple;
    var a, b := FirstBlock(), SecondBlock();
    SomeEncodeIsSnappy();
    SnappyIsInverse(SomeEncode);
    BlocksOfFill();
    TwoPiecesBlocks();
    assert SomeEncode(Fill(0, BLOCK_SIZE)) == a;
    OverrunOfTwo(out, BLOCK_SIZE, a, b);
    var c := Overwritten(BLOCK_SIZE, a, b);
    assert c[0] == 0;
    ZeroLength(c);
    UnpackFormat([a, c], UncompressSimple);
    assert Compressed(UncompressSimple, [a, c]) == [Fill(0, BLOCK_SIZE), []];
    TwoBlocks(Fill(0, BLOCK_SIZE), []);
  }

  /** The same through the compressor itself, in any buffer that is large enough. */
  method SpoiledRun(out: array<byte>) returns (r: Result, back: Unpacked)
    requires out.Length >= 2 * BLOCK_SIZE
    modifies out
    ensures EncodesAsSnappy(SomeEncode, BLOCK_SIZE)
    ensures r.Out? && back == Data(Fill(0, BLOCK_SIZE)) != Data(TwoPieces())
  {
    hide FirstBlock, SecondBlock, TwoPieces, Merged, Unpack;
    OverrunPaysOff(out[..]);
    r := CompressLarge(TwoPieces(), SomeEncode, BLOCK_SIZE, out);
    back := Uncompress(out[..r.n], UncompressSimple);
  }
}
