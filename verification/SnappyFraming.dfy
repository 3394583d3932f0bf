/** The Snappy framing format: what a stream of chunks means, and the chunks a writer makes. */
module SnappyFraming {
  import opened Bytes
  import opened SnappyFormat
  import opened SnappyBlock

  const CHECKSUM_SIZE := 4
  const CHUNK_HEADER_SIZE := 4
  const MAGIC_BODY: seq<byte> := [0x73, 0x4e, 0x61, 0x50, 0x70, 0x59] // sNaPpY
  const MAGIC_CHUNK: seq<byte> := [0xff, 0x06, 0x00, 0x00, 0x73, 0x4e, 0x61, 0x50, 0x70, 0x59]
  const MAX_ENCODED_LEN_OF_MAX_BLOCK_SIZE := 76490
  const READ_BUF_LEN := MAX_ENCODED_LEN_OF_MAX_BLOCK_SIZE + CHECKSUM_SIZE

  const CHUNK_TYPE_COMPRESSED_DATA := 0x00
  const CHUNK_TYPE_UNCOMPRESSED_DATA := 0x01
  const CHUNK_TYPE_STREAM_IDENTIFIER := 0xff

  /** The masked checksum of some data. Nothing below depends on which function it is. */
  type Crc = seq<byte> -> word32

  /** Why reading stops. */
  datatype End = Eof | Corrupt | Unsupported

  /** All the data read before the end, and the end itself. */
  datatype Stream = Stream(data: seq<byte>, end: End)

  function Prepend(m: seq<byte>, s: Stream): Stream {
    Stream(m + s.data, s.end)
  }

  /** One chunk: its data and its size with the header, or the reason it is refused. */
  datatype Chunk = Chunk(data: seq<byte>, size: nat) | Refused(end: End)

  function CheckedData(crc: Crc, checksum: nat, data: seq<byte>, size: nat): Chunk {
    if crc(data) == checksum then Chunk(data, size) else Refused(Corrupt)
  }

  function CompressedChunk(crc: Crc, body: seq<byte>): Chunk {
    if |body| < CHECKSUM_SIZE then Refused(Corrupt)
    else
      var block := body[CHECKSUM_SIZE..];
      if DecodedLen(block).None? || DecodedLen(block).value.0 > MAX_BLOCK_SIZE then Refused(Corrupt)
      else
        match BlockData(block)
        case None => Refused(Corrupt)
        case Some(m) => CheckedData(crc, LE(body[..CHECKSUM_SIZE]), m, CHUNK_HEADER_SIZE + |body|)
  }

  function UncompressedChunk(crc: Crc, body: seq<byte>): Chunk {
    if |body| < CHECKSUM_SIZE || |body| - CHECKSUM_SIZE > MAX_BLOCK_SIZE then Refused(Corrupt)
    else CheckedData(crc, LE(body[..CHECKSUM_SIZE]), body[CHECKSUM_SIZE..], CHUNK_HEADER_SIZE + |body|)
  }

  /** The first chunk of `src`; `header` tells whether a stream identifier came before. */
  function FirstChunk(crc: Crc, src: seq<byte>, header: bool): (r: Chunk)
    requires src != []
  {
    if |src| < CHUNK_HEADER_SIZE then Refused(Corrupt)
    else if !header && src[0] != CHUNK_TYPE_STREAM_IDENTIFIER then Refused(Corrupt)
    else
      var len := LE(src[1..CHUNK_HEADER_SIZE]);
      var size := CHUNK_HEADER_SIZE + len;
      if len > READ_BUF_LEN then Refused(Unsupported)
      else if src[0] == CHUNK_TYPE_COMPRESSED_DATA then
        if |src| < size then Refused(Corrupt) else CompressedChunk(crc, src[CHUNK_HEADER_SIZE..size])
      else if src[0] == CHUNK_TYPE_UNCOMPRESSED_DATA then
        if |src| < size then Refused(Corrupt) else UncompressedChunk(crc, src[CHUNK_HEADER_SIZE..size])
      else if src[0] == CHUNK_TYPE_STREAM_IDENTIFIER then
        if |src| < size || src[CHUNK_HEADER_SIZE..size] != MAGIC_BODY then Refused(Corrupt) else Chunk([], size)
      else if src[0] <= 0x7f then Refused(Unsupported)
      else if |src| < size then Refused(Corrupt)
      else Chunk([], size)
  }

  lemma FirstChunkSize(crc: Crc, src: seq<byte>, header: bool)
    requires src != []
    ensures var c := FirstChunk(crc, src, header);
            c.Chunk? ==> CHUNK_HEADER_SIZE <= c.size <= |src| && c.size == CHUNK_HEADER_SIZE + LE(src[1..4])
    ensures FirstChunk(crc, src, header) != Refused(Eof)
  {
  }

  /** What reading all of `src` yields. */
  function ReadAll(crc: Crc, src: seq<byte>, header: bool): Stream
    decreases |src|
  {
    if src == [] then Stream([], Eof)
    else
      FirstChunkSize(crc, src, header);
      match FirstChunk(crc, src, header)
      case Refused(end) => Stream([], end)
      case Chunk(data, size) => Prepend(data, ReadAll(crc, src[size..], true))
  }

  lemma ReadAllNothing(crc: Crc, header: bool)
    ensures ReadAll(crc, [], header) == Stream([], Eof)
  {
  }

  lemma ReadAllUnfold(crc: Crc, src: seq<byte>, header: bool)
    requires src != []
    ensures match FirstChunk(crc, src, header)
            case Refused(end) => ReadAll(crc, src, header) == Stream([], end)
            case Chunk(data, size) =>
              0 < size <= |src| && ReadAll(crc, src, header) == Prepend(data, ReadAll(crc, src[size..], true))
  {
    hide FirstChunk;
    FirstChunkSize(crc, src, header);
  }

  /** A first chunk does not depend on what follows it. */
  lemma FirstChunkAppend(crc: Crc, a: seq<byte>, b: seq<byte>, header: bool)
    requires a != [] && FirstChunk(crc, a, header).Chunk?
    ensures FirstChunk(crc, a + b, header) == FirstChunk(crc, a, header)
  {
    hide CompressedChunk, UncompressedChunk;
    FirstChunkSize(crc, a, header);
    var size := FirstChunk(crc, a, header).size;
    assert (a + b)[1..4] == a[1..4];
    assert (a + b)[4..size] == a[4..size];
  }

  /** A stream that ends cleanly can be followed by more chunks. */
  lemma {:induction false} ReadAllAppend(crc: Crc, a: seq<byte>, b: seq<byte>, header: bool)
    requires ReadAll(crc, a, header).end == Eof
    ensures ReadAll(crc, a + b, header) ==
            Prepend(ReadAll(crc, a, header).data, ReadAll(crc, b, header || a != []))
    decreases |a|
  {
    hide FirstChunk;
    if a == [] {
      assert a + b == b;
      assert Prepend([], ReadAll(crc, b, header)) == ReadAll(crc, b, header);
    } else {
      FirstChunkSize(crc, a, header);
      FirstChunkAppend(crc, a, b, header);
      var c := FirstChunk(crc, a, header);
      var rest := a[c.size..];
      assert (a + b)[c.size..] == rest + b;
      ReadAllAppend(crc, rest, b, true);
      var x, y := ReadAll(crc, rest, true), ReadAll(crc, b, true);
      assert c.data + (x.data + y.data) == (c.data + x.data) + y.data;
    }
  }

  /** Of a stream cut short, what can still be read is the start of what it held. */
  lemma {:induction false} ReadAllCut(crc: Crc, cut: seq<byte>, whole: seq<byte>, header: bool)
    requires cut <= whole
    ensures ReadAll(crc, cut, header).data <= ReadAll(crc, whole, header).data
    decreases |cut|
  {
    hide ReadAll, FirstChunk;
    if cut == [] {
      ReadAllNothing(crc, header);
    } else {
      ReadAllUnfold(crc, cut, header);
      ReadAllUnfold(crc, whole, header);
      var c := FirstChunk(crc, cut, header);
      if c.Chunk? {
        assert whole == cut + whole[|cut|..];
        FirstChunkAppend(crc, cut, whole[|cut|..], header);
        ReadAllCut(crc, cut[c.size..], whole[c.size..], true);
      }
    }
  }

  lemma MagicChunk(crc: Crc, header: bool)
    ensures ReadAll(crc, MAGIC_CHUNK, header) == Stream([], Eof)
  {
    var m := MAGIC_CHUNK;
    LE3Of(m[1..4], 6);
    assert m[4..10] == MAGIC_BODY;
    assert FirstChunk(crc, m, header) == Chunk([], 10);
    assert m[10..] == [];
    assert Prepend([], Stream([], Eof)) == Stream([], Eof);
  }

  lemma LE3Of(bs: seq<byte>, v: nat)
    requires |bs| == 3 && v < 0x100 && bs == [v, 0, 0]
    ensures LE(bs) == v
  {
    assert bs[1..] == [0, 0] && bs[1..][1..] == [0] && bs[1..][1..][1..] == [];
    assert LE(bs[1..][1..]) == 0;
    assert LE(bs[1..]) == 0;
  }

  // ----- chunks as written

  /** A chunk of type `kind` for the data `u`, whose payload is `body`. */
  function Frame(crc: Crc, kind: byte, u: seq<byte>, body: seq<byte>): seq<byte> {
    [kind] + ToLE(CHECKSUM_SIZE + |body|, 3) + ToLE(crc(u), 4) + body
  }

  lemma FrameParts(crc: Crc, kind: byte, u: seq<byte>, body: seq<byte>)
    requires |body| <= MAX_ENCODED_LEN_OF_MAX_BLOCK_SIZE
    ensures var f := Frame(crc, kind, u, body);
            && |f| == 8 + |body| && f[0] == kind && LE(f[1..4]) == 4 + |body|
            && f[4..][..4] == ToLE(crc(u), 4) && LE(ToLE(crc(u), 4)) == crc(u)
            && f[4..][4..] == body
  {
    var f := Frame(crc, kind, u, body);
    Pow256Values();
    LEToLE(4 + |body|, 3);
    LEToLE(crc(u), 4);
    assert f[1..4] == ToLE(4 + |body|, 3);
  }

  lemma OneChunk(crc: Crc, f: seq<byte>, u: seq<byte>)
    requires f != [] && FirstChunk(crc, f, true) == Chunk(u, |f|)
    ensures ReadAll(crc, f, true) == Stream(u, Eof)
  {
    hide ReadAll, FirstChunk;
    ReadAllUnfold(crc, f, true);
    assert f[|f|..] == [];
    ReadAllNothing(crc, true);
    assert u + [] == u;
  }

  lemma FrameCompressed(crc: Crc, u: seq<byte>, body: seq<byte>)
    requires |u| <= MAX_BLOCK_SIZE && |body| <= MAX_ENCODED_LEN_OF_MAX_BLOCK_SIZE && DenotesBlock(body, u)
    ensures ReadAll(crc, Frame(crc, CHUNK_TYPE_COMPRESSED_DATA, u, body), true) == Stream(u, Eof)
  {
    hide Frame, BlockData;
    FrameParts(crc, CHUNK_TYPE_COMPRESSED_DATA, u, body);
    var f := Frame(crc, CHUNK_TYPE_COMPRESSED_DATA, u, body);
    BlockDataIsDenotesBlock(body, u);
    assert f[4..|f|] == f[4..];
    OneChunk(crc, f, u);
  }

  lemma FrameUncompressed(crc: Crc, u: seq<byte>)
    requires |u| <= MAX_BLOCK_SIZE
    ensures ReadAll(crc, Frame(crc, CHUNK_TYPE_UNCOMPRESSED_DATA, u, u), true) == Stream(u, Eof)
  {
    hide Frame;
    FrameParts(crc, CHUNK_TYPE_UNCOMPRESSED_DATA, u, u);
    var f := Frame(crc, CHUNK_TYPE_UNCOMPRESSED_DATA, u, u);
    assert f[4..|f|] == f[4..];
    OneChunk(crc, f, u);
  }

  // ----- chunks as bytes

  lemma RawParts(kind: byte, len: nat, payload: seq<byte>, rest: seq<byte>)
    requires len < 0x100_0000
    ensures var s := [kind] + ToLE(len, 3) + payload + rest;
            && |s| >= 4 && s[0] == kind && LE(s[1..4]) == len && s[4..] == payload + rest
            && s[4..4 + |payload|] == payload && s[4 + |payload|..] == rest
  {
    Pow256Values();
    LEToLE(len, 3);
    var s := [kind] + ToLE(len, 3) + payload + rest;
    assert s[1..4] == ToLE(len, 3);
  }

  lemma ChecksumParts(c: word32, body: seq<byte>)
    ensures var p := ToLE(c, 4) + body; LE(p[..4]) == c && p[4..] == body
  {
    Pow256Values();
    LEToLE(c, 4);
    assert (ToLE(c, 4) + body)[..4] == ToLE(c, 4);
  }

  /** Uncompressed data is handed out when its stored checksum is right, and else it ends the stream. */
  lemma ReadUncompressed(crc: Crc, u: seq<byte>, c: word32, rest: seq<byte>)
    requires |u| <= MAX_BLOCK_SIZE
    ensures ReadAll(crc, [0x01] + ToLE(4 + |u|, 3) + (ToLE(c, 4) + u) + rest, true) ==
            if c == crc(u) then Prepend(u, ReadAll(crc, rest, true)) else Stream([], Corrupt)
  {
    hide ReadAll, LE, ToLE;
    RawParts(0x01, 4 + |u|, ToLE(c, 4) + u, rest);
    ChecksumParts(c, u);
    ReadAllUnfold(crc, [0x01] + ToLE(4 + |u|, 3) + (ToLE(c, 4) + u) + rest, true);
  }

  /** So is compressed data. */
  lemma ReadCompressed(crc: Crc, u: seq<byte>, body: seq<byte>, c: word32, rest: seq<byte>)
    requires |u| <= MAX_BLOCK_SIZE && 4 + |body| <= READ_BUF_LEN && DenotesBlock(body, u)
    ensures ReadAll(crc, [0x00] + ToLE(4 + |body|, 3) + (ToLE(c, 4) + body) + rest, true) ==
            if c == crc(u) then Prepend(u, ReadAll(crc, rest, true)) else Stream([], Corrupt)
  {
    hide ReadAll, LE, ToLE, BlockData;
    RawParts(0x00, 4 + |body|, ToLE(c, 4) + body, rest);
    ChecksumParts(c, body);
    BlockDataIsDenotesBlock(body, u);
    ReadAllUnfold(crc, [0x00] + ToLE(4 + |body|, 3) + (ToLE(c, 4) + body) + rest, true);
  }

  /** A payload that is no block of at most 65536 bytes ends the stream. */
  lemma ReadNoBlock(crc: Crc, body: seq<byte>, c: word32, rest: seq<byte>)
    requires 4 + |body| <= READ_BUF_LEN && forall u :: DenotesBlock(body, u) ==> |u| > MAX_BLOCK_SIZE
    ensures ReadAll(crc, [0x00] + ToLE(4 + |body|, 3) + (ToLE(c, 4) + body) + rest, true) == Stream([], Corrupt)
  {
    hide ReadAll, LE, ToLE, BlockData;
    RawParts(0x00, 4 + |body|, ToLE(c, 4) + body, rest);
    ChecksumParts(c, body);
    if BlockData(body).Some? { BlockDataIsDenotesBlock(body, BlockData(body).value); }
    ReadAllUnfold(crc, [0x00] + ToLE(4 + |body|, 3) + (ToLE(c, 4) + body) + rest, true);
  }

  /** Data chunks too short for a checksum, or with too much data, end the stream. */
  lemma ReadBadLength(crc: Crc, kind: byte, payload: seq<byte>, rest: seq<byte>)
    requires |payload| <= READ_BUF_LEN
    requires (kind <= 0x01 && |payload| < 4) || (kind == 0x01 && |payload| > 4 + MAX_BLOCK_SIZE)
    ensures ReadAll(crc, [kind] + ToLE(|payload|, 3) + payload + rest, true) == Stream([], Corrupt)
  {
    hide ReadAll, LE, ToLE;
    RawParts(kind, |payload|, payload, rest);
    ReadAllUnfold(crc, [kind] + ToLE(|payload|, 3) + payload + rest, true);
  }

  /** Types 0x80 to 0xfe are skipped, 0x02 to 0x7f refused, and so is any chunk longer than the buffer. */
  lemma ReadOther(crc: Crc, kind: byte, payload: seq<byte>, rest: seq<byte>)
    requires |payload| < 0x100_0000
    requires 0x02 <= kind <= 0xfe || |payload| > READ_BUF_LEN
    ensures ReadAll(crc, [kind] + ToLE(|payload|, 3) + payload + rest, true) ==
            if kind <= 0x7f || |payload| > READ_BUF_LEN then Stream([], Unsupported) else ReadAll(crc, rest, true)
  {
    hide ReadAll, LE, ToLE;
    RawParts(kind, |payload|, payload, rest);
    ReadAllUnfold(crc, [kind] + ToLE(|payload|, 3) + payload + rest, true);
    var tail := ReadAll(crc, rest, true);
    assert [] + tail.data == tail.data;
  }

  /** The identifier may come at any time, but must come first, and says sNaPpY. */
  lemma ReadIdentifier(crc: Crc, kind: byte, payload: seq<byte>, rest: seq<byte>, header: bool)
    requires |payload| <= READ_BUF_LEN && (kind == 0xff || !header)
    ensures ReadAll(crc, [kind] + ToLE(|payload|, 3) + payload + rest, header) ==
            if kind == 0xff && payload == [0x73, 0x4e, 0x61, 0x50, 0x70, 0x59] then ReadAll(crc, rest, true)
            else Stream([], Corrupt)
  {
    hide ReadAll, LE, ToLE;
    RawParts(kind, |payload|, payload, rest);
    ReadAllUnfold(crc, [kind] + ToLE(|payload|, 3) + payload + rest, header);
    var tail := ReadAll(crc, rest, true);
    assert [] + tail.data == tail.data;
  }

  /** A chunk cut short ends the stream. */
  lemma ReadShort(crc: Crc, kind: byte, len: nat, payload: seq<byte>)
    requires |payload| < len <= READ_BUF_LEN && (kind <= 0x01 || kind >= 0x80)
    ensures ReadAll(crc, [kind] + ToLE(len, 3) + payload, true) == Stream([], Corrupt)
  {
    hide ReadAll, LE, ToLE;
    RawParts(kind, len, payload, []);
    var s := [kind] + ToLE(len, 3) + payload;
    assert s + [] == s;
    ReadAllUnfold(crc, s, true);
  }

  /** After a whole stream, whatever is read of the rest is added to it. */
  lemma ReadDamaged(crc: Crc, good: seq<byte>, bad: seq<byte>)
    requires good != [] && ReadAll(crc, good, false).end == Eof && ReadAll(crc, bad, true) == Stream([], Corrupt)
    ensures ReadAll(crc, good + bad, false) == Stream(ReadAll(crc, good, false).data, Corrupt)
  {
    hide ReadAll;
    ReadAllAppend(crc, good, bad, false);
    var m := ReadAll(crc, good, false).data;
    assert m + [] == m;
  }
}
