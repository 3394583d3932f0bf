/** The stream reader: chunks are decoded one at a time and handed out in pieces of any size. */
module SnappyReader {
  import opened Bytes
  import opened SnappyFormat
  import opened SnappyBlock
  import opened SnappyFraming

  class Reader {
    const crc: Crc
    const amd64: bool
    const decoded: array<byte>
    const buf: array<byte>
    /** What is left of the underlying reader. */
    var src: seq<byte>
    var err: Option<End>
    // decoded[i..j] has been decoded but not handed out
    var i: nat
    var j: nat
    var readHeader: bool

    ghost predicate Valid()
      reads this
    {
      && decoded.Length == MAX_BLOCK_SIZE && buf.Length == READ_BUF_LEN && decoded != buf
      && i <= j <= MAX_BLOCK_SIZE
      && (err.Some? ==> i == j)
    }

    /** Everything still to be handed out, and how it ends. */
    ghost function Rest(): Stream
      requires Valid()
      reads this, decoded
    {
      if err.Some? then Stream([], err.value)
      else Prepend(decoded[i..j], ReadAll(crc, src, readHeader))
    }

    constructor (amd64: bool, crc: Crc, src: seq<byte>)
      ensures Valid() && Rest() == ReadAll(crc, src, false)
      ensures fresh(decoded) && fresh(buf)
    {
      this.crc, this.amd64, this.src, err := crc, amd64, src, None;
      decoded, buf := new byte[MAX_BLOCK_SIZE], new byte[READ_BUF_LEN];
      i, j, readHeader := 0, 0, false;
      new;
      var s := ReadAll(crc, src, false);
      assert decoded[0..0] + s.data == s.data;
    }

    /** Fills p[..n] from the underlying reader; a shortage is an error. */
    method ReadFull(p: array<byte>, n: nat, allowEOF: bool) returns (ok: bool)
      requires n <= p.Length
      modifies this`src, this`err, p
      ensures ok == (n <= old(|src|))
      ensures ok ==> err.None? && p[..n] == old(src[..n]) && src == old(src[n..])
      ensures !ok ==> err == Some(if old(src) == [] && allowEOF then Eof else Corrupt)
      ensures p[n..] == old(p[n..])
    {
      var k := if n <= |src| then n else |src|;
      forall x | 0 <= x < k { p[x] := src[x]; }
      if k == n {
        err := None;
      } else {
        err := Some(if src == [] && allowEOF then Eof else Corrupt);
      }
      src, ok := src[k..], k == n;
    }

    /**
     Hands out up to |p| bytes. Without an error what was handed out and what is left are
     together what was left before; an error is how the stream ends, once all is handed out.
     Less than |p| bytes are handed out only when no more have been decoded.
    */
    method Read(p: array<byte>) returns (n: nat, e: Option<End>)
      requires Valid() && p != decoded && p != buf
      modifies this`src, this`err, this`i, this`j, this`readHeader, decoded, buf, p
      ensures Valid() && n <= p.Length
      ensures e.None? ==> old(Rest()) == Prepend(p[..n], Rest())
      ensures e.None? && p.Length > 0 ==> n > 0
      ensures e.None? && n < p.Length ==> i == j
      ensures e.Some? ==> n == 0 && old(Rest()) == Stream([], e.value) == Rest()
      ensures p[n..] == old(p[n..])
    {
      if err.Some? { return 0, err; }
      while true
        invariant Valid() && err.None?
        invariant Rest() == old(Rest())
        invariant p[..] == old(p[..])
        decreases |src|, if i < j then 0 else 1
      {
        if i < j {
          n := Deliver(p);
          return n, None;
        }
        var ok := NextChunk();
        if !ok { return 0, err; }
      }
    }

    method Deliver(p: array<byte>) returns (n: nat)
      requires Valid() && err.None? && i < j && p != decoded && p != buf
      modifies this`i, p
      ensures Valid() && err.None? && (n < p.Length ==> i == j) && n == (if p.Length < old(j - i) then p.Length else old(j - i))
      ensures old(Rest()) == Prepend(p[..n], Rest())
      ensures p[n..] == old(p[n..])
    {
      hide ReadAll;
      n := if p.Length < j - i then p.Length else j - i;
      CopyOut(p, n);
      ghost var tail := ReadAll(crc, src, readHeader);
      SlicesMeet(decoded[..], i, i + n, j);
      i := i + n;
      Associative(p[..n], decoded[i..j], tail.data);
    }

    method CopyOut(p: array<byte>, n: nat)
      requires i + n <= decoded.Length && n <= p.Length && p != decoded
      modifies p
      ensures p[..n] == decoded[i..i + n] && p[n..] == old(p[n..])
    {
      forall x | 0 <= x < n { p[x] := decoded[i + x]; }
    }

    /** Reads one chunk into `decoded`; not ok when the stream ends here. */
    method NextChunk() returns (ok: bool)
      requires Valid() && err.None? && i == j
      modifies this`src, this`err, this`i, this`j, this`readHeader, decoded, buf
      ensures Valid() && ok == err.None?
      ensures Rest() == old(Rest())
      ensures ok ==> |src| < old(|src|)
    {
      hide CompressedChunk, UncompressedChunk;
      ghost var src0, header0 := src, readHeader;
      assert decoded[i..j] == [];
      EmptyPrefix(ReadAll(crc, src, readHeader));
      ok := ReadFull(buf, 4, true);
      if !ok { return; }
      var kind := buf[0];
      assert src0[0] == buf[0] && buf[..4][1..4] == src0[1..4] == buf[1..4];
      if !readHeader {
        if kind != CHUNK_TYPE_STREAM_IDENTIFIER {
          err := Some(Corrupt);
          return false;
        }
        readHeader := true;
      }
      var chunkLen := LE(buf[1..4]);
      if chunkLen > buf.Length {
        err := Some(Unsupported);
        return false;
      }
      ghost var body := src;
      assert |src0| >= 4 + chunkLen ==> src0[4..4 + chunkLen] == body[..chunkLen];
      var n := 0;
      if kind == CHUNK_TYPE_COMPRESSED_DATA {
        ok, n := CompressedCase(chunkLen);
      } else if kind == CHUNK_TYPE_UNCOMPRESSED_DATA {
        ok, n := UncompressedCase(chunkLen);
      } else if kind == CHUNK_TYPE_STREAM_IDENTIFIER {
        ok := IdentifierCase(chunkLen);
      } else if kind <= 0x7f {
        err, ok := Some(Unsupported), false;
      } else {
        ok := ReadFull(buf, chunkLen, false);
      }
      if ok {
        i, j := 0, n;
        assert src0[4 + chunkLen..] == src;
        assert FirstChunk(crc, src0, header0) == Chunk(decoded[i..j], 4 + chunkLen);
      } else {
        assert FirstChunk(crc, src0, header0) == Refused(err.value);
      }
    }

    /** What the cases below leave behind when the chunk is `c`, with `len` bytes after its header. */
    twostate predicate Took(c: Chunk, len: nat, ok: bool, n: nat)
      reads this, decoded
    {
      && (ok ==> err.None? && n <= decoded.Length && len <= |old(src)| && src == old(src)[len..])
      && (ok ==> c == Chunk(decoded[..n], CHUNK_HEADER_SIZE + len))
      && (!ok ==> err.Some? && c == Refused(err.value))
    }

    method CompressedCase(chunkLen: nat) returns (ok: bool, n: nat)
      requires Valid() && err.None? && chunkLen <= buf.Length
      modifies this`src, this`err, decoded, buf
      ensures Took(if |old(src)| < chunkLen then Refused(Corrupt) else CompressedChunk(crc, old(src)[..chunkLen]), chunkLen, ok, n)
    {
      n := 0;
      if chunkLen < CHECKSUM_SIZE {
        err := Some(Corrupt);
        return false, 0;
      }
      ok := ReadFull(buf, chunkLen, false);
      if !ok { return; }
      var checksum := LE(buf[..chunkLen][..CHECKSUM_SIZE]);
      var block := buf[..chunkLen][CHECKSUM_SIZE..];
      var len := DecodedLen(block);
      if len.None? || len.value.0 > decoded.Length {
        err := Some(Corrupt);
        return false, 0;
      }
      n := len.value.0;
      var out, size;
      ok, out, size := Decode(amd64, decoded, block);
      forall m ensures BlockData(block) == Some(m) <==> DenotesBlock(block, m) { BlockDataIsDenotesBlock(block, m); }
      if !ok {
        err := Some(Corrupt);
        return;
      }
      assert BlockData(block) == Some(decoded[..n]);
      if crc(decoded[..n]) != checksum {
        err := Some(Corrupt);
        return false, 0;
      }
    }

    method UncompressedCase(chunkLen: nat) returns (ok: bool, n: nat)
      requires Valid() && err.None? && chunkLen <= buf.Length
      modifies this`src, this`err, decoded, buf
      ensures Took(if |old(src)| < chunkLen then Refused(Corrupt) else UncompressedChunk(crc, old(src)[..chunkLen]), chunkLen, ok, n)
    {
      n := 0;
      if chunkLen < CHECKSUM_SIZE {
        err := Some(Corrupt);
        return false, 0;
      }
      ghost var body := src;
      ok := ReadFull(buf, CHECKSUM_SIZE, false);
      if !ok { return; }
      var checksum := LE(buf[..CHECKSUM_SIZE]);
      n := chunkLen - CHECKSUM_SIZE;
      if n > decoded.Length {
        err := Some(Corrupt);
        return false, 0;
      }
      ok := ReadFull(decoded, n, false);
      if !ok { return; }
      assert body[..chunkLen][..CHECKSUM_SIZE] == body[..CHECKSUM_SIZE];
      assert body[..chunkLen][CHECKSUM_SIZE..] == body[CHECKSUM_SIZE..][..n];
      assert body[CHECKSUM_SIZE..][n..] == body[chunkLen..];
      if crc(decoded[..n]) != checksum {
        err := Some(Corrupt);
        return false, 0;
      }
    }

    method IdentifierCase(chunkLen: nat) returns (ok: bool)
      requires Valid() && err.None? && chunkLen <= buf.Length
      modifies this`src, this`err, buf
      ensures Took(if |old(src)| < chunkLen || old(src)[..chunkLen] != MAGIC_BODY then Refused(Corrupt)
                   else Chunk([], CHUNK_HEADER_SIZE + chunkLen), chunkLen, ok, 0)
    {
      if chunkLen != |MAGIC_BODY| {
        err := Some(Corrupt);
        return false;
      }
      ok := ReadFull(buf, |MAGIC_BODY|, false);
      if !ok { return; }
      var k := 0;
      while k < |MAGIC_BODY|
        invariant 0 <= k <= |MAGIC_BODY| && err.None?
        invariant buf[..6] == old(src)[..6] && src == old(src)[6..]
        invariant forall x :: 0 <= x < k ==> buf[x] == MAGIC_BODY[x]
      {
        if buf[k] != MAGIC_BODY[k] {
          assert buf[..6][k] != MAGIC_BODY[k];
          err := Some(Corrupt);
          return false;
        }
        k := k + 1;
      }
      assert buf[..6] == MAGIC_BODY;
    }
  }

  lemma EmptyPrefix(s: Stream)
    ensures Prepend([], s) == s
  {
    assert [] + s.data == s.data;
  }
}
