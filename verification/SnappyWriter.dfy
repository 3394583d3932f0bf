/** The stream writer, over an underlying writer that may fail. */
module SnappyWriter {
  import opened Bytes
  import opened SnappyFormat
  import opened SnappyBlock
  import opened SnappyEncode
  import opened SnappyFraming

  const OBUF_HEADER_LEN := 18
  const OBUF_LEN := OBUF_HEADER_LEN + MAX_ENCODED_LEN_OF_MAX_BLOCK_SIZE

  /** The underlying writer. Unless it is reliable any call may fail, and take a part. */
  class Sink {
    const reliable: bool
    var data: seq<byte>

    constructor (reliable: bool)
      ensures data == [] && this.reliable == reliable
    {
      data, this.reliable := [], reliable;
    }

    method Write(p: seq<byte>) returns (ok: bool)
      modifies this
      ensures reliable ==> ok
      ensures ok ==> data == old(data) + p
      ensures old(data) <= data <= old(data) + p
    {
      ok :| reliable ==> ok;
      var taken :| 0 <= taken <= |p|;
      data := data + (if ok then p else p[..taken]);
    }
  }

  // ----- chunks added to a stream

  lemma ToLE3(v: nat)
    ensures ToLE(v, 3) == [v % 256, v / 256 % 256, v / 256 / 256 % 256]
  {
    assert ToLE(v / 256 / 256, 1) == [v / 256 / 256 % 256] + ToLE(v / 256 / 256 / 256, 0);
    assert ToLE(v / 256, 2) == [v / 256 % 256] + ToLE(v / 256 / 256, 1);
  }

  lemma ToLE4(v: nat)
    ensures ToLE(v, 4) == [v % 256, v / 256 % 256, v / 256 / 256 % 256, v / 256 / 256 / 256 % 256]
  {
    assert ToLE(v, 4) == [v % 256] + ToLE(v / 256, 3);
    ToLE3(v / 256);
  }

  /** The stream identifier goes in front of the first chunk. */
  function Identifier(sent: seq<byte>): seq<byte> {
    if sent == [] then MAGIC_CHUNK else []
  }

  lemma ChunkAdded(crc: Crc, sent: seq<byte>, m: seq<byte>, frame: seq<byte>, u: seq<byte>)
    requires ReadAll(crc, sent, false) == Stream(m, Eof) && ReadAll(crc, frame, true) == Stream(u, Eof)
    ensures ReadAll(crc, sent + (Identifier(sent) + frame), false) == Stream(m + u, Eof)
  {
    if sent == [] {
      MagicChunk(crc, false);
      ReadAllAppend(crc, MAGIC_CHUNK, frame, false);
      assert sent + (MAGIC_CHUNK + frame) == MAGIC_CHUNK + frame;
    } else {
      assert [] + frame == frame;
      ReadAllAppend(crc, sent, frame, false);
    }
  }

  datatype WriteError = SinkFailed | Closed

  class Writer {
    const crc: Crc
    const sink: Sink
    const buffered: bool
    const ibuf: array<byte>
    const obuf: array<byte>
    var ilen: nat // ibuf[..ilen] has been accepted but not sent
    var err: Option<WriteError>
    var wroteStreamHeader: bool
    /** All the data given to the writer so far. */
    ghost var written: seq<byte>

    /**
     While there is no error, what was sent and what is buffered are all that was given; and
     always, what the sink holds reads as the start of that.
    */
    ghost predicate Valid()
      reads this, sink, ibuf
      ensures Valid() ==> Buffers()
    {
      && Buffers()
      && (err.None? ==>
            && ilen <= |written| && written[|written| - ilen..] == ibuf[..ilen]
            && Sent(written[..|written| - ilen]))
      && SentPart(written)
    }

    /** What can be read back from the sink is the start of `m`. */
    ghost predicate SentPart(m: seq<byte>)
      reads this, sink
    {
      ReadAll(crc, sink.data, false).data <= m
    }

    ghost predicate Buffers()
      reads this
    {
      && obuf.Length == OBUF_LEN && ibuf.Length == MAX_BLOCK_SIZE && ibuf != obuf
      && ilen <= ibuf.Length && (!buffered ==> ilen == 0)
    }

    /** The sink holds a whole stream of the data `m`. */
    ghost predicate Sent(m: seq<byte>)
      reads this, sink
    {
      && ReadAll(crc, sink.data, false) == Stream(m, Eof)
      && (wroteStreamHeader <==> sink.data != [])
    }

    constructor (crc: Crc, sink: Sink, buffered: bool)
      requires sink.data == []
      ensures Valid() && err.None? && written == [] && ilen == 0
      ensures this.sink == sink && this.crc == crc && this.buffered == buffered
      ensures fresh(ibuf) && fresh(obuf)
    {
      this.crc, this.sink, this.buffered := crc, sink, buffered;
      ibuf, obuf := new byte[MAX_BLOCK_SIZE], new byte[OBUF_LEN];
      ilen, err, wroteStreamHeader, written := 0, None, false, [];
    }

    /**
     Sends one chunk of data, compressed when that saves more than an eighth. It never takes
     more than its header over the data, and much less for equal bytes.
    */
    method WriteChunk(u: seq<byte>, ghost m: seq<byte>)
      requires Buffers() && err.None? && Sent(m) && |u| <= MAX_BLOCK_SIZE
      modifies this`err, this`wroteStreamHeader, sink, obuf
      ensures err.None? ==> Sent(m + u)
      ensures SentPart(m + u)
      ensures err.None? ==> |sink.data| >= |old(sink.data)| + 8
      ensures err.None? ==> |sink.data| - |old(sink.data)| <= |Identifier(old(sink.data))| + 8 + |u|
      ensures err.None? && Same(u) ==> 18 * (|sink.data| - |old(sink.data)|) <= 18 * |Identifier(old(sink.data))| + |u| + 1300
      ensures err == None || (err == Some(SinkFailed) && !sink.reliable)
    {
      hide ReadAll, DenotesBlock, Frame, MaxEncodedLen;
      ghost var sent := sink.data;
      var obufStart := |MAGIC_CHUNK|;
      if !wroteStreamHeader {
        wroteStreamHeader, obufStart := true, 0;
        forall k | 0 <= k < |MAGIC_CHUNK| { obuf[k] := MAGIC_CHUNK[k]; }
      }
      ghost var identifier := Identifier(sent);
      assert obuf[..10][obufStart..] == identifier;
      var kind, obufEnd, body := FillObuf(u);
      ghost var frame := Frame(crc, kind, u, body);
      ghost var header := obuf[10..18];
      assert obuf[obufStart..18] == obuf[..10][obufStart..] + header;
      ChunkAdded(crc, sent, m, frame, u);
      ghost var whole := sent + (identifier + frame);
      var ok := sink.Write(obuf[obufStart..obufEnd]);
      if kind == CHUNK_TYPE_UNCOMPRESSED_DATA {
        Regroup(sent, identifier, header, u);
      } else {
        assert obuf[obufStart..obufEnd] == obuf[obufStart..18] + body;
        Regroup(sent, identifier, header, body);
      }
      if !ok {
        ReadAllCut(crc, sink.data, whole, false);
        err := Some(SinkFailed);
        return;
      }
      if kind == CHUNK_TYPE_UNCOMPRESSED_DATA {
        ok := sink.Write(u);
        if !ok {
          ReadAllCut(crc, sink.data, whole, false);
          err := Some(SinkFailed);
          return;
        }
      }
    }

    /**
     Builds the chunk for `u` in obuf[10..obufEnd]; the payload of an uncompressed chunk is
     not part of it.
    */
    method FillObuf(u: seq<byte>) returns (kind: byte, obufEnd: nat, ghost body: seq<byte>)
      requires obuf.Length == OBUF_LEN && |u| <= MAX_BLOCK_SIZE
      modifies obuf
      ensures obuf[..10] == old(obuf[..10]) && 18 <= obufEnd <= obuf.Length
      ensures kind == CHUNK_TYPE_COMPRESSED_DATA || kind == CHUNK_TYPE_UNCOMPRESSED_DATA
      ensures Frame(crc, kind, u, body) == obuf[10..18] + body
      ensures ReadAll(crc, Frame(crc, kind, u, body), true) == Stream(u, Eof)
      ensures if kind == CHUNK_TYPE_COMPRESSED_DATA then body == obuf[18..obufEnd] else body == u && obufEnd == 18
      ensures kind == CHUNK_TYPE_COMPRESSED_DATA ==> 8 * |body| < 7 * |u| + 8
      ensures Same(u) && |u| >= 64 ==> kind == CHUNK_TYPE_COMPRESSED_DATA && 18 * |body| <= |u| + 450
    {
      hide ReadAll, DenotesBlock, Frame, MaxEncodedLen;
      var checksum := crc(u);
      var n := EncodeToObuf(u);
      assert obuf[..18][..10] == obuf[..10];
      body := obuf[18..18 + n];
      var chunkLen;
      kind, chunkLen, obufEnd := CHUNK_TYPE_COMPRESSED_DATA, 4 + n, OBUF_HEADER_LEN + n;
      if n >= |u| - |u| / 8 {
        kind, chunkLen, obufEnd := CHUNK_TYPE_UNCOMPRESSED_DATA, 4 + |u|, OBUF_HEADER_LEN;
        body := u;
        FrameUncompressed(crc, u);
      } else {
        FrameCompressed(crc, u, body);
      }
      ghost var payload := obuf[18..];
      assert payload[..n] == obuf[18..18 + n];
      PutHeader(kind, chunkLen, checksum);
      assert obuf[18..18 + n] == obuf[18..][..n] == payload[..n];
      HeaderOfFrame(crc, kind, u, body, obuf[10..18]);
    }

    /** The block of `u` always fits behind the chunk header, so Encode never reallocates. */
    method EncodeToObuf(u: seq<byte>) returns (n: nat)
      requires obuf.Length == OBUF_LEN && |u| <= MAX_BLOCK_SIZE
      modifies obuf
      ensures 18 + n <= obuf.Length && DenotesBlock(obuf[18..18 + n], u)
      ensures Same(u) ==> 18 * n <= |u| + 450
      ensures obuf[..18] == old(obuf[..18])
    {
      var ok, buf, at;
      ok, buf, at, n := Encode(obuf, OBUF_HEADER_LEN, u);
      assert buf == obuf && at == 18;
    }

    method PutHeader(kind: byte, chunkLen: nat, checksum: word32)
      requires obuf.Length == OBUF_LEN
      modifies obuf
      ensures obuf[10..18] == [kind] + ToLE(chunkLen, 3) + ToLE(checksum, 4)
      ensures obuf[..10] == old(obuf[..10]) && obuf[18..] == old(obuf[18..])
    {
      obuf[10] := kind;
      obuf[11], obuf[12], obuf[13] := chunkLen % 256, chunkLen / 256 % 256, chunkLen / 256 / 256 % 256;
      obuf[14], obuf[15] := checksum % 256, checksum / 256 % 256;
      obuf[16], obuf[17] := checksum / 256 / 256 % 256, checksum / 256 / 256 / 256 % 256;
      ToLE3(chunkLen);
      ToLE4(checksum);
    }

    /**
     Sends `p` in chunks of at most 65536 bytes and returns how much of it was sent. The
     stream grows by 8 bytes for every chunk, once 10, and the data at most.
    */
    method WriteChunks(p: seq<byte>, ghost m: seq<byte>) returns (n: nat)
      requires Buffers() && (err.None? ==> Sent(m))
      modifies this`err, this`wroteStreamHeader, sink, obuf
      ensures n <= |p|
      ensures err.None? ==> n == |p| && Sent(m + p)
      ensures old(err).None? ==> SentPart(m + p)
      ensures err.None? ==> MAX_BLOCK_SIZE * (|sink.data| - |old(sink.data)| - 10 - |p|) <= 8 * (|p| + MAX_BLOCK_SIZE)
      ensures err.None? && Same(p) ==> 17 * (|sink.data| - |old(sink.data)|) <= |p| + 1500
      ensures old(err).Some? ==> err == old(err) && n == 0 && sink.data == old(sink.data)
      ensures err == old(err) || (err == Some(SinkFailed) && !sink.reliable)
    {
      hide ReadAll;
      n := 0;
      if err.Some? { return; }
      assert m + p[..0] == m;
      ghost var sent, k := sink.data, 0;
      while n < |p|
        invariant 0 <= n <= |p| && err.None? && Sent(m + p[..n])
        invariant if n < |p| then n == MAX_BLOCK_SIZE * k else MAX_BLOCK_SIZE * k < |p| + MAX_BLOCK_SIZE
        invariant |sent| <= |sink.data| && (k > 0 ==> sink.data != [])
        invariant |sink.data| <= |sent| + (if k > 0 then 10 else 0) + 8 * k + n
        invariant Same(p) ==> 18 * (|sink.data| - |sent|) <= (if k > 0 then 180 else 0) + n + 1300 * k
      {
        var len := if |p| - n > MAX_BLOCK_SIZE then MAX_BLOCK_SIZE else |p| - n;
        NextPart(m, p, n, len);
        WriteChunk(p[n..n + len], m + p[..n]);
        if err.Some? { return; }
        n, k := n + len, k + 1;
      }
      assert p[..n] == p;
    }

    /**
     Takes `p`; without an error all of it is accepted, and it is sent or buffered. What fits
     the buffer is only buffered.
    */
    method Write(p: seq<byte>) returns (n: nat, e: Option<WriteError>)
      requires Valid()
      modifies this`ilen, this`err, this`wroteStreamHeader, this`written, sink, ibuf, obuf
      ensures Valid() && e == err && n <= |p|
      ensures e.None? ==> n == |p|
      ensures written == old(written) + p
      ensures old(err).Some? ==> e == old(err) && n == 0 && sink.data == old(sink.data)
      ensures old(err).None? && buffered && old(ilen) + |p| <= MAX_BLOCK_SIZE ==>
                e.None? && sink.data == old(sink.data) && ilen == old(ilen) + |p|
      ensures err == old(err) || (err == Some(SinkFailed) && !sink.reliable)
    {
      hide Valid;
      if !buffered {
        n := WriteDirect(p);
        return n, err;
      }
      if err.Some? {
        Give(p);
        return 0, err;
      }
      n := 0;
      assert p[..0] == [] && written + [] == written;
      while |p| - n > ibuf.Length - ilen && err.None?
        invariant Valid() && 0 <= n <= |p|
        invariant err == None || (err == Some(SinkFailed) && !sink.reliable)
        invariant err.None? ==> written == old(written) + p[..n]
        invariant written <= old(written) + p
        invariant old(ilen) + |p| <= MAX_BLOCK_SIZE ==> err.None? && n == 0 && sink.data == old(sink.data) && ilen == old(ilen)
        decreases if err.None? then 1 else 0, |p| - n, ilen
      {
        var k := WriteSome(p[n..]);
        assert p[..n] + p[n..][..k] == p[..n + k];
        n := n + k;
      }
      if err.Some? {
        Give((old(written) + p)[|written|..]);
        return n, err;
      }
      var k := Buffer(p[n..]);
      assert p[..n] + p[n..] == p && p[n..][..k] == p[n..];
      n := n + k;
      return n, None;
    }

    /** Sends `p` directly when nothing is buffered, and else fills the buffer and flushes it. */
    method WriteSome(p: seq<byte>) returns (n: nat)
      requires Valid() && err.None? && buffered && p != []
      modifies this`ilen, this`err, this`wroteStreamHeader, this`written, sink, ibuf, obuf
      ensures Valid() && n <= |p|
      ensures err.None? ==> written == old(written) + p[..n]
      ensures written <= old(written) + p
      ensures err.None? ==> n > 0 || ilen < old(ilen)
      ensures err == None || (err == Some(SinkFailed) && !sink.reliable)
    {
      hide Sent, ReadAll;
      if ilen == 0 {
        n := WriteDirect(p);
      } else {
        n := Buffer(p);
        var _ := Flush();
      }
    }

    /** Data that a writer with an error is given does not go anywhere. */
    ghost method Give(p: seq<byte>)
      requires Valid() && err.Some?
      modifies this`written
      ensures Valid() && written == old(written) + p
    {
      hide ReadAll;
      written := written + p;
    }

    method WriteDirect(p: seq<byte>) returns (n: nat)
      requires Valid() && ilen == 0
      modifies this`err, this`wroteStreamHeader, this`written, sink, obuf
      ensures Valid() && n <= |p|
      ensures err.None? ==> n == |p|
      ensures written == old(written) + p
      ensures old(err).Some? ==> err == old(err) && n == 0 && sink.data == old(sink.data)
      ensures err == old(err) || (err == Some(SinkFailed) && !sink.reliable)
    {
      hide ReadAll;
      assert err.None? ==> written[..|written|] == written;
      n := WriteChunks(p, written);
      written := written + p;
      assert written[..|written|] == written;
      assert n == |p| ==> p[..n] == p;
    }

    /** Moves as much of `p` as fits into the buffer. */
    method Buffer(p: seq<byte>) returns (n: nat)
      requires Valid() && err.None? && buffered
      modifies this`ilen, this`written, ibuf
      ensures Valid() && err.None?
      ensures n == (if |p| < ibuf.Length - old(ilen) then |p| else ibuf.Length - old(ilen))
      ensures ilen == old(ilen) + n && written == old(written) + p[..n]
    {
      hide ReadAll;
      n := if |p| < ibuf.Length - ilen then |p| else ibuf.Length - ilen;
      BufferedMore(written, ilen, p[..n]);
      CopyIn(p, n);
      ilen, written := ilen + n, written + p[..n];
    }

    method CopyIn(p: seq<byte>, n: nat)
      requires n <= |p| && ilen + n <= ibuf.Length
      modifies ibuf
      ensures ibuf[..ilen + n] == old(ibuf[..ilen]) + p[..n]
    {
      forall x | 0 <= x < n { ibuf[ilen + x] := p[x]; }
    }

    /** Sends what is buffered. */
    method Flush() returns (e: Option<WriteError>)
      requires Valid()
      modifies this`ilen, this`err, this`wroteStreamHeader, sink, obuf
      ensures Valid() && e == err
      ensures err.None? ==> ilen == 0 && Sent(written)
      ensures err == old(err) || (err == Some(SinkFailed) && !sink.reliable && old(err).None?)
      ensures old(ilen) > 0 ==> ilen == 0 || err.Some?
    {
      hide ReadAll;
      if err.Some? { return err; }
      if ilen == 0 {
        assert written[..|written|] == written;
        return None;
      }
      ghost var m := written[..|written| - ilen];
      assert m + ibuf[..ilen] == written;
      var n := WriteChunks(ibuf[..ilen], m);
      ilen := 0;
      assert written[..|written|] == written;
      return err;
    }

    /** Flushes and refuses everything from then on. */
    method Close() returns (e: Option<WriteError>)
      requires Valid()
      modifies this`ilen, this`err, this`wroteStreamHeader, sink, obuf
      ensures Valid() && err.Some?
      ensures e.None? ==> err == Some(Closed) && Sent(written)
      ensures e.Some? ==> err == e
      ensures e == old(err) || (e == Some(SinkFailed) && !sink.reliable)
    {
      hide ReadAll;
      var _ := Flush();
      e := err;
      if err.None? { err := Some(Closed); }
    }
  }

  lemma BufferedMore(w: seq<byte>, l: nat, q: seq<byte>)
    requires l <= |w|
    ensures (w + q)[..|w + q| - (l + |q|)] == w[..|w| - l]
    ensures (w + q)[|w + q| - (l + |q|)..] == w[|w| - l..] + q
  {
  }

  lemma NextPart(m: seq<byte>, p: seq<byte>, n: nat, len: nat)
    requires n + len <= |p|
    ensures m + p[..n] + p[n..n + len] == m + p[..n + len] && m + p[..n + len] <= m + p
    ensures Same(p) ==> Same(p[n..n + len])
  {
    SlicesMeet(p, 0, n, n + len);
    Associative(m, p[..n], p[n..n + len]);
    assert p[..n + len] <= p;
    if Same(p) {
      var part := p[n..n + len];
      assert forall i :: 0 <= i < len ==> part[i] == p[n + i] == p[0];
    }
  }

  lemma Regroup(a: seq<byte>, b: seq<byte>, c: seq<byte>, d: seq<byte>)
    ensures a + ((b + c) + d) == a + (b + (c + d))
    ensures a + (b + c) + d == a + (b + (c + d))
  {
  }

  lemma HeaderOfFrame(crc: Crc, kind: byte, u: seq<byte>, body: seq<byte>, header: seq<byte>)
    requires header == [kind] + ToLE(CHECKSUM_SIZE + |body|, 3) + ToLE(crc(u), 4)
    ensures Frame(crc, kind, u, body) == header + body
  {
  }
}
