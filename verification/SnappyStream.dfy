/** Whole runs: everything written to a stream is what reading it gives back. */
module SnappyStream {
  import opened Bytes
  import opened SnappyFormat
  import opened SnappyBlock
  import opened SnappyFraming
  import opened SnappyReader
  import opened SnappyWriter

  datatype Op = WriteOp(p: seq<byte>) | FlushOp

  /** The data of a run of writes and flushes. */
  function Data(ops: seq<Op>): seq<byte> {
    if ops == [] then []
    else Data(ops[..|ops| - 1]) + (match ops[|ops| - 1] case WriteOp(p) => p case FlushOp => [])
  }

  lemma DataNothing(ops: seq<Op>)
    ensures Data(ops[..0]) == []
  {
  }

  lemma DataNext(ops: seq<Op>, k: nat)
    requires k < |ops|
    ensures Data(ops[..k + 1]) == Data(ops[..k]) + match ops[k] case WriteOp(p) => p case FlushOp => []
  {
    assert ops[..k + 1][..k] == ops[..k];
  }

  /**
   Runs `ops` on a new writer and closes it. It fails only when the sink does, and what the
   sink took still reads as the start of the data.
  */
  method WriteStream(crc: Crc, sink: Sink, buffered: bool, ops: seq<Op>) returns (ok: bool)
    requires sink.data == []
    modifies sink
    ensures sink.reliable ==> ok
    ensures ok ==> ReadAll(crc, sink.data, false) == Stream(Data(ops), Eof)
    ensures ReadAll(crc, sink.data, false).data <= Data(ops)
  {
    hide ReadAll, Data;
    DataNothing(ops);
    var w := new Writer(crc, sink, buffered);
    var k := 0;
    while k < |ops|
      invariant 0 <= k <= |ops| && w.Valid() && w.sink == sink && w.crc == crc
      invariant fresh(w) && fresh(w.ibuf) && fresh(w.obuf)
      invariant w.written == Data(ops[..k])
      invariant w.err == None || (w.err == Some(SinkFailed) && !sink.reliable)
    {
      DataNext(ops, k);
      match ops[k] {
        case WriteOp(p) => var n, e := w.Write(p);
        case FlushOp => var e := w.Flush();
      }
      k := k + 1;
    }
    assert ops[..k] == ops;
    var e := w.Close();
    ok := e.None?;
  }

  /** Reads to the end in pieces; the sizes of the pieces are `size`(0), `size`(1), ... */
  method ReadToEnd(r: Reader, size: nat -> nat) returns (data: seq<byte>, end: End)
    requires r.Valid() && forall k :: size(k) > 0
    modifies r, r.decoded, r.buf
    ensures Stream(data, end) == old(r.Rest())
  {
    hide ReadAll;
    ghost var all := r.Rest();
    data := [];
    var k := 0;
    EmptyPrefix(all);
    while true
      invariant r.Valid() && all == Prepend(data, r.Rest())
      decreases |r.Rest().data|
    {
      var p := new byte[size(k)];
      ghost var rest := r.Rest();
      var n, e := r.Read(p);
      if e.Some? { return data, e.value; }
      Associative(data, p[..n], r.Rest().data);
      data, k := data + p[..n], k + 1;
    }
  }

  /**
   Any writes and flushes, closed without a failure of the sink and read back in pieces of
   any size, give all the data written, in order; after a failure they give the start of it.
  */
  method StreamRoundTrip(crc: Crc, amd64: bool, buffered: bool, ops: seq<Op>, reliable: bool, size: nat -> nat)
    returns (ok: bool, data: seq<byte>, end: End)
    requires forall k :: size(k) > 0
    ensures reliable ==> ok
    ensures ok ==> data == Data(ops) && end == Eof
    ensures data <= Data(ops)
  {
    var sink := new Sink(reliable);
    ok := WriteStream(crc, sink, buffered, ops);
    var r := new Reader(amd64, crc, sink.data);
    data, end := ReadToEnd(r, size);
  }

  /**
   A whole stream and after it a data chunk with a checksum that is not that of its data:
   reading in pieces of any size gives the data before that chunk, and then corruption.
  */
  method ReadWrongChecksum(crc: Crc, amd64: bool, good: seq<byte>, u: seq<byte>, c: word32, rest: seq<byte>, size: nat -> nat)
    returns (data: seq<byte>, end: End)
    requires good != [] && ReadAll(crc, good, false).end == Eof
    requires |u| <= MAX_BLOCK_SIZE && c != crc(u) && forall k :: size(k) > 0
    ensures data == ReadAll(crc, good, false).data && end == Corrupt
  {
    hide ReadAll;
    var bad := [0x01] + ToLE(4 + |u|, 3) + (ToLE(c, 4) + u) + rest;
    ReadUncompressed(crc, u, c, rest);
    ReadDamaged(crc, good, bad);
    var r := new Reader(amd64, crc, good + bad);
    data, end := ReadToEnd(r, size);
  }

  /** The same for a compressed chunk. */
  method ReadWrongCompressed(crc: Crc, amd64: bool, good: seq<byte>, u: seq<byte>, body: seq<byte>, c: word32,
                             rest: seq<byte>, size: nat -> nat)
    returns (data: seq<byte>, end: End)
    requires good != [] && ReadAll(crc, good, false).end == Eof
    requires |u| <= MAX_BLOCK_SIZE && 4 + |body| <= READ_BUF_LEN && DenotesBlock(body, u) && c != crc(u)
    requires forall k :: size(k) > 0
    ensures data == ReadAll(crc, good, false).data && end == Corrupt
  {
    hide ReadAll, DenotesBlock;
    var bad := [0x00] + ToLE(4 + |body|, 3) + (ToLE(c, 4) + body) + rest;
    ReadCompressed(crc, u, body, c, rest);
    ReadDamaged(crc, good, bad);
    var r := new Reader(amd64, crc, good + bad);
    data, end := ReadToEnd(r, size);
  }
}
