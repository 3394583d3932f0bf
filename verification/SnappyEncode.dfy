/** The compressor: hash table search, match emission, and Encode over 65536-byte blocks. */
module SnappyEncode {
  import opened Bytes
  import opened SnappyFormat
  import opened SnappyBlock
  import opened SnappyEmit

  const INPUT_MARGIN := 15
  const MIN_NON_LITERAL_BLOCK_SIZE := 17
  const MAX_TABLE_SIZE := 0x4000

  // ----- loads and hashes

  function Load32(src: seq<byte>, i: nat): nat
    requires i + 4 <= |src|
  {
    LE(src[i..i + 4])
  }

  function Load64(src: seq<byte>, i: nat): nat
    requires i + 8 <= |src|
  {
    LE(src[i..i + 8])
  }

  function ShiftRight(x: nat, k: nat): nat {
    if k == 0 then x else ShiftRight(x / 2, k - 1)
  }

  function Hash(u: nat, shift: nat): nat {
    ShiftRight(u * 0x1e35a7bd % 0x1_0000_0000, shift)
  }

  lemma LEDropFirst(bs: seq<byte>)
    requires bs != []
    ensures LE(bs) / 256 == LE(bs[1..])
  {
  }

  /** The three 4-byte loads that the encoder takes out of one 8-byte load. */
  lemma Load64Parts(src: seq<byte>, i: nat)
    requires i + 8 <= |src|
    ensures Load64(src, i) % 0x1_0000_0000 == Load32(src, i)
    ensures Load64(src, i) / 0x100 % 0x1_0000_0000 == Load32(src, i + 1)
    ensures Load64(src, i) / 0x100 / 0x100 % 0x1_0000_0000 == Load32(src, i + 2)
  {
    var w := src[i..i + 8];
    Pow256Values();
    LEPrefix(w, 4);
    LEDropFirst(w);
    LEPrefix(w[1..], 4);
    LEDropFirst(w[1..]);
    LEPrefix(w[1..][1..], 4);
    assert w[..4] == src[i..i + 4];
    assert w[1..][..4] == src[i + 1..i + 5];
    assert w[1..][1..][..4] == src[i + 2..i + 6];
  }

  // ----- matches

  /** src[s..end] repeats what stands s - c bytes before it. */
  ghost predicate Match(src: seq<byte>, c: nat, s: nat, end: nat) {
    c < s <= end <= |src| && src[c..c + (end - s)] == src[s..end]
  }

  method ExtendMatch(src: seq<byte>, i0: nat, j0: nat) returns (j: nat)
    requires i0 < j0 <= |src|
    ensures j0 <= j <= |src|
    ensures src[i0..i0 + (j - j0)] == src[j0..j]
    ensures j < |src| ==> src[i0 + (j - j0)] != src[j]
  {
    var i := i0;
    j := j0;
    while j < |src| && src[i] == src[j]
      invariant j0 <= j <= |src| && i == i0 + (j - j0)
      invariant forall k :: j0 <= k < j ==> src[k] == src[k - j0 + i0]
    {
      i, j := i + 1, j + 1;
    }
  }

  lemma MatchExtended(src: seq<byte>, c: nat, s: nat, end: nat)
    requires Match(src, c, s, s + 4) && s + 4 <= end <= |src|
    requires src[c + 4..c + 4 + (end - s - 4)] == src[s + 4..end]
    ensures Match(src, c, s, end)
  {
    assert src[c..c + (end - s)] == src[c..c + 4] + src[c + 4..c + (end - s)];
    assert src[s..end] == src[s..s + 4] + src[s + 4..end];
  }

  lemma MatchAt(src: seq<byte>, c: nat, s: nat, j: nat)
    requires Match(src, c, s, |src|) && s <= j
    ensures j < |src| ==> src[c + (j - s)] == src[j]
  {
    if j < |src| { assert src[c..c + (|src| - s)][j - s] == src[s..][j - s]; }
  }

  lemma MatchIsForwardCopy(src: seq<byte>, c: nat, s: nat, end: nat)
    requires Match(src, c, s, end)
    ensures ForwardCopy(src[..s], s - c, end - s) == src[..end]
  {
    var r := src[..end];
    forall j | s <= j < end ensures r[j] == r[j - (s - c)] {
      assert src[c..c + (end - s)][j - s] == src[s..end][j - s];
    }
    assert r[..s] == src[..s];
    ForwardCopyPeriod(src[..s], s - c, end - s, r);
  }

  // ----- what has been written

  /** dst[at..d] is the written form of src[..done], with at most `slack` / 60 bytes over 61/60 of it. */
  ghost predicate Encoded(dst: seq<byte>, at: nat, d: nat, src: seq<byte>, done: nat, slack: nat) {
    && at <= d <= |dst| && done <= |src|
    && Denotes(dst[at..d], src[..done])
    && 60 * (d - at) <= 61 * done + slack
  }

  ghost predicate Room(dst: seq<byte>, at: nat, src: seq<byte>) {
    60 * (|dst| - at) >= 61 * |src| + 60
  }

  lemma EncodedSlack(dst: seq<byte>, at: nat, d: nat, src: seq<byte>, done: nat)
    requires Encoded(dst, at, d, src, done, 0)
    ensures done <= |src| && Encoded(dst, at, d, src, done, 60)
  {
  }

  lemma EncodedNothing(dst: seq<byte>, at: nat, src: seq<byte>)
    requires at <= |dst|
    ensures Encoded(dst, at, at, src, 0, 0)
  {
    DenotesEmpty();
    assert dst[at..at] == [] && src[..0] == [];
  }

  lemma LiteralSize(lit: seq<byte>)
    requires 1 <= |lit| <= MAX_BLOCK_SIZE
    ensures 60 * |Wire(LiteralOf(lit))| <= 61 * |lit| + 60
  {
  }

  lemma Joined(before: seq<byte>, after: seq<byte>, at: nat, d: nat, w: seq<byte>)
    requires at <= d <= |before| && d + |w| <= |after| && after[..d + |w|] == before[..d] + w
    ensures after[at..d + |w|] == before[at..d] + w
  {
    assert after[at..d + |w|] == after[..d + |w|][at..];
  }

  lemma EncodedLiteral(before: seq<byte>, after: seq<byte>, at: nat, d: nat, src: seq<byte>, done: nat, s: nat, w: seq<byte>)
    requires Encoded(before, at, d, src, done, 0) && done < s <= |src| <= MAX_BLOCK_SIZE
    requires w == Wire(LiteralOf(src[done..s]))
    requires d + |w| <= |after| && after[..d + |w|] == before[..d] + w
    ensures Encoded(after, at, d + |w|, src, s, 60)
  {
    Joined(before, after, at, d, w);
    var lit := src[done..s];
    assert Denotes(before[at..d] + w, src[..s]) by {
      DenotesStep(before[at..d], src[..done], LiteralOf(lit));
      assert src[..s] == src[..done] + lit;
    }
    LiteralSize(lit);
  }

  lemma EncodedCopy(before: seq<byte>, after: seq<byte>, at: nat, d: nat, src: seq<byte>, c: nat, s: nat, end: nat, w: seq<byte>)
    requires Encoded(before, at, d, src, s, 60) && Match(src, c, s, end)
    requires s - c < 0x1_0000 && s + 4 <= end
    requires w == WireAll(SplitCopy(s - c, end - s))
    requires d + |w| <= |after| && after[..d + |w|] == before[..d] + w
    ensures Encoded(after, at, d + |w|, src, end, 0)
  {
    Joined(before, after, at, d, w);
    assert Denotes(before[at..d] + w, src[..end]) by {
      SplitCopyMeaning(src[..s], s - c, end - s);
      MatchIsForwardCopy(src, c, s, end);
      DenotesMore(before[at..d], src[..s], SplitCopy(s - c, end - s));
    }
    SplitCopySize(s - c, end - s);
  }

  /** Further elements extend what has been written and what it denotes. */
  lemma DenotesMore(src: seq<byte>, out: seq<byte>, es: seq<Element>)
    requires Denotes(src, out) && AllValid(es) && Meaning(out, es).Some?
    ensures Denotes(src + WireAll(es), Meaning(out, es).value)
  {
    var es0: seq<Element> :| AllValid(es0) && WireAll(es0) == src && Meaning([], es0) == Some(out);
    WireAllAppend(es0, es);
    MeaningAppend([], es0, es);
  }

  // ----- encodeBlock

  /** Every entry of the hash table is a position before `bound`. */
  ghost predicate TableBelow(table: array<nat>, bound: nat)
    reads table
  {
    table.Length == MAX_TABLE_SIZE && forall h :: 0 <= h < table.Length ==> table[h] < bound
  }

  method NewTable() returns (table: array<nat>)
    ensures fresh(table) && TableBelow(table, 1) && ZeroTable(table)
  {
    table := new nat[MAX_TABLE_SIZE](_ => 0);
  }

  /** The slot for a hash: its old entry is returned and replaced by `s`, kept as 16 bits. */
  method Swap(table: array<nat>, hash: nat, s: nat) returns (candidate: nat)
    requires s < 0x1_0000 && TableBelow(table, s)
    modifies table
    ensures candidate < s && TableBelow(table, s + 1)
    ensures candidate == old(table[hash % MAX_TABLE_SIZE])
    ensures table[hash % MAX_TABLE_SIZE] == s
    ensures forall h :: 0 <= h < table.Length && h != hash % MAX_TABLE_SIZE ==> table[h] == old(table[h])
  {
    candidate := table[hash % MAX_TABLE_SIZE];
    table[hash % MAX_TABLE_SIZE] := s % 0x1_0000;
  }

  /**
   The search for the next 4-byte match, skipping further ahead the longer none is found.
   `found` is false when the search reaches the margin at the end of the block. A candidate
   that is in the table for the start is taken; and none of the next 31 positions is passed
   over when its 4 bytes are those of the position before it.
  */
  method FindMatch(src: seq<byte>, table: array<nat>, shift: nat, start: nat, hash: nat)
    returns (found: bool, s: nat, candidate: nat)
    requires MIN_NON_LITERAL_BLOCK_SIZE <= |src| <= MAX_BLOCK_SIZE
    requires 1 <= start <= |src| - INPUT_MARGIN && TableBelow(table, start)
    modifies table
    ensures found ==> start <= s < |src| - INPUT_MARGIN
    ensures found ==> Match(src, candidate, s, s + 4) && TableBelow(table, s + 1)
    ensures start < |src| - INPUT_MARGIN && Load32(src, start) == Load32(src, old(table[hash % MAX_TABLE_SIZE])) ==>
              found && s == start && candidate == old(table[hash % MAX_TABLE_SIZE])
    ensures hash == Hash(Load32(src, start), shift) ==>
              forall k :: start < k < start + 32 && k < |src| - INPUT_MARGIN && Load32(src, k - 1) == Load32(src, k) ==>
                found && s <= k
  {
    var sLimit := |src| - INPUT_MARGIN;
    var skip, nextS, nextHash := 32, start, hash;
    while true
      invariant skip >= 32 && start <= nextS <= sLimit && TableBelow(table, nextS)
      invariant nextS == start ==> table[..] == old(table[..]) && nextHash == hash && skip == 32
      invariant nextS > start && Load32(src, start) == Load32(src, old(table[hash % MAX_TABLE_SIZE])) ==> start >= sLimit
      invariant hash == Hash(Load32(src, start), shift) ==> nextHash == Hash(Load32(src, nextS), shift)
      invariant nextS < start + 32 ==> skip == 32 + (nextS - start)
      invariant hash == Hash(Load32(src, start), shift) && start < nextS <= start + 32 ==>
        table[Hash(Load32(src, nextS - 1), shift) % MAX_TABLE_SIZE] == nextS - 1
      invariant hash == Hash(Load32(src, start), shift) ==>
        forall k :: start < k < start + 32 && k < nextS ==> Load32(src, k - 1) != Load32(src, k)
      decreases sLimit - nextS
    {
      s := nextS;
      var bytesBetweenHashLookups := skip / 32;
      nextS := s + bytesBetweenHashLookups;
      skip := skip + bytesBetweenHashLookups;
      if nextS > sLimit { return false, s, 0; }
      candidate := Swap(table, nextHash, s);
      nextHash := Hash(Load32(src, nextS), shift);
      if Load32(src, s) == Load32(src, candidate) {
        LEInjective(src[s..s + 4], src[candidate..candidate + 4]);
        return true, s, candidate;
      }
    }
  }

  /**
   Emits copies for as long as one match follows another. On return the block is encoded
   up to nextEmit; `more` tells whether the search goes on, from nextEmit + 1. A first match
   that reaches the end of the block is one copy.
  */
  method EmitMatches(dst: array<byte>, at: nat, d0: nat, src: seq<byte>, table: array<nat>, shift: nat,
                     s0: nat, candidate0: nat)
    returns (d: nat, nextEmit: nat, more: bool, nextHash: nat)
    requires MIN_NON_LITERAL_BLOCK_SIZE <= |src| <= MAX_BLOCK_SIZE && Room(dst[..], at, src)
    requires s0 < |src| - INPUT_MARGIN && Match(src, candidate0, s0, s0 + 4) && TableBelow(table, s0 + 1)
    requires Encoded(dst[..], at, d0, src, s0, 60)
    modifies dst, table
    ensures Encoded(dst[..], at, d, src, nextEmit, 0) && s0 < nextEmit
    ensures more ==> nextEmit < |src| - INPUT_MARGIN && TableBelow(table, nextEmit + 1)
    ensures Match(src, candidate0, s0, |src|) ==>
              !more && nextEmit == |src| && dst[..d] == old(dst[..d0]) + WireAll(SplitCopy(s0 - candidate0, |src| - s0))
    ensures dst[..at] == old(dst[..at])
  {
    hide Encoded, Denotes, Hash, Load32, Load64, WireAll, SplitCopy;
    var s, candidate := s0, candidate0;
    d := d0;
    var sLimit := |src| - INPUT_MARGIN;
    while true
      invariant s0 <= s < sLimit && Match(src, candidate, s, s + 4) && TableBelow(table, s + 1)
      invariant Encoded(dst[..], at, d, src, s, 60)
      invariant dst[..at] == old(dst[..at])
      invariant Match(src, candidate0, s0, |src|) ==> s == s0 && candidate == candidate0 && d == d0 && dst[..] == old(dst[..])
      decreases |src| - s
    {
      var base := s;
      s := ExtendMatch(src, candidate + 4, s + 4);
      if Match(src, candidate, base, |src|) { MatchAt(src, candidate, base, s); }
      MatchExtended(src, candidate, base, s);
      d := EmitMatch(dst, at, d, src, candidate, base, s);
      nextEmit := s;
      if s >= sLimit { return d, nextEmit, false, 0; }
      more, candidate, nextHash := LookAhead(src, table, shift, s);
      if !more {
        return d, nextEmit, true, nextHash;
      }
      EncodedSlack(dst[..], at, d, src, s);
    }
  }

  /**
   Records s - 1 and s in the table. `again` tells whether a match starts right at s;
   otherwise nextHash is for the search from s + 1.
  */
  method LookAhead(src: seq<byte>, table: array<nat>, shift: nat, s: nat)
    returns (again: bool, candidate: nat, nextHash: nat)
    requires |src| <= MAX_BLOCK_SIZE && 1 <= s < |src| - INPUT_MARGIN && TableBelow(table, s - 1)
    modifies table
    ensures TableBelow(table, s + 1)
    ensures again ==> Match(src, candidate, s, s + 4)
    ensures !again ==> nextHash == Hash(Load32(src, s + 1), shift)
    ensures Load32(src, s - 1) == Load32(src, s) ==> again && candidate == s - 1
  {
    var x := Load64(src, s - 1);
    Load64Parts(src, s - 1);
    var prev := Swap(table, Hash(x % 0x1_0000_0000, shift), s - 1);
    candidate := Swap(table, Hash(x / 0x100 % 0x1_0000_0000, shift), s);
    nextHash := Hash(x / 0x100 / 0x100 % 0x1_0000_0000, shift);
    again := x / 0x100 % 0x1_0000_0000 == Load32(src, candidate);
    if again { LEInjective(src[s..s + 4], src[candidate..candidate + 4]); }
  }

  /** One copy for the match of src[base..s]. */
  method EmitMatch(dst: array<byte>, at: nat, d: nat, src: seq<byte>, candidate: nat, base: nat, s: nat)
    returns (d': nat)
    requires |src| <= MAX_BLOCK_SIZE && Room(dst[..], at, src)
    requires Match(src, candidate, base, s) && base + 4 <= s && Encoded(dst[..], at, d, src, base, 60)
    modifies dst
    ensures Encoded(dst[..], at, d', src, s, 0)
    ensures dst[..d'] == old(dst[..d]) + WireAll(SplitCopy(base - candidate, s - base))
    ensures dst[..at] == old(dst[..at])
  {
    hide Denotes, Wire, WireAll, SplitCopy;
    ghost var before := dst[..];
    SplitCopySize(base - candidate, s - base);
    var n := EmitCopy(dst, d, base - candidate, s - base);
    d' := d + n;
    EncodedCopy(before, dst[..], at, d, src, candidate, base, s, WireAll(SplitCopy(base - candidate, s - base)));
    assert dst[..at] == dst[..d'][..at] == before[..at];
  }

  /** One literal for src[nextEmit..s]. */
  method EmitPending(dst: array<byte>, at: nat, d: nat, src: seq<byte>, nextEmit: nat, s: nat) returns (d': nat)
    requires |src| <= MAX_BLOCK_SIZE && Room(dst[..], at, src)
    requires nextEmit < s <= |src| && Encoded(dst[..], at, d, src, nextEmit, 0)
    modifies dst
    ensures Encoded(dst[..], at, d', src, s, 60)
    ensures dst[..d'] == old(dst[..d]) + Wire(LiteralOf(src[nextEmit..s]))
    ensures dst[..at] == old(dst[..at])
  {
    hide Denotes, Wire, LiteralOf;
    ghost var before := dst[..];
    LiteralSize(src[nextEmit..s]);
    var n := EmitLiteral(dst, d, src[nextEmit..s]);
    d' := d + n;
    EncodedLiteral(before, dst[..], at, d, src, nextEmit, s, Wire(LiteralOf(src[nextEmit..s])));
    assert dst[..at] == dst[..d'][..at] == before[..at];
  }

  /** Log-scaled to the block: 24 for a table of 256 entries down to 18 for one of 16384. */
  method TableShift(n: nat) returns (shift: nat)
    ensures 18 <= shift <= 24
  {
    shift := 24;
    var tableSize := 0x100;
    while tableSize < MAX_TABLE_SIZE && tableSize < n
      invariant 18 <= shift <= 24 && tableSize == [0x4000, 0x2000, 0x1000, 0x800, 0x400, 0x200, 0x100][shift - 18]
    {
      shift, tableSize := shift - 1, tableSize * 2;
    }
  }

  /** All bytes are the same one. */
  predicate Same(src: seq<byte>) {
    forall i :: 0 <= i < |src| ==> src[i] == src[0]
  }

  lemma SameMatches(src: seq<byte>)
    requires Same(src) && |src| >= MIN_NON_LITERAL_BLOCK_SIZE
    ensures Match(src, 0, 1, |src|) && Load32(src, 1) == Load32(src, 0)
  {
    assert forall i :: 0 <= i < |src| - 1 ==> src[0..|src| - 1][i] == src[1..][i];
    assert src[1..5] == src[0..4];
  }

  ghost predicate ZeroTable(table: array<nat>)
    reads table
  {
    table.Length == MAX_TABLE_SIZE && forall h :: 0 <= h < table.Length ==> table[h] == 0
  }

  /** A block of equal bytes becomes one byte and one copy of all others. */
  method EncodeBlock(dst: array<byte>, at: nat, src: seq<byte>) returns (d: nat)
    requires MIN_NON_LITERAL_BLOCK_SIZE <= |src| <= MAX_BLOCK_SIZE && at <= dst.Length && Room(dst[..], at, src)
    modifies dst
    ensures Encoded(dst[..], at, d, src, |src|, 60)
    ensures Same(src) ==>
              dst[..d] == old(dst[..at]) + Wire(LiteralOf(src[0..1])) + WireAll(SplitCopy(1, |src| - 1))
    ensures dst[..at] == old(dst[..at])
  {
    hide Encoded, TableBelow, Hash, Load32, WireAll, Wire, SplitCopy, LiteralOf;
    if Same(src) { SameMatches(src); }
    var shift := TableShift(|src|);
    var table := NewTable();
    var nextEmit: nat, s: nat := 0, 1;
    d := at;
    EncodedNothing(dst[..], at, src);
    var nextHash := Hash(Load32(src, s), shift);
    while true
      invariant Encoded(dst[..], at, d, src, nextEmit, 0)
      invariant nextEmit < s <= |src| - INPUT_MARGIN && TableBelow(table, s)
      invariant dst[..at] == old(dst[..at])
      invariant Same(src) ==> nextEmit == 0 && s == 1 && d == at && ZeroTable(table)
      decreases |src| - s
    {
      var found, from, candidate := FindMatch(src, table, shift, s, nextHash);
      if !found { break; }
      d := EmitPending(dst, at, d, src, nextEmit, from);
      var more;
      d, nextEmit, more, nextHash := EmitMatches(dst, at, d, src, table, shift, from, candidate);
      if !more { break; }
      s := nextEmit + 1;
    }
    EncodedSlack(dst[..], at, d, src, nextEmit);
    if nextEmit < |src| {
      d := EmitPending(dst, at, d, src, nextEmit, |src|);
    }
  }

  // ----- Encode

  /** The room to set aside for the block of `srcLen` bytes; -1 when that is too large. */
  function MaxEncodedLen(srcLen: nat): int {
    if srcLen > MAX_UINT32 then -1
    else
      var n := 32 + srcLen + srcLen / 6;
      if n > MAX_UINT32 then -1 else n
  }

  method PutUvarint(dst: array<byte>, at: nat, v: nat) returns (n: nat)
    requires at + |UvarintBytes(v)| <= dst.Length
    modifies dst
    ensures n == |UvarintBytes(v)|
    ensures dst[..at + n] == old(dst[..at]) + UvarintBytes(v)
  {
    var x := v;
    ghost var done: seq<byte> := [];
    n := 0;
    while x >= 0x80
      invariant n == |done| && done + UvarintBytes(x) == UvarintBytes(v)
      invariant dst[..at + n] == old(dst[..at]) + done
    {
      ghost var b: byte := x % 0x80 + 0x80;
      Associative(done, [b], UvarintBytes(x / 0x80));
      dst[at + n] := x % 0x80 + 0x80;
      done := done + [b];
      assert dst[..at + n + 1] == old(dst[..at]) + done;
      n, x := n + 1, x / 0x80;
    }
    dst[at + n] := x;
    n := n + 1;
  }

  /** One block of at most 65536 bytes, as a plain literal when it is too short for a copy. */
  method EncodePart(dst: array<byte>, at: nat, p: seq<byte>) returns (d: nat)
    requires 1 <= |p| <= MAX_BLOCK_SIZE && at <= dst.Length && Room(dst[..], at, p)
    modifies dst
    ensures Encoded(dst[..], at, d, p, |p|, 60)
    ensures Same(p) ==> 20 * (d - at) <= |p| + if |p| < MIN_NON_LITERAL_BLOCK_SIZE then 400 else 100
    ensures dst[..at] == old(dst[..at])
  {
    hide Denotes, Wire, WireAll, SplitCopy;
    if |p| < MIN_NON_LITERAL_BLOCK_SIZE {
      EncodedNothing(dst[..], at, p);
      d := EmitPending(dst, at, at, p, 0, |p|);
    } else {
      d := EncodeBlock(dst, at, p);
      SplitCopyShort(1, |p| - 1);
      LiteralSize(p[0..1]);
    }
  }

  /** After the length header, buf[body..d] is the written form of src[..done]. */
  ghost predicate BlocksWritten(buf: seq<byte>, at: nat, body: nat, d: nat, src: seq<byte>, done: nat) {
    && at <= body <= d <= |buf| && done <= |src|
    && buf[at..body] == UvarintBytes(|src|)
    && Denotes(buf[body..d], src[..done])
    && 60 * (d - at) <= 62 * done + (if done < |src| then 300 else 360)
  }

  lemma PartsDenote(before: seq<byte>, after: seq<byte>, body: nat, d: nat, d': nat, src: seq<byte>, done: nat, n: nat)
    requires body <= d <= d' <= |after| == |before| && done + n <= |src|
    requires after[..d] == before[..d]
    requires Denotes(before[body..d], src[..done]) && Denotes(after[d..d'], src[done..done + n])
    ensures Denotes(after[body..d'], src[..done + n])
  {
    DenotesAppend(before[body..d], src[..done], after[d..d'], src[done..done + n]);
    SlicesMeet(src, 0, done, done + n);
    assert src[0..done] == src[..done] && src[0..done + n] == src[..done + n];
    SlicesMeet(after, body, d, d');
    assert after[body..d] == after[..d][body..] == before[..d][body..] == before[body..d];
  }

  lemma BlocksWrittenNext(before: seq<byte>, after: seq<byte>, at: nat, body: nat, d: nat, d': nat,
                          src: seq<byte>, done: nat, n: nat)
    requires BlocksWritten(before, at, body, d, src, done) && done + n <= |src| && done < |src|
    requires n == MAX_BLOCK_SIZE || (n <= MAX_BLOCK_SIZE && done + n == |src|)
    requires |before| == |after| && after[..d] == before[..d]
    requires Encoded(after, d, d', src[done..done + n], n, 60)
    ensures BlocksWritten(after, at, body, d', src, done + n)
  {
    hide Denotes, UvarintBytes;
    assert src[done..done + n][..n] == src[done..done + n];
    PartsDenote(before, after, body, d, d', src, done, n);
    assert after[at..body] == after[..d][at..body] == before[..d][at..body] == before[at..body];
  }

  lemma RoomForPart(buf: seq<byte>, at: nat, d: nat, src: seq<byte>, done: nat, p: seq<byte>)
    requires at <= d <= |buf| && 0 <= MaxEncodedLen(|src|) <= |buf| - at
    requires 60 * (d - at) <= 62 * done + 300 && done + |p| <= |src|
    ensures Room(buf, d, p)
  {
  }

  /**
   encodeBlock's comment asks for MaxEncodedLen of the block's own length. With the
   MaxEncodedLen(|src|) bytes that Encode sets aside, every block after the first finds
   that, but the first exactly when there are at least two bytes more than one block.
  */
  lemma CommentRoomIff(buf: seq<byte>, at: nat, body: nat, d: nat, src: seq<byte>, done: nat, n: nat)
    requires BlocksWritten(buf, at, body, d, src, done) && done < |src|
    requires |buf| - at == MaxEncodedLen(|src|)
    requires (done == 0 && d == body) || done >= MAX_BLOCK_SIZE
    requires n == if |src| - done > MAX_BLOCK_SIZE then MAX_BLOCK_SIZE else |src| - done
    ensures |buf| - d >= MaxEncodedLen(n) <==> done > 0 || |src| >= MAX_BLOCK_SIZE + 2
  {
    hide Denotes;
    var m := |src|;
    if done == 0 {
      assert d - at == |UvarintBytes(m)|;
      HeaderSize(m);
    }
  }

  lemma HeaderSize(v: nat)
    ensures v >= 0x80 ==> |UvarintBytes(v)| >= 2
    ensures v >= 0x4000 ==> |UvarintBytes(v)| >= 3
    ensures v < 0x20_0000 ==> |UvarintBytes(v)| <= 3
    ensures v <= MAX_UINT32 ==> |UvarintBytes(v)| <= 5
  {
    if v < 0x20_0000 { UvarintSize(v, 2); }
    if v <= MAX_UINT32 { UvarintSize(v, 4); }
    if v >= 0x4000 { assert |UvarintBytes(v / 0x80)| >= 2; }
  }

  /** Already 17 bytes, the least that encodeBlock is used for, are left one byte short. */
  lemma SeventeenIsShort()
    ensures MIN_NON_LITERAL_BLOCK_SIZE == 17 && MaxEncodedLen(17) == 51 && |UvarintBytes(17)| == 1
    ensures MaxEncodedLen(17) - |UvarintBytes(17)| < MaxEncodedLen(17)
  {
  }

  /** Writes the block of `src` to buf[at..], where there is room for the worst case. */
  method EncodeTo(buf: array<byte>, at: nat, src: seq<byte>) returns (n: nat)
    requires 0 <= MaxEncodedLen(|src|) <= buf.Length - at
    modifies buf
    ensures 1 <= n <= MaxEncodedLen(|src|)
    ensures DenotesBlock(buf[at..at + n], src)
    ensures Same(src) ==> 18 * n <= |src| + 450
    ensures buf[..at] == old(buf[..at])
  {
    hide BlocksWritten, DenotesBlock, Same;
    var d: nat := EncodeHeader(buf, at, src);
    ghost var body, parts: nat := d, 0;
    var done: nat := 0;
    while done < |src|
      invariant at < d && done <= |src| && BlocksWritten(buf[..], at, body, d, src, done)
      invariant buf[..at] == old(buf[..at])
      invariant if done < |src| then done == MAX_BLOCK_SIZE * parts else MAX_BLOCK_SIZE * parts < |src| + MAX_BLOCK_SIZE
      invariant Same(src) ==> 20 * (d - at) <= done + 400 * parts + 100
    {
      var len := if |src| - done > MAX_BLOCK_SIZE then MAX_BLOCK_SIZE else |src| - done;
      d := EncodeNext(buf, at, body, d, src, done, len);
      done, parts := done + len, parts + 1;
    }
    n := d - at;
    AllWritten(buf[..], at, body, d, src);
    assert buf[..][at..d] == buf[at..d];
  }

  /** The next block of `len` bytes. */
  method EncodeNext(buf: array<byte>, at: nat, ghost body: nat, d: nat, src: seq<byte>, done: nat, len: nat)
    returns (d': nat)
    requires 0 <= MaxEncodedLen(|src|) <= buf.Length - at
    requires done < |src| && len == if |src| - done > MAX_BLOCK_SIZE then MAX_BLOCK_SIZE else |src| - done
    requires at < d && BlocksWritten(buf[..], at, body, d, src, done)
    modifies buf
    ensures d <= d' && BlocksWritten(buf[..], at, body, d', src, done + len)
    ensures Same(src) ==> 20 * (d' - d) <= len + 400
    ensures buf[..at] == old(buf[..at])
  {
    hide Denotes;
    ghost var before := buf[..];
    RoomForPart(buf[..], at, d, src, done, src[done..done + len]);
    d' := EncodePart(buf, d, src[done..done + len]);
    assert buf[..at] == buf[..d][..at] == before[..d][..at] == before[..at];
    BlocksWrittenNext(before, buf[..], at, body, d, d', src, done, len);
  }

  lemma AllWritten(buf: seq<byte>, at: nat, body: nat, d: nat, src: seq<byte>)
    requires BlocksWritten(buf, at, body, d, src, |src|) && at < d && 0 <= MaxEncodedLen(|src|)
    ensures d <= |buf| && d - at <= MaxEncodedLen(|src|) && DenotesBlock(buf[at..d], src)
  {
    hide Denotes;
    assert src[..|src|] == src;
    assert buf[at..d] == buf[at..body] + buf[body..d];
    HeaderAndBody(buf[at..d], buf[body..d], src);
  }

  method EncodeHeader(buf: array<byte>, at: nat, src: seq<byte>) returns (d: nat)
    requires 0 <= MaxEncodedLen(|src|) <= buf.Length - at
    modifies buf
    ensures at < d <= at + 5 && BlocksWritten(buf[..], at, d, d, src, 0)
    ensures buf[..at] == old(buf[..at])
  {
    UvarintSize(|src|, 4);
    var n := PutUvarint(buf, at, |src|);
    d := at + n;
    DenotesEmpty();
    assert buf[..][d..d] == [] && src[..0] == [];
    assert buf[..at] == buf[..d][..at];
    assert buf[..][at..d] == buf[..d][at..];
  }

  /**
   Encode: into dst[lo..], or into a new buffer when that is too short for the worst
   case. Not ok, where the Go code panics, exactly when `src` is too large. Equal bytes
   shrink to about an eighteenth.
  */
  method Encode(dst: array<byte>, lo: nat, src: seq<byte>) returns (ok: bool, buf: array<byte>, at: nat, n: nat)
    requires lo <= dst.Length
    modifies dst
    ensures ok <==> MaxEncodedLen(|src|) >= 0
    ensures ok ==> 1 <= n <= MaxEncodedLen(|src|)
    ensures ok ==> at + n <= buf.Length && DenotesBlock(buf[at..at + n], src)
    ensures ok && Same(src) ==> 18 * n <= |src| + 450
    ensures ok && dst.Length - lo >= MaxEncodedLen(|src|) ==> buf == dst && at == lo
    ensures ok && dst.Length - lo < MaxEncodedLen(|src|) ==> fresh(buf) && at == 0
    ensures dst[..lo] == old(dst[..lo])
  {
    var max := MaxEncodedLen(|src|);
    if max < 0 { return false, dst, 0, 0; }
    if dst.Length - lo < max {
      buf, at := new byte[max], 0;
    } else {
      buf, at := dst, lo;
    }
    n := EncodeTo(buf, at, src);
    ok := true;
  }

  /** Decoding what was encoded gives the input back, for every input Encode accepts. */
  method RoundTrip(amd64: bool, b: seq<byte>, ebuf: array<byte>, dbuf: array<byte>)
    returns (ok: bool, d: array<byte>, n: nat)
    requires MaxEncodedLen(|b|) >= 0
    modifies ebuf, dbuf
    ensures ok && n <= d.Length && d[..n] == b
  {
    var encoded, buf, at, size := Encode(ebuf, 0, b);
    ghost var block := buf[at..at + size];
    ok, d, n := Decode(amd64, dbuf, buf[at..at + size]);
    DenotesBlockUnique(block, b, d[..n]);
  }
}
