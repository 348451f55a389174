/** Streaming SHA-256 over an uninterpreted compression function. */
module Sha256 {
  import opened Types
  import opened ItchWire

  const BLOCK: nat := 64
  const MAXIMUM_BYTES: u64 := U64_MAX / 8

  type Words = s: seq<u32> | |s| == 8 witness [0, 0, 0, 0, 0, 0, 0, 0]

  type Compress = (Words, seq<byte>) -> Words

  // ----- Section 5.1.1 and section 6.2 of FIPS 180-4, byte-wise -------------------------

  /** The fewest zero bytes that complete a block behind `n` bytes, the marker and the length. */
  function ZeroBytes(n: nat): (z: nat)
    ensures z < BLOCK && (n + 1 + z + 8) % BLOCK == 0
  {
    (119 - n % BLOCK) % BLOCK
  }

  function PaddedMessage(m: seq<byte>): (r: seq<byte>)
    requires |m| <= MAXIMUM_BYTES
    ensures |r| % BLOCK == 0
  {
    PowersOf256();
    m + [0x80] + Zeros(ZeroBytes(|m|)) + WriteBE(8 * |m|, 8)
  }

  function Zeros(n: nat): (r: seq<byte>)
    ensures |r| == n
  {
    seq(n, _ => 0)
  }

  /** Compresses block by block. */
  function Fold(f: Compress, h: Words, s: seq<byte>): Words
    requires |s| % BLOCK == 0
    decreases |s|
  {
    if s == [] then h else Fold(f, f(h, s[..BLOCK]), s[BLOCK..])
  }

  function DigestOf(h: seq<u32>): (d: seq<byte>)
    ensures |d| == 4 * |h|
  {
    PowersOf256();
    if h == [] then [] else DigestOf(h[..|h| - 1]) + WriteBE(h[|h| - 1], 4)
  }

  function Hash(f: Compress, initial: Words, m: seq<byte>): seq<byte>
    requires |m| <= MAXIMUM_BYTES
  {
    DigestOf(Fold(f, initial, PaddedMessage(m)))
  }

  /** The padding of section 5.1.1 of FIPS 180-4, byte by byte: the message, a one bit, zeros, and the
      bit length with the most significant byte first, in the fewest blocks of 64 bytes. */
  lemma PaddedBytes(m: seq<byte>, i: nat)
    requires |m| <= MAXIMUM_BYTES && i < 8
    ensures var r := PaddedMessage(m); var n := |r|;
            && n % 64 == 0 && |m| + 9 <= n < |m| + 9 + 64 && r[..|m|] == m && r[|m|] == 0x80
            && (forall k :: |m| < k < n - 8 ==> r[k] == 0)
            && r[n - 8 + i] == 8 * |m| / Pow256(7 - i) % 256
  {
    hide WriteBE, Pow256;
    PowersOf256();
    WrittenDigits(8 * |m|, 8, i);
    var r := PaddedMessage(m);
    assert r[|r| - 8..] == WriteBE(8 * |m|, 8);
    assert r[|r| - 8 + i] == r[|r| - 8..][i];
  }

  /** The digest is the eight words in order, each with its most significant byte first. */
  lemma {:induction false} DigestBytes(h: seq<u32>, w: nat, i: nat)
    requires w < |h| && i < 4
    ensures DigestOf(h)[4 * w + i] == h[w] / Pow256(3 - i) % 256
  {
    hide WriteBE, Pow256;
    PowersOf256();
    var n := |h| - 1;
    if w < n {
      DigestBytes(h[..n], w, i);
    } else {
      WrittenDigits(h[n], 4, i);
    }
  }

  lemma {:induction false} FoldAppend(f: Compress, h: Words, a: seq<byte>, b: seq<byte>)
    requires |a| % BLOCK == 0 && |b| % BLOCK == 0
    ensures (|a| + |b|) % BLOCK == 0 && Fold(f, h, a + b) == Fold(f, Fold(f, h, a), b)
    decreases |a|
  {
    if a == [] {
      assert a + b == b;
    } else {
      FoldAppend(f, f(h, a[..BLOCK]), a[BLOCK..], b);
      assert (a + b)[..BLOCK] == a[..BLOCK] && (a + b)[BLOCK..] == a[BLOCK..] + b;
    }
  }

  lemma FoldBlock(f: Compress, h: Words, a: seq<byte>, block: seq<byte>)
    requires |a| % BLOCK == 0 && |block| == BLOCK
    ensures (|a| + BLOCK) % BLOCK == 0 && Fold(f, h, a + block) == f(Fold(f, h, a), block)
  {
    FoldAppend(f, h, a, block);
    assert block[..BLOCK] == block && block[BLOCK..] == [];
    assert Fold(f, f(Fold(f, h, a), block), []) == f(Fold(f, h, a), block);
  }

  // ----- The hasher ---------------------------------------------------------------------

  datatype UpdateResult = Updated | AlreadyFinalized | TooLong

  class Sha256 {
    const transform: Compress
    const initial: Words
    var state: Words
    const buffer: array<byte>
    var bufferedBytes: nat
    var totalBytes: u64
    var finalized: bool
    var digest: seq<byte>
    // All bytes given to update so far.
    ghost var fed: seq<byte>

    /** The state has compressed all whole blocks of the input and the buffer holds the rest. */
    ghost predicate Valid()
      reads this, buffer
    {
      && buffer.Length == BLOCK && totalBytes == |fed| <= MAXIMUM_BYTES && bufferedBytes == |fed| % BLOCK
      && buffer[..bufferedBytes] == fed[|fed| - bufferedBytes..]
      && (!finalized ==> state == Fold(transform, initial, fed[..|fed| - bufferedBytes]))
      && (finalized ==> digest == Hash(transform, initial, fed))
    }

    constructor (transform: Compress, initial: Words)
      ensures Valid() && fed == [] && !finalized && fresh(buffer)
      ensures this.transform == transform && this.initial == initial
    {
      this.transform, this.initial := transform, initial;
      state := initial;
      buffer := new byte[BLOCK](_ => 0);
      bufferedBytes, totalBytes, finalized, digest, fed := 0, 0, false, [], [];
    }

    /** Copies bytes into the block buffer. */
    method CopyIn(offset: nat, b: seq<byte>)
      requires buffer.Length == BLOCK && offset + |b| <= BLOCK
      modifies buffer
      ensures buffer[..offset] == old(buffer[..offset]) && buffer[offset..offset + |b|] == b
    {
      for i := 0 to |b|
        invariant buffer[..offset] == old(buffer[..offset]) && buffer[offset..offset + i] == b[..i]
      {
        buffer[offset + i] := b[i];
        assert buffer[offset..offset + i + 1] == buffer[offset..offset + i] + [b[i]];
      }
    }

    /** Takes any number of bytes; refuses them after finalize or beyond a 64-bit bit length. */
    method Update(input: seq<byte>) returns (r: UpdateResult)
      requires Valid()
      modifies this, buffer
      ensures Valid() && finalized == old(finalized)
      ensures r == if old(finalized) then AlreadyFinalized
                   else if |old(fed)| + |input| > MAXIMUM_BYTES then TooLong else Updated
      ensures fed == if r == Updated then old(fed) + input else old(fed)
    {
      if finalized {
        return AlreadyFinalized;
      }
      if |input| > MAXIMUM_BYTES - totalBytes {
        return TooLong;
      }
      AbsorbAll(input);
      return Updated;
    }

    /** Moves input bytes behind those already buffered, up to a whole block. */
    method TopUp(input: seq<byte>) returns (copied: nat)
      requires buffer.Length == BLOCK && bufferedBytes < BLOCK
      modifies this`bufferedBytes, buffer
      ensures copied <= |input| && bufferedBytes == old(bufferedBytes) + copied <= BLOCK
      ensures bufferedBytes == BLOCK || copied == |input|
      ensures buffer[..bufferedBytes] == old(buffer[..bufferedBytes]) + input[..copied]
    {
      copied := if |input| < BLOCK - bufferedBytes then |input| else BLOCK - bufferedBytes;
      CopyIn(bufferedBytes, input[..copied]);
      bufferedBytes := bufferedBytes + copied;
    }

    /** Keeps an incomplete block. */
    method Keep(rest: seq<byte>, ghost done: seq<byte>)
      requires buffer.Length == BLOCK && |rest| < BLOCK && |done| % BLOCK == 0 && !finalized
      requires state == Fold(transform, initial, done) && totalBytes == |done + rest| <= MAXIMUM_BYTES &&
               fed == done + rest
      modifies this`bufferedBytes, buffer
      ensures Valid()
    {
      hide Fold, Hash;
      SplitEnds(fed, done, rest);
      CopyIn(0, rest);
      bufferedBytes := |rest|;
      assert buffer[..bufferedBytes] == buffer[0..0 + |rest|];
    }

    /** Completes the buffered block from the input, if the input is long enough. */
    method FinishBlock(input: seq<byte>, ghost before: seq<byte>)
      returns (rest: seq<byte>, complete: bool, ghost done: seq<byte>)
      requires buffer.Length == BLOCK && bufferedBytes < BLOCK && |before| % BLOCK == 0 &&
               state == Fold(transform, initial, before)
      modifies this`state, this`bufferedBytes, buffer
      ensures |done| % BLOCK == 0 && state == Fold(transform, initial, done)
      ensures complete ==> done + rest == before + old(buffer[..bufferedBytes]) + input
      ensures !complete ==> done == before && bufferedBytes == old(bufferedBytes) + |input| < BLOCK
      ensures !complete ==> buffer[..bufferedBytes] == old(buffer[..bufferedBytes]) + input
    {
      hide Fold;
      ghost var kept := buffer[..bufferedBytes];
      var copied := TopUp(input);
      JoinParts(before, kept, input, copied);
      if bufferedBytes != BLOCK {
        assert input[..copied] == input;
        return [], false, before;
      }
      assert buffer[..] == buffer[..BLOCK];
      Transform(buffer[..], before);
      return input[copied..], true, before + buffer[..];
    }

    method AbsorbAll(input: seq<byte>)
      requires Valid() && !finalized && |fed| + |input| <= MAXIMUM_BYTES
      modifies this, buffer
      ensures Valid() && !finalized && fed == old(fed) + input
    {
      hide Fold, Hash;
      ghost var done, kept := fed[..|fed| - bufferedBytes], fed[|fed| - bufferedBytes..];
      assert fed == done + kept;
      var rest := input;
      if bufferedBytes != 0 {
        var complete;
        rest, complete, done := FinishBlock(input, done);
        if !complete {
          SplitEnds(fed + input, done, kept + input);
          totalBytes, fed := totalBytes + |input|, fed + input;
          return;
        }
      }
      rest, done := AbsorbBlocks(rest, done);
      totalBytes, fed := totalBytes + |input|, fed + input;
      Keep(rest, done);
    }

    /** Compresses one block behind the bytes already compressed. */
    method Transform(block: seq<byte>, ghost done: seq<byte>)
      requires |done| % BLOCK == 0 && |block| == BLOCK && state == Fold(transform, initial, done)
      modifies this`state
      ensures (|done| + BLOCK) % BLOCK == 0 && state == Fold(transform, initial, done + block)
    {
      FoldBlock(transform, initial, done, block);
      state := transform(state, block);
    }

    /** Compresses the whole blocks of the input directly. */
    method AbsorbBlocks(input: seq<byte>, ghost before: seq<byte>) returns (rest: seq<byte>, ghost done: seq<byte>)
      requires |before| % BLOCK == 0 && state == Fold(transform, initial, before)
      modifies this`state
      ensures |rest| < BLOCK && |done| % BLOCK == 0 && done + rest == before + input
      ensures state == Fold(transform, initial, done)
    {
      hide Fold;
      rest, done := input, before;
      while |rest| >= BLOCK
        invariant |done| % BLOCK == 0 && done + rest == before + input && state == Fold(transform, initial, done)
      {
        Transform(rest[..BLOCK], done);
        assert done + rest == (done + rest[..BLOCK]) + rest[BLOCK..];
        done, rest := done + rest[..BLOCK], rest[BLOCK..];
      }
    }

    /** Compresses the last one or two blocks. */
    method AbsorbTail(tail: seq<byte>, ghost done: seq<byte>)
      requires |done| % BLOCK == 0 && (|tail| == BLOCK || |tail| == 2 * BLOCK) &&
               state == Fold(transform, initial, done)
      modifies this`state
      ensures (|done| + |tail|) % BLOCK == 0 && state == Fold(transform, initial, done + tail)
    {
      hide Fold;
      Transform(tail[..BLOCK], done);
      if |tail| == 2 * BLOCK {
        assert done + tail == (done + tail[..BLOCK]) + tail[BLOCK..];
        Transform(tail[BLOCK..], done + tail[..BLOCK]);
      } else {
        assert tail[..BLOCK] == tail;
      }
    }

    /** The digest of everything fed; a second call returns the same digest. */
    method Finalize() returns (d: seq<byte>)
      requires Valid()
      modifies this
      ensures Valid() && finalized && fed == old(fed) && d == digest == Hash(transform, initial, fed)
      ensures old(finalized) ==> d == old(digest)
    {
      if finalized {
        return digest;
      }
      hide Fold, DigestOf, Tail, PaddedMessage;
      ghost var done, rest := fed[..|fed| - bufferedBytes], fed[|fed| - bufferedBytes..];
      assert fed == done + rest;
      PaddingTail(done, rest);
      var tail := LastBlocks(buffer[..bufferedBytes], totalBytes * 8);
      AbsorbTail(tail, done);
      digest := Serialize(state);
      finalized := true;
      return digest;
    }
  }

  /** The last one or two blocks: the rest, the marker, zeros, and the bit length at the end. */
  method LastBlocks(rest: seq<byte>, bitLength: u64) returns (r: seq<byte>)
    requires |rest| < BLOCK
    ensures r == Tail(rest, bitLength)
  {
    hide WriteBE;
    PowersOf256();
    var blocks := new byte[128](_ => 0);
    var size := if |rest| < 56 then BLOCK else 2 * BLOCK;
    for i := 0 to |rest|
      invariant forall k :: 0 <= k < 128 ==> blocks[k] == if k < i then rest[k] else 0
    {
      blocks[i] := rest[i];
    }
    blocks[|rest|] := 0x80;
    ghost var was := blocks[..];
    var image := WriteBE(bitLength, 8);
    for i := 0 to 8
      invariant forall k :: 0 <= k < 128 ==>
                  blocks[k] == if size - 8 <= k < size - 8 + i then image[k - (size - 8)] else was[k]
    {
      blocks[size - 8 + i] := image[i];
    }
    r := blocks[..size];
    assert size == |rest| + 1 + ZeroBytes(|rest|) + 8;
  }

  /** The words in big-endian order. */
  method Serialize(h: Words) returns (d: seq<byte>)
    ensures d == DigestOf(h)
  {
    hide WriteBE;
    PowersOf256();
    d := [];
    for i := 0 to 8
      invariant d == DigestOf(h[..i])
    {
      assert h[..i + 1][..i] == h[..i];
      d := d + WriteBE(h[i], 4);
    }
    assert h[..8] == h;
  }

  lemma Remainder(a: nat, b: nat)
    requires a % BLOCK == 0 && b < BLOCK
    ensures (a + b) % BLOCK == b
  {
  }

  /** What padding makes of the last, incomplete block. */
  function Tail(rest: seq<byte>, bitLength: u64): (r: seq<byte>)
    requires |rest| < BLOCK
    ensures |r| == if |rest| < 56 then BLOCK else 2 * BLOCK
  {
    PowersOf256();
    rest + [0x80] + Zeros(ZeroBytes(|rest|)) + WriteBE(bitLength, 8)
  }

  /** Padding touches only the last, incomplete block. */
  lemma PaddingTail(a: seq<byte>, b: seq<byte>)
    requires |a + b| <= MAXIMUM_BYTES && |a| % BLOCK == 0 && |b| < BLOCK
    ensures PaddedMessage(a + b) == a + Tail(b, 8 * |a + b|)
  {
    hide WriteBE, ZeroBytes, Zeros;
    PowersOf256();
    assert ZeroBytes(|a + b|) == ZeroBytes(|b|) by { SameZeros(|a|, |b|); }
    Associate(a, b, [0x80], Zeros(ZeroBytes(|b|)), WriteBE(8 * |a + b|, 8));
  }

  lemma SameZeros(a: nat, b: nat)
    requires a % BLOCK == 0 && b < BLOCK
    ensures ZeroBytes(a + b) == ZeroBytes(b)
  {
    Remainder(a, b);
  }

  lemma Associate(a: seq<byte>, b: seq<byte>, c: seq<byte>, d: seq<byte>, e: seq<byte>)
    ensures a + b + c + d + e == a + (b + c + d + e)
  {
  }

  lemma JoinParts(done: seq<byte>, kept: seq<byte>, input: seq<byte>, copied: nat)
    requires copied <= |input|
    ensures done + kept + input == (done + (kept + input[..copied])) + input[copied..]
    ensures copied == |input| ==> done + kept + input == done + (kept + input[..copied])
  {
    assert input == input[..copied] + input[copied..];
  }

  lemma SplitEnds(all: seq<byte>, done: seq<byte>, rest: seq<byte>)
    requires all == done + rest && |done| % BLOCK == 0 && |rest| < BLOCK
    ensures |all| % BLOCK == |rest| && all[..|all| - |rest|] == done && all[|all| - |rest|..] == rest
  {
    Remainder(|done|, |rest|);
  }

  // ----- Independence of the split ------------------------------------------------------

  function Concat(parts: seq<seq<byte>>): seq<byte> {
    if parts == [] then [] else Concat(parts[..|parts| - 1]) + parts[|parts| - 1]
  }

  /** However the input is split over update calls, the digest is that of the whole. */
  method HashParts(f: Compress, initial: Words, parts: seq<seq<byte>>) returns (d: seq<byte>)
    requires |Concat(parts)| <= MAXIMUM_BYTES
    ensures d == Hash(f, initial, Concat(parts))
  {
    hide Hash;
    var h := new Sha256(f, initial);
    for i := 0 to |parts|
      invariant h.Valid() && !h.finalized && h.fed == Concat(parts[..i]) && fresh(h) && fresh(h.buffer)
      invariant h.transform == f && h.initial == initial
    {
      PrefixShorter(parts, i + 1);
      assert parts[..i + 1][..i] == parts[..i];
      var _ := h.Update(parts[i]);
    }
    assert parts[..|parts|] == parts;
    d := h.Finalize();
  }

  lemma {:induction false} PrefixShorter(parts: seq<seq<byte>>, i: nat)
    requires i <= |parts|
    ensures |Concat(parts[..i])| <= |Concat(parts)|
    decreases |parts| - i
  {
    if i < |parts| {
      PrefixShorter(parts, i + 1);
      assert parts[..i + 1][..i] == parts[..i];
    } else {
      assert parts[..i] == parts;
    }
  }
}
