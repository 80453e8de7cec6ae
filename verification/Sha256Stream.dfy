/** Incremental SHA-256 over any chunking (src/stems/sha256.ts), against the padded message of FIPS 180-4. */
module Sha256Stream {
  import opened Common
  import opened Sha256Words
  import opened Sha256
  import opened Sha256Compress

  /** Blocks the Wasm memory takes at once. */
  const MAX_BLOCKS := 256

  /** Zero bytes between the 0x80 and the length when r bytes of the last block are taken: the fewest that fill a block. */
  function ZeroBytes(r: nat): (z: nat)
    requires r < 64
    ensures r + 1 + z + 8 == (if r < 56 then 64 else 128)
  {
    if r < 56 then 55 - r else 119 - r
  }

  function WordBytes(w: Word): (b: seq<Byte>)
    ensures |b| == 4 && BigEndian(b[0], b[1], b[2], b[3]) == w
  {
    [w / 0x100_0000, w / 0x1_0000 % 256, w / 256 % 256, w % 256]
  }

  /** The two words of a 64-bit number. */
  function High(bits: nat): Word {
    bits / 0x1_0000_0000 % 0x1_0000_0000
  }

  function Low(bits: nat): Word {
    bits % 0x1_0000_0000
  }

  /** The 64-bit length field. */
  function LengthBytes(bits: nat): (b: seq<Byte>)
    ensures |b| == 8
  {
    WordBytes(High(bits)) + WordBytes(Low(bits))
  }

  /** Below 2^64 bits the length field is the length. */
  lemma LengthExact(bits: nat)
    requires bits < 0x1_0000_0000_0000_0000
    ensures High(bits) as int * 0x1_0000_0000 + Low(bits) == bits
  {
  }

  /** Section 5.1.1: a one bit, zeros, and the length in bits. */
  function Padded(message: seq<Byte>): seq<Byte> {
    message + [0x80] + Zeros(ZeroBytes(|message| % 64)) + LengthBytes(8 * |message|)
  }

  lemma Remainder(n: nat, q: nat, r: nat)
    requires n == 64 * q + r && r < 64
    ensures n % 64 == r && n / 64 == q
  {
  }

  /** The padded message is whole blocks, one more than the message fills or two; its parts in order. */
  lemma {:induction false} PaddedParts(message: seq<Byte>, q: nat, r: nat)
    requires |message| == 64 * q + r && r < 64
    ensures var p, n, z := Padded(message), |message|, ZeroBytes(r);
            && |p| == n + 1 + z + 8 == 64 * (q + (if r < 56 then 1 else 2))
            && p[..n] == message && p[n] == 0x80 && p[n + 1..n + 1 + z] == Zeros(z) && p[n + 1 + z..] == LengthBytes(8 * n)
  {
    Remainder(|message|, q, r);
  }

  /** The same, block by block: p is the rest of the padded message behind the whole blocks. */
  lemma {:induction false} PaddedTail(message: seq<Byte>, q: nat, r: nat, p: seq<Byte>)
    requires |message| == 64 * q + r && r < 64 && 64 * q <= |Padded(message)| && p == Padded(message)[64 * q..]
    ensures |p| == (if r < 56 then 64 else 128) && Padded(message)[..64 * q] == message[..64 * q]
    ensures p[..r + 1] == message[64 * q..] + [0x80]
    ensures r >= 56 ==> p[r + 1..64] == Zeros(63 - r) && p[64..120] == Zeros(56) && p[120..] == LengthBytes(8 * |message|)
    ensures r < 56 ==> p[r + 1..56] == Zeros(55 - r) && p[56..] == LengthBytes(8 * |message|)
  {
    PaddedParts(message, q, r);
    var z := ZeroBytes(r);
    assert Padded(message) == message + ([0x80] + Zeros(z) + LengthBytes(8 * |message|));
    assert p == message[64 * q..] + ([0x80] + Zeros(z) + LengthBytes(8 * |message|));
  }

  function StateBytes(s: State, n: nat): seq<Byte>
    requires n <= 8
  {
    if n == 0 then [] else StateBytes(s, n - 1) + WordBytes(s[n - 1])
  }

  /** Section 6.2: the digest of a message. */
  function Sha256Of(message: seq<Byte>): seq<Byte> {
    var n := |message| / 64 + if |message| % 64 < 56 then 1 else 2;
    PaddedParts(message, |message| / 64, |message| % 64);
    StateBytes(Fold(INITIAL, Padded(message), 0, n), 8)
  }

  lemma {:induction false} DigestBlocks(message: seq<Byte>, q: nat, r: nat, n: nat)
    requires |message| == 64 * q + r && r < 64 && 64 * n == |Padded(message)|
    ensures Sha256Of(message) == StateBytes(Fold(INITIAL, Padded(message), 0, n), 8)
  {
    PaddedParts(message, q, r);
    Remainder(|message|, q, r);
  }

  /** Compressing blocks that continue the data continues the hash value. */
  lemma FoldContinues(s: State, data: seq<Byte>, q: nat, piece: seq<Byte>, at: nat, n: nat)
    requires 64 * (q + n) <= |data| && at + 64 * n <= |piece|
    requires piece[at..at + 64 * n] == data[64 * q..64 * (q + n)]
    ensures Fold(Fold(s, data, 0, q), piece, at, n) == Fold(s, data, 0, q + n)
  {
    FoldSame(Fold(s, data, 0, q), piece, at, data, 64 * q, n);
    FoldJoin(s, data, 0, q, n);
  }

  lemma SliceOfRest(data: seq<Byte>, before: nat, input: seq<Byte>, offset: nat, n: nat)
    requires before <= |data| && input == data[before..] && offset + n <= |input|
    ensures input[offset..offset + n] == data[before + offset..before + offset + n]
  {
  }

  lemma OneBlock(data: seq<Byte>, q: nat, p: seq<Byte>, b: seq<Byte>)
    requires 64 * q + 64 <= |data| && p == data[64 * q..] && |b| == 64
    requires exists k: nat :: k < 64 && b[..k] == p[..k] && b[k..] == p[k..64]
    ensures b == data[64 * q..64 * (q + 1)]
  {
    var k: nat :| k < 64 && b[..k] == p[..k] && b[k..] == p[k..64];
    assert b == b[..k] + b[k..] && p[..64] == p[..k] + p[k..64];
    assert p[..64] == data[64 * q..64 * (q + 1)];
  }

  /** The last block: what is already buffered, zeros, and the length. */
  predicate LastBytes(last: seq<Byte>, buffer: seq<Byte>, at: nat, bits: nat)
    requires at <= 56 && |buffer| == 64
  {
    && |last| == 64 && buffer[..at] == last[..at]
    && last[at..56] == Zeros(56 - at) && last[56..] == LengthBytes(bits)
  }

  lemma {:induction false} Assemble(last: seq<Byte>, b0: seq<Byte>, at: nat, bits: nat, b1: seq<Byte>, b2: seq<Byte>, b3: seq<Byte>)
    requires at <= 56 && |b0| == 64 && LastBytes(last, b0, at, bits)
    requires b1 == b0[..at] + Zeros(56 - at) + b0[56..]
    requires b2 == b1[..56] + WordBytes(High(bits)) + b1[60..]
    requires b3 == b2[..60] + WordBytes(Low(bits)) + b2[64..]
    ensures b3 == last
  {
    assert b1[..56] == last[..56];
    assert b3 == last[..56] + LengthBytes(bits);
  }

  class IncrementalSha256 {
    const state: array<Word>
    const block: array<Byte>
    const words: array<Word>
    var blockBytes: int
    var totalBytes: nat
    var finished: bool
    /** Everything hashed so far, and how many blocks of it are compressed. */
    ghost var message: seq<Byte>
    ghost var blocks: nat

    ghost predicate Shaped()
      reads this
    {
      state.Length == 8 && block.Length == 64 && words.Length == 64 && state != words
    }

    /** The first upTo bytes of the data are hashed: whole blocks in the state, the rest in the block buffer. */
    ghost predicate Hashed(data: seq<Byte>, upTo: nat)
      requires Shaped()
      reads this, state, block
    {
      && 0 <= blockBytes < 64 && 64 * blocks + blockBytes == upTo <= |data|
      && state[..] == Fold(INITIAL, data, 0, blocks)
      && block[..blockBytes] == data[64 * blocks..upTo]
    }

    ghost predicate Valid()
      reads this, state, block
    {
      Shaped() && totalBytes == |message| && Hashed(message, totalBytes)
    }

    constructor ()
      ensures Valid() && !finished && message == [] && fresh(state) && fresh(block) && fresh(words)
    {
      state := new Word[8](i requires 0 <= i < 8 => INITIAL[i]);
      block := new Byte[64](_ => 0);
      words := new Word[64](_ => 0);
      blockBytes, totalBytes, finished := 0, 0, false;
      message, blocks := [], 0;
      new;
      assert state[..] == INITIAL;
    }

    /** The Wasm backend copies at most a batch into its own memory; the other works on the bytes in place. */
    method Compress(bytes: seq<Byte>, offset: nat, blockCount: nat, backend: Backend)
      requires Shaped() && offset + 64 * blockCount <= |bytes| && blockCount <= MAX_BLOCKS
      modifies state, words
      ensures state[..] == Fold(old(state[..]), bytes, offset, blockCount)
    {
      if backend.Wasm? {
        var input := bytes[offset..offset + 64 * blockCount];
        FoldSame(state[..], bytes, offset, input, 0, blockCount);
        CompressC(state, input, blockCount, backend.simd);
      } else {
        CompressJs(state, words, bytes, offset, blockCount);
      }
    }

    /** block.set(data, at) */
    method Store(data: seq<Byte>, at: nat)
      requires block.Length == 64 && at + |data| <= 64
      modifies block
      ensures block[..] == old(block[..at]) + data + old(block[at + |data|..])
    {
      forall i | 0 <= i < |data| {
        block[at + i] := data[i];
      }
    }

    /** Fills the block buffer up; a full one is compressed. */
    method FillBlock(input: seq<Byte>, backend: Backend, ghost data: seq<Byte>, ghost before: nat) returns (offset: nat)
      requires Shaped() && Hashed(data, before) && data[before..] == input
      modifies `blockBytes, `blocks, state, block, words
      ensures offset <= |input| && Hashed(data, before + offset)
      ensures blockBytes == 0 || offset == |input|
    {
      if blockBytes == 0 {
        return 0;
      }
      var take := Min(64 - blockBytes, |input|);
      Store(input[..take], blockBytes);
      assert block[..blockBytes + take] == data[64 * blocks..before + take];
      blockBytes := blockBytes + take;
      offset := take;
      if blockBytes == 64 {
        FoldContinues(INITIAL, data, blocks, block[..], 0, 1);
        Compress(block[..], 0, 1, backend);
        blockBytes, blocks := 0, blocks + 1;
      }
    }

    /** Compresses whole blocks straight from the input, a batch at a time. */
    method Batches(input: seq<Byte>, start: nat, backend: Backend, ghost data: seq<Byte>, ghost before: nat) returns (offset: nat)
      requires Shaped() && start <= |input| && Hashed(data, before + start) && data[before..] == input
      requires blockBytes == 0 || start == |input|
      modifies `blocks, state, words
      ensures start <= offset <= |input| < offset + 64 && Hashed(data, before + offset) && (blockBytes == 0 || offset == |input|)
    {
      offset := start;
      while offset + 64 <= |input|
        invariant start <= offset <= |input| && Hashed(data, before + offset) && (blockBytes == 0 || offset == |input|)
      {
        var blockCount := Min(MAX_BLOCKS, (|input| - offset) / 64);
        SliceOfRest(data, before, input, offset, 64 * blockCount);
        FoldContinues(INITIAL, data, blocks, input, offset, blockCount);
        Compress(input, offset, blockCount, backend);
        offset, blocks := offset + 64 * blockCount, blocks + blockCount;
      }
    }

    /** Appends a chunk; the digest goes on as if the message had come in one piece. */
    method Update(input: seq<Byte>, backend: Backend) returns (ok: bool)
      requires Valid()
      modifies `blockBytes, `totalBytes, `message, `blocks, state, block, words
      ensures Valid() && ok == !finished
      ensures message == if ok then old(message) + input else old(message)
    {
      if finished {
        return false;
      }
      ghost var before := totalBytes;
      FoldSame(INITIAL, message, 0, message + input, 0, blocks);
      message := message + input;
      assert Hashed(message, before);
      totalBytes := totalBytes + |input|;
      var offset := FillBlock(input, backend, message, before);
      offset := Batches(input, offset, backend, message, before);
      if offset < |input| {
        Store(input[offset..], 0);
        blockBytes := |input| - offset;
      }
      return true;
    }

    method FillZeros(from: nat, to: nat)
      requires block.Length == 64 && from <= to <= 64
      modifies block
      ensures block[..] == old(block[..from]) + Zeros(to - from) + old(block[to..])
    {
      forall i | from <= i < to {
        block[i] := 0;
      }
    }

    /** The buffer holds the next block of the padded message: compress it. */
    method LastBlock(backend: Backend, ghost data: seq<Byte>)
      requires Shaped() && 64 * (blocks + 1) <= |data|
      requires state[..] == Fold(INITIAL, data, 0, blocks)
      requires block[..] == data[64 * blocks..64 * (blocks + 1)]
      modifies `blockBytes, `blocks, state, words
      ensures blocks == old(blocks) + 1 && blockBytes == 0 && state[..] == Fold(INITIAL, data, 0, blocks)
    {
      FoldContinues(INITIAL, data, blocks, block[..], 0, 1);
      Compress(block[..], 0, 1, backend);
      blockBytes, blocks := 0, blocks + 1;
    }

    /** What is left of the padded message is its last block, filled up to blockBytes. */
    ghost predicate InLastBlock(data: seq<Byte>, bits: nat)
      requires Shaped()
      reads this, state, block
    {
      && |data| == 64 * (blocks + 1) && state[..] == Fold(INITIAL, data, 0, blocks) && 0 <= blockBytes <= 56
      && LastBytes(data[64 * blocks..], block[..], blockBytes, bits)
    }

    /** The one bit, and a block of its own for it when the length does not fit behind it. */
    method PadFront(backend: Backend)
      requires Valid()
      modifies `blockBytes, `blocks, state, block, words
      ensures InLastBlock(Padded(message), 8 * totalBytes)
    {
      ghost var data, q, r := Padded(message), blocks, blockBytes;
      PaddedParts(message, q, r);
      ghost var p := data[64 * q..];
      PaddedTail(message, q, r, p);
      FoldSame(INITIAL, message, 0, data, 0, q);
      Store([0x80], blockBytes);
      blockBytes := blockBytes + 1;
      assert block[..r + 1] == p[..r + 1];
      if blockBytes > 56 {
        FillZeros(blockBytes, 64);
        OneBlock(data, q, p, block[..]);
        LastBlock(backend, data);
        assert data[64 * (q + 1)..] == p[64..];
      }
    }

    /** Zeros up to the length field, and the length. */
    method WriteLength(at: nat, bitLength: nat, ghost last: seq<Byte>)
      requires block.Length == 64 && at <= 56 && LastBytes(last, block[..], at, bitLength)
      modifies block
      ensures block[..] == last
    {
      ghost var b0 := block[..];
      FillZeros(at, 56);
      ghost var b1 := block[..];
      Store(WordBytes(High(bitLength)), 56);
      ghost var b2 := block[..];
      Store(WordBytes(Low(bitLength)), 60);
      Assemble(last, b0, at, bitLength, b1, b2, block[..]);
    }

    method PadBack(backend: Backend, bitLength: nat, ghost data: seq<Byte>)
      requires Shaped() && InLastBlock(data, bitLength)
      modifies `blockBytes, `blocks, state, block, words
      ensures 64 * blocks == |data| && state[..] == Fold(INITIAL, data, 0, blocks)
    {
      WriteLength(blockBytes, bitLength, data[64 * blocks..]);
      LastBlock(backend, data);
    }

    /** Pads in the block buffer and compresses what is left. */
    method Pad(backend: Backend)
      requires Valid()
      modifies `blockBytes, `blocks, state, block, words
      ensures 64 * blocks == |Padded(message)| && state[..] == Fold(INITIAL, Padded(message), 0, blocks)
    {
      var bitLength := 8 * totalBytes;
      PadFront(backend);
      PadBack(backend, bitLength, Padded(message));
    }

    /** The digest of everything appended, however it was cut. A second digest is refused. */
    method Digest(backend: Backend) returns (digest: Option<seq<Byte>>)
      requires Valid()
      modifies this, state, block, words
      ensures finished && message == old(message)
      ensures digest == if old(finished) then None else Some(Sha256Of(message))
    {
      if finished {
        return None;
      }
      finished := true;
      ghost var q, r := blocks, blockBytes;
      Pad(backend);
      DigestBlocks(message, q, r, blocks);
      var output := Output();
      return Some(output);
    }

    method Output() returns (output: seq<Byte>)
      requires state.Length == 8
      ensures output == StateBytes(state[..], 8)
    {
      output := [];
      var index := 0;
      while index < 8
        invariant 0 <= index <= 8 && output == StateBytes(state[..], index)
      {
        output := output + WordBytes(state[index]);
        index := index + 1;
      }
    }
  }
}
