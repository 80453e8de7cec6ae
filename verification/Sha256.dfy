/** SHA-256: the compression of FIPS 180-4 section 6.2.2, in JavaScript and in C (src/stems/sha256.ts, native/sha256.c). */
module Sha256 {
  import opened Common
  import opened Sha256Words

  const INITIAL: seq<Word> := [
    0x6a09e667, 0xbb67ae85, 0x3c6ef372, 0xa54ff53a,
    0x510e527f, 0x9b05688c, 0x1f83d9ab, 0x5be0cd19]

  const ROUND: seq<Word> := [
    0x428a2f98, 0x71374491, 0xb5c0fbcf, 0xe9b5dba5, 0x3956c25b, 0x59f111f1,
    0x923f82a4, 0xab1c5ed5, 0xd807aa98, 0x12835b01, 0x243185be, 0x550c7dc3,
    0x72be5d74, 0x80deb1fe, 0x9bdc06a7, 0xc19bf174, 0xe49b69c1, 0xefbe4786,
    0x0fc19dc6, 0x240ca1cc, 0x2de92c6f, 0x4a7484aa, 0x5cb0a9dc, 0x76f988da,
    0x983e5152, 0xa831c66d, 0xb00327c8, 0xbf597fc7, 0xc6e00bf3, 0xd5a79147,
    0x06ca6351, 0x14292967, 0x27b70a85, 0x2e1b2138, 0x4d2c6dfc, 0x53380d13,
    0x650a7354, 0x766a0abb, 0x81c2c92e, 0x92722c85, 0xa2bfe8a1, 0xa81a664b,
    0xc24b8b70, 0xc76c51a3, 0xd192e819, 0xd6990624, 0xf40e3585, 0x106aa070,
    0x19a4c116, 0x1e376c08, 0x2748774c, 0x34b0bcb5, 0x391c0cb3, 0x4ed8aa4a,
    0x5b9cca4f, 0x682e6ff3, 0x748f82ee, 0x78a5636f, 0x84c87814, 0x8cc70208,
    0x90befffa, 0xa4506ceb, 0xbef9a3f7, 0xc67178f2]

  type State = s: seq<Word> | |s| == 8 witness INITIAL

  /** Section 4.1.2. */
  function Ch(x: Word, y: Word, z: Word): Word {
    Xor(And(x, y), And(Not(x), z))
  }

  function Maj(x: Word, y: Word, z: Word): Word {
    Xor(Xor(And(x, y), And(x, z)), And(y, z))
  }

  function BigSigma0(x: Word): Word {
    Xor(Xor(Rotr(x, 2), Rotr(x, 13)), Rotr(x, 22))
  }

  function BigSigma1(x: Word): Word {
    Xor(Xor(Rotr(x, 6), Rotr(x, 11)), Rotr(x, 25))
  }

  function SmallSigma0(x: Word): Word {
    Xor(Xor(Rotr(x, 7), Rotr(x, 18)), Shr(x, 3))
  }

  function SmallSigma1(x: Word): Word {
    Xor(Xor(Rotr(x, 17), Rotr(x, 19)), Shr(x, 10))
  }

  /** Four bytes as a word, most significant first. */
  function BigEndian(b0: Byte, b1: Byte, b2: Byte, b3: Byte): Word {
    ((b0 as int * 256 + b1 as int) * 256 + b2 as int) * 256 + b3 as int
  }

  /** The message schedule W of step 1. */
  function Schedule(block: seq<Byte>, t: nat): Word
    requires |block| == 64 && t < 64
  {
    if t < 16 then BigEndian(block[4 * t], block[4 * t + 1], block[4 * t + 2], block[4 * t + 3])
    else
      Add(Add(Add(SmallSigma1(Schedule(block, t - 2)), Schedule(block, t - 7)), SmallSigma0(Schedule(block, t - 15))), Schedule(block, t - 16))
  }

  function Temporary1(s: State, k: Word, w: Word): Word {
    Add(Add(Add(Add(s[7], BigSigma1(s[4])), Ch(s[4], s[5], s[6])), k), w)
  }

  function Temporary2(s: State): Word {
    Add(BigSigma0(s[0]), Maj(s[0], s[1], s[2]))
  }

  /** One round of step 3. */
  function Step(s: State, k: Word, w: Word): State {
    var t1 := Temporary1(s, k, w);
    [Add(t1, Temporary2(s)), s[0], s[1], s[2], Add(s[3], t1), s[4], s[5], s[6]]
  }

  /** The working variables after t rounds; before the first they are the hash value so far, that of no blocks. */
  function Rounds(s: State, block: seq<Byte>, t: nat): State
    requires |block| == 64 && t <= 64
    decreases 0, t + 1
  {
    if t == 0 then Fold(s, block, 0, 0) else Step(Rounds(s, block, t - 1), ROUND[t - 1], Schedule(block, t - 1))
  }

  lemma RoundsStart(s: State, block: seq<Byte>)
    requires |block| == 64
    ensures Rounds(s, block, 0) == s
  {
  }

  function Sum(s: State, r: State): State {
    seq(8, i requires 0 <= i < 8 => Add(s[i], r[i]))
  }

  /** The working variables of a whole block. */
  function Mixed(s: State, block: seq<Byte>): State
    requires |block| == 64
    decreases 0, 66
  {
    Rounds(s, block, 64)
  }

  /** Step 4: the intermediate hash value after a block. */
  function Compress(s: State, block: seq<Byte>): State
    requires |block| == 64
    decreases 0, 67
  {
    Sum(s, Mixed(s, block))
  }

  /** The hash value after n blocks of data. */
  function Fold(s: State, data: seq<Byte>, from: nat, n: nat): State
    requires from + 64 * n <= |data|
    decreases n, 0
  {
    if n == 0 then s
    else
      var last := from + 64 * (n - 1);
      Compress(Fold(s, data, from, n - 1), data[last..last + 64])
  }

  lemma {:induction false} FoldJoin(s: State, data: seq<Byte>, from: nat, a: nat, b: nat)
    requires from + 64 * (a + b) <= |data|
    ensures Fold(Fold(s, data, from, a), data, from + 64 * a, b) == Fold(s, data, from, a + b)
    decreases b
  {
    if b > 0 {
      FoldJoin(s, data, from, a, b - 1);
    }
  }

  lemma {:induction false} FoldSame(s: State, data: seq<Byte>, from: nat, other: seq<Byte>, at: nat, n: nat)
    requires from + 64 * n <= |data| && at + 64 * n <= |other|
    requires data[from..from + 64 * n] == other[at..at + 64 * n]
    ensures Fold(s, data, from, n) == Fold(s, other, at, n)
    decreases n
  {
    if n > 0 {
      var k := 64 * (n - 1);
      var d, o := data[from..from + 64 * n], other[at..at + 64 * n];
      assert d[..k] == data[from..from + k] && o[..k] == other[at..at + k];
      assert d[k..k + 64] == data[from + k..from + k + 64] && o[k..k + 64] == other[at + k..at + k + 64];
      FoldSame(s, data, from, other, at, n - 1);
    }
  }

  lemma FoldNext(s: State, data: seq<Byte>, from: nat, n: nat)
    requires from + 64 * (n + 1) <= |data|
    ensures Fold(s, data, from, n + 1) == Compress(Fold(s, data, from, n), data[from + 64 * n..from + 64 * n + 64])
  {
  }
}
