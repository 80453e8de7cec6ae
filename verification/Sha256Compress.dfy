/** The two compression loops: numbers in src/stems/sha256.ts, uint32_t in native/sha256.c. Both compute Fold. */
module Sha256Compress {
  import opened Common
  import opened Sha256Words
  import opened Sha256

  /** compressionBackend: the JavaScript loop, or the Wasm module, built with vectors or without. */
  datatype Backend = Js | Wasm(simd: bool)

  /** The schedule of a block, word by word. */
  predicate Scheduled(words: seq<Word>, block: seq<Byte>, n: nat)
    requires |block| == 64 && n <= 64 && n <= |words|
  {
    forall t | 0 <= t < n :: words[t] == Schedule(block, t)
  }

  function JsSmallSigma0(x: int): int {
    JsXor(JsXor(JsRotr(x, 7), JsRotr(x, 18)), JsShr(x, 3))
  }

  function JsSmallSigma1(x: int): int {
    JsXor(JsXor(JsRotr(x, 17), JsRotr(x, 19)), JsShr(x, 10))
  }

  function JsBigSigma0(x: int): int {
    JsXor(JsXor(JsRotr(x, 2), JsRotr(x, 13)), JsRotr(x, 22))
  }

  function JsBigSigma1(x: int): int {
    JsXor(JsXor(JsRotr(x, 6), JsRotr(x, 11)), JsRotr(x, 25))
  }

  function JsCh(x: int, y: int, z: int): int {
    JsXor(JsAnd(x, y), JsAnd(JsNot(x), z))
  }

  function JsMaj(x: int, y: int, z: int): int {
    JsXor(JsXor(JsAnd(x, y), JsAnd(x, z)), JsAnd(y, z))
  }

  lemma {:induction false} ShiftsDenote(x: Word, n: nat)
    ensures JsShr(x, n) == Shr(x, n) && JsShl(x, n) == ToInt32(Shl(x, n))
  {
    assert ToUint32(x) == x;
  }

  lemma OrDenotes(x: int, u: Word, y: int, v: Word)
    requires Denotes(x, u) && Denotes(y, v)
    ensures Denotes(JsOr(x, y), Or(u, v))
  {
  }

  lemma {:induction false} RotrDenotes(x: Word, n: nat)
    requires n <= 32
    ensures Denotes(JsRotr(x, n), Rotr(x, n))
  {
    ShiftsDenote(x, n);
    ShiftsDenote(x, 32 - n);
    OrDenotes(JsShr(x, n), Shr(x, n), JsShl(x, 32 - n), Shl(x, 32 - n));
  }

  lemma XorDenotes(x: int, u: Word, y: int, v: Word)
    requires Denotes(x, u) && Denotes(y, v)
    ensures Denotes(JsXor(x, y), Xor(u, v))
  {
  }

  lemma Xor3Denotes(x: int, u: Word, y: int, v: Word, z: int, w: Word)
    requires Denotes(x, u) && Denotes(y, v) && Denotes(z, w)
    ensures Denotes(JsXor(JsXor(x, y), z), Xor(Xor(u, v), w))
  {
    XorDenotes(x, u, y, v);
    XorDenotes(JsXor(x, y), Xor(u, v), z, w);
  }

  lemma AndDenotes(x: int, u: Word, y: int, v: Word)
    requires Denotes(x, u) && Denotes(y, v)
    ensures Denotes(JsAnd(x, y), And(u, v))
  {
  }

  lemma {:induction false} SmallSigma0Denotes(x: Word)
    ensures Denotes(JsSmallSigma0(x), SmallSigma0(x))
  {
    RotrDenotes(x, 7);
    RotrDenotes(x, 18);
    ShiftsDenote(x, 3);
    Xor3Denotes(JsRotr(x, 7), Rotr(x, 7), JsRotr(x, 18), Rotr(x, 18), JsShr(x, 3), Shr(x, 3));
  }

  lemma {:induction false} SmallSigma1Denotes(x: Word)
    ensures Denotes(JsSmallSigma1(x), SmallSigma1(x))
  {
    RotrDenotes(x, 17);
    RotrDenotes(x, 19);
    ShiftsDenote(x, 10);
    Xor3Denotes(JsRotr(x, 17), Rotr(x, 17), JsRotr(x, 19), Rotr(x, 19), JsShr(x, 10), Shr(x, 10));
  }

  lemma BigSigma0Denotes(x: Word)
    ensures Denotes(JsBigSigma0(x), BigSigma0(x))
  {
    RotrDenotes(x, 2);
    RotrDenotes(x, 13);
    RotrDenotes(x, 22);
    Xor3Denotes(JsRotr(x, 2), Rotr(x, 2), JsRotr(x, 13), Rotr(x, 13), JsRotr(x, 22), Rotr(x, 22));
  }

  lemma {:induction false} BigSigma1Denotes(x: Word)
    ensures Denotes(JsBigSigma1(x), BigSigma1(x))
  {
    RotrDenotes(x, 6);
    RotrDenotes(x, 11);
    RotrDenotes(x, 25);
    Xor3Denotes(JsRotr(x, 6), Rotr(x, 6), JsRotr(x, 11), Rotr(x, 11), JsRotr(x, 25), Rotr(x, 25));
  }

  lemma {:induction false} ChDenotes(x: Word, y: Word, z: Word)
    ensures Denotes(JsCh(x, y, z), Ch(x, y, z))
  {
    AndDenotes(x, x, y, y);
    AndDenotes(JsNot(x), Not(x), z, z);
    XorDenotes(JsAnd(x, y), And(x, y), JsAnd(JsNot(x), z), And(Not(x), z));
  }

  lemma {:induction false} MajDenotes(x: Word, y: Word, z: Word)
    ensures Denotes(JsMaj(x, y, z), Maj(x, y, z))
  {
    AndDenotes(x, x, y, y);
    AndDenotes(x, x, z, z);
    AndDenotes(y, y, z, z);
    Xor3Denotes(JsAnd(x, y), And(x, y), JsAnd(x, z), And(x, z), JsAnd(y, z), And(y, z));
  }

  /** The next schedule word in numbers: signed intermediate results, one >>> 0. */
  method NextWordJs(w16: Word, w15: Word, w7: Word, w2: Word) returns (w: Word)
    ensures w == Add(Add(Add(SmallSigma1(w2), w7), SmallSigma0(w15)), w16)
  {
    var sigma0, sigma1 := JsSmallSigma0(w15), JsSmallSigma1(w2);
    SmallSigma0Denotes(w15);
    SmallSigma1Denotes(w2);
    Sum4Denotes(w16, w16, sigma0, SmallSigma0(w15), w7, w7, sigma1, SmallSigma1(w2));
    Add4Reversed(w16, SmallSigma0(w15), w7, SmallSigma1(w2));
    w := ToUint32(w16 + sigma0 + w7 + sigma1);
  }

  method ExpandJs(words: array<Word>, bytes: seq<Byte>, offset: nat)
    requires words.Length == 64 && offset + 64 <= |bytes|
    modifies words
    ensures Scheduled(words[..], bytes[offset..offset + 64], 64)
  {
    ghost var block := bytes[offset..offset + 64];
    var index := 0;
    while index < 16
      invariant 0 <= index <= 16 && Scheduled(words[..], block, index)
    {
      var at := offset + index * 4;
      words[index] := BigEndian(bytes[at], bytes[at + 1], bytes[at + 2], bytes[at + 3]);
      index := index + 1;
    }
    while index < 64
      invariant 16 <= index <= 64 && Scheduled(words[..], block, index)
    {
      words[index] := NextWordJs(words[index - 16], words[index - 15], words[index - 7], words[index - 2]);
      index := index + 1;
    }
  }

  method Sum1Js(e: Word) returns (sum1: int)
    ensures Denotes(sum1, BigSigma1(e))
  {
    BigSigma1Denotes(e);
    sum1 := JsBigSigma1(e);
  }

  method ChooseJs(e: Word, f: Word, g: Word) returns (choose: int)
    ensures Denotes(choose, Ch(e, f, g))
  {
    ChDenotes(e, f, g);
    choose := JsCh(e, f, g);
  }

  method Sum0Js(a: Word) returns (sum0: int)
    ensures Denotes(sum0, BigSigma0(a))
  {
    BigSigma0Denotes(a);
    sum0 := JsBigSigma0(a);
  }

  method MajorityJs(a: Word, b: Word, c: Word) returns (majority: int)
    ensures Denotes(majority, Maj(a, b, c))
  {
    MajDenotes(a, b, c);
    majority := JsMaj(a, b, c);
  }

  /** The sums of a round, from the numbers the bit operators gave. */
  method StepSums(h: Word, sum1: int, choose: int, k: Word, w: Word, d: Word, sum0: int, majority: int,
                  ghost u1: Word, ghost uc: Word, ghost u0: Word, ghost um: Word) returns (a: Word, e: Word)
    requires Denotes(sum1, u1) && Denotes(choose, uc) && Denotes(sum0, u0) && Denotes(majority, um)
    ensures var t1 := Add(Add(Add(Add(h, u1), uc), k), w); a == Add(t1, Add(u0, um)) && e == Add(d, t1)
  {
    Sum5Denotes(h, h, sum1, u1, choose, uc, k, k, w, w);
    var temporary1 := ToUint32(h + sum1 + choose + k + w);
    SumDenotes(sum0, u0, majority, um);
    var temporary2 := ToUint32(sum0 + majority);
    e := ToUint32(d as int + temporary1);
    a := ToUint32(temporary1 as int + temporary2);
  }

  /** One round: two variables are computed, the others move along. */
  method StepJs(s: State, k: Word, w: Word) returns (r: State)
    ensures r == Step(s, k, w)
  {
    var sum1 := Sum1Js(s[4]);
    var choose := ChooseJs(s[4], s[5], s[6]);
    var sum0 := Sum0Js(s[0]);
    var majority := MajorityJs(s[0], s[1], s[2]);
    var a, e := StepSums(s[7], sum1, choose, k, w, s[3], sum0, majority,
                         BigSigma1(s[4]), Ch(s[4], s[5], s[6]), BigSigma0(s[0]), Maj(s[0], s[1], s[2]));
    r := [a, s[0], s[1], s[2], e, s[4], s[5], s[6]];
  }

  /** The eight working variables after all rounds. */
  method RoundsJs(s: State, words: array<Word>, ghost block: seq<Byte>) returns (r: State)
    requires words.Length == 64 && |block| == 64 && Scheduled(words[..], block, 64)
    ensures r == Mixed(s, block)
  {
    r := s;
    var index := 0;
    while index < 64
      invariant 0 <= index <= 64 && r == Rounds(s, block, index)
    {
      assert words[index] == Schedule(block, index);
      r := StepJs(r, ROUND[index], words[index]);
      index := index + 1;
    }
  }

  /** Adds the working variables to the state in place. */
  method Accumulate(state: array<Word>, r: State)
    requires state.Length == 8
    modifies state
    ensures state[..] == Sum(old(state[..]), r)
  {
    var i := 0;
    while i < 8
      invariant 0 <= i <= 8
      invariant forall j | 0 <= j < i :: state[j] == Add(old(state[j]), r[j])
      invariant forall j | i <= j < 8 :: state[j] == old(state[j])
    {
      state[i] := ToUint32(state[i] as int + r[i]);
      i := i + 1;
    }
  }

  method BlockJs(state: array<Word>, words: array<Word>, bytes: seq<Byte>, at: nat)
    requires state.Length == 8 && words.Length == 64 && state != words && at + 64 <= |bytes|
    modifies state, words
    ensures state[..] == Compress(old(state[..]), bytes[at..at + 64])
  {
    ExpandJs(words, bytes, at);
    var r := RoundsJs(state[..], words, bytes[at..at + 64]);
    Accumulate(state, r);
  }

  method NextBlockJs(state: array<Word>, words: array<Word>, bytes: seq<Byte>, at: nat, ghost h: State, ghost from: nat, ghost n: nat)
    requires state.Length == 8 && words.Length == 64 && state != words && at == from + 64 * n && at + 64 <= |bytes|
    requires state[..] == Fold(h, bytes, from, n)
    modifies state, words
    ensures state[..] == Fold(h, bytes, from, n + 1)
  {
    FoldNext(h, bytes, from, n);
    BlockJs(state, words, bytes, at);
  }

  /** The JavaScript compression of whole blocks computes the hash value of section 6.2.2. */
  method CompressJs(state: array<Word>, words: array<Word>, bytes: seq<Byte>, offset: nat, blockCount: nat)
    requires state.Length == 8 && words.Length == 64 && state != words && offset + 64 * blockCount <= |bytes|
    modifies state, words
    ensures state[..] == Fold(old(state[..]), bytes, offset, blockCount)
  {
    var block, at := 0, offset;
    ghost var h := state[..];
    while block < blockCount
      invariant 0 <= block <= blockCount && at == offset + 64 * block
      invariant state[..] == Fold(h, bytes, offset, block)
    {
      NextBlockJs(state, words, bytes, at, h, offset, block);
      block, at := block + 1, at + 64;
    }
  }

  /** The lanes of wasm_i8x16_shuffle: the bytes of every 32-bit lane in reverse. */
  const LANES: seq<nat> := [3, 2, 1, 0, 7, 6, 5, 4, 11, 10, 9, 8, 15, 14, 13, 12]

  function Shuffle(v: seq<Byte>): (r: seq<Byte>)
    requires |v| == 16
    ensures |r| == 16 && forall i | 0 <= i < 16 :: r[i] == v[LANES[i]]
  {
    seq(16, i requires 0 <= i < 16 => v[LANES[i]])
  }

  /** A 32-bit lane in memory: least significant byte first. */
  function Lane(v: seq<Byte>, k: nat): Word
    requires |v| == 16 && k < 4
  {
    BigEndian(v[4 * k + 3], v[4 * k + 2], v[4 * k + 1], v[4 * k])
  }

  lemma ShuffledLane(v: seq<Byte>, k: nat)
    requires |v| == 16 && k < 4
    ensures Lane(Shuffle(v), k) == BigEndian(v[4 * k], v[4 * k + 1], v[4 * k + 2], v[4 * k + 3])
  {
  }

  /** load_first_words with vectors: four words at a time. */
  method LoadVectors(words: array<Word>, bytes: seq<Byte>, offset: nat)
    requires words.Length == 64 && offset + 64 <= |bytes|
    modifies words
    ensures Scheduled(words[..], bytes[offset..offset + 64], 16)
  {
    ghost var block := bytes[offset..offset + 64];
    var vector := 0;
    while vector < 4
      invariant 0 <= vector <= 4 && Scheduled(words[..], block, 4 * vector)
    {
      var at := offset + 16 * vector;
      var swapped := Shuffle(bytes[at..at + 16]);
      var k := 0;
      while k < 4
        invariant 0 <= k <= 4 && Scheduled(words[..], block, 4 * vector + k)
      {
        ShuffledLane(bytes[at..at + 16], k);
        words[4 * vector + k] := Lane(swapped, k);
        k := k + 1;
      }
      vector := vector + 1;
    }
  }

  /** load_first_words without them. */
  method LoadWords(words: array<Word>, bytes: seq<Byte>, offset: nat)
    requires words.Length == 64 && offset + 64 <= |bytes|
    modifies words
    ensures Scheduled(words[..], bytes[offset..offset + 64], 16)
  {
    ghost var block := bytes[offset..offset + 64];
    var index := 0;
    while index < 16
      invariant 0 <= index <= 16 && Scheduled(words[..], block, index)
    {
      var at := offset + index * 4;
      words[index] := BigEndian(bytes[at], bytes[at + 1], bytes[at + 2], bytes[at + 3]);
      index := index + 1;
    }
  }

  /** The message schedule in uint32_t. */
  method ExpandC(bytes: seq<Byte>, offset: nat, simd: bool) returns (words: array<Word>)
    requires offset + 64 <= |bytes|
    ensures fresh(words) && words.Length == 64 && Scheduled(words[..], bytes[offset..offset + 64], 64)
  {
    words := new Word[64];
    ghost var block := bytes[offset..offset + 64];
    if simd {
      LoadVectors(words, bytes, offset);
    } else {
      LoadWords(words, bytes, offset);
    }
    var index := 16;
    while index < 64
      invariant 16 <= index <= 64 && Scheduled(words[..], block, index)
    {
      var sigma0, sigma1 := SmallSigma0(words[index - 15]), SmallSigma1(words[index - 2]);
      Add4Reversed(words[index - 16], sigma0, words[index - 7], sigma1);
      words[index] := Add(Add(Add(words[index - 16], sigma0), words[index - 7]), sigma1);
      index := index + 1;
    }
  }

  method RoundsC(s: State, words: array<Word>, ghost block: seq<Byte>) returns (r: State)
    requires words.Length == 64 && |block| == 64 && Scheduled(words[..], block, 64)
    ensures r == Mixed(s, block)
  {
    var a, b, c, d := s[0], s[1], s[2], s[3];
    var e, f, g, h := s[4], s[5], s[6], s[7];
    var index := 0;
    while index < 64
      invariant 0 <= index <= 64 && [a, b, c, d, e, f, g, h] == Rounds(s, block, index)
    {
      var temporary1 := Add(Add(Add(Add(h, BigSigma1(e)), Ch(e, f, g)), ROUND[index]), words[index]);
      var temporary2 := Add(BigSigma0(a), Maj(a, b, c));
      h, g, f, e := g, f, e, Add(d, temporary1);
      d, c, b, a := c, b, a, Add(temporary1, temporary2);
      index := index + 1;
    }
    r := [a, b, c, d, e, f, g, h];
  }

  method BlockC(state: array<Word>, bytes: seq<Byte>, at: nat, simd: bool)
    requires state.Length == 8 && at + 64 <= |bytes|
    modifies state
    ensures state[..] == Compress(old(state[..]), bytes[at..at + 64])
  {
    var words := ExpandC(bytes, at, simd);
    var r := RoundsC(state[..], words, bytes[at..at + 64]);
    Accumulate(state, r);
  }

  method NextBlockC(state: array<Word>, bytes: seq<Byte>, at: nat, simd: bool, ghost h: State, ghost n: nat)
    requires state.Length == 8 && at == 64 * n && at + 64 <= |bytes|
    requires state[..] == Fold(h, bytes, 0, n)
    modifies state
    ensures state[..] == Fold(h, bytes, 0, n + 1)
  {
    FoldNext(h, bytes, 0, n);
    BlockC(state, bytes, at, simd);
  }

  /** The C compression of whole blocks computes the same hash value, built with vectors or without. */
  method CompressC(state: array<Word>, blocks: seq<Byte>, blockCount: nat, simd: bool)
    requires state.Length == 8 && 64 * blockCount <= |blocks|
    modifies state
    ensures state[..] == Fold(old(state[..]), blocks, 0, blockCount)
  {
    var block, at := 0, 0;
    ghost var h := state[..];
    while block < blockCount
      invariant 0 <= block <= blockCount && at == 64 * block
      invariant state[..] == Fold(h, blocks, 0, block)
    {
      NextBlockC(state, blocks, at, simd, h, block);
      block, at := block + 1, at + 64;
    }
  }
}
