/** 32-bit words, uint32_t arithmetic and the JavaScript number operations on them (FIPS 180-4, sections 2.2 and 3.2). */
module Sha256Words {
  import opened Common

  const MODULUS: int := 0x1_0000_0000

  type Word = x: int | 0 <= x < 0x1_0000_0000

  function Pow2(n: nat): (r: nat)
    ensures r > 0
  {
    if n == 0 then 1 else 2 * Pow2(n - 1)
  }

  /** The low n bits, combined pairwise. */
  function Zip(f: (bool, bool) -> bool, x: nat, y: nat, n: nat): (r: nat)
    ensures r < Pow2(n)
    decreases n, x, y
  {
    if n == 0 then 0
    else (if f(x % 2 == 1, y % 2 == 1) then 1 else 0) + 2 * Zip(f, x / 2, y / 2, n - 1)
  }

  lemma Pow32()
    ensures Pow2(32) == MODULUS
  {
    assert Pow2(8) == 256;
    assert Pow2(16) == 65536;
    assert Pow2(24) == 16777216;
  }

  function Bits(f: (bool, bool) -> bool, x: Word, y: Word): Word {
    Pow32();
    Zip(f, x, y, 32)
  }

  function And(x: Word, y: Word): Word {
    Bits((a, b) => a && b, x, y)
  }

  function Or(x: Word, y: Word): Word {
    Bits((a, b) => a || b, x, y)
  }

  function Xor(x: Word, y: Word): Word {
    Bits((a, b) => a != b, x, y)
  }

  function Not(x: Word): Word {
    MODULUS - 1 - x
  }

  function Shr(x: Word, n: nat): (r: Word)
    ensures r <= x
    decreases n, x
  {
    if n == 0 then x else Shr(x / 2, n - 1)
  }

  function Shl(x: Word, n: nat): Word
    decreases n, x
  {
    if n == 0 then x else Shl(2 * x % MODULUS, n - 1)
  }

  function Add(x: Word, y: Word): Word {
    (x + y) % MODULUS
  }

  /** ROTR of section 3.2. */
  function Rotr(x: Word, n: nat): Word
    requires n <= 32
  {
    Or(Shr(x, n), Shl(x, 32 - n))
  }

  /** ToUint32, the value of x >>> 0. */
  function ToUint32(x: int): Word {
    x % MODULUS
  }

  /** The signed number a JavaScript bit operator returns for a word. */
  function ToInt32(x: Word): (r: int)
    ensures -0x8000_0000 <= r < 0x8000_0000 && ToUint32(r) == x
  {
    if x < 0x8000_0000 then x else x - MODULUS
  }

  function JsAnd(x: int, y: int): int {
    ToInt32(And(ToUint32(x), ToUint32(y)))
  }

  function JsOr(x: int, y: int): int {
    ToInt32(Or(ToUint32(x), ToUint32(y)))
  }

  function JsXor(x: int, y: int): int {
    ToInt32(Xor(ToUint32(x), ToUint32(y)))
  }

  function JsNot(x: int): int {
    ToInt32(Not(ToUint32(x)))
  }

  function JsShl(x: int, n: nat): int {
    ToInt32(Shl(ToUint32(x), n))
  }

  function JsShr(x: int, n: nat): int {
    Shr(ToUint32(x), n)
  }

  function JsRotr(x: int, n: nat): int
    requires n <= 32
  {
    JsOr(JsShr(x, n), JsShl(x, 32 - n))
  }

  /** A JavaScript number that stands for a word: a Uint32Array element or the result of a bit operator. */
  predicate Denotes(x: int, w: Word) {
    ToUint32(x) == w && -0x8000_0000 <= x < MODULUS
  }

  lemma SumDenotes(x: int, u: Word, y: int, v: Word)
    requires ToUint32(x) == u && ToUint32(y) == v
    ensures ToUint32(x + y) == Add(u, v)
  {
  }

  /** Sums of a few words are exact doubles, and one final >>> 0 is uint32_t addition throughout. */
  lemma {:induction false} Sum4Denotes(x0: int, w0: Word, x1: int, w1: Word, x2: int, w2: Word, x3: int, w3: Word)
    requires Denotes(x0, w0) && Denotes(x1, w1) && Denotes(x2, w2) && Denotes(x3, w3)
    ensures ToUint32(x0 + x1 + x2 + x3) == Add(Add(Add(w0, w1), w2), w3)
    ensures -MAX_SAFE <= x0 + x1 + x2 + x3 <= MAX_SAFE
  {
    SumDenotes(x0, w0, x1, w1);
    SumDenotes(x0 + x1, Add(w0, w1), x2, w2);
    SumDenotes(x0 + x1 + x2, Add(Add(w0, w1), w2), x3, w3);
  }

  lemma {:induction false} Sum5Denotes(x0: int, w0: Word, x1: int, w1: Word, x2: int, w2: Word, x3: int, w3: Word, x4: int, w4: Word)
    requires Denotes(x0, w0) && Denotes(x1, w1) && Denotes(x2, w2) && Denotes(x3, w3) && Denotes(x4, w4)
    ensures ToUint32(x0 + x1 + x2 + x3 + x4) == Add(Add(Add(Add(w0, w1), w2), w3), w4)
    ensures -MAX_SAFE <= x0 + x1 + x2 + x3 + x4 <= MAX_SAFE
  {
    Sum4Denotes(x0, w0, x1, w1, x2, w2, x3, w3);
    SumDenotes(x0 + x1 + x2 + x3, Add(Add(Add(w0, w1), w2), w3), x4, w4);
  }

  /** Addition of words does not depend on the order of four terms. */
  lemma {:induction false} Add4Reversed(w0: Word, w1: Word, w2: Word, w3: Word)
    ensures Add(Add(Add(w0, w1), w2), w3) == Add(Add(Add(w3, w2), w1), w0)
  {
    Sum4Denotes(w0, w0, w1, w1, w2, w2, w3, w3);
    Sum4Denotes(w3, w3, w2, w2, w1, w1, w0, w0);
  }
}
