/** Bytes, safe integers and result values shared by every component. */
module Common {

  type Byte = b: int | 0 <= b < 256

  /** Number.MAX_SAFE_INTEGER: every double up to here is an exact integer. */
  const MAX_SAFE: int := 9007199254740991

  predicate SafeInt(x: int, minimum: int) {
    minimum <= x <= MAX_SAFE
  }

  datatype Option<+T> = None | Some(value: T)

  datatype Result<+T, +E> = Ok(value: T) | Err(error: E)

  function Min(a: int, b: int): int {
    if a <= b then a else b
  }

  function Max(a: int, b: int): int {
    if a >= b then a else b
  }

  /** A fresh Uint8Array: n zero bytes. */
  function Zeros(n: nat): (z: seq<Byte>)
    ensures |z| == n
    ensures forall i :: 0 <= i < n ==> z[i] == 0
  {
    seq(n, _ => 0)
  }

  lemma ZerosConcat(a: nat, b: nat)
    ensures Zeros(a) + Zeros(b) == Zeros(a + b)
  {
  }

  lemma SliceOfSlice(s: seq<Byte>, a: int, b: int, i: int, j: int)
    requires 0 <= a <= i <= j <= b <= |s|
    ensures s[a..b][i - a..j - a] == s[i..j]
  {
    var t := s[a..b];
    assert forall k :: 0 <= k < j - i ==> t[i - a..j - a][k] == t[i - a + k] == s[i + k] == s[i..j][k];
  }

  lemma SliceJoins(data: seq<Byte>, a: int, b: int, c: int)
    requires 0 <= a <= b <= c <= |data|
    ensures data[a..b] + data[b..c] == data[a..c]
  {
  }

  /** What a read of a range brings when some bytes are missing at its end. */
  function Brought(piece: seq<Byte>, missing: nat): seq<Byte> {
    if missing <= |piece| then piece[..|piece| - missing] else []
  }

  lemma BroughtWhole(piece: seq<Byte>, missing: nat)
    ensures |Brought(piece, missing)| == |piece| ==> Brought(piece, missing) == piece
    ensures piece != [] ==> (|Brought(piece, missing)| == |piece| <==> missing == 0)
  {
  }

  /** Products distribute; stated once so that callers need no nonlinear search. */
  lemma MulSum(a: int, b: int, m: int)
    ensures (a + b) * m == a * m + b * m
    ensures (a - b) * m == a * m - b * m
  {
  }

  lemma MulMono(a: int, b: int, m: int)
    requires a <= b && 0 <= m
    ensures a * m <= b * m
  {
  }

  lemma MulCancel(a: int, b: int, m: int)
    requires 0 < m
    ensures a * m < b * m <==> a < b
    ensures a * m == b * m <==> a == b
  {
  }

  /** Division with remainder is unique. */
  lemma {:induction false} Quotient(n: int, q: int, r: int, m: int)
    requires 0 < m && n == m * q + r && 0 <= r < m
    ensures n / m == q && n % m == r
  {
    var d := n / m - q;
    assert m * d == r - n % m;
    if d >= 1 {
      MulMono(1, d, m);
    } else if d <= -1 {
      MulMono(d, -1, m);
    }
  }

  lemma {:induction false} DivMulExact(n: int, m: int)
    requires 0 < m && 0 <= n
    ensures n * m / m == n && n * m % m == 0
  {
    Quotient(n * m, n, 0, m);
  }

  predicate NoRepeats(s: seq<int>) {
    forall i, j | 0 <= i < j < |s| :: s[i] != s[j]
  }

  lemma NoRepeatsMore(s: seq<int>, x: int)
    requires NoRepeats(s) && x !in s
    ensures NoRepeats(s + [x])
  {
  }

  lemma {:induction false} CountOnce(s: seq<int>, x: int)
    requires NoRepeats(s)
    ensures multiset(s)[x] == if x in s then 1 else 0
  {
    if s != [] {
      var n := |s| - 1;
      assert s == s[..n] + [s[n]];
      assert forall i | 0 <= i < n :: s[i] != s[n];
      CountOnce(s[..n], x);
    }
  }
}
