/** The order in which the pump offers sources a read (src/stems/pump.ts). */
module PumpOrder {
  import opened Common

  /** What the comparator looks at. */
  datatype Key = Key(windowed: bool, occupancy: int)

  /** The comparator is negative: no window first, then the shortest runway. */
  predicate Below(a: Key, b: Key) {
    (!a.windowed && b.windowed) || (a.windowed == b.windowed && a.occupancy < b.occupancy)
  }

  /** The source visited at a step of the round. */
  function Turn(roundRobin: int, step: int, n: int): int {
    if roundRobin + step < n then roundRobin + step else roundRobin + step - n
  }

  /** The step at which a source is visited. */
  function Rank(roundRobin: int, i: int, n: int): int {
    if i >= roundRobin then i - roundRobin else i - roundRobin + n
  }

  lemma TurnIsModulo(roundRobin: int, step: int, n: int)
    requires 0 <= roundRobin < n && 0 <= step < n
    ensures Turn(roundRobin, step, n) == (roundRobin + step) % n
    ensures 0 <= Turn(roundRobin, step, n) < n
  {
  }

  /** Order among the sources: the comparator, and the round where it ties. */
  predicate Before(keys: seq<Key>, roundRobin: int, a: int, b: int)
    requires 0 <= a < |keys| && 0 <= b < |keys|
  {
    || Below(keys[a], keys[b])
    || (!Below(keys[b], keys[a]) && Rank(roundRobin, a, |keys|) < Rank(roundRobin, b, |keys|))
  }

  predicate Among(order: seq<int>, n: int) {
    forall p | 0 <= p < |order| :: 0 <= order[p] < n
  }

  predicate Sorted(keys: seq<Key>, roundRobin: int, order: seq<int>)
    requires Among(order, |keys|)
  {
    forall p, q | 0 <= p < q < |order| :: Before(keys, roundRobin, order[p], order[q])
  }

  /** Stable insertion in front of the first source that is not below. */
  function Place(keys: seq<Key>, i: int, order: seq<int>): (r: seq<int>)
    requires Among(order, |keys|) && 0 <= i < |keys|
    ensures |r| == |order| + 1 && Among(r, |keys|)
    ensures forall x :: x in r <==> x == i || x in order
    decreases |order|
  {
    if order == [] then [i]
    else
      assert order == [order[0]] + order[1..];
      if Below(keys[order[0]], keys[i]) then [order[0]] + Place(keys, i, order[1..])
      else [i] + order
  }

  lemma {:induction false} PlaceSorted(keys: seq<Key>, roundRobin: int, i: int, order: seq<int>)
    requires Among(order, |keys|) && 0 <= i < |keys| && Sorted(keys, roundRobin, order)
    requires forall x | x in order :: Rank(roundRobin, i, |keys|) < Rank(roundRobin, x, |keys|)
    ensures Sorted(keys, roundRobin, Place(keys, i, order))
  {
    if order != [] {
      var rest := order[1..];
      assert order == [order[0]] + rest;
      if Below(keys[order[0]], keys[i]) {
        PlaceSorted(keys, roundRobin, i, rest);
        var r := Place(keys, i, rest);
        forall q | 0 <= q < |r|
          ensures Before(keys, roundRobin, order[0], r[q])
        {
          assert r[q] in r;
          if r[q] != i {
            var k :| 0 <= k < |rest| && rest[k] == r[q];
            assert Before(keys, roundRobin, order[0], order[k + 1]);
          }
        }
      } else {
        forall q | 0 <= q < |order|
          ensures Before(keys, roundRobin, i, order[q])
        {
          assert order[q] in order;
          if q > 0 {
            assert Before(keys, roundRobin, order[0], order[q]);
          }
        }
      }
    }
  }

  /** The sources from a step of the round on, sorted. */
  function Arranged(keys: seq<Key>, roundRobin: int, step: int): (order: seq<int>)
    requires 0 <= roundRobin < |keys| && 0 <= step <= |keys|
    ensures Among(order, |keys|)
    decreases |keys| - step
  {
    if step == |keys| then [] else Place(keys, Turn(roundRobin, step, |keys|), Arranged(keys, roundRobin, step + 1))
  }

  /** Every source once, in the comparator's order with ties in the order of the round. */
  lemma {:induction false} ArrangedSorted(keys: seq<Key>, roundRobin: int, step: int)
    requires 0 <= roundRobin < |keys| && 0 <= step <= |keys|
    ensures Sorted(keys, roundRobin, Arranged(keys, roundRobin, step))
    ensures forall i | 0 <= i < |keys| :: i in Arranged(keys, roundRobin, step) <==> step <= Rank(roundRobin, i, |keys|)
    decreases |keys| - step
  {
    if step < |keys| {
      ArrangedSorted(keys, roundRobin, step + 1);
      PlaceSorted(keys, roundRobin, Turn(roundRobin, step, |keys|), Arranged(keys, roundRobin, step + 1));
    }
  }

  lemma SortedAcross(keys: seq<Key>, roundRobin: int, order: seq<int>, p: int, a: int, b: int)
    requires Among(order, |keys|) && Sorted(keys, roundRobin, order) && 0 <= p <= |order|
    requires a in order[..p] && b in order[p..]
    ensures 0 <= a < |keys| && 0 <= b < |keys| && Before(keys, roundRobin, a, b)
  {
    var q :| 0 <= q < p && order[q] == a;
    var r :| p <= r < |order| && order[r] == b;
    assert Before(keys, roundRobin, order[q], order[r]);
  }

  lemma SortedDistinct(keys: seq<Key>, roundRobin: int, order: seq<int>)
    requires Among(order, |keys|) && Sorted(keys, roundRobin, order)
    ensures NoRepeats(order)
  {
    forall p, q | 0 <= p < q < |order|
      ensures order[p] != order[q]
    {
      assert Before(keys, roundRobin, order[p], order[q]);
    }
  }

  function Total(s: seq<int>, k: nat): int
    requires k <= |s|
    decreases k
  {
    if k == 0 then 0 else Total(s, k - 1) + s[k - 1]
  }

  lemma {:induction false} TotalConcat(a: seq<int>, b: seq<int>, k: nat)
    requires k <= |b|
    ensures Total(a + b, |a| + k) == Total(a, |a|) + Total(b, k)
    decreases k
  {
    if k > 0 {
      TotalConcat(a, b, k - 1);
    } else {
      TotalPrefix(a + b, a, |a|);
    }
  }

  lemma {:induction false} TotalPrefix(s: seq<int>, t: seq<int>, k: nat)
    requires k <= |s| && k <= |t| && s[..k] == t[..k]
    ensures Total(s, k) == Total(t, k)
    decreases k
  {
    if k > 0 {
      assert s[k - 1] == s[..k][k - 1] == t[..k][k - 1];
      assert s[..k - 1] == s[..k][..k - 1] == t[..k][..k - 1] == t[..k - 1];
      TotalPrefix(s, t, k - 1);
    }
  }

  /** What the sources have, in the order of the round. */
  function InTurn(s: seq<int>, roundRobin: int): (r: seq<int>)
    requires 0 <= roundRobin < |s|
    ensures |r| == |s| && forall step | 0 <= step < |s| :: r[step] == s[Turn(roundRobin, step, |s|)]
  {
    s[roundRobin..] + s[..roundRobin]
  }

  /** A round visits everybody: its total does not depend on where it starts. */
  lemma {:induction false} TotalInTurn(s: seq<int>, roundRobin: int)
    requires 0 <= roundRobin < |s|
    ensures Total(InTurn(s, roundRobin), |s|) == Total(s, |s|)
  {
    var a, b := s[..roundRobin], s[roundRobin..];
    TotalConcat(b, a, |a|);
    TotalConcat(a, b, |b|);
    assert s == a + b;
  }

  /** One for everybody who has something. */
  function Ones(s: seq<int>): (r: seq<int>)
    ensures |r| == |s|
  {
    seq(|s|, i requires 0 <= i < |s| => if s[i] > 0 then 1 else 0)
  }

  /** What one turn adds to the two totals. */
  lemma TallyTurn(due: seq<int>, roundRobin: int, step: int)
    requires 0 <= roundRobin < |due| && 0 <= step < |due|
    ensures Total(InTurn(due, roundRobin), step + 1) == Total(InTurn(due, roundRobin), step) + due[Turn(roundRobin, step, |due|)]
    ensures Total(InTurn(Ones(due), roundRobin), step + 1)
      == Total(InTurn(Ones(due), roundRobin), step) + if due[Turn(roundRobin, step, |due|)] > 0 then 1 else 0
  {
  }
}
