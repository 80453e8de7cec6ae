/** The bound on what the reads in flight allocate: the largest four windows (src/stems/pump.ts). */
module PumpBounds {
  import opened Common

  /** scratchBounds.sort((left, right) => right - left) */
  function InsertDown(x: nat, s: seq<nat>): (r: seq<nat>)
    ensures |r| == |s| + 1
  {
    if s == [] || x > s[0] then [x] + s else [s[0]] + InsertDown(x, s[1..])
  }

  function SortDown(s: seq<nat>): (r: seq<nat>)
    ensures |r| == |s|
  {
    if s == [] then [] else InsertDown(s[|s| - 1], SortDown(s[..|s| - 1]))
  }

  /** slice(0, k), summed. */
  function TopSum(s: seq<nat>, k: nat): nat {
    if k == 0 || s == [] then 0 else s[0] + TopSum(s[1..], k - 1)
  }

  predicate Down(s: seq<nat>) {
    |s| < 2 || (s[0] >= s[1] && Down(s[1..]))
  }

  lemma {:induction false} InsertStaysDown(x: nat, s: seq<nat>)
    requires Down(s)
    ensures Down(InsertDown(x, s))
  {
    if s == [] || x > s[0] {
      assert ([x] + s)[1..] == s;
    } else {
      InsertStaysDown(x, s[1..]);
      assert ([s[0]] + InsertDown(x, s[1..]))[1..] == InsertDown(x, s[1..]);
    }
  }

  /** The sizes are sorted from the largest down. */
  lemma {:induction false} SortedDown(s: seq<nat>)
    ensures Down(SortDown(s))
  {
    if s != [] {
      SortedDown(s[..|s| - 1]);
      InsertStaysDown(s[|s| - 1], SortDown(s[..|s| - 1]));
    }
  }

  /** One more value never makes the sum of the largest smaller, and can take the place of one of them. */
  lemma {:induction false} InsertTop(x: nat, s: seq<nat>, k: nat)
    requires Down(s)
    ensures TopSum(s, k) <= TopSum(InsertDown(x, s), k)
    ensures k > 0 ==> TopSum(s, k - 1) + x <= TopSum(InsertDown(x, s), k)
  {
    if k > 0 {
      if s == [] || x > s[0] {
        assert ([x] + s)[1..] == s;
        OneLess(s, k, x);
      } else {
        InsertTop(x, s[1..], k - 1);
        assert ([s[0]] + InsertDown(x, s[1..]))[1..] == InsertDown(x, s[1..]);
      }
    }
  }

  lemma {:induction false} OneLess(s: seq<nat>, k: nat, x: nat)
    requires Down(s) && k > 0 && (s != [] ==> s[0] <= x)
    ensures TopSum(s, k) <= TopSum(s, k - 1) + x
  {
    if s != [] && k > 1 {
      OneLess(s[1..], k - 1, x);
    }
  }

  function Count(picked: seq<bool>, n: nat): nat
    requires n <= |picked|
  {
    if n == 0 then 0 else Count(picked, n - 1) + if picked[n - 1] then 1 else 0
  }

  /** What the picked ones of the first n values come to. */
  function Chosen(s: seq<nat>, picked: seq<bool>, n: nat): nat
    requires n <= |s| && n <= |picked|
  {
    if n == 0 then 0 else Chosen(s, picked, n - 1) + if picked[n - 1] then s[n - 1] else 0
  }

  /** Any k values come to no more than the k largest. */
  lemma {:induction false} ChosenTop(s: seq<nat>, picked: seq<bool>, n: nat, k: nat)
    requires n <= |s| && n <= |picked| && Count(picked, n) <= k
    ensures Chosen(s, picked, n) <= TopSum(SortDown(s[..n]), k)
    decreases n
  {
    if n > 0 {
      SortedDown(s[..n - 1]);
      assert s[..n][..n - 1] == s[..n - 1];
      InsertTop(s[n - 1], SortDown(s[..n - 1]), k);
      ChosenTop(s, picked, n - 1, if picked[n - 1] then k - 1 else k);
    }
  }

  lemma {:induction false} CountSet(picked: seq<bool>, n: nat, chosen: set<int>)
    requires n <= |picked| && forall i | 0 <= i < n && picked[i] :: i in chosen
    ensures Count(picked, n) <= |chosen|
    decreases n
  {
    if n > 0 {
      if picked[n - 1] {
        CountSet(picked, n - 1, chosen - {n - 1});
      } else {
        CountSet(picked, n - 1, chosen);
      }
    }
  }
}
