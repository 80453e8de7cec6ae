/**
  * The fallback lock chain of one name: both entry points, in any interleaving of their promise continuations
  * (src/stems/lock.ts). Chains of different names share nothing.
  */
module NamedLocks {
  import opened Common

  /** withNamedLock waits for its turn whatever happens; acquireNamedLock may give up waiting. */
  datatype Entry = With | Lease

  /** A call: the tail it queued behind, and whether its own gate is open. A call that gave up has opened it early. */
  datatype Phase = Waiting | Holding | Opened

  datatype Call = Call(entry: Entry, prior: Option<nat>, phase: Phase)

  /** The calls so far, and the tail the map holds for the name. */
  datatype State = State(calls: seq<Call>, tail: Option<nat>)

  datatype Action = Arrive(entry: Entry) | Enter(k: nat) | GiveUp(k: nat) | Leave(k: nat) | Cleanup(k: nat)

  /** tail = prior.then(() => gate): settled once the prior tail is and the own gate is open. */
  predicate Settled(s: State, k: nat)
    decreases k
  {
    && k < |s.calls| && s.calls[k].phase.Opened?
    && (s.calls[k].prior.Some? ==> s.calls[k].prior.value < k && Settled(s, s.calls[k].prior.value))
  }

  predicate Enabled(s: State, a: Action) {
    match a
    case Arrive(entry) => true
    case Enter(k) => k < |s.calls| && s.calls[k].phase.Waiting? && (s.calls[k].prior.Some? ==> Settled(s, s.calls[k].prior.value))
    case GiveUp(k) => k < |s.calls| && s.calls[k].phase.Waiting? && s.calls[k].entry.Lease?
    case Leave(k) => k < |s.calls| && s.calls[k].phase.Holding?
    case Cleanup(k) => Settled(s, k) && s.calls[k].entry.Lease?
  }

  function Apply(s: State, a: Action): State
    requires Enabled(s, a)
  {
    match a
    case Arrive(entry) => State(s.calls + [Call(entry, s.tail, Waiting)], Some(|s.calls|))
    case Enter(k) => s.(calls := s.calls[k := s.calls[k].(phase := Holding)])
    case GiveUp(k) => s.(calls := s.calls[k := s.calls[k].(phase := Opened)])
    case Leave(k) =>
      State(s.calls[k := s.calls[k].(phase := Opened)], if s.calls[k].entry.With? && s.tail == Some(k) then None else s.tail)
    case Cleanup(k) => if s.tail == Some(k) then s.(tail := None) else s
  }

  /** Everyone up to a call has opened its gate. */
  predicate OpenedBefore(s: State, k: nat)
    requires k <= |s.calls|
  {
    forall j | 0 <= j < k :: s.calls[j].phase.Opened?
  }

  predicate Inv(s: State) {
    && (s.tail.None? ==> OpenedBefore(s, |s.calls|))
    && (s.tail.Some? ==> s.tail.value + 1 == |s.calls|)
    && (forall k | 0 <= k < |s.calls| && s.calls[k].prior.Some? :: s.calls[k].prior.value + 1 == k)
    && (forall k | 0 <= k < |s.calls| && s.calls[k].prior.None? :: OpenedBefore(s, k))
    && (forall k | 0 <= k < |s.calls| && s.calls[k].phase.Holding? :: OpenedBefore(s, k))
  }

  /** A settled tail means that everyone before it is through, those that gave up included. */
  lemma {:induction false} SettledOpened(s: State, k: nat)
    requires Inv(s) && Settled(s, k)
    ensures k < |s.calls| && OpenedBefore(s, k + 1)
    decreases k
  {
    if s.calls[k].prior.Some? {
      SettledOpened(s, s.calls[k].prior.value);
    } else {
      assert OpenedBefore(s, k);
    }
  }

  lemma {:induction false} ArriveInv(s: State, entry: Entry)
    requires Inv(s)
    ensures Inv(Apply(s, Arrive(entry)))
  {
  }

  lemma {:induction false} EnterInv(s: State, k: nat)
    requires Inv(s) && Enabled(s, Enter(k))
    ensures Inv(Apply(s, Enter(k)))
  {
    if s.calls[k].prior.Some? {
      SettledOpened(s, s.calls[k].prior.value);
    }
    assert OpenedBefore(s, k);
  }

  lemma {:induction false} OpenInv(s: State, a: Action)
    requires Inv(s) && Enabled(s, a) && (a.GiveUp? || a.Leave?)
    ensures Inv(Apply(s, a))
  {
    if a.Leave? {
      assert OpenedBefore(s, a.k);
    }
  }

  lemma {:induction false} ApplyInv(s: State, a: Action)
    requires Inv(s) && Enabled(s, a)
    ensures Inv(Apply(s, a))
  {
    match a
    case Arrive(entry) => ArriveInv(s, entry);
    case Enter(k) => EnterInv(s, k);
    case Cleanup(k) => SettledOpened(s, k);
    case _ => OpenInv(s, a);
  }

  function After(actions: seq<Action>): State
    decreases |actions|
  {
    if |actions| == 0 then State([], None)
    else
      var s, a := After(actions[..|actions| - 1]), actions[|actions| - 1];
      if Enabled(s, a) then Apply(s, a) else s
  }

  lemma {:induction false} RunInv(actions: seq<Action>)
    ensures Inv(After(actions))
    decreases |actions|
  {
    if |actions| > 0 {
      RunInv(actions[..|actions| - 1]);
      var s, a := After(actions[..|actions| - 1]), actions[|actions| - 1];
      if Enabled(s, a) {
        ApplyInv(s, a);
      }
    }
  }

  /**
    * In every run: never two holders, nobody holds while an earlier call has not opened its gate, and the map forgets
    * the name only when everyone is through.
    */
  lemma MutualExclusion(actions: seq<Action>, i: nat, j: nat)
    requires var s := After(actions); i < |s.calls| && j < |s.calls| && s.calls[j].phase.Holding?
    ensures var s := After(actions); s.calls[i].phase.Holding? ==> i == j
    ensures var s := After(actions); i < j ==> s.calls[i].phase.Opened?
    ensures var s := After(actions); s.tail.Some?
  {
    RunInv(actions);
    var s := After(actions);
    assert OpenedBefore(s, j);
    if s.calls[i].phase.Holding? {
      assert OpenedBefore(s, i);
    }
  }

  /** The map keeps the name, with the tail of the last call, as long as anybody holds it or waits. */
  lemma NameKept(actions: seq<Action>, k: nat)
    requires k < |After(actions).calls|
    ensures var s := After(actions); s.tail.None? ==> s.calls[k].phase.Opened?
    ensures var s := After(actions); s.tail.Some? ==> s.tail.value == |s.calls| - 1
  {
    RunInv(actions);
    assert After(actions).tail.None? ==> OpenedBefore(After(actions), |After(actions).calls|);
  }

  /** A waiter that gave up does not let its successors in: nobody may enter behind a holder. */
  lemma NoOvertaking(actions: seq<Action>, j: nat, k: nat)
    requires var s := After(actions); j < k < |s.calls| && s.calls[j].phase.Holding?
    ensures !Enabled(After(actions), Enter(k))
  {
    RunInv(actions);
    var s := After(actions);
    if Enabled(s, Enter(k)) && s.calls[k].prior.Some? {
      SettledOpened(s, s.calls[k].prior.value);
    }
  }

  /** Nobody is forgotten: when the last gate is open, every tail settles, so the next call in line may enter. */
  lemma {:induction false} GatesSettle(s: State, k: nat)
    requires Inv(s) && k <= |s.calls| && OpenedBefore(s, k)
    ensures forall j | 0 <= j < k :: Settled(s, j)
    ensures k < |s.calls| && s.calls[k].phase.Waiting? ==> Enabled(s, Enter(k))
    decreases k
  {
    if k > 0 {
      GatesSettle(s, k - 1);
    }
  }
}
