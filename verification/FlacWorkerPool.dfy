/** Bounded ownership of decoder Workers over a private admission (src/stems/flac-worker-pool.ts). */
module FlacWorkerPool {
  import opened Common
  import opened StemAdmission

  class WorkerPool {
    const admission: BoundedStemAdmission

    /** Live Workers by the ticket of their reservation, and those that run a job. */
    var workers: set<nat>
    var busy: set<nat>
    /** Queued jobs, by the number of their call. */
    var pending: seq<Waiter>
    var constructing: int
    var activeJobs: int
    var retentions: int
    var closing: bool
    /** closeResolve is still to be called. */
    var unresolved: bool

    /** Where the constructions stand: before their ticket, with a ticket, with a Worker, and those of them whose first job is over. */
    var loading: nat
    var asking: set<nat>
    var first: set<nat>
    var firstOver: set<nat>
    var oneShots: set<nat>

    var nextJob: nat
    ghost var started: seq<nat>
    /** Queued jobs that were withdrawn, passed over or rejected by a close; started jobs that have a Worker or wait for one; those that are over. */
    ghost var dropped: set<nat>
    ghost var begun: nat
    ghost var over: nat

    predicate Empty()
      reads `workers, `busy, `pending, `constructing, `activeJobs
    {
      workers == {} && constructing == 0 && activeJobs == 0 && pending == []
    }

    /** Every reservation but the one being given up belongs to one live Worker, one construction or one one-shot job. */
    ghost predicate OwnedBut(ticket: int)
      reads `workers, `busy, `asking, `oneShots, admission`held, admission`queued
    {
      && busy <= workers && asking !! oneShots
      && (forall t | t in workers :: t in admission.held && t !in asking && t !in oneShots && t != ticket)
      && (forall t | t in admission.held :: t in workers || t in asking || t in oneShots || t == ticket)
      && (forall i | 0 <= i < |admission.queued| :: admission.queued[i].ticket in asking || admission.queued[i].ticket in oneShots)
    }

    ghost predicate Owned()
      reads `workers, `busy, `asking, `oneShots, admission`held, admission`queued
    {
      OwnedBut(-1)
    }

    ghost predicate Issued()
      reads `asking, `first, `firstOver, `oneShots, admission`next, admission`closed
    {
      && (forall t | t in first :: t < admission.next && t !in asking)
      && (forall t | t in asking :: t < admission.next)
      && (forall t | t in oneShots :: t < admission.next)
      && firstOver <= first && !admission.closed
    }

    /** Constructions stay counted through the first job of their Worker; those that returned and those counted fit the limit. */
    ghost predicate Counted()
      reads `workers, `busy, `constructing, `activeJobs, `loading, `asking, `first, `begun, `over
    {
      CountedBut(0)
    }

    /** Every job begun has a busy Worker, waits for one to be constructed, or is over; some are still to be begun. */
    ghost predicate CountedBut(pendingStarts: int)
      reads `workers, `busy, `constructing, `activeJobs, `loading, `asking, `first, `begun, `over
    {
      && constructing == loading + |asking| + |first| && begun + pendingStarts == activeJobs + loading + |asking| + over
      && |workers - first| + constructing <= admission.limit
      && activeJobs == |busy|
    }

    /** While closing nothing waits and nothing idles. */
    predicate Closed()
      reads `workers, `busy, `pending, `retentions, `closing
    {
      retentions >= 0 && (closing ==> retentions == 0 && pending == [] && workers == busy)
    }

    /** Jobs start in the order they were queued, and none gets lost. */
    ghost predicate InOrder()
      reads `pending, `nextJob, `started, `dropped, `begun
    {
      && Line(started, pending, nextJob) && begun == |started|
      && forall j | 0 <= j < nextJob :: j in started || j in Tickets(pending) || j in dropped
    }

    /** A job waits only while every Worker is busy and no further construction may start. */
    predicate Conserving()
      reads `workers, `busy, `pending, `constructing
    {
      pending != [] ==> workers == busy && |workers| + constructing >= admission.limit
    }

    /** A close resolves exactly when nothing is left of the epoch. */
    predicate Resolving()
      reads `workers, `busy, `pending, `constructing, `activeJobs, `closing, `unresolved
    {
      unresolved == (closing && !Empty())
    }

    /** Everything but who may wait and what a close waits for, which the end of a continuation puts right. */
    ghost predicate Kept()
      reads this, admission
    {
      var kept := Owned() && Issued() && InOrder() && Counted() && Closed();
      kept
    }

    ghost predicate Settled()
      reads this, admission
    {
      var settled := Kept() && Conserving() && Resolving();
      settled
    }

    ghost predicate Valid()
      reads this, admission
    {
      var valid := admission.Valid() && Settled();
      valid
    }

    constructor (limit: nat)
      requires limit >= 1
      ensures Valid() && Empty() && retentions == 0 && !closing && fresh(admission) && admission.limit == limit
    {
      admission := new BoundedStemAdmission(limit);
      workers, busy, pending, constructing, activeJobs, retentions := {}, {}, [], 0, 0, 0;
      closing, unresolved, loading, asking, first, firstOver, oneShots := false, false, 0, {}, {}, {}, {};
      nextJob, started, dropped, begun, over := 0, [], {}, 0, 0;
    }

    method TakeHead(starts: bool)
      requires InOrder() && pending != []
      modifies `pending, `started, `dropped, `begun
      ensures InOrder() && pending == old(pending)[1..] && begun == old(begun) + (if starts then 1 else 0)
      ensures started == old(started) + (if starts then [old(pending)[0].ticket] else [])
    {
      LineMoves(started, pending, nextJob, started + (if starts then [pending[0].ticket] else []));
      LineLeaves(started, pending, nextJob, 0);
      assert pending[..0] + pending[1..] == pending[1..];
      if starts {
        started, begun := started + [pending[0].ticket], begun + 1;
      } else {
        dropped := dropped + {pending[0].ticket};
      }
      pending := pending[1..];
    }

    method Occupy(t: nat)
      requires Counted() && Owned() && t in workers && t !in busy
      modifies `busy, `activeJobs
      ensures CountedBut(1) && Owned()
    {
      busy, activeJobs := busy + {t}, activeJobs + 1;
    }

    method Construct()
      requires Counted() && Owned() && workers == busy && |workers| + constructing < admission.limit
      modifies `loading, `constructing
      ensures CountedBut(1) && constructing == old(constructing) + 1
    {
      loading, constructing := loading + 1, constructing + 1;
      SubsetSize(workers - first, workers);
    }

    /** The job at the head gets an idle Worker or a construction; false when it has to wait. */
    method Place() returns (placed: bool)
      requires Counted() && Owned()
      modifies `busy, `activeJobs, `loading, `constructing
      ensures CountedBut(if placed then 1 else 0) && Owned()
      ensures !placed ==> workers == busy && |workers| + constructing >= admission.limit
    {
      if exists t :: t in workers && t !in busy {
        var t :| t in workers && t !in busy;
        Occupy(t);
        return true;
      }
      if |workers| + constructing >= admission.limit {
        return false;
      }
      Construct();
      return true;
    }

    /** One step of drain. */
    method Advance() returns (moved: bool)
      requires InOrder() && Counted() && Owned() && pending != []
      modifies `pending, `busy, `activeJobs, `loading, `constructing, `started, `dropped, `begun
      ensures InOrder() && Counted() && Owned()
      ensures if moved then |pending| < |old(pending)| else workers == busy && |workers| + constructing >= admission.limit
    {
      if pending[0].aborted {
        TakeHead(false);
        return true;
      }
      moved := Place();
      if moved {
        TakeHead(true);
      }
    }

    /** Gives waiting jobs an idle Worker or a new construction, in the order they came. */
    method Drain()
      requires InOrder() && Counted() && Owned()
      modifies `pending, `busy, `activeJobs, `loading, `constructing, `started, `dropped, `begun
      ensures InOrder() && Counted() && Owned()
      ensures if closing then pending == old(pending) && busy == old(busy) && constructing == old(constructing) else Conserving()
    {
      if closing {
        return;
      }
      var moved := true;
      while moved && pending != []
        invariant InOrder() && Counted() && Owned()
        invariant moved || Conserving()
        decreases moved, |pending|
      {
        moved := Advance();
      }
    }

    /** The end of every continuation: jobs move up and a close may resolve. */
    method Settle()
      requires Kept()
      requires if closing then unresolved || Empty() else !unresolved
      modifies `pending, `busy, `activeJobs, `loading, `constructing, `started, `dropped, `begun, `unresolved
      ensures Settled()
    {
      Drain();
      if closing && Empty() {
        unresolved := false;
      }
    }

    /** Releases a reservation; whoever it admits is a construction or a one-shot job. */
    method GiveUp(ticket: nat)
      requires admission.Valid() && OwnedBut(ticket) && ticket in admission.held
      modifies admission`active, admission`queued, admission`held, admission`granted
      ensures admission.Valid() && Owned() && ticket !in admission.held
    {
      ghost var queue := admission.queued;
      ghost var taken := admission.Release(ticket);
      forall t | t in Live(queue, taken)
        ensures t != ticket && (t in asking || t in oneShots)
      {
        var i := LiveTicket(queue, taken, t);
      }
    }

    /** Terminates an idle Worker, which releases its reservation. */
    method EvictIdle(t: nat)
      requires admission.Valid() && Owned() && Counted() && t in workers && t !in busy
      modifies `workers, admission`active, admission`queued, admission`held, admission`granted
      ensures admission.Valid() && Owned() && Counted() && workers == old(workers) - {t}
    {
      workers := workers - {t};
      SubsetSize(workers - first, old(workers - first));
      GiveUp(t);
    }

    /** A job is over and its Worker waits for the next one. */
    method KeepWorker(t: nat)
      requires Owned() && Counted() && t in busy
      modifies `busy, `activeJobs, `over
      ensures Owned() && Counted() && busy == old(busy) - {t}
    {
      busy, activeJobs, over := busy - {t}, activeJobs - 1, over + 1;
    }

    /** A job is over and its Worker is terminated, which releases its reservation. */
    method Discard(t: nat)
      requires admission.Valid() && Owned() && Counted() && t in busy
      modifies `workers, `busy, `activeJobs, `over, admission`active, admission`queued, admission`held, admission`granted
      ensures admission.Valid() && Owned() && Counted() && busy == old(busy) - {t} && workers == old(workers) - {t}
    {
      workers, busy, activeJobs, over := workers - {t}, busy - {t}, activeJobs - 1, over + 1;
      SubsetSize(workers - first, old(workers - first));
      GiveUp(t);
    }

    method FirstOver(t: nat)
      requires Issued()
      modifies `firstOver
      ensures Issued()
    {
      if t in first {
        firstOver := firstOver + {t};
      }
    }

    method KeepOver(t: nat)
      requires Kept() && t in busy && !closing
      modifies `busy, `activeJobs, `over, `firstOver
      ensures Kept()
    {
      KeepWorker(t);
      FirstOver(t);
    }

    method DiscardOver(t: nat)
      requires admission.Valid() && Kept() && t in busy
      modifies `workers, `busy, `activeJobs, `over, `firstOver, admission`active, admission`queued, admission`held, admission`granted
      ensures admission.Valid() && Kept() && workers == old(workers) - {t}
    {
      FirstOver(t);
      Discard(t);
    }

    method JobKept(t: nat)
      requires Valid() && t in busy && !closing
      modifies this
      ensures Valid() && workers == old(workers)
    {
      KeepOver(t);
      Settle();
    }

    method JobDiscarded(t: nat)
      requires Valid() && t in busy
      modifies this, admission
      ensures Valid() && workers == old(workers) - {t}
    {
      DiscardOver(t);
      Settle();
    }

    /** The Worker is reused only if it acknowledged its reset and the epoch is still retained. */
    method JobEnds(t: nat, acknowledged: bool)
      requires Valid() && t in busy
      modifies this, admission
      ensures Valid() && workers == if acknowledged && old(retentions > 0 && !closing) then old(workers) else old(workers) - {t}
    {
      if acknowledged && retentions > 0 && !closing {
        JobKept(t);
      } else {
        JobDiscarded(t);
      }
    }

    /** A job is queued while an epoch is retained; without one it asks for a reservation of its own. */
    method Run(aborted: bool) returns (accepted: bool)
      requires Valid()
      modifies this, admission
      ensures Valid() && (accepted <==> !old(closing) && !aborted)
      ensures nextJob == old(nextJob) + (if accepted && old(retentions) > 0 then 1 else 0)
    {
      if closing || aborted {
        return false;
      }
      if retentions > 0 {
        Enqueue();
      } else {
        OneShot();
      }
      return true;
    }

    method Append()
      requires InOrder()
      modifies `pending, `nextJob
      ensures InOrder() && nextJob == old(nextJob) + 1 && pending == old(pending) + [Waiter(old(nextJob), false)]
    {
      LineJoins(started, pending, nextJob);
      assert Tickets(pending + [Waiter(nextJob, false)]) == Tickets(pending) + {nextJob};
      pending := pending + [Waiter(nextJob, false)];
      nextJob := nextJob + 1;
    }

    method Enqueue()
      requires Settled() && !closing
      modifies this
      ensures Settled() && nextJob == old(nextJob) + 1
    {
      Append();
      Settle();
    }

    method OneShot()
      requires admission.Valid() && Owned() && Issued()
      modifies `oneShots, admission`active, admission`queued, admission`held, admission`granted, admission`next
      ensures admission.Valid() && Owned() && Issued()
    {
      var ticket, admitted := admission.Acquire(false);
      oneShots := oneShots + {ticket};
    }

    /** A one-shot job ends: its Worker is terminated and its reservation released. */
    method OneShotEnds(t: nat)
      requires Valid() && t in oneShots && t in admission.held
      modifies `oneShots, admission
      ensures Valid() && t !in oneShots
    {
      oneShots := oneShots - {t};
      GiveUp(t);
    }

    /** A one-shot job whose signal fires while it waits for its reservation. */
    method OneShotAborted(t: nat)
      requires Valid() && t in oneShots && t !in admission.held
      modifies `oneShots, admission`queued
      ensures Valid() && oneShots == old(oneShots) - {t}
      ensures forall i | 0 <= i < |admission.queued| :: admission.queued[i].ticket != t
    {
      LeaveQueue(t);
      oneShots := oneShots - {t};
    }

    /** The signal of a queued job fires; its listener may run after the next drain, which passes over it. */
    method Signal(job: nat)
      requires InOrder()
      modifies `pending
      ensures InOrder() && pending == Marked(old(pending), job)
    {
      LineMarked(started, pending, nextJob, job);
      pending := Marked(pending, job);
    }

    /** A queued job whose signal fires leaves the queue, wherever it stands. */
    method Withdraw(job: nat)
      requires Settled()
      modifies this
      ensures Settled()
    {
      Splice(job);
      Settle();
    }

    method Splice(job: nat)
      requires InOrder()
      modifies `pending, `dropped
      ensures InOrder() && |pending| <= |old(pending)|
    {
      var index := 0;
      while index < |pending| && pending[index].ticket != job
        invariant index <= |pending|
      {
        index := index + 1;
      }
      if index < |pending| {
        LineLeaves(started, pending, nextJob, index);
        dropped := dropped + {job};
        pending := pending[..index] + pending[index + 1..];
      }
    }

    /** A construction ends without a reservation because its module did not load. */
    method LoadingFails()
      requires Settled() && loading > 0
      modifies this
      ensures Settled()
    {
      loading, constructing, over := loading - 1, constructing - 1, over + 1;
      Settle();
    }

    /** The module is there: the construction asks for a reservation; closing has aborted its signal. */
    method ModuleLoaded(aborted: bool)
      requires Valid() && loading > 0 && (closing ==> aborted)
      modifies this, admission
      ensures Valid()
    {
      if aborted {
        LoadingFails();
      } else {
        AskNext();
      }
    }

    method AskNext()
      requires Valid() && loading > 0 && !closing
      modifies `loading, `asking, admission`active, admission`queued, admission`held, admission`granted, admission`next
      ensures Valid()
    {
      Ask();
    }

    method Ask()
      requires admission.Valid() && Owned() && Issued() && Counted() && loading > 0
      modifies `loading, `asking, admission`active, admission`queued, admission`held, admission`granted, admission`next
      ensures admission.Valid() && Owned() && Issued() && Counted()
    {
      var ticket, admitted := admission.Acquire(false);
      CountAsking(ticket);
    }

    method CountAsking(ticket: nat)
      requires Counted() && loading > 0 && ticket !in asking
      modifies `loading, `asking
      ensures Counted() && asking == old(asking) + {ticket}
    {
      loading, asking := loading - 1, asking + {ticket};
    }

    /** A construction ends; its reservation, if it has one, is no longer its own. */
    method EndAsking(t: nat)
      requires Owned() && Issued() && Counted() && t in asking
      requires forall i | 0 <= i < |admission.queued| :: admission.queued[i].ticket != t
      modifies `asking, `constructing, `over
      ensures OwnedBut(t) && Issued() && Counted() && asking == old(asking) - {t} && constructing == old(constructing) - 1
    {
      asking, constructing, over := asking - {t}, constructing - 1, over + 1;
    }

    method Build(t: nat)
      requires Owned() && Issued() && Counted() && t in asking && t in admission.held
      requires forall i | 0 <= i < |admission.queued| :: admission.queued[i].ticket != t
      modifies `asking, `first, `workers, `busy, `activeJobs
      ensures Owned() && Issued() && Counted() && workers == old(workers) + {t} && busy == old(busy) + {t}
    {
      CountBuild(t);
    }

    method CountBuild(t: nat)
      requires Counted() && t in asking && t !in first + workers && busy <= workers
      modifies `asking, `first, `workers, `busy, `activeJobs
      ensures Counted() && asking == old(asking) - {t} && first == old(first) + {t} && workers == old(workers) + {t} && busy == old(busy) + {t}
    {
      asking, first, workers, busy := asking - {t}, first + {t}, workers + {t}, busy + {t};
      SubsetSize(workers - first, old(workers - first));
      activeJobs := activeJobs + 1;
    }

    method GrantUsed(t: nat)
      requires Valid() && t in asking && t in admission.held && !closing
      modifies `asking, `first, `workers, `busy, `activeJobs
      ensures Valid() && workers == old(workers) + {t} && t in busy
    {
      Build(t);
    }

    /** The reservation is given back. */
    method GiveBack(t: nat)
      requires admission.Valid() && Kept() && t in asking && t in admission.held
      modifies `asking, `constructing, `over, admission`active, admission`queued, admission`held, admission`granted
      ensures admission.Valid() && Kept()
    {
      EndAsking(t);
      GiveUp(t);
    }

    method GrantLost(t: nat)
      requires Valid() && t in asking && t in admission.held
      modifies this, admission`active, admission`queued, admission`held, admission`granted
      ensures Valid() && workers == old(workers)
    {
      GiveBack(t);
      Settle();
    }

    /** A construction goes on with its reservation: it builds a Worker, or gives the reservation back. */
    method Granted(t: nat, fails: bool)
      requires Valid() && t in asking && t in admission.held
      modifies this, admission
      ensures Valid() && workers == if fails || old(closing) then old(workers) else old(workers) + {t}
    {
      if fails || closing {
        GrantLost(t);
      } else {
        GrantUsed(t);
      }
    }

    /** A construction whose wait was aborted. */
    method Refused(t: nat)
      requires Valid() && t in asking && t !in admission.held
      modifies this, admission`queued
      ensures Valid()
    {
      GiveUpWaiting(t);
      Settle();
    }

    method GiveUpWaiting(t: nat)
      requires admission.Valid() && Kept() && t in asking && t !in admission.held
      modifies `asking, `constructing, `over, admission`queued
      ensures admission.Valid() && Kept()
    {
      LeaveQueue(t);
      EndAsking(t);
    }

    method LeaveQueue(t: nat)
      requires admission.Valid() && Owned()
      modifies admission`queued
      ensures admission.Valid() && Owned()
      ensures forall i | 0 <= i < |admission.queued| :: admission.queued[i].ticket != t
      ensures Tickets(admission.queued) <= old(Tickets(admission.queued)) - {t}
    {
      admission.Leave(t);
      forall i | 0 <= i < |admission.queued|
        ensures admission.queued[i].ticket in old(Tickets(admission.queued)) && admission.queued[i].ticket != t
      {
        assert admission.queued[i].ticket in Tickets(admission.queued);
      }
    }

    method EndConstruction(t: nat)
      requires Issued() && Counted() && t in firstOver
      modifies `first, `firstOver, `constructing
      ensures Issued() && Counted() && constructing == old(constructing) - 1
    {
      first, firstOver, constructing := first - {t}, firstOver - {t}, constructing - 1;
      SubsetSize(workers - first, old(workers - first) + {t});
    }

    /** A construction returns after the first job of its Worker, which may live on. */
    method Returns(t: nat)
      requires Settled() && t in firstOver
      modifies this
      ensures Settled()
    {
      EndConstruction(t);
      Settle();
    }

    /** A new epoch starts, unless the last one is still draining. */
    method Retain() returns (retained: bool)
      requires Valid()
      modifies `retentions, `closing
      ensures Valid() && (retained <==> old(!closing || Empty()))
    {
      if closing && !Empty() {
        return false;
      }
      closing := false;
      retentions := retentions + 1;
      return true;
    }

    /** Aborts the waits of all constructions. */
    method AbortWaits()
      requires admission.Valid() && Owned()
      modifies admission`queued
      ensures admission.Valid() && Owned()
      ensures forall i | 0 <= i < |admission.queued| :: admission.queued[i].ticket !in asking
    {
      var rest := asking;
      while rest != {}
        invariant rest <= asking && admission.Valid() && Owned()
        invariant Tickets(admission.queued) !! asking - rest
        decreases |rest|
      {
        var t :| t in rest;
        LeaveQueue(t);
        rest := rest - {t};
      }
      forall i | 0 <= i < |admission.queued|
        ensures admission.queued[i].ticket !in asking
      {
        assert admission.queued[i].ticket in Tickets(admission.queued);
      }
    }

    method EvictAll()
      requires admission.Valid() && Owned() && Counted()
      modifies `workers, admission`active, admission`queued, admission`held, admission`granted
      ensures admission.Valid() && Owned() && Counted() && workers == busy
    {
      while exists t :: t in workers && t !in busy
        invariant admission.Valid() && Owned() && Counted()
        decreases |workers|
      {
        var t :| t in workers && t !in busy;
        EvictIdle(t);
      }
    }

    /** The last lease of an epoch: waiting jobs are rejected, waits aborted, idle Workers terminated. */
    method BeginClose()
      requires Valid() && retentions == 0 && !closing
      modifies this, admission`active, admission`queued, admission`held, admission`granted
      ensures Valid() && closing && pending == [] && workers == busy
    {
      ClearWorkers();
      RejectPending();
      Settle();
    }

    method RejectPending()
      requires Kept() && retentions == 0 && workers == busy
      modifies `pending, `dropped, `closing, `unresolved
      ensures Kept() && pending == [] && closing && unresolved
    {
      DropPending();
      closing, unresolved := true, true;
    }

    method DropPending()
      requires InOrder()
      modifies `pending, `dropped
      ensures InOrder() && pending == []
    {
      dropped, pending := dropped + Tickets(pending), [];
    }

    method ClearWorkers()
      requires admission.Valid() && Kept()
      modifies `workers, admission`active, admission`queued, admission`held, admission`granted
      ensures admission.Valid() && Kept() && workers == busy
    {
      AbortWaits();
      EvictAll();
    }

    /** Releasing a lease closes the epoch when it was the last one. */
    method ReleaseLease()
      requires Valid() && retentions > 0
      modifies this, admission`active, admission`queued, admission`held, admission`granted
      ensures Valid() && (closing <==> old(retentions) == 1)
    {
      retentions := retentions - 1;
      if retentions == 0 {
        BeginClose();
      }
    }

    /** Live Workers never exceed the limit, and the active reservations are exactly theirs, the constructions' and the one-shot jobs'. */
    lemma WithinLimit()
      requires Valid()
      ensures |workers| <= |workers - first| + constructing <= admission.limit
      ensures admission.active == |workers| + |asking * admission.held| + |oneShots * admission.held| <= admission.limit
    {
      SubsetSize(workers, (workers - first) + first);
      assert admission.held == workers + (asking * admission.held) + (oneShots * admission.held);
    }
  }

  lemma SubsetSize<T>(a: set<T>, b: set<T>)
    requires a <= b
    ensures |a| <= |b|
  {
    assert b == a + (b - a);
  }
}
