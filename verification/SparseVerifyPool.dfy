/** Queued jobs over reusable verification Workers (src/stems/sparse-verify-worker-pool.ts). */
module SparseVerifyPool {
  import opened Common
  import opened StemAdmission

  datatype Job = Job(queued: bool, settled: bool, slot: Option<nat>)

  datatype Slot = Slot(generation: nat, pending: Option<nat>)

  /** What fails around the pool: the construction of a Worker for a job, and posting a job to its Worker. */
  datatype World = World(constructs: nat -> bool, posts: nat -> bool, terminates: nat -> bool)

  /** A job is in exactly one place: queued, with a slot, on its way out, or settled. */
  predicate InOnePlace(job: Job, waits: bool, leaves: bool, settles: bool) {
    && job.queued == waits && job.settled == settles
    && if job.slot.Some? then !waits && !leaves && !settles
       else (waits && !leaves && !settles) || (!waits && leaves && !settles) || (!waits && !leaves && settles)
  }

  class VerifyPool {
    const width: nat
    var slots: map<nat, Slot>
    var nextSlot: nat
    /** By the ids of the jobs. */
    var queue: seq<Waiter>
    /** Every job so far, by its id. */
    var jobs: seq<Job>
    var closed: bool
    /** Jobs whose slot is gone; their settlement, and a dispatch, are on their way. */
    var leaving: set<nat>
    /** Those of them whose Worker could not be terminated: their continuation closes the pool instead. */
    var failing: set<nat>
    /** The last dispatch gave up because a Worker could not be constructed. */
    var gaveUp: bool
    ghost var started: seq<nat>
    ghost var settlements: seq<nat>

    /** Jobs start in the order they came. */
    ghost predicate InOrder()
      reads `queue, `jobs, `started
    {
      Line(started, queue, |jobs|)
    }

    ghost predicate Placed()
      reads `queue, `jobs, `leaving, `settlements
    {
      && (forall j | 0 <= j < |jobs| :: InOnePlace(jobs[j], j in Tickets(queue), j in leaving, j in settlements))
      && (forall j | j in leaving || j in settlements || j in Tickets(queue) :: j < |jobs|)
    }

    /** Slots and jobs point at each other. */
    ghost predicate Linked()
      reads `slots, `jobs
    {
      && (forall s {:trigger s in slots} | s in slots && slots[s].pending.Some? :: slots[s].pending.value < |jobs| && jobs[slots[s].pending.value].slot == Some(s))
      && (forall j | 0 <= j < |jobs| && jobs[j].slot.Some? :: jobs[j].slot.value in slots && slots[jobs[j].slot.value].pending == Some(j))
    }

    /** Never more slots than the width. */
    ghost predicate Bounded()
      reads `slots, `nextSlot
    {
      1 <= width && |slots| <= width && forall s | s in slots :: s < nextSlot
    }

    /** No job settles twice. */
    ghost predicate Once()
      reads `settlements
    {
      NoRepeats(settlements)
    }

    predicate NoneFree()
      reads `slots
    {
      forall s | s in slots :: slots[s].pending.Some?
    }

    /** Every Worker is busy and there may be no more of them. */
    predicate Full()
      reads `slots
    {
      |slots| >= width && NoneFree()
    }

    /** A job waits while no Worker is free, and beside room for another only if a job is on its way out or a construction failed. */
    predicate Waits()
      reads `queue, `slots, `closed, `leaving, `failing, `gaveUp
    {
      queue == [] || (if closed then failing != {} else NoneFree() && (|slots| >= width || leaving != {} || gaveUp))
    }

    /** A job waits and nothing is left that could start it: no Worker, and no continuation on its way. */
    predicate Stranded()
      reads `queue, `slots, `closed, `leaving
    {
      !closed && queue != [] && slots == map[] && leaving == {}
    }

    /** A Worker that cannot be terminated closes the pool. */
    predicate Failing()
      reads `leaving, `failing, `closed
    {
      failing <= leaving && (failing != {} ==> closed)
    }

    ghost predicate Tracked()
      reads `slots, `nextSlot, `queue, `jobs, `leaving, `started, `settlements
    {
      var tracked := InOrder() && Placed() && Linked() && Bounded() && Once();
      tracked
    }

    ghost predicate Valid()
      reads this
    {
      Tracked() && Waits() && Failing()
    }

    constructor (width: nat)
      requires width >= 1
      ensures Valid() && !closed && slots == map[] && nextSlot == 0 && jobs == [] && queue == [] && leaving == {} && this.width == width
    {
      this.width := width;
      slots, nextSlot, queue, jobs, closed, leaving, failing, gaveUp := map[], 0, [], [], false, {}, {}, false;
      started, settlements := [], [];
    }

    /** A new job at the end of the queue. */
    method Append() returns (j: nat)
      requires Tracked()
      modifies `queue, `jobs
      ensures Tracked() && j == |old(jobs)| && jobs == old(jobs) + [Job(true, false, None)] && queue == old(queue) + [Waiter(j, false)]
    {
      j := |jobs|;
      LineJoins(started, queue, j);
      assert Tickets(queue + [Waiter(j, false)]) == Tickets(queue) + {j};
      jobs, queue := jobs + [Job(true, false, None)], queue + [Waiter(j, false)];
    }

    /** A queued job settles without having been started, wherever it stands. */
    method SettleQueued(at: nat)
      requires Tracked() && at < |queue|
      modifies `queue, `jobs, `settlements
      ensures Tracked() && queue == old(queue[..at] + queue[at + 1..])
      ensures |jobs| == |old(jobs)| && settlements == old(settlements + [queue[at].ticket])
    {
      var j := queue[at].ticket;
      LineLeaves(started, queue, |jobs|, at);
      assert j in Tickets(queue) && jobs[j].queued;
      var rest := queue[..at] + queue[at + 1..];
      queue, jobs, settlements := rest, jobs[j := Job(false, true, None)], settlements + [j];
    }

    /** start: the job at the head of the queue gets a free slot and the slot's next generation. */
    method StartHead(s: nat)
      requires Tracked() && queue != [] && s in slots && slots[s].pending.None?
      modifies `queue, `jobs, `slots, `started
      ensures Tracked() && queue == old(queue)[1..] && |jobs| == |old(jobs)|
      ensures slots == old(slots)[s := Slot(old(slots)[s].generation + 1, Some(old(queue)[0].ticket))]
    {
      var j := queue[0].ticket;
      LineMoves(started, queue, |jobs|, started + [j]);
      LineLeaves(started, queue, |jobs|, 0);
      assert queue[..0] + queue[1..] == queue[1..];
      assert j in Tickets(queue) && jobs[j].queued;
      queue, started := queue[1..], started + [j];
      jobs := jobs[j := Job(false, false, Some(s))];
      slots := slots[s := Slot(slots[s].generation + 1, Some(j))];
      assert InOrder() && Placed() && Linked();
    }

    method AddSlot() returns (s: nat)
      requires Tracked() && |slots| < width
      modifies `slots, `nextSlot
      ensures Tracked() && s == old(nextSlot) && s !in old(slots) && slots == old(slots)[s := Slot(0, None)]
    {
      s := nextSlot;
      slots, nextSlot := slots[s := Slot(0, None)], nextSlot + 1;
    }

    /** finishSlot up to its first wait: the job is detached and its Worker terminated; a Worker that cannot be closes the pool. */
    method FinishSlot(s: nat, terminates: bool)
      requires Tracked() && s in slots && slots[s].pending.Some?
      modifies `slots, `jobs, `leaving, `failing, `closed
      ensures Tracked() && |jobs| == |old(jobs)| && leaving == old(leaving + {slots[s].pending.value})
      ensures closed == (old(closed) || !terminates)
      ensures failing == if terminates then old(failing) else old(failing + {slots[s].pending.value})
      ensures slots == if terminates then old(slots) - {s} else old(slots)[s := Slot(old(slots)[s].generation, None)]
    {
      var j := slots[s].pending.value;
      assert InOnePlace(jobs[j], false, false, false);
      jobs, leaving := jobs[j := Job(false, false, None)], leaving + {j};
      if terminates {
        slots := slots - {s};
      } else {
        slots, failing, closed := slots[s := Slot(slots[s].generation, None)], failing + {j}, true;
      }
      assert Placed() && Linked() && Bounded();
    }

    /** settleJob for a job on its way out: nothing happens the second time. */
    method SettleLeaving(j: nat)
      requires Tracked() && j < |jobs|
      modifies `jobs, `leaving, `failing, `settlements
      ensures Tracked() && |jobs| == |old(jobs)| && leaving == old(leaving) - {j} && failing == old(failing) - {j}
      ensures settlements == old(settlements) + (if j in old(leaving) then [j] else [])
    {
      if j in leaving {
        jobs, leaving, settlements := jobs[j := Job(false, true, None)], leaving - {j}, settlements + [j];
      }
      failing := failing - {j};
    }

    /** The reply of a slot: its job settles and the slot is free. */
    method FreeSlot(s: nat)
      requires Tracked() && s in slots && slots[s].pending.Some?
      modifies `slots, `jobs, `settlements
      ensures Tracked() && |jobs| == |old(jobs)| && slots == old(slots)[s := Slot(old(slots)[s].generation, None)]
      ensures settlements == old(settlements + [slots[s].pending.value])
    {
      var j := slots[s].pending.value;
      assert InOnePlace(jobs[j], false, false, false);
      jobs, settlements := jobs[j := Job(false, true, None)], settlements + [j];
      slots := slots[s := Slot(slots[s].generation, None)];
    }

    /** A job starts on a free slot; one that cannot be posted leaves it again at once. */
    method Begin(s: nat, w: World)
      requires Tracked() && Failing() && queue != [] && s in slots && slots[s].pending.None? && !closed
      modifies `queue, `jobs, `slots, `started, `leaving, `failing, `closed
      ensures Tracked() && Failing() && queue == old(queue)[1..] && |jobs| == |old(jobs)|
      ensures old(leaving) <= leaving && (closed ==> failing != {}) && (slots != map[] || leaving != {})
      ensures w.posts(old(queue)[0].ticket) ==>
        slots == old(slots)[s := Slot(old(slots)[s].generation + 1, Some(old(queue)[0].ticket))] && leaving == old(leaving) && !closed
    {
      var posted := w.posts(queue[0].ticket);
      StartHead(s);
      if !posted {
        FinishSlot(s, w.terminates(s));
      }
    }

    /** A job starts on a new slot. */
    method BeginNew(w: World)
      requires Tracked() && Failing() && queue != [] && |slots| < width && !closed
      modifies `queue, `jobs, `slots, `nextSlot, `started, `leaving, `failing, `closed
      ensures Tracked() && Failing() && queue == old(queue)[1..] && |jobs| == |old(jobs)|
      ensures old(leaving) <= leaving && (closed ==> failing != {}) && (slots != map[] || leaving != {})
      ensures w.posts(old(queue)[0].ticket) ==>
        slots == old(slots)[old(nextSlot) := Slot(1, Some(old(queue)[0].ticket))] && leaving == old(leaving) && !closed
    {
      var s := AddSlot();
      Begin(s, w);
    }

    /** One step of dispatch. */
    method Advance(w: World) returns (moved: bool)
      requires Tracked() && Failing() && queue != [] && !closed && !gaveUp
      modifies `queue, `jobs, `slots, `nextSlot, `started, `leaving, `failing, `closed, `gaveUp, `settlements
      ensures Tracked() && Failing() && |jobs| == |old(jobs)| && old(leaving) <= leaving && old(settlements) <= settlements
      ensures queue == if moved || gaveUp then old(queue)[1..] else old(queue)
      ensures if moved then !gaveUp && (closed ==> failing != {}) && (slots != map[] || leaving != {})
              else slots == old(slots) && leaving == old(leaving) && failing == old(failing) && !closed && NoneFree()
      ensures gaveUp <==> old(NoneFree() && |slots| < width) && !w.constructs(old(queue)[0].ticket)
      ensures !moved && !gaveUp <==> old(Full())
      ensures moved && old(NoneFree()) && w.posts(old(queue)[0].ticket) ==>
        slots == old(slots)[old(nextSlot) := Slot(1, Some(old(queue)[0].ticket))] && leaving == old(leaving) && !closed
    {
      if exists s :: s in slots && slots[s].pending.None? {
        var s :| s in slots && slots[s].pending.None?;
        Begin(s, w);
        return true;
      }
      if |slots| >= width {
        return false;
      }
      if !w.constructs(queue[0].ticket) {
        SettleQueued(0);
        gaveUp := true;
        return false;
      }
      BeginNew(w);
      return true;
    }

    /** A Worker can be constructed for the job and takes it. */
    static predicate Works(w: World, j: nat) {
      w.constructs(j) && w.posts(j)
    }

    predicate StartedOn(before: map<nat, Slot>, s: nat, j: nat)
      reads `slots
    {
      slots == before[s := Slot(1, Some(j))]
    }

    /** The last step of a dispatch settled a queued job because no Worker could be constructed for it. */
    predicate GaveUpOn(w: World, before: seq<Waiter>, i: int)
      reads `queue
    {
      0 <= i < |before| && queue == before[i + 1..] && !w.constructs(before[i].ticket)
    }

    /**
      Jobs move up until every Worker is busy; a failed construction ends this early, with room left. A dispatch strands
      a job exactly when it finds no Worker and nothing on its way out, cannot construct a Worker for the job at the head,
      and another job is behind it.
     */
    method Dispatch(w: World)
      requires Tracked() && Failing() && (closed && queue != [] ==> failing != {})
      modifies `queue, `jobs, `slots, `nextSlot, `started, `leaving, `failing, `closed, `gaveUp, `settlements
      ensures Valid() && |jobs| == |old(jobs)| && old(settlements) <= settlements
      ensures Stranded() <==> old(!closed && |queue| >= 2 && slots == map[] && leaving == {}) && !w.constructs(old(queue)[0].ticket)
      ensures Stranded() ==> queue == old(queue)[1..]
      ensures !closed && queue != [] ==> (gaveUp <==> |slots| < width)
      ensures gaveUp ==> exists i :: GaveUpOn(w, old(queue), i)
      ensures old(!closed && Full()) ==> queue == old(queue) && slots == old(slots) && leaving == old(leaving) && !closed
      ensures old(!closed && |queue| == 1 && NoneFree() && |slots| < width) && Works(w, old(queue)[0].ticket) ==> queue == [] && StartedOn(old(slots), old(nextSlot), old(queue)[0].ticket) && leaving == old(leaving) && !closed
    {
      gaveUp := false;
      var moved := true;
      ghost var k := 0;
      ghost var stuck := !closed && |queue| >= 2 && slots == map[] && leaving == {} && !w.constructs(queue[0].ticket);
      ghost var full := !closed && Full();
      ghost var single := !closed && |queue| == 1 && NoneFree() && |slots| < width && Works(w, queue[0].ticket);
      while moved && !closed && queue != []
        invariant Tracked() && Failing() && |jobs| == |old(jobs)| && old(settlements) <= settlements
        invariant closed && queue != [] ==> failing != {}
        invariant if moved then !gaveUp else NoneFree() && !closed && (gaveUp <==> |slots| < width)
        invariant 0 <= k <= |old(queue)| && queue == old(queue)[k..]
        invariant gaveUp ==> k > 0 && GaveUpOn(w, old(queue), k - 1)
        invariant k == 0 ==> slots == old(slots) && leaving == old(leaving) && closed == old(closed)
        invariant k == 1 && gaveUp ==> slots == old(slots) && leaving == old(leaving)
        invariant k > 0 && !(k == 1 && gaveUp) ==> slots != map[] || leaving != {}
        invariant stuck ==> (k == 0 && moved) || (k == 1 && gaveUp)
        invariant full ==> k == 0
        invariant single && k > 0 ==> moved && StartedOn(old(slots), old(nextSlot), old(queue)[0].ticket) && leaving == old(leaving) && !closed
        invariant single && k == 0 ==> moved && nextSlot == old(nextSlot)
        decreases moved, |queue|
      {
        moved := Advance(w);
        k := if moved || gaveUp then k + 1 else k;
      }
    }

    /** A job is refused by a closed pool; otherwise it is queued and dispatched. A stranded job stays stranded if its Worker fails again. */
    method Run(w: World) returns (j: Option<nat>)
      requires Valid()
      modifies this
      ensures Valid() && (j.Some? <==> !old(closed))
      ensures j.Some? ==> j.value == |old(jobs)| && |jobs| == j.value + 1
      ensures Stranded() <==> old(Stranded()) && !w.constructs(old(queue)[0].ticket)
      ensures old(!closed && Full()) ==> queue == old(queue) + [Waiter(j.value, false)] && slots == old(slots) && leaving == old(leaving) && !closed
      ensures old(!closed && queue == [] && NoneFree() && |slots| < width) && Works(w, |old(jobs)|) ==> queue == [] && StartedOn(old(slots), old(nextSlot), |old(jobs)|) && leaving == old(leaving) && !closed
    {
      if closed {
        return None;
      }
      var id := Append();
      Dispatch(w);
      return Some(id);
    }

    /** A completed job frees its slot for the next one. */
    method Reply(s: nat, w: World)
      requires Valid() && s in slots && slots[s].pending.Some?
      modifies this
      ensures Valid() && |jobs| == |old(jobs)| && old(settlements + [slots[s].pending.value]) <= settlements && !Stranded()
    {
      FreeSlot(s);
      Dispatch(w);
    }

    /** A job fails, times out or is aborted while it has a slot. */
    method Fail(s: nat, terminates: bool)
      requires Valid() && s in slots && slots[s].pending.Some?
      modifies `slots, `jobs, `leaving, `failing, `closed
      ensures Valid() && leaving == old(leaving + {slots[s].pending.value}) && closed == (old(closed) || !terminates) && !Stranded()
      ensures terminates ==> slots == old(slots) - {s}
    {
      FinishSlot(s, terminates);
    }

    /**
      finishSlot after its wait: the job settles; then jobs move up, or the pool closes. This is where a job gets stranded: the
      last Worker is gone and the one to replace it cannot be constructed, so the job at the head settles and those behind it wait.
     */
    method Continue(j: nat, w: World)
      requires Valid() && j in leaving
      modifies this
      ensures Valid() && |jobs| == |old(jobs)| && old(settlements) + [j] <= settlements && (j in old(failing) ==> closed)
      ensures Stranded() <==> old(!closed && |queue| >= 2 && slots == map[] && leaving == {j}) && !w.constructs(old(queue)[0].ticket)
      ensures Stranded() ==> queue == old(queue)[1..]
    {
      var failed := j in failing;
      SettleLeaving(j);
      if failed {
        Shut();
      } else {
        Dispatch(w);
      }
    }

    /** The signal of a job: a queued one settles, one with a slot gives it up, for any other nothing happens. */
    method Abort(j: nat, terminates: bool)
      requires Valid() && j < |jobs|
      modifies this
      ensures Valid() && |jobs| == |old(jobs)| && (j in settlements || j in leaving)
      ensures settlements == old(settlements) + (if old(jobs[j].queued) then [j] else [])
      ensures Stranded() <==> old(Stranded()) && queue != []
    {
      if jobs[j].queued {
        var at := 0;
        assert exists i :: 0 <= i < |queue| && queue[i].ticket == j by {
          assert j in Tickets(queue);
        }
        while queue[at].ticket != j
          invariant at < |queue| && exists i :: at <= i < |queue| && queue[i].ticket == j
          decreases |queue| - at
        {
          at := at + 1;
        }
        SettleQueued(at);
      } else if jobs[j].slot.Some? {
        FinishSlot(jobs[j].slot.value, terminates);
      }
    }

    /** Closing rejects every queued job. */
    method Shut()
      requires Tracked() && failing <= leaving
      modifies `closed, `queue, `jobs, `settlements
      ensures Valid() && closed && queue == [] && |jobs| == |old(jobs)| && old(settlements) <= settlements
    {
      closed := true;
      while queue != []
        invariant Tracked() && closed && |jobs| == |old(jobs)| && old(settlements) <= settlements
        decreases |queue|
      {
        SettleQueued(0);
      }
    }

    /** A step of closing: a slot is terminated, and its job is on its way out. */
    method CloseSlot(s: nat, terminates: bool)
      requires Valid() && closed && s in slots
      modifies `slots, `jobs, `leaving, `failing, `closed
      ensures Valid() && closed && (terminates ==> s !in slots)
    {
      if slots[s].pending.Some? {
        FinishSlot(s, terminates);
      } else if terminates {
        slots := slots - {s};
      }
    }

    /** When nothing waits, runs or leaves, every job has settled exactly once. */
    lemma AllSettled(j: nat)
      requires Tracked() && queue == [] && leaving == {} && NoneBusy() && j < |jobs|
      ensures multiset(settlements)[j] == 1
    {
      assert InOnePlace(jobs[j], false, false, j in settlements);
      CountOnce(settlements, j);
    }

    predicate NoneBusy()
      reads `slots
    {
      forall s | s in slots :: slots[s].pending.None?
    }
  }

  /** One Worker, and a job on it. */
  method OneJob(w: World) returns (pool: VerifyPool)
    requires VerifyPool.Works(w, 0)
    ensures fresh(pool) && pool.Valid() && !pool.closed && pool.Full() && pool.leaving == {} && |pool.jobs| == 1 && pool.queue == []
    ensures pool.slots == map[0 := Slot(1, Some(0))]
  {
    pool := new VerifyPool(1);
    var first := pool.Run(w);
    assert |pool.slots| == 1;
  }

  /** Two more wait for it. */
  method ThreeJobs(w: World) returns (pool: VerifyPool)
    requires VerifyPool.Works(w, 0)
    ensures fresh(pool) && pool.Valid() && !pool.closed && pool.leaving == {}
    ensures pool.slots == map[0 := Slot(1, Some(0))] && pool.queue == [Waiter(1, false), Waiter(2, false)]
  {
    pool := OneJob(w);
    var second := pool.Run(w);
    var third := pool.Run(w);
  }

  /** The run that strands the last of them: the Worker fails, and none can be constructed in its place. */
  method StrandingRun() returns (pool: VerifyPool)
    ensures fresh(pool) && pool.Valid() && pool.Stranded() && pool.queue == [Waiter(2, false)]
  {
    var w := World(j => j == 0, _ => true, _ => true);
    pool := ThreeJobs(w);
    assert 0 in pool.slots;
    pool.Fail(0, true);
    assert pool.slots == map[];
    pool.Continue(0, w);
  }
}
