/** Generations, open writers and requests of the OPFS write Worker (src/stems/opfs-worker-client.ts). */
module OpfsWriters {
  import opened Common

  class WriteClient {
    /** idleGraceMs is zero: the Worker goes with its last writer. */
    const noGrace: bool
    var generation: nat
    var openWriters: int
    var worker: bool
    /** The generation the idle timer was armed for. */
    var idle: Option<nat>
    var pending: set<nat>
    var nextRequest: nat

    /** The generation of every acquisition so far, and those that have been released by whoever made them. */
    ghost var acquired: seq<nat>
    ghost var released: set<nat>
    /** The acquisitions of this generation that have not been released. */
    ghost var holders: set<nat>
    ghost var settlements: seq<nat>
    /** Generations whose Worker did not get ready. */
    var rejected: set<nat>
    /** A release or the idle timer has torn the Worker down under an open writer. */
    ghost var cut: bool

    ghost predicate Held()
      reads `generation, `acquired, `released, `holders
    {
      && (forall t | 0 <= t < |acquired| :: acquired[t] <= generation && (t in holders <==> acquired[t] == generation && t !in released))
      && (forall t | t in holders || t in released :: t < |acquired|)
    }

    /** The count is the number of unreleased acquisitions of this generation. */
    ghost predicate Counted()
      reads `openWriters, `holders, `worker, `cut
    {
      openWriters == |holders| && (!worker ==> holders == {}) && !cut
    }

    ghost predicate Fenced()
      reads `generation, `worker, `openWriters, `idle, `rejected
    {
      && (idle.Some? ==> idle.value == generation && worker && openWriters == 0)
      && (forall g | g in rejected :: g < generation)
    }

    /** A request is pending or has settled, and settles once. */
    ghost predicate Once()
      reads `pending, `nextRequest, `settlements
    {
      && NoRepeats(settlements) && (forall r | r in settlements :: r < nextRequest && r !in pending)
      && (forall r | r in pending :: r < nextRequest)
      && (forall r | 0 <= r < nextRequest :: r in pending || r in settlements)
    }

    ghost predicate Valid()
      reads this
    {
      var valid := Held() && Counted() && Fenced() && Once();
      valid
    }

    constructor (noGrace: bool)
      ensures Valid() && !worker && generation == 0 && acquired == [] && released == {} && this.noGrace == noGrace
    {
      this.noGrace := noGrace;
      generation, openWriters, worker, idle, pending, nextRequest := 0, 0, false, None, {}, 0;
      acquired, released, holders, settlements, rejected, cut := [], {}, {}, [], {}, false;
    }

    /** The Worker goes and its generation with it; nothing is acquired in the next one yet. */
    method Teardown(orderly: bool)
      requires Held() && forall g | g in rejected :: g <= generation
      modifies `generation, `worker, `idle, `holders, `cut
      ensures Held() && generation == old(generation) + 1 && !worker && idle == None && holders == {}
      ensures (forall g | g in rejected :: g < generation) && cut == (old(cut) || (orderly && old(holders) != {}))
    {
      cut := cut || (orderly && holders != {});
      generation, worker, idle, holders := generation + 1, false, None, {};
    }

    method RejectPending()
      requires Once()
      modifies `pending, `settlements
      ensures Once() && pending == {} && forall r | r in old(pending) :: r in settlements
      ensures old(settlements) <= settlements
    {
      while pending != {}
        invariant Once() && pending <= old(pending) && old(settlements) <= settlements
        invariant forall r | r in old(pending) :: r in pending || r in settlements
        decreases |pending|
      {
        var r :| r in pending;
        NoRepeatsMore(settlements, r);
        pending, settlements := pending - {r}, settlements + [r];
      }
    }

    /** close, a fired signal, a Worker error or a deadline: everything pending is rejected and the Worker goes, writers or not. */
    method Fail(unready: bool)
      requires Valid()
      modifies this
      ensures Valid() && pending == {} && !worker && acquired == old(acquired) && released == old(released) && nextRequest == old(nextRequest)
      ensures generation == old(generation) + (if old(worker || pending != {}) then 1 else 0)
      ensures old(settlements) <= settlements && forall r | r in old(pending) :: r in settlements
    {
      if !worker && pending == {} {
        return;
      }
      RejectPending();
      if unready {
        rejected := rejected + {generation};
      }
      openWriters := 0;
      Teardown(false);
    }

    /** The synchronous part of acquire: a Worker inside its grace is reused. */
    method Acquire(constructs: bool) returns (ok: bool, ghost t: nat)
      requires Valid()
      modifies `idle, `worker, `openWriters, `acquired, `holders
      ensures Valid() && ok == (old(worker) || constructs) && t == |old(acquired)|
      ensures if ok then acquired == old(acquired) + [generation] && t in holders && worker
              else acquired == old(acquired) && openWriters == old(openWriters) && !worker
    {
      t := |acquired|;
      idle := None;
      if !worker {
        if !constructs {
          return false, t;
        }
        worker := true;
      }
      openWriters := openWriters + 1;
      acquired, holders := acquired + [generation], holders + {t};
      return true, t;
    }

    /** acquire after its wait fails exactly when its generation is over, so that the decrement it would make then is never reached. */
    method Resume(gen: nat) returns (ok: bool)
      requires Valid() && gen <= generation
      ensures ok == (gen == generation)
    {
      return gen !in rejected && gen == generation;
    }

    /** #release */
    method Drop(gen: nat)
      requires Held() && forall g | g in rejected :: g <= generation
      modifies `openWriters, `generation, `worker, `idle, `holders, `cut
      ensures Held() && ((forall g | g in rejected :: g < old(generation)) ==> forall g | g in rejected :: g < generation)
      ensures gen != old(generation) || old(openWriters) > 1 ==> generation == old(generation) && worker == old(worker) && idle == old(idle) && holders == old(holders) && cut == old(cut)
      ensures gen != old(generation) ==> openWriters == old(openWriters)
      ensures gen == old(generation) ==> openWriters == Max(old(openWriters) - 1, 0)
      ensures gen == old(generation) && old(openWriters) <= 1 ==> if noGrace || !old(worker) then GoneAfter(old(generation), old(holders), old(cut)) else generation == gen && worker && holders == old(holders) && cut == old(cut) && idle == Some(gen)
    {
      if gen != generation {
        return;
      }
      openWriters := openWriters - 1;
      if openWriters > 0 {
        return;
      }
      openWriters := 0;
      if noGrace || !worker {
        Teardown(true);
      } else {
        idle := Some(gen);
      }
    }

    ghost predicate GoneAfter(gen: nat, held: set<nat>, earlier: bool)
      reads `generation, `worker, `idle, `holders, `cut
    {
      generation == gen + 1 && !worker && idle == None && holders == {} && cut == (earlier || held != {})
    }

    /** Whoever made an acquisition releases it, once. Of an older generation nothing is left to release. */
    method Release(gen: nat, ghost t: nat)
      requires Valid() && t < |acquired| && acquired[t] == gen && t !in released
      modifies `openWriters, `generation, `worker, `idle, `holders, `cut, `released
      ensures Valid() && released == old(released) + {t}
      ensures gen != old(generation) ==> generation == old(generation) && worker == old(worker) && openWriters == old(openWriters)
      ensures generation != old(generation) ==> old(holders) == {t}
    {
      LetGo(t);
      Drop(gen);
    }

    ghost method LetGo(t: nat)
      requires Held() && t < |acquired| && t !in released
      modifies `released, `holders
      ensures Held() && released == old(released) + {t} && holders == old(holders) - {t}
    {
      released, holders := released + {t}, holders - {t};
    }

    /**
      A writer whose Worker could not be constructed releases what it never acquired. This is harmless exactly when nobody
      has acquired anything in its generation by then; otherwise the count falls short, or the Worker goes under an open writer.
     */
    method ConstructionFailed(gen: nat)
      requires Valid()
      modifies `openWriters, `generation, `worker, `idle, `holders, `cut
      ensures Valid() <==> gen != old(generation) || old(openWriters) == 0
    {
      Drop(gen);
    }

    /** The grace is over: the Worker goes if nobody has it. */
    method IdleFires(gen: nat)
      requires Valid() && idle == Some(gen)
      modifies `generation, `worker, `idle, `holders, `cut
      ensures Valid() && !worker && generation == old(generation) + 1 && old(holders) == {}
    {
      idle := None;
      if gen != generation || openWriters > 0 || !worker {
        return;
      }
      Teardown(true);
    }

    /** A signal that fires or an error of a Worker: of an older generation it does nothing. */
    method Interrupt(gen: nat, unready: bool)
      requires Valid()
      modifies this
      ensures Valid() && acquired == old(acquired) && old(settlements) <= settlements
      ensures gen != old(generation) ==> generation == old(generation) && worker == old(worker) && openWriters == old(openWriters) && pending == old(pending)
      ensures gen == old(generation) ==> !worker && pending == {}
    {
      if gen == generation {
        Fail(unready);
      }
    }

    /** A request of an older generation is rejected at once; one that cannot be posted fails the client. */
    method Request(gen: nat, posts: bool) returns (id: nat)
      requires Valid()
      modifies this
      ensures Valid() && id == old(nextRequest) && nextRequest == id + 1 && (id in pending <==> gen == old(generation) && old(worker) && posts)
    {
      id, nextRequest := nextRequest, nextRequest + 1;
      NoRepeatsMore(settlements, id);
      if gen != generation || !worker {
        settlements := settlements + [id];
      } else if posts {
        pending := pending + {id};
      } else {
        settlements := settlements + [id];
        Fail(false);
      }
    }

    /** A reply settles its request; replies of an older generation and of settled requests change nothing. */
    method Receive(gen: nat, id: nat, started: bool)
      requires Valid()
      modifies `pending, `settlements
      ensures Valid()
      ensures if gen == generation && id in old(pending) && !started then pending == old(pending) - {id} && settlements == old(settlements) + [id]
              else pending == old(pending) && settlements == old(settlements)
    {
      if gen != generation || id !in pending || started {
        return;
      }
      NoRepeatsMore(settlements, id);
      pending, settlements := pending - {id}, settlements + [id];
    }

    /** The deadline of a request that is still pending fails the client. */
    method Deadline(id: nat)
      requires Valid()
      modifies this
      ensures Valid() && id !in pending
      ensures id !in old(pending) ==> generation == old(generation) && pending == old(pending) && worker == old(worker)
    {
      if id in pending {
        Fail(false);
      }
    }

    /** Every request settles exactly once, unless it is still pending. */
    lemma SettlesOnce(id: nat)
      requires Valid() && id < nextRequest
      ensures multiset(settlements)[id] == if id in pending then 0 else 1
    {
      CountOnce(settlements, id);
    }
  }

  /**
    Two writers in one turn: the first finds no Worker to construct, the second does, and the first one's failure then
    releases what the second holds.
   */
  method ShortCount(noGrace: bool) returns (client: WriteClient)
    ensures fresh(client) && client.acquired == [0] && client.released == {} && !client.Valid()
  {
    client := new WriteClient(noGrace);
    var first, none := client.Acquire(false);
    var second, held := client.Acquire(true);
    assert client.openWriters == |client.holders| && held in client.holders;
    client.ConstructionFailed(0);
  }
}
