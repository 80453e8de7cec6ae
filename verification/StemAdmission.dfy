/** The FIFO semaphore shared by decoding and verification (src/stems/flac-admission.ts). */
module StemAdmission {
  import opened Common

  /** A waiter and whether its signal has fired; the abort listener may run later than a release. */
  datatype Waiter = Waiter(ticket: nat, aborted: bool)

  datatype Admission = Granted | Queued | Rejected

  predicate Less(s: seq<nat>, i: nat, j: nat)
    requires i < |s| && j < |s|
  {
    s[i] < s[j]
  }

  predicate Increasing(s: seq<nat>) {
    forall i, j | 0 <= i < j < |s| :: Less(s, i, j)
  }

  predicate Before(queue: seq<Waiter>, i: nat, j: nat)
    requires i < |queue| && j < |queue|
  {
    queue[i].ticket < queue[j].ticket
  }

  /** Strict order of arrival: those served, then those in the queue, then whoever comes next. */
  predicate Line(served: seq<nat>, queue: seq<Waiter>, next: nat) {
    && Increasing(served) && (served != [] ==> served[|served| - 1] < next)
    && (forall i, j | 0 <= i < j < |queue| :: Before(queue, i, j))
    && (queue != [] ==> queue[|queue| - 1].ticket < next)
    && (queue != [] && served != [] ==> served[|served| - 1] < queue[0].ticket)
  }

  /** The head of the line is served or passed over. */
  lemma LineMoves(served: seq<nat>, queue: seq<Waiter>, next: nat, after: seq<nat>)
    requires Line(served, queue, next) && queue != []
    requires after == served || after == served + [queue[0].ticket]
    ensures Line(after, queue[1..], next)
    ensures forall i | 0 < i < |queue| :: queue[i].ticket != queue[0].ticket
  {
    forall i | 0 < i < |queue|
      ensures queue[0].ticket < queue[i].ticket
    {
      assert Before(queue, 0, i);
    }
    forall i, j | 0 <= i < j < |queue| - 1
      ensures Before(queue[1..], i, j)
    {
      assert Before(queue, i + 1, j + 1);
    }
    forall i, j | 0 <= i < j < |after|
      ensures Less(after, i, j)
    {
      if j < |served| {
        assert Less(served, i, j);
      } else if i < |served| - 1 {
        assert Less(served, i, |served| - 1);
      }
    }
  }

  /** Whoever comes next joins the line at its end, or is served at once when it is empty. */
  lemma LineJoins(served: seq<nat>, queue: seq<Waiter>, next: nat)
    requires Line(served, queue, next)
    ensures Line(served, queue, next + 1) && Line(served, queue + [Waiter(next, false)], next + 1)
    ensures queue == [] ==> Line(served + [next], queue, next + 1)
  {
    var longer := queue + [Waiter(next, false)];
    forall i, j | 0 <= i < j < |longer|
      ensures Before(longer, i, j)
    {
      if j < |queue| {
        assert Before(queue, i, j);
      } else if i < |queue| - 1 {
        assert Before(queue, i, |queue| - 1);
      }
    }
    if queue == [] {
      LineMoves(served, longer, next + 1, served + [next]);
      assert longer[1..] == queue;
    }
  }

  /** Somebody leaves the line, wherever he stands. */
  lemma LineLeaves(served: seq<nat>, queue: seq<Waiter>, next: nat, at: nat)
    requires Line(served, queue, next) && at < |queue|
    ensures Line(served, queue[..at] + queue[at + 1..], next)
    ensures Tickets(queue[..at] + queue[at + 1..]) == Tickets(queue) - {queue[at].ticket}
  {
    var rest := queue[..at] + queue[at + 1..];
    forall i, j | 0 <= i < j < |rest|
      ensures Before(rest, i, j)
    {
      assert Before(queue, if i < at then i else i + 1, if j < at then j else j + 1);
    }
    if rest != [] {
      assert at == |queue| - 1 ==> Before(queue, at - 1, at);
      assert at == 0 ==> Before(queue, 0, 1);
    }
    forall i | 0 <= i < |rest|
      ensures rest[i].ticket != queue[at].ticket
    {
      assert if i < at then Before(queue, i, at) else Before(queue, at, i + 1);
    }
    assert forall i | 0 <= i < |queue| && i != at :: queue[i] in rest by {
      assert forall i | 0 <= i < |queue| && i != at :: queue[i] == rest[if i < at then i else i - 1];
    }
  }

  function Marked(queue: seq<Waiter>, ticket: nat): (r: seq<Waiter>)
    ensures |r| == |queue|
  {
    seq(|queue|, i requires 0 <= i < |queue| => if queue[i].ticket == ticket then Waiter(ticket, true) else queue[i])
  }

  /** A signal that fires moves nobody. */
  lemma LineMarked(served: seq<nat>, queue: seq<Waiter>, next: nat, ticket: nat)
    requires Line(served, queue, next)
    ensures Line(served, Marked(queue, ticket), next) && Tickets(Marked(queue, ticket)) == Tickets(queue)
  {
    var marked := Marked(queue, ticket);
    forall i | 0 <= i < |queue|
      ensures queue[i].ticket == marked[i].ticket && marked[i].ticket in Tickets(marked) && queue[i].ticket in Tickets(queue)
    {
      assert marked[i] in marked;
    }
    forall i, j | 0 <= i < j < |marked|
      ensures Before(marked, i, j)
    {
      assert Before(queue, i, j);
    }
  }

  function Tickets(queue: seq<Waiter>): set<nat> {
    set w | w in queue :: w.ticket
  }

  class BoundedStemAdmission {
    const limit: nat
    var active: int
    var queued: seq<Waiter>
    var closed: bool
    /** Leases that have not been released. */
    var held: set<nat>
    /** The ticket of the next call of acquire, and the tickets granted so far, in that order. */
    var next: nat
    ghost var granted: seq<nat>

    /** Calls are admitted strictly in the order of their tickets: those granted, then those in the queue. */
    ghost predicate Fifo()
      reads `queued, `next, `granted
    {
      Line(granted, queued, next)
    }

    /** A lease is not in the queue as well. */
    ghost predicate Apart()
      reads `queued, `held, `next
    {
      (forall t | t in held :: t < next) && (forall i | 0 <= i < |queued| :: queued[i].ticket !in held)
    }

    /** Never more than the limit, and nobody waits while there is room and the semaphore is open. */
    ghost predicate Bounded()
      reads `active, `queued, `closed, `held
    {
      && limit >= 1 && 0 <= active == |held| <= limit
      && (queued != [] ==> !closed && active == limit)
    }

    ghost predicate Valid()
      reads this
    {
      var valid := Bounded() && Fifo() && Apart();
      valid
    }

    constructor (limit: nat)
      requires limit >= 1
      ensures Valid() && this.limit == limit && held == {} && queued == [] && !closed && granted == []
    {
      this.limit, active, queued, closed, held := limit, 0, [], false, {};
      next, granted := 0, [];
    }

    /** Everyone admitted or waiting. */
    ghost function Known(): set<nat>
      reads `held, `queued
    {
      held + Tickets(queued)
    }

    method Acquire(aborted: bool) returns (ticket: nat, admission: Admission)
      requires Valid()
      modifies `active, `queued, `held, `next, `granted
      ensures Valid() && ticket == old(next) && next == ticket + 1
      ensures admission == if closed || aborted then Rejected else if old(active) < limit then Granted else Queued
      ensures held == if admission.Granted? then old(held) + {ticket} else old(held)
      ensures queued == if admission.Queued? then old(queued) + [Waiter(ticket, false)] else old(queued)
      ensures granted == if admission.Granted? then old(granted) + [ticket] else old(granted)
    {
      ticket := next;
      LineJoins(granted, queued, next);
      next := next + 1;
      if closed || aborted {
        return ticket, Rejected;
      }
      if active < limit {
        active := active + 1;
        held, granted := held + {ticket}, granted + [ticket];
        return ticket, Granted;
      }
      queued := queued + [Waiter(ticket, false)];
      return ticket, Queued;
    }

    /** What holds between two steps of admitting, when there may be room for a waiter. */
    ghost predicate Admitting()
      reads this
    {
      && limit >= 1 && 0 <= active == |held| <= limit && !closed
      && Fifo() && Apart()
    }

    method TakeHead(admitted: bool)
      requires Fifo() && queued != []
      modifies `queued, `granted
      ensures Fifo() && queued == old(queued)[1..]
      ensures granted == old(granted) + (if admitted then [old(queued)[0].ticket] else [])
    {
      LineMoves(granted, queued, next, granted + (if admitted then [queued[0].ticket] else []));
      if admitted {
        granted := granted + [queued[0].ticket];
      }
      queued := queued[1..];
    }

    method AdmitHead()
      requires Admitting() && active < limit && queued != []
      modifies `active, `queued, `held, `granted
      ensures Admitting() && queued == old(queued)[1..]
      ensures var w := old(queued)[0]; granted == old(granted) + (if w.aborted then [] else [w.ticket])
      ensures var w := old(queued)[0]; held == old(held) + (if w.aborted then {} else {w.ticket})
    {
      var waiter := queued[0];
      LineMoves(granted, queued, next, granted);
      TakeHead(!waiter.aborted);
      if !waiter.aborted {
        active := active + 1;
        held := held + {waiter.ticket};
      }
    }

    /** Admits from the head of the queue while there is room; waiters whose signal fired are passed over. */
    method AdmitNext() returns (ghost taken: nat)
      requires if closed then Valid() else Admitting()
      modifies `active, `queued, `held, `granted
      ensures Valid() && taken <= |old(queued)| && queued == old(queued)[taken..]
      ensures granted == old(granted) + Live(old(queued), taken)
      ensures forall t :: t in held <==> t in old(held) || t in Live(old(queued), taken)
    {
      taken := 0;
      if closed {
        return;
      }
      ghost var waiters, before, earlier := queued, held, granted;
      while active < limit && queued != []
        invariant taken <= |waiters| && queued == waiters[taken..]
        invariant Admitted(earlier, before, waiters, taken, granted, held)
        invariant Admitting()
        decreases |queued|
      {
        ghost var g, h := granted, held;
        AdmitHead();
        AdmittedNext(earlier, before, waiters, taken, g, h, granted, held);
        taken := taken + 1;
      }
    }

    /** Releasing twice is releasing once. */
    method Release(ticket: nat) returns (ghost taken: nat)
      requires Valid()
      modifies `active, `queued, `held, `granted
      ensures Valid() && taken <= |old(queued)| && queued == old(queued)[taken..]
      ensures granted == old(granted) + Live(old(queued), taken)
      ensures forall t :: t in held <==> (t in old(held) && t != ticket) || t in Live(old(queued), taken)
      ensures ticket !in old(held) ==> taken == 0
    {
      taken := 0;
      if ticket in held {
        held, active := held - {ticket}, active - 1;
        taken := AdmitNext();
      }
    }

    /** The signal of a waiter fires. */
    method Abort(ticket: nat)
      requires Valid()
      modifies `queued
      ensures Valid() && queued == Marked(old(queued), ticket)
    {
      LineMarked(granted, queued, next, ticket);
      queued := Marked(queued, ticket);
    }

    /** The abort listener of a waiter: it leaves the queue, wherever it stands. */
    method Leave(ticket: nat)
      requires Valid()
      modifies `queued
      ensures Valid() && Tickets(queued) == Tickets(old(queued)) - {ticket}
      ensures queued == old(queued) || exists i :: 0 <= i < |old(queued)| && queued == old(queued)[..i] + old(queued)[i + 1..]
    {
      var index := 0;
      while index < |queued| && queued[index].ticket != ticket
        invariant index <= |queued| && forall i | 0 <= i < index :: queued[i].ticket != ticket
      {
        index := index + 1;
      }
      if index < |queued| {
        LineLeaves(granted, queued, next, index);
        queued := queued[..index] + queued[index + 1..];
      }
    }

    method Close()
      requires Valid()
      modifies `queued, `closed
      ensures Valid() && closed && queued == if old(closed) then old(queued) else []
    {
      if !closed {
        closed, queued := true, [];
      }
    }
  }

  /** The tickets among the first k waiters that still want to be admitted. */
  function Live(queue: seq<Waiter>, k: nat): seq<nat>
    requires k <= |queue|
  {
    if k == 0 then [] else Live(queue, k - 1) + if queue[k - 1].aborted then [] else [queue[k - 1].ticket]
  }

  /** The first k waiters have been dealt with: the live ones were granted in order and hold leases. */
  ghost predicate Admitted(earlier: seq<nat>, before: set<nat>, queue: seq<Waiter>, k: nat, granted: seq<nat>, held: set<nat>)
    requires k <= |queue|
  {
    granted == earlier + Live(queue, k) && forall t :: t in held <==> t in before || t in Live(queue, k)
  }

  lemma AdmittedNext(earlier: seq<nat>, before: set<nat>, queue: seq<Waiter>, k: nat, g: seq<nat>, h: set<nat>, granted: seq<nat>, held: set<nat>)
    requires k < |queue| && Admitted(earlier, before, queue, k, g, h)
    requires granted == g + (if queue[k].aborted then [] else [queue[k].ticket])
    requires held == h + (if queue[k].aborted then {} else {queue[k].ticket})
    ensures Admitted(earlier, before, queue, k + 1, granted, held)
  {
  }

  lemma {:induction false} LiveTicket(queue: seq<Waiter>, k: nat, ticket: nat) returns (i: nat)
    requires k <= |queue| && ticket in Live(queue, k)
    ensures i < k && queue[i].ticket == ticket
  {
    if !queue[k - 1].aborted && queue[k - 1].ticket == ticket {
      i := k - 1;
    } else {
      i := LiveTicket(queue, k - 1, ticket);
    }
  }
}
