/**
  * Progress and acknowledgement between one verification slot and its Worker, over any number of jobs
  * (src/stems/sparse-verify-worker-pool.ts, src/internal/engine-web-sparse-verify-worker.ts).
  */
module SparseVerifyTransport {
  import opened Common

  datatype ToWorker = Start(id: nat, generation: nat, total: nat) | Ack(id: nat, generation: nat, bytes: nat)

  datatype ToHost = Progress(id: nat, generation: nat, bytes: nat) | Complete(id: nat, generation: nat) | Failure(id: nat, generation: nat)

  /** The Worker's job: what it has hashed, what it last reported, and whether that is still unacknowledged. */
  datatype Job = Job(id: nat, generation: nat, total: nat, latest: nat, sent: nat, awaiting: bool)

  datatype Fault = StaleAck | NotMonotonic | Overlapping

  /** How a job ended, with the reply's own id and generation. */
  datatype Outcome = Outcome(id: nat, generation: nat, completed: bool)

  datatype State = State(
    generation: nat, nextId: nat, pending: Option<nat>, total: nat, lastProgress: nat, terminated: bool,
    active: Option<Job>, toWorker: seq<ToWorker>, toHost: seq<ToHost>,
    settled: seq<Outcome>, fault: Option<Fault>)

  datatype Action = StartJob(id: nat, total: nat) | WorkerReceives | Hashes(bytes: nat) | Completes | Fails | HostReceives | Stops

  function Init(): State {
    State(0, 0, None, 0, 0, false, None, [], [], [], None)
  }

  predicate Enabled(s: State, a: Action) {
    match a
    case StartJob(id, total) => s.pending.None? && !s.terminated && s.nextId <= id
    case WorkerReceives => |s.toWorker| > 0 && !s.terminated
    case Hashes(bytes) => s.active.Some? && s.active.value.latest <= bytes <= s.active.value.total
    case Completes => s.active.Some?
    case Fails => s.active.Some?
    case HostReceives => |s.toHost| > 0 && !s.terminated
    case Stops => !s.terminated
  }

  /** postProgress */
  function Post(s: State, job: Job): State {
    if job.latest <= job.sent then s.(active := Some(job))
    else
      s.(active := Some(job.(sent := job.latest, awaiting := true)),
         toHost := s.toHost + [Progress(job.id, job.generation, job.latest)])
  }

  function WorkerReceive(s: State): State
    requires |s.toWorker| > 0
  {
    var m, t := s.toWorker[0], s.(toWorker := s.toWorker[1..]);
    match m
    case Start(id, generation, total) =>
      if s.active.Some? then t.(fault := Some(Overlapping)) else t.(active := Some(Job(id, generation, total, 0, 0, false)))
    case Ack(id, generation, bytes) =>
      if s.active.None? || s.active.value.id != id || s.active.value.generation != generation then t
      else if !s.active.value.awaiting || bytes != s.active.value.sent then t.(fault := Some(StaleAck))
      else Post(t, s.active.value.(awaiting := false))
  }

  /** emitProgress: only one report is ever under way. */
  function Hash(s: State, bytes: nat): State
    requires s.active.Some?
  {
    var job := s.active.value.(latest := bytes);
    if !job.awaiting then Post(s, job) else s.(active := Some(job))
  }

  /** The job ends for the host: an unsuccessful end terminates the Worker and its slot. */
  function Settle(s: State, id: nat, completed: bool): State {
    var t := s.(pending := None, settled := s.settled + [Outcome(id, s.generation, completed)]);
    if completed then t else t.(terminated := true, active := None)
  }

  function HostReceive(s: State): State
    requires |s.toHost| > 0
  {
    var m, t := s.toHost[0], s.(toHost := s.toHost[1..]);
    if s.pending.None? || m.generation != s.generation || m.id != s.pending.value then t
    else
      match m
      case Progress(id, generation, bytes) =>
        if bytes <= s.lastProgress || bytes > s.total then t.(fault := Some(NotMonotonic))
        else t.(lastProgress := bytes, toWorker := s.toWorker + [Ack(id, generation, bytes)])
      case Complete(id, generation) => Settle(t, id, true)
      case Failure(id, generation) => Settle(t, id, false)
  }

  function Apply(s: State, a: Action): State
    requires Enabled(s, a)
  {
    match a
    case StartJob(id, total) =>
      s.(generation := s.generation + 1, nextId := id + 1, pending := Some(id), total := total, lastProgress := 0,
         toWorker := s.toWorker + [Start(id, s.generation + 1, total)])
    case WorkerReceives => WorkerReceive(s)
    case Hashes(bytes) => Hash(s, bytes)
    case Completes => s.(active := None, toHost := s.toHost + [Complete(s.active.value.id, s.active.value.generation)])
    case Fails => s.(active := None, toHost := s.toHost + [Failure(s.active.value.id, s.active.value.generation)])
    case HostReceives => HostReceive(s)
    case Stops => if s.pending.Some? then Settle(s, s.pending.value, false) else s.(terminated := true, active := None)
  }

  /** At most the acknowledgement of the job before is still on its way. */
  predicate OldAck(q: seq<ToWorker>, id: nat) {
    q == [] || (|q| == 1 && q[0].Ack? && q[0].id < id)
  }

  /** The running job's one report: on its way, or acknowledged on the way back, or neither. */
  predicate Reporting(s: State, id: nat, job: Job) {
    && job.id == id && job.generation == s.generation && job.total == s.total
    && job.sent <= job.latest <= job.total
    && if !job.awaiting then s.toHost == [] && s.toWorker == [] && s.lastProgress == job.sent == job.latest
       else
         || (s.toHost == [Progress(id, s.generation, job.sent)] && s.toWorker == [] && s.lastProgress < job.sent)
         || (s.toHost == [] && s.toWorker == [Ack(id, s.generation, job.sent)] && s.lastProgress == job.sent)
  }

  predicate Running(s: State, id: nat) {
    s.active.Some? && Reporting(s, id, s.active.value)
  }

  predicate LastWord(s: State, id: nat, m: ToHost) {
    m == Complete(id, s.generation) || m == Failure(id, s.generation)
  }

  /** The Worker is through with the job; its last word is the last message. */
  predicate Ended(s: State, id: nat) {
    && s.active.None? && |s.toHost| > 0
    && LastWord(s, id, s.toHost[|s.toHost| - 1])
    && if |s.toHost| == 1 then s.toWorker == [] || (|s.toWorker| == 1 && s.toWorker[0].Ack? && s.toWorker[0].id == id)
       else |s.toHost| == 2 && s.toWorker == [] && s.toHost[0].Progress? && s.toHost[0].id == id && s.toHost[0].generation == s.generation
            && s.lastProgress < s.toHost[0].bytes <= s.total
  }

  predicate Starting(s: State, id: nat) {
    && s.active.None? && s.toHost == [] && s.lastProgress == 0 && |s.toWorker| > 0
    && s.toWorker[|s.toWorker| - 1] == Start(id, s.generation, s.total) && OldAck(s.toWorker[..|s.toWorker| - 1], id)
  }

  /** Every job of the slot but the pending one has settled once, in the order of its id, under the generation it was started with. */
  predicate SettledInOrder(s: State) {
    && |s.settled| + (if s.pending.Some? then 1 else 0) == s.generation
    && (forall i | 0 <= i < |s.settled| :: s.settled[i].generation == i + 1)
    && (forall i, j | 0 <= i < j < |s.settled| :: s.settled[i].id < s.settled[j].id)
    && (forall i | 0 <= i < |s.settled| :: s.settled[i].id < if s.pending.Some? then s.pending.value else s.nextId)
  }

  predicate Inv(s: State) {
    && s.fault.None?
    && SettledInOrder(s) && (s.pending.Some? ==> s.pending.value + 1 == s.nextId)
    && (!s.terminated ==>
          if s.pending.None? then s.active.None? && s.toHost == [] && OldAck(s.toWorker, s.nextId)
          else Starting(s, s.pending.value) || Running(s, s.pending.value) || Ended(s, s.pending.value))
    && (s.terminated ==> s.active.None? && s.pending.None?)
  }

  lemma WorkerReceivesInv(s: State)
    requires Inv(s) && Enabled(s, WorkerReceives)
    ensures Inv(WorkerReceive(s))
  {
    if s.pending.Some? && Starting(s, s.pending.value) && |s.toWorker| == 2 {
      assert s.toWorker[..1] == [s.toWorker[0]];
      assert s.toWorker[1..] == [s.toWorker[1]];
    }
  }

  lemma HostReceivesInv(s: State)
    requires Inv(s) && Enabled(s, HostReceives)
    ensures Inv(HostReceive(s))
  {
  }

  lemma LocalInv(s: State, a: Action)
    requires Inv(s) && Enabled(s, a) && (a.Hashes? || a.Completes? || a.Fails? || a.Stops?)
    ensures Inv(Apply(s, a))
  {
  }

  lemma StartJobInv(s: State, id: nat, total: nat)
    requires Inv(s) && Enabled(s, StartJob(id, total))
    ensures Inv(Apply(s, StartJob(id, total)))
  {
    var t := Apply(s, StartJob(id, total));
    assert t.toWorker[..|t.toWorker| - 1] == s.toWorker;
  }

  lemma ApplyInv(s: State, a: Action)
    requires Inv(s) && Enabled(s, a)
    ensures Inv(Apply(s, a))
  {
    match a
    case StartJob(id, total) => StartJobInv(s, id, total);
    case WorkerReceives => WorkerReceivesInv(s);
    case HostReceives => HostReceivesInv(s);
    case _ => LocalInv(s, a);
  }

  function After(actions: seq<Action>): State
    decreases |actions|
  {
    if |actions| == 0 then Init()
    else
      var s, a := After(actions[..|actions| - 1]), actions[|actions| - 1];
      if Enabled(s, a) then Apply(s, a) else s
  }

  lemma {:induction false} RunInv(actions: seq<Action>)
    ensures Inv(After(actions))
    decreases |actions|
  {
    if |actions| > 0 {
      RunInv(actions[..|actions| - 1]);
      var s, a := After(actions[..|actions| - 1]), actions[|actions| - 1];
      if Enabled(s, a) {
        ApplyInv(s, a);
      }
    }
  }

  /** Reports and acknowledgements of a job that are on their way. */
  function InFlight(s: State, id: nat): nat {
    |set i | 0 <= i < |s.toHost| && s.toHost[i].Progress? && s.toHost[i].id == id|
    + |set i | 0 <= i < |s.toWorker| && s.toWorker[i].Ack? && s.toWorker[i].id == id|
  }

  /**
    * In every run, over any number of jobs on one Worker: no protocol error of either side is raised; every job so far
    * but the pending one has settled exactly once, in order, with its own id and generation; and at most one report
    * or acknowledgement of the pending job is on its way.
    */
  lemma AckSafety(actions: seq<Action>)
    ensures var s := After(actions); s.fault.None?
    ensures SettledInOrder(After(actions))
    ensures var s := After(actions); !s.terminated && s.pending.Some? ==> InFlight(s, s.pending.value) <= 1
  {
    RunInv(actions);
    var s := After(actions);
    if !s.terminated && s.pending.Some? {
      OneInFlight(s, s.pending.value);
    }
  }

  lemma OneInFlight(s: State, id: nat)
    requires Starting(s, id) || Running(s, id) || Ended(s, id)
    ensures InFlight(s, id) <= 1
  {
    var reports := set i | 0 <= i < |s.toHost| && s.toHost[i].Progress? && s.toHost[i].id == id;
    var acks := set i | 0 <= i < |s.toWorker| && s.toWorker[i].Ack? && s.toWorker[i].id == id;
    assert reports <= {0};
    assert acks <= {0};
    assert reports == {} || acks == {};
    if reports != {} {
      assert reports == {0};
    }
    if acks != {} {
      assert acks == {0};
    }
  }
}
