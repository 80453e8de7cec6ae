/**
  * The decode job between the host and its Worker: output credits, PCM in flight, the one-slot command lane
  * (src/stems/flac-resolver.ts, src/internal/engine-web-flac-worker.ts, src/stems/flac-output-credits.ts).
  */
module FlacDecodeJob {
  import opened Common

  const CREDITS := 2

  datatype ToWorker = Start(id: nat) | Initialize(id: nat) | Credit(id: nat)

  datatype ToHost = Ready(id: nat) | NeedInput(id: nat) | Pcm(id: nat, bytes: nat) | Complete(id: nat, bytes: nat) | Failure(id: nat)

  /** The decoder runs, waits for the input slot (blocking its thread), waits for a credit, or holds one. */
  datatype Phase = Idle | Loading | Loaded | Running | WaitingInput | WaitingCredit | Granted | Dead

  datatype Command = ReadyCommand | InputCommand | CompleteCommand(bytes: nat)

  datatype Lane = Taking | Preparing | Refilling | Finishing | Over

  /** The protocol errors of either side. */
  datatype Fault = CreditOverflow | OutputOverflow | LaneOverflow | OutOfOrder | WrongCount

  /** Where the one turn of the job is; it decides nothing and only serves the invariant. */
  datatype Stage =
    | Starting | LoadingDecoder | ReadySent | ReadyQueued | HostPreparing | InitializeSent | Working
    | RefillSent | RefillQueued | HostRefilling | CompleteSent | CompleteQueued | HostFinishing | FailureSent | Settled

  datatype State = State(
    id: nat, borrowed: bool,
    active: nat, phase: Phase, available: int, workerBytes: nat,
    toWorker: seq<ToWorker>, toHost: seq<ToHost>,
    stopping: bool, terminal: bool, ended: bool, initialized: bool, lane: Lane, queue: seq<Command>,
    blocks: seq<nat>, checkedOut: Option<nat>, hostBytes: nat,
    fault: Option<Fault>, stage: Stage)

  /** A job as the host posts it; credits of earlier jobs may still be on their way. */
  function Begin(id: nat, borrowed: bool, late: seq<ToWorker>): State {
    State(id, borrowed, 0, Idle, 0, 0, late + [Start(id)], [], false, false, false, false, Taking, [], [], None, 0, None, Starting)
  }

  datatype Action =
    | DecoderLoaded | WorkerReceives | NeedsInput | HasBlock | TakesCredit | PostsPcm(bytes: nat) | Finishes | Fails
    | HostReceives | LaneTakes | Prepares | Publishes | FinishesSource | Stops | Ends | Pulls | Releases | NextJob

  predicate Enabled(s: State, a: Action) {
    match a
    case DecoderLoaded => s.phase.Loading?
    case WorkerReceives => |s.toWorker| > 0 && !s.phase.WaitingInput? && !s.phase.Dead?
    case NeedsInput => s.phase.Running?
    case HasBlock => s.phase.Running?
    case TakesCredit => s.phase.WaitingCredit? && s.available > 0
    case PostsPcm(bytes) => s.phase.Granted? && bytes >= 1
    case Finishes => s.phase.Running?
    case Fails => s.phase.Loading? || s.phase.Running? || s.phase.WaitingCredit? || s.phase.Granted?
    case HostReceives => |s.toHost| > 0
    case LaneTakes => s.lane.Taking? && |s.queue| > 0 && !s.stopping
    case Prepares => s.lane.Preparing? && !s.stopping
    case Publishes => s.lane.Refilling? && !s.stopping
    case FinishesSource => s.lane.Finishing? && !s.stopping
    case Stops => !s.stopping
    case Ends => s.stopping && !s.ended
    case Pulls => |s.blocks| > 0 && (s.borrowed ==> s.checkedOut.None?)
    case Releases => s.checkedOut.Some?
    case NextJob => s.ended && s.phase.Idle? && s.blocks == [] && s.checkedOut.None?
  }

  /** Messages of another job are dropped; a credit beyond the two there are throws. */
  function WorkerReceive(s: State): State
    requires |s.toWorker| > 0
  {
    var m, t := s.toWorker[0], s.(toWorker := s.toWorker[1..]);
    match m
    case Start(id) =>
      if s.active != 0 then t else t.(active := id, phase := Loading, available := CREDITS, workerBytes := 0, stage := LoadingDecoder)
    case Initialize(id) =>
      if id != s.active || s.active == 0 then t
      else if s.phase.Loaded? then t.(phase := Running, stage := Working)
      else t.(fault := Some(OutOfOrder))
    case Credit(id) =>
      if id != s.active || s.active == 0 then t
      else if s.available >= CREDITS then t.(fault := Some(CreditOverflow))
      else t.(available := s.available + 1)
  }

  /** The lane has one slot. */
  function Enqueue(s: State, c: Command, stage: Stage): State {
    if |s.queue| >= 1 then s.(fault := Some(LaneOverflow)) else s.(queue := s.queue + [c], stage := stage)
  }

  /** An unsuccessful stop discards what was decoded and terminates the Worker. */
  function Abandon(s: State): State {
    s.(stopping := true, blocks := [], checkedOut := None, active := 0, phase := Dead, stage := Settled)
  }

  function HostReceive(s: State): State
    requires |s.toHost| > 0
  {
    var m, t := s.toHost[0], s.(toHost := s.toHost[1..]);
    if s.stopping || m.id != s.id then t
    else
      match m
      case Ready(_) => if s.terminal then t.(fault := Some(OutOfOrder)) else Enqueue(t, ReadyCommand, ReadyQueued)
      case NeedInput(_) => if s.terminal then t.(fault := Some(OutOfOrder)) else Enqueue(t, InputCommand, RefillQueued)
      case Pcm(_, bytes) =>
        if s.terminal || |s.blocks| + (if s.checkedOut.None? then 0 else 1) >= 2 then t.(fault := Some(OutputOverflow))
        else t.(blocks := s.blocks + [bytes], hostBytes := s.hostBytes + bytes)
      case Complete(_, bytes) =>
        if s.terminal then t.(fault := Some(OutOfOrder)) else Enqueue(t.(terminal := true), CompleteCommand(bytes), CompleteQueued)
      case Failure(_) => Abandon(t)
  }

  function LaneTake(s: State): State
    requires |s.queue| > 0
  {
    var t := s.(queue := s.queue[1..]);
    match s.queue[0]
    case ReadyCommand => if s.initialized then t.(fault := Some(OutOfOrder)) else t.(lane := Preparing, stage := HostPreparing)
    case InputCommand => if !s.initialized then t.(fault := Some(OutOfOrder)) else t.(lane := Refilling, stage := HostRefilling)
    case CompleteCommand(bytes) =>
      if !s.initialized then t.(fault := Some(OutOfOrder))
      else if bytes != s.hostBytes then t.(fault := Some(WrongCount))
      else t.(lane := Finishing, stage := HostFinishing)
  }

  /** A delivered block returns its credit at once, or when its borrower releases it before completion. */
  function Pull(s: State): State
    requires |s.blocks| > 0
  {
    var t := s.(blocks := s.blocks[1..]);
    if s.borrowed then t.(checkedOut := Some(s.blocks[0]))
    else if s.ended then t else t.(toWorker := s.toWorker + [Credit(s.id)])
  }

  function Release(s: State): State {
    var t := s.(checkedOut := None);
    if s.stopping || s.terminal then t else t.(toWorker := s.toWorker + [Credit(s.id)])
  }

  function Apply(s: State, a: Action): State
    requires Enabled(s, a)
  {
    match a
    case DecoderLoaded => s.(phase := Loaded, toHost := s.toHost + [Ready(s.active)], stage := ReadySent)
    case WorkerReceives => WorkerReceive(s)
    case NeedsInput => s.(phase := WaitingInput, toHost := s.toHost + [NeedInput(s.active)], stage := RefillSent)
    case HasBlock => s.(phase := WaitingCredit)
    case TakesCredit => s.(phase := Granted, available := s.available - 1)
    case PostsPcm(bytes) => s.(phase := Running, toHost := s.toHost + [Pcm(s.active, bytes)], workerBytes := s.workerBytes + bytes)
    case Finishes => s.(phase := Idle, active := 0, toHost := s.toHost + [Complete(s.active, s.workerBytes)], stage := CompleteSent)
    case Fails => s.(phase := Dead, active := 0, toHost := s.toHost + [Failure(s.active)], stage := FailureSent)
    case HostReceives => HostReceive(s)
    case LaneTakes => LaneTake(s)
    case Prepares => s.(lane := Taking, initialized := true, toWorker := s.toWorker + [Initialize(s.id)], stage := InitializeSent)
    case Publishes => s.(lane := Taking, phase := if s.phase.WaitingInput? then Running else s.phase, stage := Working)
    case FinishesSource => s.(lane := Over, stopping := true, stage := Settled)
    case Stops => Abandon(s)
    case Ends => s.(ended := true)
    case Pulls => Pull(s)
    case Releases => Release(s)
    case NextJob => Begin(s.id + 1, s.borrowed, s.toWorker)
  }

  function PcmCount(q: seq<ToHost>): nat {
    if |q| == 0 then 0 else (if q[0].Pcm? then 1 else 0) + PcmCount(q[1..])
  }

  function PcmBytes(q: seq<ToHost>): nat {
    if |q| == 0 then 0 else (if q[0].Pcm? then q[0].bytes else 0) + PcmBytes(q[1..])
  }

  function CreditCount(q: seq<ToWorker>, id: nat): nat {
    if |q| == 0 then 0 else (if q[0] == Credit(id) then 1 else 0) + CreditCount(q[1..], id)
  }

  lemma {:induction false} PcmPush(q: seq<ToHost>, m: ToHost)
    ensures PcmCount(q + [m]) == PcmCount(q) + PcmCount([m])
    ensures PcmBytes(q + [m]) == PcmBytes(q) + PcmBytes([m])
  {
    if |q| == 0 {
      assert q + [m] == [m];
    } else {
      PcmPush(q[1..], m);
      assert (q + [m])[1..] == q[1..] + [m];
    }
  }

  lemma {:induction false} CreditPush(q: seq<ToWorker>, m: ToWorker, id: nat)
    ensures CreditCount(q + [m], id) == CreditCount(q, id) + (if m == Credit(id) then 1 else 0)
  {
    if |q| == 0 {
      assert q + [m] == [m];
    } else {
      CreditPush(q[1..], m, id);
      assert (q + [m])[1..] == q[1..] + [m];
    }
  }

  lemma {:induction false} NoCredits(q: seq<ToWorker>, id: nat)
    requires forall m | m in q :: m.id < id
    ensures CreditCount(q, id) == 0
  {
    if |q| > 0 {
      NoCredits(q[1..], id);
    }
  }

  predicate WorkerLive(s: State) {
    !s.phase.Idle? && !s.phase.Dead?
  }

  /** What the host holds or is about to receive. */
  function Delivered(s: State): int {
    PcmCount(s.toHost) + |s.blocks| + (if s.checkedOut.None? then 0 else 1)
  }

  /** Every credit there is: unused, taken, travelling with PCM, queued, checked out, or on its way back. */
  function Total(s: State): int {
    s.available + (if s.phase.Granted? then 1 else 0) + Delivered(s) + CreditCount(s.toWorker, s.id)
  }

  /** Two while the Worker runs the job, and never more, whatever became of it. */
  predicate Conserved(s: State) {
    && Total(s) <= CREDITS && 0 <= s.available && (s.stage.Starting? ==> s.available == 0)
    && (WorkerLive(s) && !s.stopping ==> Total(s) == CREDITS)
  }

  predicate OnlyCredits(q: seq<ToWorker>, bound: int) {
    forall m | m in q :: m.Credit? && m.id <= bound
  }

  /** The Worker's phase, the lane and its slot at each stage. */
  predicate Staged(s: State) {
    && s.active == (if WorkerLive(s) then s.id else 0)
    && s.stopping == s.stage.Settled? && (s.ended ==> s.stopping) && s.id >= 1
    && match s.stage
       case Starting => s.phase.Idle? && s.lane.Taking? && s.queue == [] && !s.terminal && !s.initialized
       case LoadingDecoder => s.phase.Loading? && s.lane.Taking? && s.queue == [] && !s.terminal && !s.initialized
       case ReadySent => s.phase.Loaded? && s.lane.Taking? && s.queue == [] && !s.terminal && !s.initialized
       case ReadyQueued => s.phase.Loaded? && s.lane.Taking? && s.queue == [ReadyCommand] && !s.terminal && !s.initialized
       case HostPreparing => s.phase.Loaded? && s.lane.Preparing? && s.queue == [] && !s.terminal && !s.initialized
       case InitializeSent => s.phase.Loaded? && s.lane.Taking? && s.queue == [] && !s.terminal && s.initialized
       case Working => WorkerLive(s) && !s.phase.Loading? && !s.phase.Loaded? && !s.phase.WaitingInput? && s.lane.Taking? && s.queue == [] && !s.terminal && s.initialized
       case RefillSent => s.phase.WaitingInput? && s.lane.Taking? && s.queue == [] && !s.terminal && s.initialized
       case RefillQueued => s.phase.WaitingInput? && s.lane.Taking? && s.queue == [InputCommand] && !s.terminal && s.initialized
       case HostRefilling => s.phase.WaitingInput? && s.lane.Refilling? && s.queue == [] && !s.terminal && s.initialized
       case CompleteSent => s.phase.Idle? && s.lane.Taking? && s.queue == [] && !s.terminal && s.initialized
       case CompleteQueued => s.phase.Idle? && s.lane.Taking? && s.queue == [CompleteCommand(s.hostBytes)] && s.terminal && s.initialized
       case HostFinishing => s.phase.Idle? && s.lane.Finishing? && s.queue == [] && s.terminal && s.initialized
       case FailureSent => s.phase.Dead? && s.lane.Taking? && s.queue == [] && !s.terminal
       case Settled => s.phase.Idle? || s.phase.Dead?
  }

  /** Nothing has been decoded yet. */
  predicate Early(s: State) {
    s.stage.Starting? || s.stage.LoadingDecoder? || s.stage.ReadySent? || s.stage.ReadyQueued? || s.stage.HostPreparing? || s.stage.InitializeSent?
  }

  /** Only PCM travels to the host, and behind it at most the one message the stage names. */
  predicate ToHostShape(s: State) {
    && (forall i | 0 <= i < |s.toHost| :: s.toHost[i].id == s.id)
    && (forall i | 0 <= i < |s.toHost| - 1 :: s.toHost[i].Pcm?)
    && (s.stage.ReadySent? || s.stage.RefillSent? || s.stage.CompleteSent? || s.stage.FailureSent? ==> |s.toHost| > 0)
    && (s.stage.CompleteQueued? || s.stage.HostFinishing? ==> s.toHost == [])
    && (Early(s) ==> s.hostBytes == 0 && s.blocks == [] && s.checkedOut.None? && s.toHost == if s.stage.ReadySent? then [Ready(s.id)] else [])
    && (|s.toHost| > 0 ==>
          var last := s.toHost[|s.toHost| - 1];
          match s.stage
          case ReadySent => last.Ready?
          case RefillSent => last.NeedInput?
          case CompleteSent => last == Complete(s.id, s.hostBytes + PcmBytes(s.toHost))
          case FailureSent => last.Failure?
          case _ => last.Pcm?)
  }

  /** Only credits travel to the Worker once it has been initialized; late ones name an earlier job. */
  predicate ToWorkerShape(s: State) {
    if s.stage.Starting? then
      |s.toWorker| > 0 && s.toWorker[|s.toWorker| - 1] == Start(s.id) && OnlyCredits(s.toWorker[..|s.toWorker| - 1], s.id - 1)
    else if Early(s) then s.toWorker == if s.stage.InitializeSent? then [Initialize(s.id)] else []
    else s.phase.Dead? || OnlyCredits(s.toWorker, s.id)
  }

  predicate Counted(s: State) {
    WorkerLive(s) && !s.stopping ==> s.workerBytes == s.hostBytes + PcmBytes(s.toHost)
  }

  predicate Inv(s: State) {
    s.fault.None? && Staged(s) && (!s.stopping ==> ToHostShape(s)) && ToWorkerShape(s) && Conserved(s) && Counted(s)
  }

  lemma {:induction false} BeginInv(id: nat, borrowed: bool, late: seq<ToWorker>)
    requires id >= 1 && OnlyCredits(late, id - 1)
    ensures Inv(Begin(id, borrowed, late))
  {
    assert (late + [Start(id)])[..|late|] == late;
    NoCredits(late, id);
    CreditPush(late, Start(id), id);
  }

  lemma {:induction false} LoadedInv(s: State)
    requires Inv(s) && Enabled(s, DecoderLoaded)
    ensures Inv(Apply(s, DecoderLoaded))
  {
    PcmPush(s.toHost, Ready(s.id));
  }

  lemma {:induction false} NeedsInputInv(s: State)
    requires Inv(s) && Enabled(s, NeedsInput)
    ensures Inv(Apply(s, NeedsInput))
  {
    if !s.stopping {
      PcmPush(s.toHost, NeedInput(s.id));
    }
  }

  lemma {:induction false} PostsPcmInv(s: State, bytes: nat)
    requires Inv(s) && Enabled(s, PostsPcm(bytes))
    ensures Inv(Apply(s, PostsPcm(bytes)))
  {
    if !s.stopping {
      PcmPush(s.toHost, Pcm(s.id, bytes));
    }
  }

  lemma {:induction false} FinishesInv(s: State)
    requires Inv(s) && Enabled(s, Finishes)
    ensures Inv(Apply(s, Finishes))
  {
    if !s.stopping {
      PcmPush(s.toHost, Complete(s.id, s.workerBytes));
    }
  }

  lemma {:induction false} FailsInv(s: State)
    requires Inv(s) && Enabled(s, Fails)
    ensures Inv(Apply(s, Fails))
  {
    if !s.stopping {
      PcmPush(s.toHost, Failure(s.id));
    }
  }

  lemma {:induction false} ReceivesFirstInv(s: State)
    requires Inv(s) && Enabled(s, WorkerReceives) && s.stage.Starting?
    ensures Inv(WorkerReceive(s))
  {
    var t := WorkerReceive(s);
    if |s.toWorker| > 1 {
      assert s.toWorker[0] == s.toWorker[..|s.toWorker| - 1][0];
      assert t.toWorker[..|t.toWorker| - 1] == s.toWorker[..|s.toWorker| - 1][1..];
    } else {
      assert t.toWorker == [];
    }
  }

  lemma {:induction false} DropsCreditInv(s: State)
    requires Inv(s) && Enabled(s, WorkerReceives) && s.toWorker[0].Credit? && !s.stage.Starting? && s.toWorker[0].id != s.active
    ensures Inv(WorkerReceive(s))
  {
    assert forall m | m in s.toWorker[1..] :: m in s.toWorker;
  }

  lemma {:induction false} GivesCreditInv(s: State)
    requires Inv(s) && Enabled(s, WorkerReceives) && s.toWorker[0].Credit? && !s.stage.Starting? && s.toWorker[0].id == s.active
    ensures Inv(WorkerReceive(s))
  {
    assert s.toWorker[0] in s.toWorker;
    assert forall m | m in s.toWorker[1..] :: m in s.toWorker;
  }

  lemma {:induction false} WorkerReceiveInv(s: State)
    requires Inv(s) && Enabled(s, WorkerReceives)
    ensures Inv(WorkerReceive(s))
  {
    if s.stage.Starting? {
      ReceivesFirstInv(s);
    } else if s.toWorker[0].Credit? {
      if s.toWorker[0].id == s.active {
        GivesCreditInv(s);
      } else {
        DropsCreditInv(s);
      }
    } else {
      assert s.toWorker == [Initialize(s.id)];
    }
  }

  lemma {:induction false} HostPcmInv(s: State)
    requires Inv(s) && |s.toHost| > 0 && !s.stopping && s.toHost[0].Pcm?
    ensures Inv(HostReceive(s))
  {
    assert s.toHost == [s.toHost[0]] + s.toHost[1..];
  }

  lemma {:induction false} HostCommandInv(s: State)
    requires Inv(s) && |s.toHost| > 0 && !s.stopping && !s.toHost[0].Pcm?
    ensures Inv(HostReceive(s))
  {
    assert |s.toHost| == 1 && s.toHost[1..] == [] && PcmBytes(s.toHost) == 0;
  }

  lemma {:induction false} HostReceiveInv(s: State)
    requires Inv(s) && Enabled(s, HostReceives)
    ensures Inv(HostReceive(s))
  {
    if !s.stopping {
      if s.toHost[0].Pcm? {
        HostPcmInv(s);
      } else {
        HostCommandInv(s);
      }
    }
  }

  lemma {:induction false} PullsInv(s: State)
    requires Inv(s) && Enabled(s, Pulls)
    ensures Inv(Pull(s))
  {
    CreditPush(s.toWorker, Credit(s.id), s.id);
  }

  lemma {:induction false} ReleasesInv(s: State)
    requires Inv(s) && Enabled(s, Releases)
    ensures Inv(Release(s))
  {
    CreditPush(s.toWorker, Credit(s.id), s.id);
  }

  lemma {:induction false} LaneTakesInv(s: State)
    requires Inv(s) && Enabled(s, LaneTakes)
    ensures Inv(LaneTake(s))
  {
  }

  lemma {:induction false} PreparesInv(s: State)
    requires Inv(s) && Enabled(s, Prepares)
    ensures Inv(Apply(s, Prepares))
  {
    CreditPush(s.toWorker, Initialize(s.id), s.id);
  }

  lemma {:induction false} StopsInv(s: State)
    requires Inv(s) && Enabled(s, Stops)
    ensures Inv(Abandon(s))
  {
  }

  lemma {:induction false} DecoderInv(s: State, a: Action)
    requires Inv(s) && Enabled(s, a) && (a.HasBlock? || a.TakesCredit?)
    ensures Inv(Apply(s, a))
  {
  }

  lemma {:induction false} PublishesInv(s: State)
    requires Inv(s) && Enabled(s, Publishes)
    ensures Inv(Apply(s, Publishes))
  {
  }

  lemma {:induction false} EndsInv(s: State, a: Action)
    requires Inv(s) && Enabled(s, a) && (a.FinishesSource? || a.Ends?)
    ensures Inv(Apply(s, a))
  {
  }

  lemma {:induction false} ApplyInv(s: State, a: Action)
    requires Inv(s) && Enabled(s, a)
    ensures Inv(Apply(s, a))
  {
    match a
    case DecoderLoaded => LoadedInv(s);
    case NeedsInput => NeedsInputInv(s);
    case PostsPcm(bytes) => PostsPcmInv(s, bytes);
    case Finishes => FinishesInv(s);
    case Fails => FailsInv(s);
    case WorkerReceives => WorkerReceiveInv(s);
    case HostReceives => HostReceiveInv(s);
    case Pulls => PullsInv(s);
    case Releases => ReleasesInv(s);
    case NextJob => BeginInv(s.id + 1, s.borrowed, s.toWorker);
    case LaneTakes => LaneTakesInv(s);
    case Prepares => PreparesInv(s);
    case Stops => StopsInv(s);
    case HasBlock => DecoderInv(s, a);
    case TakesCredit => DecoderInv(s, a);
    case Publishes => PublishesInv(s);
    case _ => EndsInv(s, a);
  }

  /** The state after a run; a step that is not enabled does not happen. */
  function After(borrowed: bool, actions: seq<Action>): State
    decreases |actions|
  {
    if |actions| == 0 then Begin(1, borrowed, [])
    else
      var s, a := After(borrowed, actions[..|actions| - 1]), actions[|actions| - 1];
      if Enabled(s, a) then Apply(s, a) else s
  }

  lemma {:induction false} RunInv(borrowed: bool, actions: seq<Action>)
    ensures Inv(After(borrowed, actions))
    decreases |actions|
  {
    if |actions| == 0 {
      BeginInv(1, borrowed, []);
    } else {
      RunInv(borrowed, actions[..|actions| - 1]);
      var s, a := After(borrowed, actions[..|actions| - 1]), actions[|actions| - 1];
      if Enabled(s, a) {
        ApplyInv(s, a);
      }
    }
  }

  /**
    * In every run, over any number of jobs on one Worker: the credits of a live job are two wherever they are and never
    * more after its completion or stop, the host never holds or awaits more than two blocks, at most one command is on
    * its way, and no protocol error of either side is ever raised.
    */
  lemma {:induction false} CreditSafety(borrowed: bool, actions: seq<Action>)
    ensures var s := After(borrowed, actions); WorkerLive(s) && !s.stopping ==> Total(s) == CREDITS
    ensures var s := After(borrowed, actions); Delivered(s) <= Total(s) <= CREDITS && s.fault.None?
    ensures var s := After(borrowed, actions); !s.stopping ==> |s.queue| + |s.toHost| - PcmCount(s.toHost) <= 1
  {
    RunInv(borrowed, actions);
    if !After(borrowed, actions).stopping {
      OneCommand(After(borrowed, actions));
    }
  }

  lemma {:induction false} OneCommand(s: State)
    requires Inv(s) && !s.stopping
    ensures |s.queue| + |s.toHost| - PcmCount(s.toHost) <= 1
  {
    if |s.toHost| > 0 {
      var n := |s.toHost| - 1;
      AllPcm(s.toHost[..n]);
      PcmPush(s.toHost[..n], s.toHost[n]);
      assert s.toHost == s.toHost[..n] + [s.toHost[n]];
    }
  }

  lemma {:induction false} AllPcm(q: seq<ToHost>)
    requires forall m | m in q :: m.Pcm?
    ensures PcmCount(q) == |q|
  {
    if |q| > 0 {
      AllPcm(q[1..]);
    }
  }
}
