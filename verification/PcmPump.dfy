/** The playback pump: four reads over all sources, rounds, seeks (src/stems/pump.ts). */
module PcmPump {
  import opened Common
  import opened StemShape
  import opened PcmSamples
  import opened PumpSignal
  import opened PumpOrder
  import opened PumpBounds
  import opened PumpSource

  const MAXIMUM_READS := 4
  const PCM_WINDOW_FRAMES := 8192

  /** How far a pass gets before it writes. */
  datatype Verdict = Throws(failure: Failure) | Quiet | Waits | Writes

  /** A source as the pump is given it: its id, its verified stem, and the shape and size of its ring. */
  datatype Spec = Spec(id: string, stem: Stem, ringChannels: int, quantum: int, capacity: int, ringBytes: nat)

  /** Sources are refused unless the ring fits the stem and a window covers one render quantum. */
  predicate Admissible(spec: Spec, windowFrames: int) {
    && spec.id != "" && Layout(spec.stem.channels, spec.stem.bitDepth) && SafeInt(spec.stem.frames, 1)
    && spec.ringChannels == spec.stem.channels && windowFrames >= spec.quantum
  }

  predicate SameId(specs: seq<Spec>, i: nat, j: nat)
    requires i < |specs| && j < |specs|
  {
    specs[i].id == specs[j].id
  }

  function WindowBytes(spec: Spec, windowFrames: int): nat {
    Max(0, windowFrames * spec.stem.Fb())
  }

  function Sizes(specs: seq<Spec>, windowFrames: int): (sizes: seq<nat>)
    ensures |sizes| == |specs| && forall i | 0 <= i < |specs| :: sizes[i] == WindowBytes(specs[i], windowFrames)
  {
    seq(|specs|, i requires 0 <= i < |specs| => WindowBytes(specs[i], windowFrames))
  }

  /** What the reads of a sparse pump may allocate: the windows of the four largest sources. */
  function ScratchBound(specs: seq<Spec>, windowFrames: int, sparse: bool): nat {
    if sparse then TopSum(SortDown(Sizes(specs, windowFrames)), MAXIMUM_READS) else 0
  }

  function RingTotal(specs: seq<Spec>): nat {
    if |specs| == 0 then 0 else RingTotal(specs[..|specs| - 1]) + specs[|specs| - 1].ringBytes
  }

  /** Every check of the constructor that does not look at an asset. */
  predicate Openable(specs: seq<Spec>, windowFrames: int, sparse: bool) {
    && SafeInt(windowFrames, 1) && (sparse ==> windowFrames <= PCM_WINDOW_FRAMES)
    && (forall i, j | 0 <= i < j < |specs| :: !SameId(specs, i, j)) && (forall spec | spec in specs :: Admissible(spec, windowFrames))
    && Countable(specs, windowFrames, sparse)
  }

  /** The announced byte bounds are safe integers. */
  predicate Countable(specs: seq<Spec>, windowFrames: int, sparse: bool) {
    && SafeInt(WindowBound(specs, windowFrames), 0) && SafeInt(ScratchBound(specs, windowFrames, sparse), 0) && SafeInt(RingTotal(specs), 0)
    && SafeInt(WindowBound(specs, windowFrames) + ScratchBound(specs, windowFrames, sparse), 0)
  }

  /** Two windows a source. */
  function WindowBound(specs: seq<Spec>, windowFrames: int): int {
    if |specs| == 0 then 0
    else
      var k := |specs| - 1;
      WindowBound(specs[..k], windowFrames) + 2 * (windowFrames * specs[k].stem.Fb())
  }

  class Pump {
    const windowFrames: int
    const maximumWindowBytes: int
    const maximumReadScratchBytes: int
    const states: seq<Source>

    var generation: nat
    var stopped: bool
    var roundRobin: int
    var failure: Option<Failure>
    /** The sources whose read has not been taken off the list yet. */
    var inFlight: set<int>

    predicate Known(i: int) {
      0 <= i < |states|
    }

    ghost predicate Apart() {
      forall i, j | 0 <= i < j < |states| :: states[i] != states[j]
    }

    ghost predicate Sound(current: nat, live: bool)
      reads states
    {
      SoundAmong(0, |states|, current, live)
    }

    ghost predicate SoundAmong(from: nat, to: nat, current: nat, live: bool)
      requires from <= to <= |states|
      reads states
    {
      forall i {:trigger states[i].Valid(current, live)} | from <= i < to :: states[i].Valid(current, live) && states[i].windowFrames == windowFrames
    }

    ghost predicate Registered()
      reads `inFlight, states`reading
    {
      && (forall i | 0 <= i < |states| :: i in inFlight <==> states[i].reading.Some?)
      && (forall i | i in inFlight :: Known(i))
    }

    ghost predicate Valid()
      reads this, states
    {
      var valid :=
        && Apart() && Sound(generation, !stopped) && Registered() && |inFlight| <= MAXIMUM_READS
        && (if |states| == 0 then roundRobin == 0 else 0 <= roundRobin < |states|);
      valid
    }

    /** The scheduler may start nothing more: four reads run, or no source wants one. */
    ghost predicate Saturated()
      reads this, states
    {
      |inFlight| == MAXIMUM_READS || forall i | 0 <= i < |states| :: states[i].Served()
    }

    constructor (specs: seq<Spec>, windowFrames: int, generation: nat, sparse: bool)
      requires forall spec | spec in specs :: spec.stem.Valid() && 0 < spec.quantum <= windowFrames && 0 < spec.capacity
      ensures Valid() && fresh(states) && inFlight == {} && !stopped && failure.None? && this.generation == generation
      ensures |states| == |specs| && forall i | 0 <= i < |states| :: states[i].stem == specs[i].stem && states[i].cursor == 0
      ensures this.windowFrames == windowFrames && maximumWindowBytes == WindowBound(specs, windowFrames)
      ensures maximumReadScratchBytes == ScratchBound(specs, windowFrames, sparse)
    {
      var built: seq<Source> := [];
      for k := 0 to |specs|
        invariant |built| == k && fresh(built)
        invariant forall i, j | 0 <= i < j < k :: built[i] != built[j]
        invariant forall i | 0 <= i < k :: built[i].Valid(generation, true) && built[i].windowFrames == windowFrames
        invariant forall i | 0 <= i < k :: built[i].stem == specs[i].stem && built[i].cursor == 0 && built[i].reading.None?
      {
        assert specs[k] in specs;
        var s := new Source(specs[k].stem, specs[k].quantum, specs[k].capacity, windowFrames, generation);
        built := built + [s];
      }
      states := built;
      this.windowFrames, maximumWindowBytes, this.generation := windowFrames, WindowBound(specs, windowFrames), generation;
      maximumReadScratchBytes := ScratchBound(specs, windowFrames, sparse);
      stopped, roundRobin, failure, inFlight := false, 0, None, {};
    }

    /** Bytes of PCM held in windows and reads of the first sources. */
    function Held(k: nat): int
      requires k <= |states| && forall i | 0 <= i < k :: states[i].Shaped()
      reads states
    {
      if k == 0 then 0 else Held(k - 1) + states[k - 1].Footprint()
    }

    lemma {:induction false} HeldBound(specs: seq<Spec>, k: nat)
      requires Valid() && k == |specs| <= |states|
      requires forall i | 0 <= i < k :: specs[i].stem == states[i].stem
      ensures forall i | 0 <= i < k :: states[i].Shaped()
      ensures 0 <= Held(k) <= WindowBound(specs, windowFrames)
      decreases k
    {
      if k > 0 {
        HeldBound(specs[..k - 1], k - 1);
        states[k - 1].FootprintBound(generation, !stopped);
      }
    }

    /** No more than four reads run, and the announced bound covers every window and every read. */
    lemma Bounded(specs: seq<Spec>)
      requires Valid() && |specs| == |states| && maximumWindowBytes == WindowBound(specs, windowFrames)
      requires forall i | 0 <= i < |states| :: specs[i].stem == states[i].stem
      ensures |set i | 0 <= i < |states| && states[i].reading.Some?| <= MAXIMUM_READS
      ensures (forall i | 0 <= i < |states| :: states[i].Shaped()) && Held(|states|) <= maximumWindowBytes
    {
      HeldBound(specs, |states|);
      assert (set i | 0 <= i < |states| && states[i].reading.Some?) == inFlight;
    }

    /** Bytes the reads of the first sources ask for. */
    function Reading(k: nat): int
      requires k <= |states| && forall i | 0 <= i < k :: states[i].Shaped()
      reads states
    {
      if k == 0 then 0 else Reading(k - 1) + ReadBytes(states[k - 1])
    }

    function ReadBytes(s: Source): int
      requires s.Shaped()
      reads s`reading
    {
      if s.reading.Some? then s.Wanted(s.reading.value.start) * s.stem.Fb() else 0
    }

    lemma ReadWithin(s: Source)
      requires s in states && Valid()
      ensures s.Shaped() && 0 <= ReadBytes(s) <= if s.reading.Some? then Max(0, windowFrames * s.stem.Fb()) else 0
    {
      assert s.Valid(generation, !stopped) && s.windowFrames == windowFrames;
      if s.reading.Some? {
        s.FramesWithin(s.Wanted(s.reading.value.start));
      }
    }

    lemma {:induction false} ReadingChosen(sizes: seq<nat>, picked: seq<bool>, k: nat)
      requires k <= |states| == |sizes| == |picked|
      requires forall i | 0 <= i < |states| :: states[i].Shaped() && 0 <= ReadBytes(states[i]) <= if picked[i] then sizes[i] else 0
      ensures 0 <= Reading(k) <= Chosen(sizes, picked, k)
      decreases k
    {
      if k > 0 {
        ReadingChosen(sizes, picked, k - 1);
      }
    }

    /** However the scheduler picks them, the reads of a sparse pump allocate no more than the announced scratch. */
    lemma {:induction false} ScratchBounded(specs: seq<Spec>)
      requires Valid() && |specs| == |states| && forall i | 0 <= i < |states| :: specs[i].stem == states[i].stem
      requires maximumReadScratchBytes == ScratchBound(specs, windowFrames, true)
      ensures forall i | 0 <= i < |states| :: states[i].Shaped()
      ensures 0 <= Reading(|states|) <= maximumReadScratchBytes
    {
      var sizes := Sizes(specs, windowFrames);
      var picked := seq(|states|, i requires 0 <= i < |states| reads states => states[i].reading.Some?);
      forall i | 0 <= i < |states|
        ensures states[i].Shaped() && 0 <= ReadBytes(states[i]) <= if picked[i] then sizes[i] else 0
      {
        ReadWithin(states[i]);
      }
      ReadingChosen(sizes, picked, |states|);
      CountSet(picked, |states|, inFlight);
      ChosenTop(sizes, picked, |states|, MAXIMUM_READS);
      assert sizes[..|states|] == sizes;
    }

    /** One step of the scheduler's walk. */
    method Offer(i: int, s: Source)
      requires Valid() && !stopped && |inFlight| < MAXIMUM_READS && Known(i) && s == states[i]
      modifies `inFlight, s`window, s`next, s`reading
      ensures Valid() && s.Served()
      ensures inFlight == old(inFlight) || (i !in old(inFlight) && inFlight == old(inFlight) + {i})
      ensures i in old(inFlight) ==> s.reading == old(s.reading)
    {
      if s.finished || s.reading.Some? {
        return;
      }
      var started := s.StartRead(generation, true);
      if started {
        inFlight := inFlight + {i};
      }
      assert Sound(generation, true) && Registered();
    }

    /** What the comparator sees of each source. */
    method Keys() returns (keys: seq<Key>)
      ensures |keys| == |states|
      ensures forall i | 0 <= i < |states| :: keys[i] == Key(states[i].window.Some?, states[i].occupancy)
    {
      keys := [];
      for i := 0 to |states|
        invariant |keys| == i
        invariant forall j | 0 <= j < i :: keys[j] == Key(states[j].window.Some?, states[j].occupancy)
      {
        keys := keys + [Key(states[i].window.Some?, states[i].occupancy)];
      }
    }

    /** Offers reads along an order until four are in flight; the sources before the stop are served. */
    method Walk(order: seq<int>) returns (p: nat)
      requires Valid() && !stopped && Among(order, |states|) && NoRepeats(order)
      modifies `inFlight, states`window, states`next, states`reading
      ensures Valid() && old(inFlight) <= inFlight
      ensures p <= |order| && (|inFlight| == MAXIMUM_READS || p == |order|)
      ensures forall q | 0 <= q < p :: states[order[q]].Served()
      ensures forall a | a in inFlight && a !in old(inFlight) :: a in order[..p]
    {
      p := 0;
      while p < |order| && |inFlight| < MAXIMUM_READS
        invariant 0 <= p <= |order| && Valid() && old(inFlight) <= inFlight
        invariant forall q | 0 <= q < p :: states[order[q]].Served()
        invariant forall a | a in inFlight && a !in old(inFlight) :: a in order[..p]
      {
        var i := order[p];
        forall q | 0 <= q < p
          ensures states[order[q]] != states[i]
        {
          assert order[q] != i;
        }
        Offer(i, states[i]);
        assert order[..p + 1] == order[..p] + [i];
        p := p + 1;
      }
    }

    /**
      * Offers reads in the comparator's order until four are in flight: whoever still wants a read afterwards
      * comes after everyone who got one.
      */
    method ScheduleReads() returns (ghost keys: seq<Key>)
      requires Valid()
      modifies `inFlight, states`window, states`next, states`reading
      ensures Valid() && old(inFlight) <= inFlight
      ensures stopped || failure.Some? ==> inFlight == old(inFlight)
      ensures !stopped && failure.None? ==> Saturated()
      ensures |keys| == |states|
      ensures forall i | 0 <= i < |states| :: keys[i] == old(Key(states[i].window.Some?, states[i].occupancy))
      ensures forall a, b | a in inFlight && a !in old(inFlight) && Known(b) && !states[b].Served() :: Before(keys, roundRobin, a, b)
    {
      var seen := Keys();
      keys := seen;
      if stopped || failure.Some? || |states| == 0 {
        return;
      }
      var order := Arranged(seen, roundRobin, 0);
      ArrangedSorted(seen, roundRobin, 0);
      SortedDistinct(seen, roundRobin, order);
      var p := Walk(order);
      forall b | Known(b) && !states[b].Served()
        ensures b in order[p..]
      {
        assert 0 <= Rank(roundRobin, b, |seen|) && b in order;
      }
      assert p == |order| ==> order[p..] == [];
      forall a, b | a in inFlight && a !in old(inFlight) && Known(b) && !states[b].Served()
        ensures Before(keys, roundRobin, a, b)
      {
        SortedAcross(keys, roundRobin, order, p, a, b);
      }
    }

    ghost predicate AnyReady()
      reads this, states
    {
      exists i | 0 <= i < |states| :: states[i].Ready()
    }

    /** A source with frames to come, room in the ring and none of them in its windows. */
    predicate Starved(s: Source)
      reads s
    {
      !s.finished && s.occupancy < s.capacity && !s.Stocked()
    }

    method Probe(i: int, s: Source) returns (can: bool)
      requires Valid() && Known(i) && s == states[i]
      modifies s`window, s`next
      ensures Valid() && can == s.Ready() && s.Ready() == old(s.Ready()) && s.Stocked() == old(s.Stocked())
    {
      can := s.CanWrite(generation, !stopped);
    }

    /** Probes the sources in turn until one can be written; probing may swap windows. */
    method AnyCanWrite() returns (any: bool)
      requires Valid()
      modifies states`window, states`next
      ensures Valid() && any == AnyReady()
      ensures forall j | 0 <= j < |states| :: states[j].Stocked() == old(states[j].Stocked())
    {
      var i := 0;
      while i < |states|
        invariant 0 <= i <= |states| && Valid()
        invariant forall j | 0 <= j < i :: !states[j].Ready()
        invariant forall j | 0 <= j < |states| :: states[j].Stocked() == old(states[j].Stocked())
      {
        any := Probe(i, states[i]);
        if any {
          return true;
        }
        i := i + 1;
      }
      return false;
    }

    /** Whether a source has room but no window; it probes too. */
    method NeedsWindow() returns (needs: bool)
      requires Valid()
      modifies states`window, states`next
      ensures Valid() && needs == exists i | 0 <= i < |states| :: Starved(states[i])
      ensures forall j | 0 <= j < |states| :: states[j].Stocked() == old(states[j].Stocked())
    {
      var i := 0;
      while i < |states|
        invariant 0 <= i <= |states| && Valid()
        invariant forall j | 0 <= j < i :: !Starved(states[j])
        invariant forall j | 0 <= j < |states| :: states[j].Stocked() == old(states[j].Stocked())
      {
        if !states[i].finished && states[i].occupancy < states[i].capacity {
          var can := Probe(i, states[i]);
          if !can {
            return true;
          }
        }
        i := i + 1;
      }
      return false;
    }

    /** With no read left to wait for, a saturated pump starves nobody. */
    lemma {:induction false} IdleMeansStocked()
      requires Valid() && Saturated() && inFlight == {}
      ensures forall i | 0 <= i < |states| :: states[i].finished || states[i].Stocked()
    {
      forall i | 0 <= i < |states| && !states[i].finished
        ensures states[i].Stocked()
      {
        states[i].ServedMeansStocked(generation, !stopped);
      }
    }

    /** Up to the point where a pass writes or sleeps. A pass sleeps only while a read is in flight. */
    method PassBegin(waitForReads: bool) returns (verdict: Verdict)
      requires Valid()
      modifies `inFlight, states`window, states`next, states`reading
      ensures Valid()
      ensures failure.Some? <==> verdict.Throws?
      ensures verdict.Quiet? <==> failure.None? && (stopped || |states| == 0)
      ensures verdict.Waits? ==> waitForReads && inFlight != {} && exists i | 0 <= i < |states| :: Starved(states[i])
      ensures verdict.Writes? && waitForReads ==> AnyReady() || forall i | 0 <= i < |states| :: !Starved(states[i])
    {
      if failure.Some? {
        return Throws(failure.value);
      }
      if stopped || |states| == 0 {
        return Quiet;
      }
      ghost var keys := ScheduleReads();
      if inFlight == {} {
        IdleMeansStocked();
      }
      if waitForReads {
        var any := AnyCanWrite();
        if !any {
          var needs := NeedsWindow();
          if needs {
            return Waits;
          }
        }
      }
      return Writes;
    }

    /** The frames a turn moves a source by: a quantum or the tail, when it has frames and the ring a slot. */
    function Due(s: Source, granted: bool): int
      reads s
    {
      if s.Ready() && granted then Min(s.quantum, s.stem.frames - s.cursor) else 0
    }

    /** What a source has committed after a turn: what it had, and the dense samples of what was due. */
    ghost function Grown(s: Source, past: seq<Region>, from: int, due: int): seq<Region>
      requires |past| > 0
      reads `generation
    {
      if !(s.stem.Valid() && 0 <= from < from + due <= s.stem.frames) then past
      else Extended(past, Chunk(generation, from, due, Signal(s.stem, from, due), from + due == s.stem.frames))
    }

    method WriteFrom(i: int, s: Source, granted: bool) returns (written: int)
      requires Valid() && Known(i) && s == states[i]
      modifies s
      ensures Valid() && 0 <= written == old(Due(s, granted)) && s.cursor == old(s.cursor) + written
      ensures |old(s.regions)| > 0 && s.regions == Grown(s, old(s.regions), old(s.cursor), written)
    {
      written := s.WriteOne(generation, !stopped, granted);
    }

    /** After some steps of a round: the sources visited have moved by what was due, the others wait for their turn. */
    ghost predicate Turned(step: int, granted: seq<bool>, past: seq<seq<Region>>, from: seq<int>, due: seq<int>)
      requires |granted| == |past| == |from| == |due| == |states|
      reads this, states
    {
      forall i {:trigger StandsAt(i, step, granted, past, from, due)} | 0 <= i < |states| :: StandsAt(i, step, granted, past, from, due)
    }

    ghost predicate StandsAt(i: int, step: int, granted: seq<bool>, past: seq<seq<Region>>, from: seq<int>, due: seq<int>)
      requires Known(i) && |granted| == |past| == |from| == |due| == |states|
      reads this, states
    {
      Stands(states[i], Rank(roundRobin, i, |states|) < step, granted[i], past[i], from[i], due[i])
    }

    ghost predicate Stands(s: Source, turned: bool, granted: bool, past: seq<Region>, from: int, due: int)
      reads `generation, s
    {
      if turned then Moved(s, past, from, due) else s.regions == past && s.cursor == from && Due(s, granted) == due
    }

    /** A source has moved by what was due, and committed exactly that. */
    ghost predicate Moved(s: Source, past: seq<Region>, from: int, due: int)
      reads `generation, s`cursor, s`regions
    {
      s.cursor == from + due && |past| > 0 && s.regions == Grown(s, past, from, due)
    }

    ghost predicate AllMoved(past: seq<seq<Region>>, from: seq<int>, due: seq<int>)
      requires |past| == |from| == |due| == |states|
      reads `generation, states`cursor, states`regions
    {
      forall i {:trigger states[i]} | 0 <= i < |states| :: Moved(states[i], past[i], from[i], due[i])
    }

    method TakeTurn(step: int, granted: seq<bool>, ghost past: seq<seq<Region>>, ghost from: seq<int>, ghost due: seq<int>) returns (written: int)
      requires Valid() && 0 <= step < |states| == |granted| == |past| == |from| == |due| && Turned(step, granted, past, from, due)
      modifies states
      ensures Valid() && Turned(step + 1, granted, past, from, due) && 0 <= written == due[Turn(roundRobin, step, |states|)]
    {
      var index := Turn(roundRobin, step, |states|);
      assert index == (roundRobin + step) % |states| by {
        TurnIsModulo(roundRobin, step, |states|);
      }
      assert StandsAt(index, step, granted, past, from, due);
      written := WriteFrom(index, states[index], granted[index]);
      ghost var after := step + 1;
      forall i | 0 <= i < |states|
        ensures StandsAt(i, after, granted, past, from, due)
      {
        assert old(StandsAt(i, step, granted, past, from, due));
      }
    }

    /** Every source gets exactly one turn, from roundRobin on. */
    method Round(granted: seq<bool>, ghost past: seq<seq<Region>>, ghost from: seq<int>, ghost due: seq<int>) returns (chunks: nat, frames: int)
      requires Valid() && 0 < |states| == |granted| == |past| == |from| == |due| && Turned(0, granted, past, from, due)
      modifies states
      ensures Valid() && AllMoved(past, from, due)
      ensures frames == Total(due, |due|) && chunks == Total(Ones(due), |due|)
    {
      chunks, frames := TakeTurns(granted, past, from, due);
      TurnedAll(granted, past, from, due);
      TotalInTurn(due, roundRobin);
      TotalInTurn(Ones(due), roundRobin);
    }

    method TakeTurns(granted: seq<bool>, ghost past: seq<seq<Region>>, ghost from: seq<int>, ghost due: seq<int>) returns (chunks: nat, frames: int)
      requires Valid() && 0 < |states| == |granted| == |past| == |from| == |due| && Turned(0, granted, past, from, due)
      modifies states
      ensures Valid() && Turned(|states|, granted, past, from, due)
      ensures frames == Total(InTurn(due, roundRobin), |due|) && chunks == Total(InTurn(Ones(due), roundRobin), |due|)
    {
      chunks, frames := 0, 0;
      var step := 0;
      while step < |states|
        invariant 0 <= step <= |states| && Valid() && Turned(step, granted, past, from, due)
        invariant frames == Total(InTurn(due, roundRobin), step) && chunks == Total(InTurn(Ones(due), roundRobin), step)
      {
        var written := TakeTurn(step, granted, past, from, due);
        TallyTurn(due, roundRobin, step);
        if written > 0 {
          chunks, frames := chunks + 1, frames + written;
        }
        step := step + 1;
      }
    }

    lemma TurnedAll(granted: seq<bool>, past: seq<seq<Region>>, from: seq<int>, due: seq<int>)
      requires Valid() && |states| == |granted| == |past| == |from| == |due| && Turned(|states|, granted, past, from, due)
      ensures AllMoved(past, from, due)
    {
      forall i | 0 <= i < |states|
        ensures Moved(states[i], past[i], from[i], due[i])
      {
        assert StandsAt(i, |states|, granted, past, from, due);
      }
    }

    /** The writing half of a pass: a round, then the next starting source, then the scheduler. */
    method PassWrite(granted: seq<bool>, ghost past: seq<seq<Region>>, ghost from: seq<int>, ghost due: seq<int>) returns (chunks: nat, frames: int, done: bool)
      requires Valid() && !stopped && 0 < |states| == |granted| == |past| == |from| == |due|
      requires Turned(0, granted, past, from, due)
      modifies `roundRobin, `inFlight, states
      ensures Valid()
      ensures roundRobin == (old(roundRobin) + 1) % |states|
      ensures failure.None? ==> Saturated()
      ensures AllMoved(past, from, due)
      ensures frames == Total(due, |due|) && chunks == Total(Ones(due), |due|)
      ensures done == forall i | 0 <= i < |states| :: states[i].finished
    {
      chunks, frames := Round(granted, past, from, due);
      done := EndPass();
      assert AllMoved(past, from, due);
    }

    /** After a round: the next source goes first, and the scheduler runs again. */
    method EndPass() returns (done: bool)
      requires Valid() && !stopped && |states| > 0
      modifies `roundRobin, `inFlight, states`window, states`next, states`reading
      ensures Valid() && roundRobin == (old(roundRobin) + 1) % |states| && (failure.None? ==> Saturated())
      ensures done == forall i | 0 <= i < |states| :: states[i].finished
    {
      NextTurn();
      ghost var keys := ScheduleReads();
      done := Finished();
    }

    method NextTurn()
      requires Valid() && |states| > 0
      modifies `roundRobin
      ensures Valid() && roundRobin == (old(roundRobin) + 1) % |states|
    {
      roundRobin := (roundRobin + 1) % |states|;
    }

    method Finished() returns (done: bool)
      ensures done == forall i | 0 <= i < |states| :: states[i].finished
    {
      var i := 0;
      while i < |states|
        invariant 0 <= i <= |states|
        invariant forall j | 0 <= j < i :: states[j].finished
      {
        if !states[i].finished {
          return false;
        }
        i := i + 1;
      }
      return true;
    }

    /** Storage answers a read. Whatever the seeks meanwhile, only a read of this generation fills a window. */
    method SettleRead(i: int, s: Source, outcome: Outcome)
      requires Valid() && Known(i) && s == states[i] && s.Valid(generation, !stopped)
      requires s.reading.Some? && !s.reading.value.settled && s.Honest(s.reading.value.start, outcome)
      modifies `failure, s`window, s`next, s`reading
      ensures Valid() && s.reading == Some(old(s.reading).value.(settled := true))
      ensures !old(s.Accepts(generation, !stopped, outcome)) ==> s.window == old(s.window) && s.next == old(s.next)
      ensures old(s.Accepts(generation, !stopped, outcome)) ==> s.Stocked()
      ensures failure == if old(failure).Some? then old(failure) else old(s.Failed(generation, !stopped, outcome))
    {
      var reason := s.Settle(generation, !stopped, outcome);
      assert Sound(generation, !stopped) && Registered();
      if failure.None? {
        failure := reason;
      }
    }

    /** The read leaves the list and the scheduler runs again. */
    method ReadDone(i: int, s: Source)
      requires Valid() && Known(i) && s == states[i] && s.reading.Some? && s.reading.value.settled
      modifies `inFlight, states`window, states`next, states`reading
      ensures Valid() && (!stopped && failure.None? ==> Saturated())
    {
      assert s.Valid(generation, !stopped);
      inFlight := inFlight - {i};
      s.Unregister(generation, !stopped);
      assert Sound(generation, !stopped) && Registered();
      ghost var keys := ScheduleReads();
    }

    /** A read deadline fires; its timer is cleared when the read settles or the pump closes. */
    method Expire(i: int)
      requires Valid() && Known(i) && states[i].reading.Some? && !states[i].reading.value.settled
      modifies `failure
      ensures Valid() && (old(failure).Some? || stopped ==> failure == old(failure))
      ensures old(failure).None? && !stopped ==> failure == Some(Deadline)
    {
      if !stopped && failure.None? {
        failure := Some(Deadline);
      }
    }

    /** A new region starts at the clamped target and no window is left. */
    ghost predicate Sought(s: Source, before: seq<Region>, target: int, current: nat)
      reads s
    {
      s.window.None? && s.next.None? && s.regions == before + [Region(current, Min(target, s.stem.frames), [])]
    }

    ghost predicate AllSought(k: nat, past: seq<seq<Region>>, target: int, current: nat)
      requires k <= |states| == |past|
      reads states
    {
      forall i {:trigger states[i]} | 0 <= i < k :: Sought(states[i], past[i], target, current)
    }

    method SeekAll(issued: nat, target: nat, ghost past: seq<seq<Region>>)
      requires Apart() && Sound(issued, true)
      requires |past| == |states| && forall i {:trigger states[i]} | 0 <= i < |states| :: states[i].regions == past[i]
      modifies states`cursor, states`window, states`next, states`finished, states`regions
      ensures Sound(issued + 1, true) && AllSought(|states|, past, target, issued + 1)
    {
      var i := 0;
      ghost var current := issued + 1;
      while i < |states|
        invariant 0 <= i <= |states| && AllSought(i, past, target, current)
        invariant SoundAmong(0, i, current, true) && SoundAmong(i, |states|, issued, true)
        invariant forall j {:trigger states[j]} | i <= j < |states| :: states[j].regions == past[j]
      {
        SeekOne(states[i], issued, target);
        i := i + 1;
      }
    }

    method SeekOne(s: Source, issued: nat, target: nat)
      requires s.Valid(issued, true)
      modifies s`cursor, s`window, s`next, s`finished, s`regions
      ensures s.Valid(issued + 1, true) && Sought(s, old(s.regions), target, issued + 1)
    {
      s.Seek(issued, true, target);
    }

    /** All sources move to their clamped target under the next generation. */
    method SeekFrames(target: nat, ghost past: seq<seq<Region>>) returns (moved: bool)
      requires Valid()
      requires |past| == |states| && forall i {:trigger states[i]} | 0 <= i < |states| :: states[i].regions == past[i]
      modifies `generation, states`cursor, states`window, states`next, states`finished, states`regions
      ensures Valid() && moved == !stopped && generation == old(generation) + (if moved then 1 else 0)
      ensures if moved then AllSought(|states|, past, target, generation) else forall i | 0 <= i < |states| :: states[i].regions == past[i]
    {
      if stopped {
        return false;
      }
      generation := generation + 1;
      SeekAll(generation - 1, target, past);
      assert Sound(generation, true) && Registered();
      return true;
    }

    method ReleaseAll()
      requires Apart() && Sound(generation, true)
      modifies states`window, states`next
      ensures Sound(generation, false)
      ensures forall i | 0 <= i < |states| :: states[i].window.None? && states[i].next.None?
    {
      var i := 0;
      while i < |states|
        invariant 0 <= i <= |states|
        invariant SoundAmong(0, i, generation, false) && SoundAmong(i, |states|, generation, true)
        invariant forall j | 0 <= j < i :: states[j].window.None? && states[j].next.None?
      {
        states[i].Release(generation, true);
        i := i + 1;
      }
    }

    /** Closing drops every window; reads still in flight settle into nothing. */
    method Close()
      requires Valid()
      modifies `stopped, states`window, states`next
      ensures Valid() && stopped
      ensures !old(stopped) ==> forall i | 0 <= i < |states| :: states[i].window.None? && states[i].next.None?
    {
      if !stopped {
        stopped := true;
        assert Sound(generation, true);
        ReleaseAll();
      }
    }

    method RingMoves(i: int, s: Source, slots: int)
      requires Valid() && Known(i) && s == states[i] && 0 <= slots <= s.capacity
      modifies s`occupancy
      ensures Valid() && s.occupancy == slots
    {
      s.RingMoves(generation, !stopped, slots);
    }

    /** The planes of a region are the signal of its frames, and only a chunk at the end of the stem ends the region. */
    ghost predicate Plays(stem: Stem, r: Region, c: int)
      requires stem.Valid() && 0 <= c < stem.channels
    {
      && 0 <= r.origin <= RegionEnd(r) <= stem.frames
      && Heard(r.chunks, c) == Signal(stem, r.origin, RegionEnd(r) - r.origin)[c]
      && forall j | 0 <= j < |r.chunks| :: r.chunks[j].endOfRegion == (j == |r.chunks| - 1 && RegionEnd(r) == stem.frames)
    }

    /** In every generation, a source plays the dense signal from its seek target on, and nothing else. */
    lemma PlaysTheStem(i: int, k: int, c: int)
      requires Valid() && Known(i) && 0 <= k < |states[i].regions| && 0 <= c < states[i].stem.channels
      ensures states[i].Valid(generation, !stopped) && states[i].stem.Valid()
      ensures Plays(states[i].stem, states[i].regions[k], c)
    {
      var s := states[i];
      assert s.Valid(generation, !stopped);
      var r := s.regions[k];
      assert r in s.regions && Faithful(s.stem, s.quantum, r);
      HeardSignal(s.stem, s.quantum, r, c);
      forall j | 0 <= j < |r.chunks|
        ensures r.chunks[j].endOfRegion == (j == |r.chunks| - 1 && RegionEnd(r) == s.stem.frames)
      {
        EndMarked(s.stem.frames, s.quantum, r, j);
      }
    }
  }

  /** Every source fits, and no two have the same id. */
  method CheckSources(specs: seq<Spec>, windowFrames: int) returns (fit: bool)
    ensures fit <==> (forall i, j | 0 <= i < j < |specs| :: !SameId(specs, i, j)) && (forall spec | spec in specs :: Admissible(spec, windowFrames))
  {
    for i := 0 to |specs|
      invariant forall j, k | 0 <= j < k < i :: !SameId(specs, j, k)
      invariant forall j | 0 <= j < i :: Admissible(specs[j], windowFrames)
    {
      for j := 0 to i
        invariant forall k | 0 <= k < j :: !SameId(specs, k, i)
      {
        if specs[j].id == specs[i].id {
          assert SameId(specs, j, i);
          return false;
        }
      }
      if !Admissible(specs[i], windowFrames) {
        return false;
      }
    }
    return true;
  }

  /** Opens a pump, or refuses the sources. */
  method OpenPump(specs: seq<Spec>, windowFrames: int, generation: nat, sparse: bool) returns (pump: Pump?)
    requires forall spec | spec in specs :: spec.quantum > 0 && spec.capacity > 0
    requires forall spec | spec in specs :: |spec.stem.pcm| == spec.stem.frames * spec.stem.Fb()
    ensures pump != null <==> Openable(specs, windowFrames, sparse)
    ensures pump != null ==> fresh(pump) && fresh(pump.states) && pump.Valid() && |pump.states| == |specs|
    ensures pump != null ==> forall i | 0 <= i < |specs| :: pump.states[i].stem == specs[i].stem && pump.states[i].cursor == 0
    ensures pump != null ==> pump.maximumWindowBytes == WindowBound(specs, windowFrames) && pump.maximumReadScratchBytes == ScratchBound(specs, windowFrames, sparse)
  {
    if !SafeInt(windowFrames, 1) || (sparse && windowFrames > PCM_WINDOW_FRAMES) {
      return null;
    }
    var fit := CheckSources(specs, windowFrames);
    if !fit || !Countable(specs, windowFrames, sparse) {
      return null;
    }
    pump := new Pump(specs, windowFrames, generation, sparse);
  }
}
