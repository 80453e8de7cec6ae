/** One source of the playback pump: current and next window, one read, one ring (src/stems/pump.ts). */
module PumpSource {
  import opened Common
  import opened StemShape
  import opened PcmSamples
  import opened PumpSignal

  /** The planes a ring slot receives; reserve hands out one plane per channel of the asked length. */
  method Render(bytes: seq<Byte>, from: int, n: nat, channels: int, bitDepth: int) returns (planes: seq<seq<real>>)
    requires Layout(channels, bitDepth) && 0 <= from && (from + n) * FrameBytes(channels, bitDepth) <= |bytes|
    ensures planes == Planes(bytes, from, n, channels, bitDepth)
  {
    var slot := new real[channels, n];
    var ok := Deinterleave(bytes, from, n, channels, bitDepth, slot);
    ghost var want := Planes(bytes, from, n, channels, bitDepth);
    planes := [];
    for c := 0 to channels
      invariant |planes| == c && planes == want[..c]
    {
      var plane: seq<real> := [];
      for f := 0 to n
        invariant |plane| == f && plane == want[c][..f]
      {
        plane := plane + [slot[c, f]];
      }
      assert plane == want[c];
      planes := planes + [plane];
    }
  }

  /** A chunk more in the running generation. */
  function Extended(regions: seq<Region>, chunk: Chunk): seq<Region>
    requires |regions| > 0
  {
    var last := |regions| - 1;
    regions[last := regions[last].(chunks := regions[last].chunks + [chunk])]
  }

  class Source {
    const stem: Stem
    /** Frames and slots of the ring. */
    const quantum: int
    const capacity: int
    const windowFrames: int

    var occupancy: int
    var cursor: int
    var window: Option<Window>
    var next: Option<Window>
    var reading: Option<Read>
    var finished: bool
    ghost var regions: seq<Region>

    predicate Shaped() {
      stem.Valid() && 0 < quantum <= windowFrames && 0 < capacity
    }

    function Full(): int
      requires Shaped()
    {
      Aligned(windowFrames, quantum)
    }

    /** Where the next read has to start. */
    function Tail(): int
      reads `window, `cursor
    {
      if window.Some? then window.value.End() else cursor
    }

    predicate Covering(w: Window, at: int)
      requires Shaped()
    {
      && Holds(stem, Full(), w) && w.start <= at <= w.End()
      && (w.End() == stem.frames || Whole(w.End() - at, quantum))
    }

    /** The windows are adjacent, of this generation, and end on a render boundary or the source tail. */
    predicate Windowed(generation: nat)
      requires Shaped()
      reads `window, `next, `cursor
    {
      && (window.None? ==> next.None?)
      && (window.Some? ==> Covering(window.value, cursor) && window.value.generation == generation)
      && (next.Some? ==>
            && Covering(next.value, next.value.start) && next.value.generation == generation
            && next.value.start == window.value.End())
    }

    /** A current read continues the windows; a read of an older generation finds both slots empty. */
    predicate Reading(generation: nat, live: bool)
      reads `window, `next, `cursor, `reading
    {
      && (!live ==> window.None? && next.None?)
      && (reading.Some? ==>
            && reading.value.generation <= generation && 0 <= reading.value.start < stem.frames
            && (live && !reading.value.settled ==>
                  if reading.value.generation == generation
                  then next.None? && reading.value.start == Tail()
                  else window.None? && next.None?))
    }

    ghost predicate Recorded(generation: nat)
      requires Shaped()
      reads `regions, `cursor, `finished
    {
      && 0 <= cursor <= stem.frames && (finished <==> cursor == stem.frames)
      && |regions| > 0 && RegionEnd(regions[|regions| - 1]) == cursor
      && (forall i | 0 <= i < |regions| :: regions[i].generation + |regions| - 1 - i == generation)
      && (forall region | region in regions :: Faithful(stem, quantum, region))
    }

    ghost predicate Valid(generation: nat, live: bool)
      reads this
    {
      && Shaped() && 0 <= occupancy <= capacity
      && Windowed(generation) && Reading(generation, live) && Recorded(generation)
    }

    /** Nothing left for the scheduler to start on this source. */
    predicate Served()
      reads this
    {
      || finished || reading.Some?
      || (window.Some? && (next.Some? || window.value.End() >= stem.frames || 2 * (cursor - window.value.start) < windowFrames))
    }

    /** The windows hold a frame the cursor has not reached. */
    predicate Stocked()
      reads this
    {
      window.Some? && (cursor < window.value.End() || next.Some?)
    }

    predicate Ready()
      reads this
    {
      !finished && occupancy < capacity && Stocked()
    }

    constructor (stem: Stem, quantum: int, capacity: int, windowFrames: int, generation: nat)
      requires stem.Valid() && 0 < quantum <= windowFrames && 0 < capacity
      ensures this.stem == stem && this.quantum == quantum && this.capacity == capacity && this.windowFrames == windowFrames
      ensures Valid(generation, true) && cursor == 0 && reading.None? && regions == [Region(generation, 0, [])]
    {
      this.stem, this.quantum, this.capacity, this.windowFrames := stem, quantum, capacity, windowFrames;
      occupancy, cursor, finished := 0, 0, false;
      window, next, reading := None, None, None;
      regions := [Region(generation, 0, [])];
    }

    /** The current window is used up and the ring has room. */
    predicate Drained()
      reads this
    {
      !finished && occupancy < capacity && window.Some? && cursor >= window.value.End()
    }

    /** The end is found from the byte length. */
    method EndOf(w: Window) returns (end: int)
      requires Shaped() && 0 <= w.count && |w.bytes| == w.count * stem.Fb()
      ensures end == w.End()
    {
      DivMulExact(w.count, stem.Fb());
      end := w.start + |w.bytes| / stem.Fb();
    }

    /** Room in the ring and a window at the cursor; a drained window gives way to the next one. */
    method CanWrite(ghost generation: nat, ghost live: bool) returns (ready: bool)
      requires Valid(generation, live)
      modifies `window, `next
      ensures Valid(generation, live)
      ensures if old(Drained()) then window == old(next) && next.None? else window == old(window) && next == old(next)
      ensures ready == old(Ready()) == Ready() && (ready ==> cursor < window.value.End())
      ensures Stocked() == old(Stocked())
    {
      if finished || occupancy >= capacity {
        return false;
      }
      if window.Some? {
        var end := EndOf(window.value);
        if cursor >= end {
          window, next := next, None;
        }
      }
      return window.Some?;
    }

    /** The current window reaches as far as the next quantum, or to the tail of the source. */
    lemma QuantumInside(w: Window)
      requires Shaped() && Covering(w, cursor) && cursor < w.End()
      ensures 0 < Min(quantum, stem.frames - cursor)
      ensures cursor + Min(quantum, stem.frames - cursor) <= w.End()
      ensures var left := w.End() - (cursor + Min(quantum, stem.frames - cursor)); w.End() == stem.frames || Whole(left, quantum)
    {
    }

    /** The frames under the cursor in the window are the stem's own. */
    lemma WindowSignal(w: Window, n: int)
      requires Shaped() && Covering(w, cursor) && 0 <= n && cursor + n <= w.End()
      ensures (cursor - w.start + n) * stem.Fb() <= |w.bytes|
      ensures Planes(w.bytes, cursor - w.start, n, stem.channels, stem.bitDepth) == Signal(stem, cursor, n)
    {
      MulMono(cursor - w.start + n, w.count, stem.Fb());
      WindowPlanes(stem.pcm, w.bytes, w.start, cursor, n, stem.channels, stem.bitDepth, w.start * stem.Fb());
    }

    /** Fills a ring slot, advances the cursor and commits. */
    method Commit(generation: nat, n: int, planes: seq<seq<real>>) returns (ghost chunk: Chunk)
      requires Shaped() && Recorded(generation)
      requires 0 < n == Min(quantum, stem.frames - cursor) && planes == Signal(stem, cursor, n)
      modifies `cursor, `finished, `occupancy, `regions
      ensures Recorded(generation) && cursor == old(cursor) + n && occupancy == old(occupancy) + 1
      ensures chunk == Chunk(generation, old(cursor), n, Signal(stem, old(cursor), n), finished)
      ensures regions == Extended(old(regions), chunk)
    {
      ghost var last := |regions| - 1;
      ghost var region := regions[last];
      assert region in regions && Faithful(stem, quantum, region);
      var startFrame := cursor;
      cursor := cursor + n;
      finished := cursor == stem.frames;
      occupancy := occupancy + 1;
      chunk := Chunk(generation, startFrame, n, planes, finished);
      ContiguousAppend(stem.frames, quantum, region, chunk);
      regions := Extended(regions, chunk);
    }

    /** Writes at most one quantum. The window never ends inside it, so the boundary error is not reached. */
    method WriteOne(generation: nat, ghost live: bool, granted: bool) returns (written: int)
      requires Valid(generation, live)
      modifies this
      ensures Valid(generation, live) && reading == old(reading)
      ensures written == if old(Ready()) && granted then Min(quantum, stem.frames - old(cursor)) else 0
      ensures cursor == old(cursor) + written
      ensures old(Ready()) && granted ==> written > 0 && occupancy == old(occupancy) + 1
      ensures old(Ready()) && granted ==>
        regions == Extended(old(regions), Chunk(generation, old(cursor), written, Signal(stem, old(cursor), written), finished))
      ensures !(old(Ready()) && granted) ==> occupancy == old(occupancy) && regions == old(regions)
    {
      var ready := CanWrite(generation, live);
      if !ready {
        return 0;
      }
      var n := Min(quantum, stem.frames - cursor);
      var w := window.value;
      QuantumInside(w);
      assert cursor + n <= w.End();
      if !granted {
        return 0;
      }
      WindowSignal(w, n);
      var planes := Render(w.bytes, cursor - w.start, n, stem.channels, stem.bitDepth);
      ghost var chunk := Commit(generation, n, planes);
      return n;
    }

    /** Starts the read this source needs, if any; the caller has seen it unfinished and without a read. */
    method StartRead(generation: nat, ghost live: bool) returns (started: bool)
      requires Valid(generation, live) && live && !finished && reading.None?
      modifies `window, `next, `reading
      ensures Valid(generation, live) && Served()
      ensures if old(Drained()) then window == old(next) && next.None? else window == old(window) && next == old(next)
      ensures started == reading.Some? && (started ==> reading == Some(Read(Tail(), generation, false)))
    {
      var ready := CanWrite(generation, live);
      var start := cursor;
      if window.Some? {
        start := EndOf(window.value);
        if next.Some? || start >= stem.frames || 2 * (cursor - window.value.start) < windowFrames {
          return false;
        }
      }
      reading := Some(Read(start, generation, false));
      return true;
    }

    /** Frames a read asks for. */
    function Wanted(start: int): int
      requires Shaped()
    {
      Min(Full(), stem.frames - start)
    }

    /** What storage may return: the asked bytes, a wrong number of bytes, or an error. */
    predicate Honest(start: int, outcome: Outcome)
      requires Shaped() && 0 <= start < stem.frames
    {
      outcome.Bytes? && |outcome.bytes| == Wanted(start) * stem.Fb() ==>
        && start * stem.Fb() + |outcome.bytes| <= |stem.pcm|
        && outcome.bytes == stem.pcm[start * stem.Fb()..start * stem.Fb() + |outcome.bytes|]
    }

    lemma {:induction false} FilledCovers(start: int, bytes: seq<Byte>, generation: nat)
      requires Shaped() && 0 <= start < stem.frames && |bytes| == Wanted(start) * stem.Fb() && Honest(start, Bytes(bytes))
      ensures Covering(Window(bytes, start, Wanted(start), generation), start)
    {
      AlignedBounds(windowFrames, quantum);
      MulMono(0, start, stem.Fb());
    }

    predicate Accepts(generation: nat, live: bool, outcome: Outcome)
      requires Shaped() && reading.Some?
      reads `reading
    {
      && live && reading.value.generation == generation
      && outcome.Bytes? && |outcome.bytes| == Wanted(reading.value.start) * stem.Fb()
    }

    function Failed(generation: nat, live: bool, outcome: Outcome): Option<Failure>
      requires Shaped() && reading.Some?
      reads `reading
    {
      if !live || reading.value.generation != generation || Accepts(generation, live, outcome) then None
      else Some(if outcome.Rejected? then ReadFailed else WrongSize)
    }

    /** The last check of a read: only a read of the running generation with the right size fills a slot. */
    method Settle(generation: nat, live: bool, outcome: Outcome) returns (failure: Option<Failure>)
      requires Valid(generation, live) && reading.Some? && !reading.value.settled
      requires Honest(reading.value.start, outcome)
      modifies `window, `next, `reading
      ensures Valid(generation, live)
      ensures reading == Some(old(reading).value.(settled := true))
      ensures failure == old(Failed(generation, live, outcome))
      ensures !old(Accepts(generation, live, outcome)) ==> window == old(window) && next == old(next)
      ensures old(Accepts(generation, live, outcome)) ==>
        var filled := Some(Window(outcome.bytes, old(reading).value.start, old(Wanted(reading.value.start)), generation));
        if old(window).None? then window == filled && next == old(next) else window == old(window) && next == filled
      ensures old(Accepts(generation, live, outcome)) ==> Stocked()
    {
      var r := reading.value;
      reading := Some(r.(settled := true));
      if !live || r.generation != generation {
        return None;
      }
      if outcome.Rejected? {
        return Some(ReadFailed);
      }
      var count := Wanted(r.start);
      if |outcome.bytes| != count * stem.Fb() {
        return Some(WrongSize);
      }
      var filled := Window(outcome.bytes, r.start, count, generation);
      FilledCovers(r.start, outcome.bytes, generation);
      if window.None? {
        window := Some(filled);
      } else {
        next := Some(filled);
      }
      return None;
    }

    /** The promise callback: the source may read again. */
    method Unregister(ghost generation: nat, ghost live: bool)
      requires Valid(generation, live) && reading.Some? && reading.value.settled
      modifies `reading
      ensures Valid(generation, live) && reading.None?
    {
      reading := None;
    }

    /** Moves to the clamped target under a new generation; a pending read keeps its slot until it settles. */
    method Seek(generation: nat, live: bool, target: nat)
      requires Valid(generation, live)
      modifies `cursor, `window, `next, `finished, `regions
      ensures Valid(generation + 1, live) && cursor == Min(target, stem.frames) && window.None? && next.None?
      ensures regions == old(regions) + [Region(generation + 1, cursor, [])]
    {
      cursor := Min(target, stem.frames);
      window, next := None, None;
      finished := cursor == stem.frames;
      regions := regions + [Region(generation + 1, cursor, [])];
    }

    method Release(ghost generation: nat, ghost live: bool)
      requires Valid(generation, live)
      modifies `window, `next
      ensures Valid(generation, false) && window.None? && next.None?
    {
      window, next := None, None;
    }

    /** The consumer, or the ring itself on a seek, frees or drops slots. */
    method RingMoves(ghost generation: nat, ghost live: bool, slots: int)
      requires Valid(generation, live) && 0 <= slots <= capacity
      modifies `occupancy
      ensures Valid(generation, live) && occupancy == slots
    {
      occupancy := slots;
    }

    /** A served source without a read has frames to write: a used-up window always asks for more in time. */
    lemma {:induction false} ServedMeansStocked(generation: nat, live: bool)
      requires Valid(generation, live) && Served() && reading.None? && !finished
      ensures Stocked()
    {
      AlignedBounds(windowFrames, quantum);
    }

    /** Bytes of the windows held and of a read that may still fill one. */
    function Footprint(): int
      requires Shaped()
      reads this
    {
      (if window.Some? then |window.value.bytes| else 0) + (if next.Some? then |next.value.bytes| else 0)
      + (if reading.Some? && !reading.value.settled then Wanted(reading.value.start) * stem.Fb() else 0)
    }

    lemma FramesWithin(count: int)
      requires Shaped() && 0 <= count <= Full()
      ensures 0 <= count * stem.Fb() <= windowFrames * stem.Fb()
    {
      AlignedBounds(windowFrames, quantum);
      MulMono(0, count, stem.Fb());
      MulMono(count, windowFrames, stem.Fb());
    }

    /** The allocation bound the pump announces per source covers both windows and the read in flight. */
    lemma {:induction false} FootprintBound(generation: nat, live: bool)
      requires Valid(generation, live)
      ensures 0 <= Footprint() <= 2 * (windowFrames * stem.Fb())
    {
      if window.Some? {
        FramesWithin(window.value.count);
      }
      if next.Some? {
        FramesWithin(next.value.count);
      }
      if reading.Some? {
        FramesWithin(Wanted(reading.value.start));
      }
    }
  }
}
