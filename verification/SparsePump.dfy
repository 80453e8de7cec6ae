/** Playback of a committed sparse asset: the pump's reads go through the sparse index (src/stems/pump.ts). */
module SparsePump {
  import opened Common
  import opened StemShape
  import opened DensePcm
  import opened SparsePcm
  import opened SparseWindow
  import opened PcmSamples
  import Signal = PumpSignal
  import opened PumpSource
  import opened PcmPump

  /** The stem a source plays when its asset is an index and a packed file. */
  function SparseStem(index: Index, packed: seq<Byte>): (stem: Signal.Stem)
    requires ValidIndex(index) && |packed| == index.activeBytes
    ensures stem.Valid() && stem.Fb() == ShapeFrameBytes(index.shape)
  {
    var fb := ShapeFrameBytes(index.shape);
    Signal.Stem(index.shape.channels, index.shape.bitDepth, index.shape.frames, Dense(index.intervals, packed, index.shape.frames, fb))
  }

  /** A window read of an admitted asset answers the pump with the dense bytes it asked for, or is rejected when the file read is short. */
  method ReadForPump(index: Index, packed: seq<Byte>, s: Source, start: int, missing: nat) returns (outcome: Signal.Outcome)
    requires ValidIndex(index) && |packed| == index.activeBytes
    requires s.Shaped() && s.stem == SparseStem(index, packed) && s.windowFrames <= MAX_WINDOW_FRAMES && 0 <= start < s.stem.frames
    ensures s.Honest(start, outcome) && (missing == 0 ==> outcome.Bytes?)
    ensures outcome.Bytes? ==> |outcome.bytes| == s.Wanted(start) * s.stem.Fb()
  {
    Signal.AlignedBounds(s.windowFrames, s.quantum);
    var count := s.Wanted(start);
    var bytes := ReadSparsePcmWindow(index, true, packed, start, count, missing);
    MulSum(start, count, s.stem.Fb());
    outcome := if bytes.Ok? then Signal.Bytes(bytes.value) else Signal.Rejected;
  }

  /** With admitted assets only a short file read fails the pump; a read that brings all and is still current leaves the source with frames to write. */
  method SparseRead(pump: Pump, i: int, s: Source, index: Index, packed: seq<Byte>, missing: nat)
    requires ValidIndex(index) && |packed| == index.activeBytes
    requires pump.Valid() && pump.Known(i) && s == pump.states[i] && s.Valid(pump.generation, !pump.stopped)
    requires s.reading.Some? && !s.reading.value.settled
    requires s.stem == SparseStem(index, packed) && pump.windowFrames <= MAX_WINDOW_FRAMES
    modifies pump`failure, s`window, s`next, s`reading
    ensures pump.Valid() && (missing == 0 ==> pump.failure == old(pump.failure))
    ensures missing == 0 && old(s.reading.value.generation) == pump.generation && !pump.stopped ==> s.Stocked()
  {
    var outcome := ReadForPump(index, packed, s, s.reading.value.start, missing);
    pump.SettleRead(i, s, outcome);
  }
}
