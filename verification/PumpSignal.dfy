/** Windows, chunks and the signal a playback source delivers (src/stems/pump.ts). */
module PumpSignal {
  import opened Common
  import opened StemShape
  import opened PcmSamples

  /** A verified stem; pcm is the dense timeline its reads are cut from. */
  datatype Stem = Stem(channels: int, bitDepth: int, frames: int, pcm: seq<Byte>) {
    function Fb(): int {
      FrameBytes(channels, bitDepth)
    }

    predicate Valid() {
      Layout(channels, bitDepth) && 0 < frames && |pcm| == frames * Fb()
    }
  }

  /** Whole frames read from start; generation records the seek generation the read was issued in. */
  datatype Window = Window(bytes: seq<Byte>, start: int, count: int, generation: nat) {
    function End(): int {
      start + count
    }
  }

  /** A read in flight. It stays registered from its last check until its promise callback runs. */
  datatype Read = Read(start: int, generation: nat, settled: bool)

  datatype Outcome = Bytes(bytes: seq<Byte>) | Rejected

  datatype Failure = ReadFailed | WrongSize | Deadline

  datatype Chunk = Chunk(generation: nat, startFrame: int, frames: int, planes: seq<seq<real>>, endOfRegion: bool)

  /** What a source committed in one generation, from its clamped seek target on. */
  datatype Region = Region(generation: nat, origin: int, chunks: seq<Chunk>)

  /** n is a whole number of quanta. */
  predicate Whole(n: int, quantum: int)
    decreases n
  {
    n == 0 || (0 < quantum <= n && Whole(n - quantum, quantum))
  }

  lemma {:induction false} WholeMultiple(k: nat, quantum: int)
    requires 0 < quantum
    ensures Whole(k * quantum, quantum)
  {
    if k > 0 {
      WholeMultiple(k - 1, quantum);
      MulSum(k, 1, quantum);
      MulMono(1, k, quantum);
    }
  }

  /** Frames of a full window: the largest whole number of render quanta. */
  function Aligned(windowFrames: int, quantum: int): int
    requires 0 < quantum
  {
    windowFrames / quantum * quantum
  }

  /** A full window is whole quanta and more than half of windowFrames. */
  lemma AlignedBounds(windowFrames: int, quantum: int)
    requires 0 < quantum <= windowFrames
    ensures quantum <= Aligned(windowFrames, quantum) <= windowFrames < 2 * Aligned(windowFrames, quantum)
    ensures Whole(Aligned(windowFrames, quantum), quantum)
  {
    var q := windowFrames / quantum;
    assert windowFrames == quantum * q + windowFrames % quantum;
    MulMono(1, q, quantum);
    WholeMultiple(q, quantum);
  }

  /** The signal of a stem: one plane per channel for n frames. */
  function Signal(stem: Stem, from: int, n: int): (r: seq<seq<real>>)
    requires stem.Valid() && 0 <= from && 0 <= n && from + n <= stem.frames
    ensures |r| == stem.channels
  {
    MulMono(from + n, stem.frames, stem.Fb());
    Planes(stem.pcm, from, n, stem.channels, stem.bitDepth)
  }

  lemma SignalConcat(stem: Stem, from: int, n: int, m: int, c: int)
    requires stem.Valid() && 0 <= from && 0 <= n && 0 <= m && from + n + m <= stem.frames && 0 <= c < stem.channels
    ensures Signal(stem, from, n)[c] + Signal(stem, from + n, m)[c] == Signal(stem, from, n + m)[c]
  {
    var a, b := Signal(stem, from, n)[c], Signal(stem, from + n, m)[c];
    var w := Signal(stem, from, n + m)[c];
    assert |a| == n && |b| == m && |w| == n + m;
    forall f | 0 <= f < n + m
      ensures (a + b)[f] == w[f]
    {
      if f >= n {
        assert b[f - n] == w[f];
      }
    }
  }

  /** One quantum, or the shorter tail. */
  predicate Placed(frames: int, quantum: int, generation: nat, chunk: Chunk) {
    && chunk.generation == generation
    && 0 <= chunk.startFrame < frames
    && 0 < chunk.frames == Min(quantum, frames - chunk.startFrame)
    && chunk.endOfRegion == (chunk.startFrame + chunk.frames == frames)
  }

  function RegionEnd(region: Region): int {
    var n := |region.chunks|;
    if n == 0 then region.origin else region.chunks[n - 1].startFrame + region.chunks[n - 1].frames
  }

  ghost predicate Contiguous(frames: int, quantum: int, region: Region) {
    && 0 <= region.origin <= frames
    && (forall chunk | chunk in region.chunks :: Placed(frames, quantum, region.generation, chunk))
    && (|region.chunks| > 0 ==> region.chunks[0].startFrame == region.origin)
    && forall j, k | 0 <= j < k < |region.chunks| && k == j + 1 ::
      region.chunks[k].startFrame == region.chunks[j].startFrame + region.chunks[j].frames
  }

  predicate Exact(stem: Stem, chunk: Chunk)
    requires stem.Valid()
  {
    && 0 <= chunk.startFrame && 0 <= chunk.frames && chunk.startFrame + chunk.frames <= stem.frames
    && chunk.planes == Signal(stem, chunk.startFrame, chunk.frames)
  }

  /** Contiguous quanta of the stem from the origin on, each with the stem's own samples. */
  ghost predicate Faithful(stem: Stem, quantum: int, region: Region)
    requires stem.Valid()
  {
    Contiguous(stem.frames, quantum, region) && forall chunk | chunk in region.chunks :: Exact(stem, chunk)
  }

  function Heard(chunks: seq<Chunk>, c: int): seq<real> {
    if |chunks| == 0 then [] else
      var last := chunks[|chunks| - 1];
      Heard(chunks[..|chunks| - 1], c) + (if 0 <= c < |last.planes| then last.planes[c] else [])
  }

  /** What a generation plays is the dense signal from the seek target to the cursor. */
  lemma {:induction false} HeardSignal(stem: Stem, quantum: int, region: Region, c: int)
    requires stem.Valid() && Faithful(stem, quantum, region) && 0 <= c < stem.channels
    ensures region.origin <= RegionEnd(region) <= stem.frames
    ensures Heard(region.chunks, c) == Signal(stem, region.origin, RegionEnd(region) - region.origin)[c]
    decreases |region.chunks|
  {
    var n := |region.chunks|;
    if n > 0 {
      var front := region.(chunks := region.chunks[..n - 1]);
      HeardSignal(stem, quantum, front, c);
      var last := region.chunks[n - 1];
      assert Placed(stem.frames, quantum, region.generation, last) && last.startFrame == RegionEnd(front);
      assert last in region.chunks && Exact(stem, last);
      SignalConcat(stem, region.origin, RegionEnd(front) - region.origin, last.frames, c);
    }
  }

  /** endOfRegion marks the chunk that reaches the end of the stem and no other. */
  lemma EndMarked(frames: int, quantum: int, region: Region, k: int)
    requires Contiguous(frames, quantum, region) && 0 <= k < |region.chunks|
    ensures region.chunks[k].endOfRegion <==> k == |region.chunks| - 1 && RegionEnd(region) == frames
  {
    if k < |region.chunks| - 1 {
      assert region.chunks[k + 1].startFrame == region.chunks[k].startFrame + region.chunks[k].frames;
      assert Placed(frames, quantum, region.generation, region.chunks[k + 1]);
    }
    assert Placed(frames, quantum, region.generation, region.chunks[k]);
  }

  lemma ContiguousAppend(frames: int, quantum: int, region: Region, chunk: Chunk)
    requires Contiguous(frames, quantum, region)
    requires Placed(frames, quantum, region.generation, chunk) && chunk.startFrame == RegionEnd(region)
    ensures Contiguous(frames, quantum, region.(chunks := region.chunks + [chunk]))
    ensures RegionEnd(region.(chunks := region.chunks + [chunk])) == chunk.startFrame + chunk.frames
  {
  }

  /** A window of the stem: exactly its bytes, full or reaching the tail. */
  predicate Holds(stem: Stem, full: int, w: Window)
    requires stem.Valid()
  {
    && 0 <= w.start && 0 < w.count <= full && w.End() <= stem.frames
    && 0 <= w.start * stem.Fb() && w.start * stem.Fb() + |w.bytes| <= |stem.pcm|
    && |w.bytes| == w.count * stem.Fb()
    && w.bytes == stem.pcm[w.start * stem.Fb()..w.start * stem.Fb() + |w.bytes|]
    && (w.End() == stem.frames || w.count == full)
  }
}
