/** Admitted package manifests and the packed-PCM index they imply. */
module SparseManifest {
  import opened Common
  import opened CanonicalJson
  import opened StemShape
  import opened DensePcm
  import opened SparsePcm

  const MAX_MANIFEST_BYTES := 8 * 1024 * 1024
  const MAX_MANIFEST_INTERVALS := 65536
  const MAX_CHUNKS := 65536
  const MAX_CHUNK_BYTES := 32 * 1024 * 1024

  datatype StemInterval = StemInterval(startFrame: int, frames: int, packedFrameOffset: int)

  datatype StemChunk = StemChunk(
    offset: int, bytes: int, frames: int, packedStartFrame: int, flacSha256: Plain, pcmSha256: Plain)

  datatype Manifest = Manifest(shape: Shape, intervals: seq<StemInterval>, chunks: seq<StemChunk>)

  function StemEnd(ivs: seq<StemInterval>, k: int): int
    requires 0 <= k <= |ivs|
  {
    if k == 0 then -1 else ivs[k - 1].startFrame + ivs[k - 1].frames
  }

  function PackedBefore(ivs: seq<StemInterval>, k: int): int
    requires 0 <= k <= |ivs|
  {
    if k == 0 then 0 else ivs[k - 1].packedFrameOffset + ivs[k - 1].frames
  }

  function ChunkFramesBefore(chunks: seq<StemChunk>, k: int): int
    requires 0 <= k <= |chunks|
  {
    if k == 0 then 0 else chunks[k - 1].packedStartFrame + chunks[k - 1].frames
  }

  function ChunkBytesBefore(chunks: seq<StemChunk>, k: int): int
    requires 0 <= k <= |chunks|
  {
    if k == 0 then 0 else chunks[k - 1].offset + chunks[k - 1].bytes
  }

  /** Interval k starts strictly after its predecessor ends, inside the source, packed right behind it. */
  predicate IntervalPlaced(ivs: seq<StemInterval>, k: int, frames: int)
    requires 0 <= k < |ivs|
  {
    && 1 <= ivs[k].frames
    && StemEnd(ivs, k) < ivs[k].startFrame
    && ivs[k].startFrame + ivs[k].frames <= frames
    && ivs[k].packedFrameOffset == PackedBefore(ivs, k)
  }

  predicate ChunkPlaced(chunks: seq<StemChunk>, k: int, sampleRateHz: int)
    requires 0 <= k < |chunks|
  {
    && 1 <= chunks[k].bytes <= MAX_CHUNK_BYTES
    && 1 <= chunks[k].frames <= sampleRateHz * 30
    && chunks[k].packedStartFrame == ChunkFramesBefore(chunks, k)
    && chunks[k].offset == ChunkBytesBefore(chunks, k)
    && ValidDigest(chunks[k].flacSha256)
    && ValidDigest(chunks[k].pcmSha256)
  }

  function PackedFrames(m: Manifest): int {
    PackedBefore(m.intervals, |m.intervals|)
  }

  function PayloadBytes(m: Manifest): int {
    ChunkBytesBefore(m.chunks, |m.chunks|)
  }

  /** Everything manifest validation demands except the size of the encoding. */
  predicate WellFormed(m: Manifest) {
    && ValidShape(m.shape)
    && |m.intervals| <= MAX_MANIFEST_INTERVALS && |m.chunks| <= MAX_CHUNKS
    && (forall k :: 0 <= k < |m.intervals| ==> IntervalPlaced(m.intervals, k, m.shape.frames))
    && (forall k :: 0 <= k < |m.chunks| ==> ChunkPlaced(m.chunks, k, m.shape.sampleRateHz))
    && ChunkFramesBefore(m.chunks, |m.chunks|) == PackedFrames(m)
  }

  /** An interval of the manifest, in bytes of the packed file. */
  function Indexed(iv: StemInterval, fb: int): Interval {
    Interval(iv.startFrame, iv.frames, iv.packedFrameOffset * fb)
  }

  function IndexedUpTo(ivs: seq<StemInterval>, n: nat, fb: int): (r: seq<Interval>)
    requires n <= |ivs|
    ensures |r| == n
  {
    seq(n, i requires 0 <= i < n => Indexed(ivs[i], fb))
  }

  lemma IndexedValid(ivs: seq<StemInterval>, n: nat, frames: int, fb: int)
    requires forall k :: 0 <= k < |ivs| ==> IntervalPlaced(ivs, k, frames)
    requires n <= |ivs| && 0 < fb && 0 <= frames
    ensures ValidIntervals(IndexedUpTo(ivs, n, fb), frames, fb)
    ensures End(IndexedUpTo(ivs, n, fb)) == Max(0, StemEnd(ivs, n))
    ensures ActiveBytes(IndexedUpTo(ivs, n, fb), fb) == PackedBefore(ivs, n) * fb
  {
    var r := IndexedUpTo(ivs, n, fb);
    forall k | 0 <= k < n
      ensures LaidAt(r, k, fb)
      ensures k > 0 ==> PrevEnd(r, k) < r[k].startFrame
    {
      assert IntervalPlaced(ivs, k, frames);
      if k > 0 {
        assert IntervalPlaced(ivs, k - 1, frames);
        MulSum(ivs[k - 1].packedFrameOffset, ivs[k - 1].frames, fb);
      }
    }
    if n > 0 {
      assert IntervalPlaced(ivs, n - 1, frames);
      StemEndNonNegative(ivs, n, frames);
      MulSum(ivs[n - 1].packedFrameOffset, ivs[n - 1].frames, fb);
    }
  }

  lemma {:induction false} StemEndNonNegative(ivs: seq<StemInterval>, n: nat, frames: int)
    requires forall k :: 0 <= k < |ivs| ==> IntervalPlaced(ivs, k, frames)
    requires n <= |ivs|
    ensures -1 <= StemEnd(ivs, n) && (n > 0 ==> 0 < StemEnd(ivs, n))
    ensures 0 <= PackedBefore(ivs, n) <= Max(0, StemEnd(ivs, n))
  {
    if n > 0 {
      StemEndNonNegative(ivs, n - 1, frames);
      assert IntervalPlaced(ivs, n - 1, frames);
    }
  }

  /**
   The index a manifest implies. Touching intervals would be merged, but a valid manifest has
   none: every manifest interval becomes one index interval.
   */
  method DeriveSparsePcmIndex(m: Manifest, packedBytes: int) returns (r: Result<Index, PcmError>)
    requires WellFormed(m)
    ensures r.Ok? <==> packedBytes == PackedFrames(m) * ShapeFrameBytes(m.shape)
    ensures r.Ok? ==>
      && ValidIndex(r.value)
      && r.value.shape == m.shape
      && r.value.intervals == IndexedUpTo(m.intervals, |m.intervals|, ShapeFrameBytes(m.shape))
      && r.value.activeBytes == packedBytes
  {
    var fb := ShapeFrameBytes(m.shape);
    var intervals: seq<Interval> := [];
    var activeBytes := 0;
    for i := 0 to |m.intervals|
      invariant intervals == IndexedUpTo(m.intervals, i, fb)
      invariant activeBytes == PackedBefore(m.intervals, i) * fb
    {
      var iv := m.intervals[i];
      assert IntervalPlaced(m.intervals, i, m.shape.frames);
      MulSum(iv.packedFrameOffset, iv.frames, fb);
      intervals := Coalesce(intervals, iv.startFrame, iv.frames, iv.packedFrameOffset * fb);
      activeBytes := activeBytes + iv.frames * fb;
    }
    IndexedValid(m.intervals, |m.intervals|, m.shape.frames, fb);
    if packedBytes != activeBytes {
      return Err(SizeMismatch);
    }
    r := ValidateSparsePcmIndex(m.shape, intervals, None, None, Some(packedBytes));
  }
}
