/** Admission of package headers and manifests, and the package round trip (src/stems/sparse-format.ts). */
module SparseFormat {
  import opened Common
  import opened CanonicalJson
  import opened KeyOrder
  import opened JsonReader
  import opened StemShape
  import opened SparseManifest
  import opened ManifestJson

  const HEADER_BYTES := 16
  const MAX_OBJECT_BYTES := 8 * 1024 * 1024 * 1024

  /** The size limits on the encoding and on the object, and the payload the chunks describe. */
  predicate Fits(m: Manifest, payloadBytes: Option<int>) {
    && |Print(ToJson(m))| <= MAX_MANIFEST_BYTES
    && (payloadBytes.Some? ==> SafeInt(payloadBytes.value, 0) && payloadBytes.value == PayloadBytes(m))
    && HEADER_BYTES + |Print(ToJson(m))| + PayloadBytes(m) <= MAX_OBJECT_BYTES
  }

  /** The manifest a value is admitted as. */
  function Validated(v: Json, payloadBytes: Option<int>): Option<Manifest> {
    match ReadManifest(v)
    case Some(m) => if WellFormed(m) && Fits(m, payloadBytes) then Some(m) else None
    case None => None
  }

  // ---------------------------------------------------------------- validation

  lemma {:induction false} ReadAllPrefix<T>(items: seq<Json>, one: Json -> Option<T>, k: nat)
    requires ReadAll(items, one).Some? && k < |items|
    ensures ReadAll(items[..k], one) == Some(ReadAll(items, one).value[..k])
    ensures one(items[k]) == Some(ReadAll(items, one).value[k])
    decreases |items|
  {
    var n := |items| - 1;
    var front := ReadAll(items[..n], one).value;
    assert ReadAll(items, one).value == front + [one(items[n]).value];
    if k < n {
      ReadAllPrefix(items[..n], one, k);
      assert items[..n][..k] == items[..k];
      assert (front + [one(items[n]).value])[..k] == front[..k];
    } else {
      assert (front + [one(items[n]).value])[..k] == front;
    }
  }

  lemma ReadAllNext<T>(items: seq<Json>, one: Json -> Option<T>, k: nat, front: seq<T>, x: T)
    requires k < |items| && ReadAll(items[..k], one) == Some(front) && one(items[k]) == Some(x)
    ensures ReadAll(items[..k + 1], one) == Some(front + [x])
  {
    assert items[..k + 1][..k] == items[..k];
  }

  ghost predicate IntervalsAdmitted(items: seq<Json>, frames: int) {
    var ivs := ReadAll(items, ReadInterval);
    ivs.Some? && forall k | 0 <= k < |ivs.value| :: IntervalPlaced(ivs.value, k, frames)
  }

  lemma IntervalsNext(ivs: seq<StemInterval>, iv: StemInterval, frames: int)
    requires forall k | 0 <= k < |ivs| :: IntervalPlaced(ivs, k, frames)
    requires 1 <= iv.frames && StemEnd(ivs, |ivs|) < iv.startFrame && iv.startFrame + iv.frames <= frames
    requires iv.packedFrameOffset == PackedBefore(ivs, |ivs|)
    ensures forall k | 0 <= k < |ivs| + 1 :: IntervalPlaced(ivs + [iv], k, frames)
    ensures StemEnd(ivs + [iv], |ivs| + 1) == iv.startFrame + iv.frames
    ensures PackedBefore(ivs + [iv], |ivs| + 1) == iv.packedFrameOffset + iv.frames
  {
    forall k | 0 <= k < |ivs| + 1
      ensures IntervalPlaced(ivs + [iv], k, frames)
    {
      if k < |ivs| {
        assert IntervalPlaced(ivs, k, frames);
      }
    }
  }

  /** One more placed interval keeps the packed endpoint safe. */
  lemma PackedSafe(ivs: seq<StemInterval>, iv: StemInterval, frames: int)
    requires SafeInt(frames, 1) && forall k | 0 <= k < |ivs| :: IntervalPlaced(ivs, k, frames)
    requires SafeInt(iv.frames, 1) && StemEnd(ivs, |ivs|) < iv.startFrame && iv.startFrame + iv.frames <= frames && iv.startFrame >= 0
    requires iv.packedFrameOffset == PackedBefore(ivs, |ivs|)
    ensures SafeInt(PackedBefore(ivs, |ivs|) + iv.frames, 0)
  {
    StemEndNonNegative(ivs, |ivs|, frames);
  }

  /** The running endpoints of the interval loop decide exactly whether every interval is placed. */
  method ValidateIntervals(items: seq<Json>, frames: int) returns (r: Option<seq<StemInterval>>)
    requires SafeInt(frames, 1)
    ensures r == if IntervalsAdmitted(items, frames) then ReadAll(items, ReadInterval) else None
  {
    var ivs: seq<StemInterval> := [];
    var previousEnd, expectedOffset, index := -1, 0, 0;
    while index < |items|
      invariant 0 <= index <= |items| == |items| && |ivs| == index
      invariant ReadAll(items[..index], ReadInterval) == Some(ivs)
      invariant forall k | 0 <= k < index :: IntervalPlaced(ivs, k, frames)
      invariant previousEnd == StemEnd(ivs, index) && expectedOffset == PackedBefore(ivs, index)
    {
      if IntervalsAdmitted(items, frames) {
        ReadAllPrefix(items, ReadInterval, index);
        assert IntervalPlaced(ReadAll(items, ReadInterval).value, index, frames);
      }
      var raw := ReadInterval(items[index]);
      if raw.None? {
        return None;
      }
      var iv := raw.value;
      var endFrame := iv.startFrame + iv.frames;
      if !SafeInt(endFrame, 0) || endFrame > frames || iv.startFrame <= previousEnd || iv.packedFrameOffset != expectedOffset {
        return None;
      }
      PackedSafe(ivs, iv, frames);
      expectedOffset := expectedOffset + iv.frames;
      previousEnd := endFrame;
      ReadAllNext(items, ReadInterval, index, ivs, iv);
      IntervalsNext(ivs, iv, frames);
      ivs := ivs + [iv];
      index := index + 1;
    }
    assert items[..index] == items;
    return Some(ivs);
  }

  ghost predicate ChunksAdmitted(items: seq<Json>, rate: int) {
    var cs := ReadAll(items, ReadChunk);
    cs.Some? && forall k | 0 <= k < |cs.value| :: ChunkPlaced(cs.value, k, rate)
  }

  lemma ChunksNext(cs: seq<StemChunk>, c: StemChunk, rate: int)
    requires forall k | 0 <= k < |cs| :: ChunkPlaced(cs, k, rate)
    requires 1 <= c.bytes <= MAX_CHUNK_BYTES && 1 <= c.frames <= rate * 30 && ValidDigest(c.flacSha256) && ValidDigest(c.pcmSha256)
    requires c.packedStartFrame == ChunkFramesBefore(cs, |cs|) && c.offset == ChunkBytesBefore(cs, |cs|)
    ensures forall k | 0 <= k < |cs| + 1 :: ChunkPlaced(cs + [c], k, rate)
    ensures ChunkFramesBefore(cs + [c], |cs| + 1) == c.packedStartFrame + c.frames
    ensures ChunkBytesBefore(cs + [c], |cs| + 1) == c.offset + c.bytes
  {
    forall k | 0 <= k < |cs| + 1
      ensures ChunkPlaced(cs + [c], k, rate)
    {
      if k < |cs| {
        assert ChunkPlaced(cs, k, rate);
      }
    }
  }

  /** What reading a chunk has checked already. */
  lemma ReadChunkChecks(v: Json)
    requires ReadChunk(v).Some?
    ensures ChunkNumbers(ReadChunk(v).value)
  {
  }

  /** The running endpoints of the chunk loop decide exactly whether every chunk is placed; their sums stay safe. */
  method ValidateChunks(items: seq<Json>, rate: int) returns (r: Option<seq<StemChunk>>)
    requires SupportedRate(rate) && |items| <= MAX_CHUNKS
    ensures r == if ChunksAdmitted(items, rate) then ReadAll(items, ReadChunk) else None
  {
    var cs: seq<StemChunk> := [];
    var expectedFrame, expectedOffset, index := 0, 0, 0;
    while index < |items|
      invariant 0 <= index <= |items| && |cs| == index
      invariant ReadAll(items[..index], ReadChunk) == Some(cs)
      invariant forall k | 0 <= k < index :: ChunkPlaced(cs, k, rate)
      invariant expectedFrame == ChunkFramesBefore(cs, index) && expectedOffset == ChunkBytesBefore(cs, index)
    {
      if ChunksAdmitted(items, rate) {
        ReadAllPrefix(items, ReadChunk, index);
        assert ChunkPlaced(ReadAll(items, ReadChunk).value, index, rate);
      }
      var raw := ReadChunk(items[index]);
      if raw.None? {
        return None;
      }
      var c := raw.value;
      if c.bytes > MAX_CHUNK_BYTES || c.frames > rate * 30 || c.packedStartFrame != expectedFrame || c.offset != expectedOffset {
        return None;
      }
      ReadChunkChecks(items[index]);
      ChunkSumsSafe(cs, c, rate);
      expectedFrame, expectedOffset := expectedFrame + c.frames, expectedOffset + c.bytes;
      ReadAllNext(items, ReadChunk, index, cs, c);
      ChunksNext(cs, c, rate);
      cs := cs + [c];
      index := index + 1;
    }
    assert items[..index] == items;
    return Some(cs);
  }

  lemma ChunkSumsSafe(cs: seq<StemChunk>, c: StemChunk, rate: int)
    requires (forall k | 0 <= k < |cs| :: ChunkPlaced(cs, k, rate)) && |cs| < MAX_CHUNKS && SupportedRate(rate)
    requires 1 <= c.bytes <= MAX_CHUNK_BYTES && 1 <= c.frames <= rate * 30
    ensures SafeInt(ChunkFramesBefore(cs, |cs|) + c.frames, 0) && SafeInt(ChunkBytesBefore(cs, |cs|) + c.bytes, 0)
  {
    ChunkSums(cs, |cs|, rate);
    MulMono(|cs|, MAX_CHUNKS, rate * 30);
  }

  /** Every check of a package manifest, in one pass over its arrays. */
  method ValidateManifest(v: Json, payloadBytes: Option<int>) returns (r: Option<Manifest>)
    ensures r == Validated(v, payloadBytes)
  {
    if !v.Object? || !HasExactly(v.fields, ROOT_KEYS) || Get(v.fields, "format") != Some(Text(FORMAT)) {
      return None;
    }
    var intervals, chunks, shape := Get(v.fields, "intervals"), Get(v.fields, "chunks"), ReadShape(v.fields);
    if intervals.None? || !intervals.value.Array? || chunks.None? || !chunks.value.Array? || shape.None? {
      return None;
    }
    r := ValidateParts(v, shape.value, intervals.value.items, chunks.value.items, payloadBytes);
  }

  method ValidateParts(v: Json, shape: Shape, ivItems: seq<Json>, chunkItems: seq<Json>, payloadBytes: Option<int>) returns (r: Option<Manifest>)
    requires ReadManifest(v) == ReadParts(shape, ivItems, chunkItems)
    ensures r == Validated(v, payloadBytes)
  {
    if |ivItems| > MAX_MANIFEST_INTERVALS || |chunkItems| > MAX_CHUNKS || !ValidShape(shape) {
      return None;
    }
    var ivs := ValidateIntervals(ivItems, shape.frames);
    if ivs.None? {
      return None;
    }
    var cs := ValidateChunks(chunkItems, shape.sampleRateHz);
    if cs.None? {
      return None;
    }
    var m := Manifest(shape, ivs.value, cs.value);
    if ChunkFramesBefore(cs.value, |cs.value|) != PackedFrames(m) || !Fits(m, payloadBytes) {
      return None;
    }
    return Some(m);
  }
}
