/** The chunks of a package, read one behind the other from one response (src/stems/sparse-resolver.ts). */
module PackageBody {
  import opened Common
  import opened StemShape
  import opened SparseManifest
  import opened Sha256Compress
  import opened Sha256Stream
  import opened ResponseCursor
  import opened FlacMetadata
  import Chunk = FiniteSource

  datatype End = Complete | Misplaced | Refused

  /** chunkExpected */
  function ChunkExpected(m: Manifest, chunk: StemChunk): Expected {
    Expected(m.shape.sampleRateHz, m.shape.channels, m.shape.bitDepth, chunk.frames, chunk.frames * ShapeFrameBytes(m.shape))
  }

  lemma ExpectedSafe(m: Manifest, k: nat)
    requires WellFormed(m) && k < |m.chunks|
    ensures 1 <= m.chunks[k].bytes
    ensures SafeInt(m.chunks[k].frames, 1) && SafeInt(ChunkExpected(m, m.chunks[k]).canonicalBytes, 1)
  {
    assert ChunkPlaced(m.chunks, k, m.shape.sampleRateHz);
  }

  /** The bytes have the declared digest, and audio behind metadata that describes what was declared. */
  predicate Genuine(encoded: seq<Byte>, sha256: string, expected: Expected) {
    Chunk.Hex(Sha256Of(encoded)) == sha256 && AudioStart(encoded, Some(expected)).Some?
  }

  /** What the decoder was given is the beginning of a chunk's audio. */
  predicate FromAudio(given: seq<Byte>, encoded: seq<Byte>, expected: Expected) {
    AudioStart(encoded, Some(expected)).Some? && AudioStart(encoded, Some(expected)).value <= |encoded|
    && given <= encoded[AudioStart(encoded, Some(expected)).value..]
  }

  /** The decoder's reads: as many as it asks for, while there is audio left. */
  method Feed(source: Chunk.Source, asks: nat) returns (ok: bool)
    requires source.Valid() && source.Giving() && source.prepared && !source.finished && !source.cursor.scratchLive
    modifies source`offset, source`seenBytes, source`consumed, source`sourceDone, source`given, source.cursor
    modifies source.hash`blockBytes, source.hash`totalBytes, source.hash`message, source.hash`blocks
    modifies source.hash.state, source.hash.block, source.hash.words
    ensures old(source.cursor.Clean()) ==> source.cursor.Clean()
    ensures ok ==> source.Valid() && source.Giving() && !source.cursor.scratchLive
    ensures !ok && old(source.cursor.Clean()) ==> |source.body| < source.extent
  {
    var count := 0;
    while count < asks && !source.sourceDone
      invariant source.Valid() && source.Giving() && !source.cursor.scratchLive
      invariant old(source.cursor.Clean()) ==> source.cursor.Clean()
    {
      var input := source.Read(MAX_INPUT_BYTES);
      if input.None? {
        return false;
      }
      source.cursor.Release();
      count := count + 1;
    }
    return true;
  }

  /** One chunk: whatever the decoder leaves is hashed all the same. */
  method ReadChunk(cursor: Cursor, bytes: nat, sha256: string, expected: Expected, asks: nat, backend: Backend)
    returns (ok: bool, ghost given: seq<Byte>)
    requires cursor.Valid() && !cursor.scratchLive && 1 <= bytes
    requires SafeInt(expected.frames, 1) && SafeInt(expected.canonicalBytes, 1)
    modifies cursor
    ensures old(cursor.Clean()) ==> cursor.Clean()
    ensures ok ==> cursor.Valid() && !cursor.scratchLive && cursor.position == old(cursor.position) + bytes
    ensures ok ==> bytes <= |old(cursor.Rest())| && cursor.Rest() == old(cursor.Rest())[bytes..]
    ensures ok ==> Genuine(old(cursor.Rest())[..bytes], sha256, expected) && FromAudio(given, old(cursor.Rest())[..bytes], expected)
    ensures !ok && old(cursor.Clean()) ==> |old(cursor.Rest())| < bytes || !Genuine(old(cursor.Rest())[..bytes], sha256, expected)
  {
    var source := new Chunk.Source(cursor, bytes, sha256, Some(expected), backend);
    given := [];
    var prepared := source.Prepare();
    if prepared.None? {
      return false, given;
    }
    ok := Feed(source, asks);
    if ok {
      given := source.given;
      ok := source.Finish();
    }
  }

  predicate GenuineAt(m: Manifest, body: seq<Byte>, k: int)
    requires 0 <= k < |m.chunks|
  {
    && 0 <= m.chunks[k].offset <= m.chunks[k].offset + m.chunks[k].bytes <= |body|
    && Genuine(body[m.chunks[k].offset..m.chunks[k].offset + m.chunks[k].bytes], m.chunks[k].flacSha256, ChunkExpected(m, m.chunks[k]))
  }

  /** A payload is its chunks and nothing behind them. */
  predicate Whole(m: Manifest, body: seq<Byte>) {
    |body| == PayloadBytes(m) && forall k | 0 <= k < |m.chunks| :: GenuineAt(m, body, k)
  }

  /** The next chunk stands right behind the last one. */
  lemma ChunkFollows(m: Manifest, k: nat)
    requires WellFormed(m) && k < |m.chunks|
    ensures m.chunks[k].offset == ChunkBytesBefore(m.chunks, k) && ChunkBytesBefore(m.chunks, k + 1) == m.chunks[k].offset + m.chunks[k].bytes
  {
    assert ChunkPlaced(m.chunks, k, m.shape.sampleRateHz);
  }

  /** The response stands at chunk k: position and rest agree with the manifest. */
  ghost predicate AtChunk(cursor: Cursor, m: Manifest, payloadStart: nat, body: seq<Byte>, k: int)
    requires 0 <= k <= |m.chunks|
    reads cursor
  {
    && cursor.Valid() && !cursor.scratchLive && 0 <= ChunkBytesBefore(m.chunks, k) <= |body|
    && cursor.Rest() == body[ChunkBytesBefore(m.chunks, k)..]
    && cursor.position == payloadStart + ChunkBytesBefore(m.chunks, k)
  }

  /** One chunk from its place to the place of the next. The check of the position never fails. */
  method ReadNext(cursor: Cursor, m: Manifest, payloadStart: nat, ghost body: seq<Byte>, k: nat, asks: nat, backend: Backend)
    returns (r: End, ghost audio: seq<Byte>)
    requires WellFormed(m) && k < |m.chunks| && AtChunk(cursor, m, payloadStart, body, k)
    modifies cursor
    ensures (old(cursor.Clean()) ==> cursor.Clean()) && r != Misplaced
    ensures r.Complete? ==> AtChunk(cursor, m, payloadStart, body, k + 1) && GenuineAt(m, body, k) && Fed(m, body, k, audio)
    ensures r.Refused? && old(cursor.Clean()) ==> !GenuineAt(m, body, k)
  {
    var chunk := m.chunks[k];
    audio := [];
    ExpectedSafe(m, k);
    ChunkFollows(m, k);
    if cursor.position != payloadStart + chunk.offset {
      return Misplaced, audio;
    }
    ghost var rest := cursor.Rest();
    RestOfBody(body, rest, chunk.offset, chunk.bytes);
    var ok;
    ok, audio := ReadChunk(cursor, chunk.bytes, chunk.flacSha256, ChunkExpected(m, chunk), asks, backend);
    return if ok then Complete else Refused, audio;
  }

  /**
    The chunks in order. The response always stands at the chunk whose turn it is, so "not at its admitted chunk" is
    unreachable; on a sound response the reading succeeds exactly for a payload of genuine chunks with nothing behind them.
   */
  method ReadPayload(cursor: Cursor, m: Manifest, payloadStart: nat, asks: nat -> nat, backend: Backend)
    returns (r: End, ghost given: seq<seq<Byte>>)
    requires WellFormed(m) && cursor.Valid() && !cursor.scratchLive && cursor.position == payloadStart
    modifies cursor
    ensures r != Misplaced
    ensures r.Complete? ==> Whole(m, old(cursor.Rest())) && |given| == |m.chunks|
    ensures r.Complete? ==> forall k | 0 <= k < |m.chunks| :: Fed(m, old(cursor.Rest()), k, given[k])
    ensures old(cursor.Clean()) && Whole(m, old(cursor.Rest())) ==> r.Complete?
  {
    ghost var body := cursor.Rest();
    given := [];
    var k := 0;
    while k < |m.chunks|
      invariant 0 <= k <= |m.chunks| && |given| == k && AtChunk(cursor, m, payloadStart, body, k)
      invariant old(cursor.Clean()) ==> cursor.Clean()
      invariant UpTo(m, body, given, k)
    {
      ghost var audio;
      r, audio := ReadNext(cursor, m, payloadStart, body, k, asks(k), backend);
      if r != Complete {
        return r, given;
      }
      UpToNext(m, body, given, k, audio);
      given := given + [audio];
      k := k + 1;
    }
    var over := cursor.AssertEof();
    r := if over then Complete else Refused;
  }

  /** The decoder of chunk k was given the beginning of its audio. */
  predicate Fed(m: Manifest, body: seq<Byte>, k: int, given: seq<Byte>)
    requires 0 <= k < |m.chunks|
  {
    && 0 <= m.chunks[k].offset <= m.chunks[k].offset + m.chunks[k].bytes <= |body|
    && FromAudio(given, body[m.chunks[k].offset..m.chunks[k].offset + m.chunks[k].bytes], ChunkExpected(m, m.chunks[k]))
  }

  /** The first k chunks are genuine and were given to their decoders. */
  predicate UpTo(m: Manifest, body: seq<Byte>, given: seq<seq<Byte>>, k: nat)
    requires k <= |m.chunks| && k == |given|
  {
    forall j | 0 <= j < k :: GenuineAt(m, body, j) && Fed(m, body, j, given[j])
  }

  lemma UpToNext(m: Manifest, body: seq<Byte>, given: seq<seq<Byte>>, k: nat, audio: seq<Byte>)
    requires k < |m.chunks| && k == |given| && UpTo(m, body, given, k)
    requires GenuineAt(m, body, k) && Fed(m, body, k, audio)
    ensures UpTo(m, body, given + [audio], k + 1)
  {
  }

  lemma RestOfBody(body: seq<Byte>, rest: seq<Byte>, at: nat, n: nat)
    requires at <= |body| && rest == body[at..]
    ensures n <= |rest| ==> at + n <= |body| && rest[..n] == body[at..at + n] && rest[n..] == body[at + n..]
  {
  }
}
