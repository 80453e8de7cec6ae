/**
 Mapping decoder blocks, cut at arbitrary frames, to timeline spans (src/stems/sparse-resolver.ts,
 mapNextBlock / nextSparseSpan), and its agreement with ingest and with the derived index.
 */
module SparseMapping {
  import opened Common
  import opened StemShape
  import opened DensePcm
  import opened SparsePcm
  import opened SparseManifest
  import opened SparseIngest

  const MAX_BLOCK_BYTES := 384 * 1024

  // ---------------------------------------------------------------- what has been stored

  /** Ingest state after the first `packedFrame` packed frames, the last of them in interval k. */
  function StoredIntervals(ivs: seq<StemInterval>, k: int, packedFrame: int, fb: int): seq<Interval>
    requires 0 <= k <= |ivs|
  {
    if k < |ivs| && ivs[k].packedFrameOffset < packedFrame then
      IndexedUpTo(ivs, k, fb)
        + [Interval(ivs[k].startFrame, packedFrame - ivs[k].packedFrameOffset, ivs[k].packedFrameOffset * fb)]
    else
      IndexedUpTo(ivs, k, fb)
  }

  predicate Positioned(ivs: seq<StemInterval>, k: int, packedFrame: int) {
    && 0 <= k <= |ivs|
    && PackedBefore(ivs, k) <= packedFrame
    && (k < |ivs| ==> packedFrame <= PackedBefore(ivs, k + 1))
    && (k == |ivs| ==> packedFrame == PackedBefore(ivs, k))
  }

  /** A completed interval may be attributed to either side of its end. */
  lemma StoredAtBoundary(ivs: seq<StemInterval>, k: int, fb: int, frames: int)
    requires forall j :: 0 <= j < |ivs| ==> IntervalPlaced(ivs, j, frames)
    requires 0 <= k < |ivs|
    ensures StoredIntervals(ivs, k, PackedBefore(ivs, k + 1), fb)
         == StoredIntervals(ivs, k + 1, PackedBefore(ivs, k + 1), fb)
    ensures Positioned(ivs, k + 1, PackedBefore(ivs, k + 1))
  {
    assert IntervalPlaced(ivs, k, frames);
    if k + 1 < |ivs| {
      assert IntervalPlaced(ivs, k + 1, frames);
    }
  }

  /** The span mapNextBlock emits is the one that takes ingest from one packed frame to a later one. */
  lemma SpanContinues(ivs: seq<StemInterval>, k: int, from: int, to: int, file: seq<Byte>, bytes: seq<Byte>, frames: int, fb: int)
    requires forall j :: 0 <= j < |ivs| ==> IntervalPlaced(ivs, j, frames)
    requires 0 <= k < |ivs| && |ivs| <= MAX_INTERVALS && 0 < fb && frames <= MAX_SAFE
    requires PackedBefore(ivs, k) <= from < to <= PackedBefore(ivs, k + 1)
    requires |file| == from * fb && |bytes| == (to - from) * fb && |bytes| <= MAX_SPAN_BYTES
    requires |bytes| / fb == to - from && |bytes| % fb == 0
    ensures var span := Span(ivs[k].startFrame + (from - ivs[k].packedFrameOffset), bytes);
            var s := Stored(StoredIntervals(ivs, k, from, fb), file);
            && Admits(s, span, frames, fb)
            && Append(s, span, fb) == Stored(StoredIntervals(ivs, k, to, fb), file + bytes)
  {
    assert IntervalPlaced(ivs, k, frames);
    StemEndNonNegative(ivs, k, frames);
    IndexedValid(ivs, k, frames, fb);
    var iv := ivs[k];
    var before := StoredIntervals(ivs, k, from, fb);
    if from == iv.packedFrameOffset {
      assert before == IndexedUpTo(ivs, k, fb);
      assert !Adjacent(before, iv.startFrame);
    } else {
      var last := before[|before| - 1];
      assert last == Interval(iv.startFrame, from - iv.packedFrameOffset, iv.packedFrameOffset * fb);
      assert before[..|before| - 1] == IndexedUpTo(ivs, k, fb);
    }
  }

  // ---------------------------------------------------------------- decoder output

  /** The blocks of one chunk from position k on, end to end. */
  function ConcatFrom(blocks: seq<seq<Byte>>, k: nat): seq<Byte>
    requires k <= |blocks|
    decreases |blocks| - k
  {
    if k == |blocks| then [] else blocks[k] + ConcatFrom(blocks, k + 1)
  }

  /** The chunks from position c on, end to end. */
  function ConcatAllFrom(decoded: seq<seq<seq<Byte>>>, c: nat): seq<Byte>
    requires c <= |decoded|
    decreases |decoded| - c
  {
    if c == |decoded| then [] else ConcatFrom(decoded[c], 0) + ConcatAllFrom(decoded, c + 1)
  }

  predicate BlockShape(block: seq<Byte>, fb: int)
    requires 0 < fb
  {
    1 <= |block| <= MAX_BLOCK_BYTES && |block| % fb == 0
  }

  /** Chunk c arrived complete, in blocks of any size that is whole frames. */
  predicate ChunkMatches(m: Manifest, decoded: seq<seq<seq<Byte>>>, c: int, fb: int)
    requires 0 < fb && 0 <= c < |decoded| == |m.chunks|
  {
    && (forall b :: 0 <= b < |decoded[c]| ==> BlockShape(decoded[c][b], fb))
    && |ConcatFrom(decoded[c], 0)| == m.chunks[c].frames * fb
  }

  /** The decoder delivered every declared chunk. */
  predicate DecodeMatches(m: Manifest, decoded: seq<seq<seq<Byte>>>, fb: int)
    requires 0 < fb && |decoded| == |m.chunks|
  {
    forall c :: 0 <= c < |decoded| ==> ChunkMatches(m, decoded, c, fb)
  }

  lemma {:induction false} MatchedLength(m: Manifest, decoded: seq<seq<seq<Byte>>>, fb: int, k: nat)
    requires WellFormed(m) && 0 < fb && |decoded| == |m.chunks| && DecodeMatches(m, decoded, fb) && k <= |decoded|
    ensures |ConcatAllFrom(decoded, k)| == (PackedFrames(m) - ChunkFramesBefore(m.chunks, k)) * fb
    decreases |decoded| - k
  {
    if k < |decoded| {
      assert ChunkPlaced(m.chunks, k, m.shape.sampleRateHz);
      assert ChunkMatches(m, decoded, k, fb);
      MatchedLength(m, decoded, fb, k + 1);
      MulSum(m.chunks[k].frames, PackedFrames(m) - ChunkFramesBefore(m.chunks, k + 1), fb);
    }
  }

  // ---------------------------------------------------------------- the pull state

  datatype MapError =
    | BlockRejected | ChunkNotCovered | OutsideIntervals | EndpointChanged
    | DecodeFailed | Misplaced | ChunkRefused | TrailingBytes | PullCancelled

  /** What goes wrong around one pull: the decoder's read, the place of the response, the chunk's own checks, its end, the signal. */
  datatype Trouble = Trouble(decodeFails: bool, misplaced: bool, refused: bool, trailing: bool, cancelled: bool)

  predicate Smooth(p: Trouble) {
    !p.decodeFails && !p.misplaced && !p.refused && !p.trailing && !p.cancelled
  }

  /** An error that says nothing about the decoded PCM. */
  predicate FromOutside(e: MapError) {
    e.DecodeFailed? || e.Misplaced? || e.ChunkRefused? || e.TrailingBytes? || e.PullCancelled?
  }

  datatype Refilled = More | Ended | Failed(error: MapError)

  datatype Block = Block(bytes: seq<Byte>, startPackedFrame: int, frames: int, offsetFrames: int)

  /** SparsePullState, with the decoder's blocks for each chunk as its environment. */
  class SparsePull {
    const manifest: Manifest
    const frameBytes: int
    const decoded: seq<seq<seq<Byte>>>
    var chunkIndex: int
    /** Blocks already read of the open chunk; None while no reader is open. */
    var reader: Option<nat>
    var currentBlock: Option<Block>
    var chunkFrames: int
    var packedFrame: int
    var intervalIndex: int
    var done: bool
    /** Everything handed out so far. */
    ghost var emitted: seq<Span>
    ghost var file: seq<Byte>

    /** Bytes of the open chunk that are still to be mapped. */
    ghost function ChunkRest(): seq<Byte>
      requires reader.Some? ==> 0 <= chunkIndex < |decoded| && reader.value <= |decoded[chunkIndex]|
      requires currentBlock.Some? ==>
        0 <= currentBlock.value.offsetFrames * frameBytes <= |currentBlock.value.bytes|
      reads this`chunkIndex, this`reader, this`currentBlock
    {
      (if currentBlock.Some? then currentBlock.value.bytes[currentBlock.value.offsetFrames * frameBytes..] else [])
        + (if reader.Some? then ConcatFrom(decoded[chunkIndex], reader.value) else [])
    }

    ghost function NextChunk(): (c: int)
      reads this`chunkIndex, this`reader
    {
      if reader.Some? then chunkIndex + 1 else chunkIndex
    }

    ghost predicate Admitted() {
      WellFormed(manifest) && frameBytes == ShapeFrameBytes(manifest.shape) && |decoded| == |manifest.chunks|
    }

    /** The bytes handed out and the bytes still to come are together the whole decode. */
    ghost predicate StreamValid()
      reads this`chunkIndex, this`reader, this`currentBlock, this`chunkFrames, this`packedFrame, this`file, this`done
    {
      && 0 < frameBytes
      && 0 <= chunkIndex <= |decoded|
      && (reader.Some? ==> chunkIndex < |decoded| && reader.value <= |decoded[chunkIndex]|)
      && (reader.None? ==> currentBlock.None?)
      && (currentBlock.Some? ==>
            var b := currentBlock.value;
            && 1 <= b.frames && |b.bytes| == b.frames * frameBytes
            && 0 <= b.offsetFrames <= b.frames && b.startPackedFrame + b.offsetFrames == packedFrame
            && 0 <= b.offsetFrames * frameBytes <= |b.bytes|)
      && (reader.Some? ==> chunkFrames * frameBytes + |ChunkRest()| == |ConcatFrom(decoded[chunkIndex], 0)|)
      && 0 <= packedFrame && |file| == packedFrame * frameBytes
      && ConcatAllFrom(decoded, 0) == file + (ChunkRest() + ConcatAllFrom(decoded, NextChunk()))
      && (done ==> reader.None? && chunkIndex == |decoded|)
    }

    /** Every chunk and block behind the cursor passed its check. */
    ghost predicate Checked()
      reads this`chunkIndex, this`reader
    {
      && 0 < frameBytes && |decoded| == |manifest.chunks| && 0 <= chunkIndex <= |decoded|
      && (reader.Some? ==> chunkIndex < |decoded| && reader.value <= |decoded[chunkIndex]|)
      && (forall c :: 0 <= c < chunkIndex ==> ChunkMatches(manifest, decoded, c, frameBytes))
      && (reader.Some? ==> forall b :: 0 <= b < reader.value ==> BlockShape(decoded[chunkIndex][b], frameBytes))
    }

    /** Ingest accepts what was handed out and ends in the state that belongs to this packed frame. */
    ghost predicate SpansValid()
      reads this`intervalIndex, this`packedFrame, this`emitted, this`file
    {
      && Admitted()
      && Positioned(manifest.intervals, intervalIndex, packedFrame)
      && AdmitsAll(Stored([], []), emitted, manifest.shape.frames, frameBytes)
      && AppendAll(Stored([], []), emitted, frameBytes)
           == Stored(StoredIntervals(manifest.intervals, intervalIndex, packedFrame, frameBytes), file)
    }

    ghost predicate Valid()
      reads this
    {
      && StreamValid() && Checked() && SpansValid()
      && (done ==> packedFrame == PackedFrames(manifest))
    }

    constructor (manifest: Manifest, decoded: seq<seq<seq<Byte>>>)
      requires WellFormed(manifest) && |decoded| == |manifest.chunks|
      ensures Valid() && emitted == [] && !done
      ensures this.manifest == manifest && this.decoded == decoded
    {
      this.manifest, this.decoded, frameBytes := manifest, decoded, ShapeFrameBytes(manifest.shape);
      chunkIndex, reader, currentBlock, chunkFrames, packedFrame, intervalIndex, done := 0, None, None, 0, 0, 0, false;
      emitted, file := [], [];
      new;
      FirstPosition(manifest);
    }

    /** With a matching decode, unmapped bytes mean unmapped frames. */
    lemma RestMeansFrames()
      requires Admitted() && StreamValid() && DecodeMatches(manifest, decoded, frameBytes)
      ensures packedFrame * frameBytes + |ChunkRest()| + |ConcatAllFrom(decoded, NextChunk())|
           == PackedFrames(manifest) * frameBytes
      ensures ChunkRest() != [] ==> packedFrame < PackedFrames(manifest)
    {
      MatchedLength(manifest, decoded, frameBytes, 0);
      MulCancel(packedFrame, PackedFrames(manifest), frameBytes);
    }

    /** Skips the intervals that end at or before the current packed frame. */
    method AdvanceInterval()
      requires SpansValid()
      modifies this`intervalIndex
      ensures SpansValid()
      ensures intervalIndex < |manifest.intervals| ==> packedFrame < PackedBefore(manifest.intervals, intervalIndex + 1)
    {
      while intervalIndex < |manifest.intervals|
        && packedFrame >= manifest.intervals[intervalIndex].packedFrameOffset + manifest.intervals[intervalIndex].frames
        invariant SpansValid()
      {
        StoredAtBoundary(manifest.intervals, intervalIndex, frameBytes, manifest.shape.frames);
        intervalIndex := intervalIndex + 1;
      }
    }

    /** Hands out the mapped part of the current block as one span. */
    method MapNextBlock() returns (r: Result<Span, MapError>)
      requires Valid() && !done
      requires currentBlock.Some? && currentBlock.value.offsetFrames < currentBlock.value.frames
      modifies this`intervalIndex, this`packedFrame, this`chunkFrames, this`currentBlock, this`emitted, this`file
      ensures r.Ok? ==> Valid() && packedFrame > old(packedFrame) && emitted == old(emitted) + [r.value]
      ensures r.Err? ==> r.error == OutsideIntervals && !DecodeMatches(manifest, decoded, frameBytes)
    {
      var block := currentBlock.value;
      assert DecodeMatches(manifest, decoded, frameBytes) ==> packedFrame < PackedFrames(manifest) by {
        if DecodeMatches(manifest, decoded, frameBytes) {
          MulCancel(block.offsetFrames, block.frames, frameBytes);
          RestMeansFrames();
        }
      }
      AdvanceInterval();
      if !Covers(manifest.intervals, intervalIndex, packedFrame) {
        NotCovered(manifest, intervalIndex, packedFrame);
        return Err(OutsideIntervals);
      }
      var interval := manifest.intervals[intervalIndex];
      var maxFrames := Max(1, MAX_SPAN_BYTES / frameBytes);
      var blockEnd := block.startPackedFrame + block.frames;
      var end := Min(Min(blockEnd, interval.packedFrameOffset + interval.frames), packedFrame + maxFrames);
      var span := TakeFrames(block, end - packedFrame);
      return Ok(span);
    }

    /** Cuts the next frames of the block into a span at their place on the timeline. */
    method TakeFrames(block: Block, frames: int) returns (span: Span)
      requires Valid() && !done && currentBlock == Some(block) && Covers(manifest.intervals, intervalIndex, packedFrame)
      requires 1 <= frames <= Max(1, MAX_SPAN_BYTES / frameBytes) && block.offsetFrames + frames <= block.frames
      requires packedFrame + frames <= PackedBefore(manifest.intervals, intervalIndex + 1)
      modifies this`packedFrame, this`chunkFrames, this`currentBlock, this`emitted, this`file
      ensures Valid() && packedFrame == old(packedFrame) + frames && emitted == old(emitted) + [span]
    {
      var interval := manifest.intervals[intervalIndex];
      var startByte := (packedFrame - block.startPackedFrame) * frameBytes;
      SpanBounds(block, frames, frameBytes, startByte);
      var bytes := block.bytes[startByte..startByte + frames * frameBytes];
      span := Span(interval.startFrame + (packedFrame - interval.packedFrameOffset), bytes);
      SpanExtends(span, frames);
      MoveOn(block, frames, bytes);
      emitted := emitted + [span];
    }

    /** The frames' span takes what was handed out from this packed frame to the one behind them. */
    lemma SpanExtends(span: Span, frames: int)
      requires 0 < frameBytes && SpansValid() && Covers(manifest.intervals, intervalIndex, packedFrame)
      requires 1 <= frames && packedFrame + frames <= PackedBefore(manifest.intervals, intervalIndex + 1)
      requires span.startFrame == manifest.intervals[intervalIndex].startFrame + (packedFrame - manifest.intervals[intervalIndex].packedFrameOffset)
      requires |file| == packedFrame * frameBytes && |span.bytes| == frames * frameBytes && |span.bytes| <= MAX_SPAN_BYTES
      requires |span.bytes| / frameBytes == frames && |span.bytes| % frameBytes == 0
      ensures AdmitsAll(Stored([], []), emitted + [span], manifest.shape.frames, frameBytes)
      ensures AppendAll(Stored([], []), emitted + [span], frameBytes)
           == Stored(StoredIntervals(manifest.intervals, intervalIndex, packedFrame + frames, frameBytes), file + span.bytes)
    {
      SpanContinues(manifest.intervals, intervalIndex, packedFrame, packedFrame + frames, file, span.bytes,
                    manifest.shape.frames, frameBytes);
      RunSnoc(Stored([], []), emitted, span, manifest.shape.frames, frameBytes);
    }

    /**
     One pull: maps what is left of the current block, else takes the next block, else closes the
     chunk and opens the next one, else ends. It fails for what goes wrong around it, or for a decode that does not match.
     */
    method NextSpan(p: Trouble) returns (r: Result<Option<Span>, MapError>)
      requires Valid()
      modifies this
      ensures r.Ok? && r.value.Some? ==> Valid() && !done && emitted == old(emitted) + [r.value.value]
      ensures r.Ok? && r.value.Some? ==> packedFrame > old(packedFrame)
      ensures r == Ok(None) ==> Valid() && done && emitted == old(emitted)
      ensures r.Err? ==> if FromOutside(r.error) then !Smooth(p) else !DecodeMatches(manifest, decoded, frameBytes)
    {
      if done {
        return Ok(None);
      }
      var filled := Fill(p);
      if filled.Failed? {
        return Err(filled.error);
      }
      if filled.Ended? {
        return Ok(None);
      }
      var span := MapNextBlock();
      return if span.Ok? then Ok(Some(span.value)) else Err(span.error);
    }

    /** Until there is a block with frames left, or the end. */
    method Fill(p: Trouble) returns (r: Refilled)
      requires Valid() && !done
      modifies this`currentBlock, this`reader, this`chunkIndex, this`chunkFrames, this`done
      ensures r.More? ==> Valid() && !done && currentBlock.Some? && currentBlock.value.offsetFrames < currentBlock.value.frames
      ensures r.Ended? ==> Valid() && done
      ensures r.Failed? ==> if FromOutside(r.error) then !Smooth(p) else !DecodeMatches(manifest, decoded, frameBytes)
    {
      while true
        invariant Valid() && !done
        decreases |decoded| - chunkIndex, reader.None?, if reader.Some? then |decoded[chunkIndex]| - reader.value else 0
      {
        if currentBlock.Some? && currentBlock.value.offsetFrames >= currentBlock.value.frames {
          ReleaseBlock();
        }
        if currentBlock.Some? {
          return More;
        }
        r := Refill(p);
        if !r.More? {
          return;
        }
      }
    }

    /** Without a current block: the next block, the end of the chunk, the next chunk, or the end. */
    method Refill(p: Trouble) returns (r: Refilled)
      requires Admitted() && StreamValid() && Checked() && !done && currentBlock.None?
      modifies this`currentBlock, this`reader, this`chunkIndex, this`chunkFrames, this`done
      ensures r.More? ==> StreamValid() && Checked() && !done
      ensures r.More? ==>
        || chunkIndex == old(chunkIndex) + 1
        || (chunkIndex == old(chunkIndex) && old(reader).None? && reader.Some?)
        || (chunkIndex == old(chunkIndex) && old(reader).Some? && reader == Some(old(reader).value + 1))
      ensures r.Ended? ==> StreamValid() && Checked() && done && packedFrame == PackedFrames(manifest)
      ensures r.Failed? ==> if FromOutside(r.error) then !Smooth(p) else !DecodeMatches(manifest, decoded, frameBytes)
    {
      if reader.Some? {
        if p.decodeFails {
          return Failed(DecodeFailed);
        }
        if reader.value < |decoded[chunkIndex]| {
          var bytes := decoded[chunkIndex][reader.value];
          if !BlockShape(bytes, frameBytes) {
            assert !ChunkMatches(manifest, decoded, chunkIndex, frameBytes);
            return Failed(BlockRejected);
          }
          TakeBlock(bytes, |bytes| / frameBytes);
        } else {
          var complete := CloseChunk();
          if !complete {
            return Failed(ChunkNotCovered);
          }
        }
      } else if chunkIndex >= |manifest.chunks| {
        if packedFrame != PackedFrames(manifest) {
          EndpointMismatch();
          return Failed(EndpointChanged);
        }
        if p.trailing {
          return Failed(TrailingBytes);
        }
        if p.cancelled {
          return Failed(PullCancelled);
        }
        done := true;
        return Ended;
      } else {
        if p.misplaced {
          return Failed(Misplaced);
        }
        if p.refused {
          return Failed(ChunkRefused);
        }
        OpenChunk();
      }
      return More;
    }

    /** Pulls to the end: unless something goes wrong around it, it succeeds exactly for a decode that matches the manifest, however it was cut. */
    method Drain(troubles: nat -> Trouble) returns (r: Result<seq<Span>, MapError>)
      requires Valid() && !done && emitted == []
      modifies this
      ensures r.Ok? || !FromOutside(r.error) ==> (r.Ok? <==> DecodeMatches(manifest, decoded, frameBytes))
      ensures (forall i :: Smooth(troubles(i))) ==> r.Ok? || !FromOutside(r.error)
      ensures r.Ok? ==>
        && AdmitsAll(Stored([], []), r.value, manifest.shape.frames, frameBytes)
        && AppendAll(Stored([], []), r.value, frameBytes)
             == Stored(IndexedUpTo(manifest.intervals, |manifest.intervals|, frameBytes), ConcatAllFrom(decoded, 0))
    {
      var spans: seq<Span> := [];
      var pulls: nat := 0;
      while true
        invariant Valid() && emitted == spans
        decreases |ConcatAllFrom(decoded, 0)| - packedFrame
      {
        var span := NextSpan(troubles(pulls));
        if span.Err? {
          return Err(span.error);
        }
        pulls := pulls + 1;
        if span.value.None? {
          Drained();
          return Ok(spans);
        }
        PackedWithin();
        spans := spans + [span.value.value];
      }
    }

    lemma {:induction false} PackedWithin()
      requires StreamValid()
      ensures packedFrame <= |ConcatAllFrom(decoded, 0)|
    {
      MulMono(1, frameBytes, packedFrame);
    }

    lemma Drained()
      requires Valid() && done
      ensures DecodeMatches(manifest, decoded, frameBytes)
      ensures file == ConcatAllFrom(decoded, 0)
      ensures StoredIntervals(manifest.intervals, intervalIndex, packedFrame, frameBytes)
           == IndexedUpTo(manifest.intervals, |manifest.intervals|, frameBytes)
    {
      assert ChunkRest() == [];
      assert file + [] == file;
      StoredAtEnd(manifest, intervalIndex, frameBytes);
    }

    lemma EndpointMismatch()
      requires Admitted() && StreamValid() && reader.None? && chunkIndex == |decoded| && packedFrame != PackedFrames(manifest)
      ensures !DecodeMatches(manifest, decoded, frameBytes)
    {
      if DecodeMatches(manifest, decoded, frameBytes) {
        RestMeansFrames();
        MulCancel(packedFrame, PackedFrames(manifest), frameBytes);
      }
    }

    /** The block has been handed out to its last frame. */
    method ReleaseBlock()
      requires StreamValid() && currentBlock.Some? && currentBlock.value.offsetFrames >= currentBlock.value.frames
      modifies this`currentBlock
      ensures StreamValid() && currentBlock.None?
    {
      assert currentBlock.value.bytes[currentBlock.value.offsetFrames * frameBytes..] == [];
      currentBlock := None;
    }

    /** A well-shaped decoder block becomes the current block, at the current packed frame. */
    method TakeBlock(bytes: seq<Byte>, frames: int)
      requires StreamValid() && !done && currentBlock.None? && reader.Some? && reader.value < |decoded[chunkIndex]|
      requires bytes == decoded[chunkIndex][reader.value]
      requires 1 <= frames && |bytes| == frames * frameBytes
      modifies this`currentBlock, this`reader
      ensures StreamValid() && currentBlock.Some? && reader == Some(old(reader).value + 1)
    {
      ghost var rest := ChunkRest();
      currentBlock := Some(Block(bytes, packedFrame, frames, 0));
      reader := Some(reader.value + 1);
      assert 0 * frameBytes == 0 && bytes[0..] == bytes;
      assert ChunkRest() == rest;
    }

    /** The reader is exhausted: the chunk counts only when exactly its declared frames were mapped. */
    method CloseChunk() returns (complete: bool)
      requires StreamValid() && Checked() && !done && currentBlock.None?
      requires reader.Some? && reader.value == |decoded[chunkIndex]|
      modifies this`reader, this`chunkIndex, this`chunkFrames
      ensures complete ==> StreamValid() && Checked() && reader.None? && chunkIndex == old(chunkIndex) + 1
      ensures !complete ==> !DecodeMatches(manifest, decoded, frameBytes)
    {
      assert ChunkRest() == [];
      MulCancel(chunkFrames, manifest.chunks[chunkIndex].frames, frameBytes);
      if chunkFrames != manifest.chunks[chunkIndex].frames {
        assert !ChunkMatches(manifest, decoded, chunkIndex, frameBytes);
        return false;
      }
      assert ChunkMatches(manifest, decoded, chunkIndex, frameBytes);
      reader := None;
      chunkIndex := chunkIndex + 1;
      chunkFrames := 0;
      return true;
    }

    method OpenChunk()
      requires StreamValid() && !done && reader.None? && chunkIndex < |decoded|
      modifies this`reader, this`chunkFrames
      ensures StreamValid() && reader == Some(0)
    {
      reader := Some(0);
      chunkFrames := 0;
    }

    /** Moves the cursor over the frames just mapped. */
    method MoveOn(block: Block, frames: int, bytes: seq<Byte>)
      requires StreamValid() && !done && currentBlock == Some(block) && reader.Some?
      requires 1 <= frames && block.offsetFrames + frames <= block.frames
      requires 0 <= block.offsetFrames * frameBytes
      requires block.offsetFrames * frameBytes + frames * frameBytes == (block.offsetFrames + frames) * frameBytes <= |block.bytes|
      requires bytes == block.bytes[block.offsetFrames * frameBytes..(block.offsetFrames + frames) * frameBytes]
      modifies this`packedFrame, this`chunkFrames, this`currentBlock, this`file
      ensures StreamValid() && currentBlock.Some? && packedFrame == old(packedFrame) + frames && file == old(file) + bytes
    {
      var o, e := block.offsetFrames * frameBytes, (block.offsetFrames + frames) * frameBytes;
      ghost var tail := ConcatFrom(decoded[chunkIndex], reader.value);
      ghost var later := ConcatAllFrom(decoded, NextChunk());
      ghost var rest := ChunkRest();
      assert block.bytes[o..] == bytes + block.bytes[e..];
      assert rest == bytes + (block.bytes[e..] + tail);
      Reassociate(file, bytes, (block.bytes[e..] + tail) + later);
      Reassociate(bytes, block.bytes[e..] + tail, later);
      MulSum(packedFrame, frames, frameBytes);
      MulSum(chunkFrames, frames, frameBytes);
      packedFrame := packedFrame + frames;
      chunkFrames := chunkFrames + frames;
      file := file + bytes;
      currentBlock := Some(block.(offsetFrames := packedFrame - block.startPackedFrame));
    }
  }

  /** At the packed endpoint every interval is complete. */
  lemma StoredAtEnd(m: Manifest, k: int, fb: int)
    requires WellFormed(m) && Positioned(m.intervals, k, PackedFrames(m))
    ensures StoredIntervals(m.intervals, k, PackedFrames(m), fb) == IndexedUpTo(m.intervals, |m.intervals|, fb)
  {
    var n := |m.intervals|;
    if k < n {
      assert IntervalPlaced(m.intervals, k, m.shape.frames);
      PackedGrows(m.intervals, k + 1, n, m.shape.frames);
      StoredAtBoundary(m.intervals, k, fb, m.shape.frames);
    }
  }

  /** Packed positions strictly increase, so the endpoint belongs to the last interval. */
  lemma {:induction false} PackedGrows(ivs: seq<StemInterval>, j: int, k: int, frames: int)
    requires forall i :: 0 <= i < |ivs| ==> IntervalPlaced(ivs, i, frames)
    requires 0 <= j <= k <= |ivs|
    ensures PackedBefore(ivs, j) <= PackedBefore(ivs, k)
    ensures PackedBefore(ivs, j) == PackedBefore(ivs, k) ==> j == k
    decreases k
  {
    if j < k {
      assert IntervalPlaced(ivs, k - 1, frames);
      PackedGrows(ivs, j, k - 1, frames);
    }
  }

  predicate Covers(ivs: seq<StemInterval>, k: int, packedFrame: int) {
    0 <= k < |ivs| && ivs[k].packedFrameOffset <= packedFrame < ivs[k].packedFrameOffset + ivs[k].frames
  }

  lemma NotCovered(m: Manifest, k: int, packedFrame: int)
    requires WellFormed(m) && Positioned(m.intervals, k, packedFrame) && !Covers(m.intervals, k, packedFrame)
    requires k < |m.intervals| ==> packedFrame < PackedBefore(m.intervals, k + 1)
    ensures packedFrame == PackedFrames(m)
  {
    assert k < |m.intervals| ==> IntervalPlaced(m.intervals, k, m.shape.frames);
  }

  /** A span is whole frames, at most 128 KiB, inside its block. */
  lemma {:induction false} SpanBounds(block: Block, frames: int, fb: int, startByte: int)
    requires 0 < fb <= MAX_SPAN_BYTES && 0 <= block.offsetFrames && |block.bytes| == block.frames * fb
    requires 1 <= frames <= Max(1, MAX_SPAN_BYTES / fb) && block.offsetFrames + frames <= block.frames
    requires startByte == block.offsetFrames * fb
    ensures 0 <= startByte && startByte + frames * fb == (block.offsetFrames + frames) * fb <= |block.bytes|
    ensures 0 < frames * fb <= MAX_SPAN_BYTES
    ensures frames * fb / fb == frames && frames * fb % fb == 0
  {
    MulSum(block.offsetFrames, frames, fb);
    MulMono(block.offsetFrames + frames, block.frames, fb);
    MulMono(0, block.offsetFrames, fb);
    MulMono(1, frames, fb);
    MulMono(frames, MAX_SPAN_BYTES / fb, fb);
    DivMulExact(frames, fb);
  }

  lemma FirstPosition(m: Manifest)
    requires WellFormed(m)
    ensures Positioned(m.intervals, 0, 0)
    ensures StoredIntervals(m.intervals, 0, 0, ShapeFrameBytes(m.shape)) == []
  {
    if 0 < |m.intervals| {
      assert IntervalPlaced(m.intervals, 0, m.shape.frames);
    }
  }
}
