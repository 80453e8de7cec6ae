/**
 Ingest of sparse spans: coalescing them into an index and a packed file while feeding an
 incremental hash with the zero gaps between them (src/stems/sparse-store.ts,
 ingestAndCommit / processSpan / hashZeros).
 */
module SparseIngest {
  import opened Common
  import opened CanonicalJson
  import opened StemShape
  import opened DensePcm
  import opened SparsePcm
  import opened SparseMarker

  const MAX_SPAN_BYTES := 128 * 1024
  const ZERO_BLOCK_BYTES := 64 * 1024

  datatype Span = Span(startFrame: int, bytes: seq<Byte>)

  /** What has been stored: the intervals so far and the packed file behind them. */
  datatype Stored = Stored(intervals: seq<Interval>, file: seq<Byte>)

  datatype StoreError = Cancelled | Boundary | Corrupt | Quota | Io

  // ---------------------------------------------------------------- specification

  predicate SpanFits(span: Span, previousEnd: int, frames: int, fb: int)
    requires 0 < fb
  {
    && SafeInt(span.startFrame, 0)
    && previousEnd <= span.startFrame
    && 0 < |span.bytes| <= MAX_SPAN_BYTES
    && |span.bytes| % fb == 0
    && span.startFrame + |span.bytes| / fb <= frames
  }

  function Append(s: Stored, span: Span, fb: int): Stored
    requires 0 < fb
  {
    Stored(Coalesce(s.intervals, span.startFrame, |span.bytes| / fb, |s.file|), s.file + span.bytes)
  }

  predicate Admits(s: Stored, span: Span, frames: int, fb: int)
    requires 0 < fb
  {
    && SpanFits(span, End(s.intervals), frames, fb)
    && (Adjacent(s.intervals, span.startFrame) || |s.intervals| < MAX_INTERVALS)
  }

  predicate ValidStored(s: Stored, frames: int, fb: int) {
    && 0 < fb
    && ValidIntervals(s.intervals, frames, fb)
    && |s.intervals| <= MAX_INTERVALS
    && ActiveBytes(s.intervals, fb) == |s.file|
  }

  /** Appending an admitted span keeps the index valid, coalesced and in step with the file. */
  lemma AppendValid(s: Stored, span: Span, frames: int, fb: int)
    requires ValidStored(s, frames, fb) && Admits(s, span, frames, fb)
    ensures ValidStored(Append(s, span, fb), frames, fb)
    ensures End(Append(s, span, fb).intervals) == span.startFrame + |span.bytes| / fb
  {
    var n := |span.bytes| / fb;
    assert |span.bytes| == n * fb;
    assert 1 <= n;
    CoalesceKeeps(s.intervals, span.startFrame, n, fb);
  }

  /** The packed file grows only at its end, so the bytes already covered stay what they were. */
  lemma {:induction false} CoveredGrows(ivs: seq<Interval>, packed: seq<Byte>, more: seq<Byte>, fb: int)
    requires Laid(ivs, fb) && 0 < fb && ActiveBytes(ivs, fb) <= |packed|
    ensures Covered(ivs, packed + more, fb) == Covered(ivs, packed, fb)
  {
    if ivs != [] {
      var n := |ivs| - 1;
      LaidPrefix(ivs, n, fb);
      LaidMonotone(ivs, n, |ivs|, fb);
      IntervalBounds(ivs, n, fb);
      CoveredGrows(ivs[..n], packed, more, fb);
      var o, e := ivs[n].byteOffset, ivs[n].byteOffset + ivs[n].frames * fb;
      assert (packed + more)[o..e] == packed[o..e];
    }
  }

  /** Dense bytes after a span: the old ones, the gap as zeros, then the span. */
  lemma CoveredAppend(s: Stored, span: Span, frames: int, fb: int, gap: nat)
    requires ValidStored(s, frames, fb) && Admits(s, span, frames, fb)
    requires gap == (span.startFrame - End(s.intervals)) * fb
    ensures ValidStored(Append(s, span, fb), frames, fb)
    ensures End(Append(s, span, fb).intervals) == span.startFrame + |span.bytes| / fb
    ensures Covered(Append(s, span, fb).intervals, Append(s, span, fb).file, fb)
         == Covered(s.intervals, s.file, fb) + Zeros(gap) + span.bytes
  {
    AppendValid(s, span, frames, fb);
    if Adjacent(s.intervals, span.startFrame) {
      CoveredLengthen(s, span, frames, fb);
      assert Covered(s.intervals, s.file, fb) + Zeros(0) == Covered(s.intervals, s.file, fb);
    } else {
      CoveredOpen(s, span, frames, fb, gap);
    }
  }

  lemma {:induction false} CoveredOpen(s: Stored, span: Span, frames: int, fb: int, gap: nat)
    requires ValidStored(s, frames, fb) && Admits(s, span, frames, fb) && !Adjacent(s.intervals, span.startFrame)
    requires ValidStored(Append(s, span, fb), frames, fb)
    requires gap == (span.startFrame - End(s.intervals)) * fb
    ensures Covered(Append(s, span, fb).intervals, Append(s, span, fb).file, fb)
         == Covered(s.intervals, s.file, fb) + Zeros(gap) + span.bytes
  {
    var t, k, n := Append(s, span, fb), |s.intervals|, |span.bytes| / fb;
    assert |span.bytes| == n * fb;
    assert t.intervals[..k] == s.intervals;
    CoveredGrows(s.intervals, s.file, span.bytes, fb);
    assert t.file[|s.file|..|s.file| + n * fb] == span.bytes;
  }

  lemma {:induction false} CoveredLengthen(s: Stored, span: Span, frames: int, fb: int)
    requires ValidStored(s, frames, fb) && Admits(s, span, frames, fb) && Adjacent(s.intervals, span.startFrame)
    requires ValidStored(Append(s, span, fb), frames, fb)
    ensures Covered(Append(s, span, fb).intervals, Append(s, span, fb).file, fb)
         == Covered(s.intervals, s.file, fb) + span.bytes
  {
    var t, k, n := Append(s, span, fb), |s.intervals| - 1, |span.bytes| / fb;
    var last := s.intervals[k];
    assert |span.bytes| == n * fb;
    assert t.intervals[..k] == s.intervals[..k];
    LaidPrefix(s.intervals, k, fb);
    LaidMonotone(s.intervals, k, k + 1, fb);
    IntervalBounds(s.intervals, k, fb);
    CoveredGrows(s.intervals[..k], s.file, span.bytes, fb);
    MulSum(last.frames, n, fb);
    assert PrevEnd(t.intervals, k) == End(s.intervals[..k]);
    SliceGrows(s.file, last.byteOffset, span.bytes);
  }

  /** Appended to a file, bytes extend what reached its end. */
  lemma SliceGrows(file: seq<Byte>, o: int, more: seq<Byte>)
    requires 0 <= o <= |file|
    ensures (file + more)[o..|file| + |more|] == file[o..|file|] + more
  {
  }

  lemma ListCharsSnoc(ivs: seq<Interval>, iv: Interval)
    ensures IntervalListChars(ivs + [iv]) == IntervalListChars(ivs) + IntervalChars(iv) + (if ivs == [] then 0 else 1)
  {
    IntervalCharsSnoc(ivs, iv);
  }

  /** The running size of the encoded intervals when the last one is lengthened. */
  lemma LengthenChars(ivs: seq<Interval>, added: Interval)
    requires ivs != []
    ensures IntervalListChars(ivs[..|ivs| - 1] + [added])
         == IntervalListChars(ivs) + IntervalChars(added) - IntervalChars(ivs[|ivs| - 1])
  {
    var init, last := ivs[..|ivs| - 1], ivs[|ivs| - 1];
    assert ivs == init + [last];
    ListCharsSnoc(init, last);
    ListCharsSnoc(init, added);
  }

  // ---------------------------------------------------------------- the transaction

  /** What the surroundings do to one processSpan: cancellation, storage quota, the physical write. */
  datatype Weather = Weather(cancelled: bool, cancelZerosAfter: Option<nat>, quotaOk: bool, writeOk: bool, torn: nat)

  /** IncrementalBlake3, as the concatenation of its updates. */
  class Hasher {
    var fed: seq<Byte>

    constructor ()
      ensures fed == []
    {
      fed := [];
    }

    method Update(bytes: seq<Byte>)
      modifies this
      ensures fed == old(fed) + bytes
    {
      fed := fed + bytes;
    }
  }

  predicate GapCancelled(cancelAfter: Option<nat>, bytes: int) {
    cancelAfter.Some? && cancelAfter.value * ZERO_BLOCK_BYTES < bytes
  }

  /** Feeds a gap to the hash in 64 KiB blocks; a cancelled gap has fed a shorter run of zeros. */
  method HashZeros(hash: Hasher, bytes: int, base: int, cancelAfter: Option<nat>) returns (r: Option<StoreError>)
    modifies hash
    ensures r == (
      if !(SafeInt(bytes, 0) && SafeInt(base, 0) && base + bytes <= MAX_SAFE) then Some(Corrupt)
      else if GapCancelled(cancelAfter, bytes) then Some(Cancelled)
      else None)
    ensures r.None? ==> bytes >= 0 && hash.fed == old(hash.fed) + Zeros(bytes)
    ensures r == Some(Corrupt) ==> hash.fed == old(hash.fed)
    ensures r == Some(Cancelled) ==> hash.fed == old(hash.fed) + Zeros(cancelAfter.value * ZERO_BLOCK_BYTES)
  {
    if !SafeInt(bytes, 0) || !SafeInt(base, 0) || base + bytes > MAX_SAFE {
      return Some(Corrupt);
    }
    var offset := 0;
    var blocks := 0;
    while offset < bytes
      invariant 0 <= offset && 0 <= blocks
      invariant offset == blocks * ZERO_BLOCK_BYTES
      invariant GapCancelled(cancelAfter, bytes) ==> blocks <= cancelAfter.value
      invariant hash.fed == old(hash.fed) + Zeros(Min(offset, bytes))
      decreases bytes - offset
    {
      if cancelAfter == Some(blocks) {
        return Some(Cancelled);
      }
      var count := Min(ZERO_BLOCK_BYTES, bytes - offset);
      ZerosConcat(offset, count);
      hash.Update(Zeros(count));
      offset := offset + ZERO_BLOCK_BYTES;
      blocks := blocks + 1;
    }
    return None;
  }

  /** The index the store would write for what it holds. */
  function IndexOf(shape: Shape, ivs: seq<Interval>): Index {
    Index(shape, ivs, ActiveBytes(ivs, ShapeFrameBytes(shape)), CanonicalBytes(shape))
  }

  /** The marker size check: it cannot fail for an admitted span. */
  method ExceedsMarkerBound(
    shape: Shape, generation: FilePart, activeBytes: int, intervalBytes: int, ghost next: Stored) returns (over: bool)
    requires ValidShape(shape) && ValidStored(next, shape.frames, ShapeFrameBytes(shape))
    requires activeBytes == |next.file| && intervalBytes == IntervalListChars(next.intervals)
    ensures !over
  {
    var name := PayloadName(shape, generation);
    ProspectiveExact(shape, generation, name, next.intervals, activeBytes);
    MarkerBoundUnreachable(IndexOf(shape, next.intervals), generation);
    var prospective := ProspectiveMarkerBytes(shape, generation, name, activeBytes, intervalBytes);
    over := prospective > MAX_MARKER_BYTES;
  }

  /** The gap before an admitted span is safe to hash. */
  lemma GapSafe(ivs: seq<Interval>, startFrame: int, frames: int, fb: int)
    requires Laid(ivs, fb) && 0 < fb && End(ivs) <= startFrame <= frames && frames * fb <= MAX_SAFE
    ensures SafeInt((startFrame - End(ivs)) * fb, 0) && SafeInt(End(ivs) * fb, 0)
    ensures End(ivs) * fb + (startFrame - End(ivs)) * fb == startFrame * fb <= MAX_SAFE
  {
    LaidMonotone(ivs, 0, |ivs|, fb);
    MulMono(0, End(ivs), fb);
    MulMono(0, startFrame - End(ivs), fb);
    MulSum(startFrame, End(ivs), fb);
    MulMono(startFrame, frames, fb);
  }

  /** How processSpan ends: the first check that fails, in the order the checks are made. */
  function Outcome(w: Weather, admitted: bool, gapBytes: int): Option<StoreError> {
    if w.cancelled then Some(Cancelled)
    else if !admitted then Some(Boundary)
    else if GapCancelled(w.cancelZerosAfter, gapBytes) then Some(Cancelled)
    else if !w.quotaOk then Some(Quota)
    else if !w.writeOk then Some(Io)
    else None
  }

  /** compareIndexes */
  predicate SameIndex(a: Index, b: Index) {
    a.activeBytes == b.activeBytes && a.canonicalBytes == b.canonicalBytes && a.intervals == b.intervals
  }

  /** How the transaction judges the whole source. */
  function Verdict(cancelled: bool, asserted: Option<Index>, derived: Index, identical: bool): Result<Index, StoreError> {
    if cancelled then Err(Cancelled)
    else if asserted.Some? && !SameIndex(asserted.value, derived) then Err(Corrupt)
    else if !identical then Err(Corrupt)
    else Ok(derived)
  }

  class Ingest {
    const shape: Shape
    const generation: FilePart
    const frameBytes: int
    const hash: Hasher
    var intervals: seq<Interval>
    var previousEnd: int
    var activeBytes: int
    var intervalBytes: int
    /** What the data writer has received. */
    var file: seq<Byte>

    ghost function Abstract(): Stored
      reads this
    {
      Stored(intervals, file)
    }

    /** Index, file, hash and size accounting agree. */
    ghost predicate Valid()
      reads this, hash
    {
      && ValidShape(shape) && frameBytes == ShapeFrameBytes(shape)
      && ValidStored(Abstract(), shape.frames, frameBytes)
      && previousEnd == End(intervals)
      && activeBytes == |file|
      && intervalBytes == IntervalListChars(intervals)
      && hash.fed == Covered(intervals, file, frameBytes)
    }

    constructor (shape: Shape, generation: FilePart)
      requires ValidShape(shape)
      ensures Valid() && fresh(hash)
      ensures this.shape == shape && this.generation == generation
      ensures Abstract() == Stored([], [])
    {
      this.shape := shape;
      this.generation := generation;
      frameBytes := ShapeFrameBytes(shape);
      hash := new Hasher();
      intervals, previousEnd, activeBytes, intervalBytes, file := [], 0, 0, 0, [];
    }

    /** The size check made before each write is the exact length of the marker that would be written. */
    lemma AccountingExact()
      requires Valid()
      ensures ProspectiveMarkerBytes(shape, generation, PayloadName(shape, generation), activeBytes, intervalBytes)
           == MarkerBytes(Marker(IndexOf(shape, intervals), PayloadName(shape, generation), generation))
    {
      ProspectiveExact(shape, generation, PayloadName(shape, generation), intervals, activeBytes);
    }

    method ProcessSpan(span: Span, w: Weather) returns (r: Option<StoreError>)
      requires Valid()
      modifies this, hash
      ensures r == Outcome(w, Admits(old(Abstract()), span, shape.frames, frameBytes),
                           (span.startFrame - old(previousEnd)) * frameBytes)
      ensures r.None? ==> Valid() && Abstract() == Append(old(Abstract()), span, frameBytes)
      ensures r.Some? ==>
        intervals == old(intervals) && previousEnd == old(previousEnd) && activeBytes == old(activeBytes)
      ensures r.Some? ==> file == if r.value == Io then old(file) + span.bytes[..Min(w.torn, |span.bytes|)] else old(file)
    {
      if w.cancelled {
        return Some(Cancelled);
      }
      ghost var was := Abstract();
      var gap, base := (span.startFrame - previousEnd) * frameBytes, previousEnd * frameBytes;
      if Admits(was, span, shape.frames, frameBytes) {
        SpanAdds(span, was, Append(was, span, frameBytes), gap, base);
      }
      var rejected := CheckSpan(span);
      if rejected {
        return Some(Boundary);
      }
      ghost var next := Append(was, span, frameBytes);
      var cancelled := FeedSpan(span.bytes, gap, base, w.cancelZerosAfter);
      if cancelled {
        return Some(Cancelled);
      }
      if !w.quotaOk {
        return Some(Quota);
      }
      if !w.writeOk {
        file := file + span.bytes[..Min(w.torn, |span.bytes|)];
        return Some(Io);
      }
      StoreSpan(span, |span.bytes| / frameBytes, next);
      return None;
    }

    /** Hashes the gap before the span, then the span. */
    method FeedSpan(bytes: seq<Byte>, gap: int, base: int, cancelAfter: Option<nat>) returns (cancelled: bool)
      requires SafeInt(gap, 0) && SafeInt(base, 0) && base + gap <= MAX_SAFE
      modifies hash
      ensures cancelled <==> GapCancelled(cancelAfter, gap)
      ensures !cancelled ==> hash.fed == old(hash.fed) + Zeros(gap) + bytes
    {
      var zeros := HashZeros(hash, gap, base, cancelAfter);
      if zeros.Some? {
        return true;
      }
      hash.Update(bytes);
      return false;
    }

    /** What an admitted span leaves: a valid index, a safe gap, and the dense bytes it adds. */
    lemma {:induction false} SpanAdds(span: Span, was: Stored, next: Stored, gap: int, base: int)
      requires Valid() && was == Abstract() && Admits(was, span, shape.frames, frameBytes)
      requires next == Append(was, span, frameBytes)
      requires gap == (span.startFrame - previousEnd) * frameBytes && base == previousEnd * frameBytes
      ensures SafeInt(gap, 0) && SafeInt(base, 0) && base + gap <= MAX_SAFE
      ensures ValidStored(next, shape.frames, frameBytes)
      ensures End(next.intervals) == span.startFrame + |span.bytes| / frameBytes
      ensures Covered(next.intervals, next.file, frameBytes) == hash.fed + Zeros(gap) + span.bytes
    {
      GapSafe(was.intervals, span.startFrame, shape.frames, frameBytes);
      CoveredAppend(was, span, shape.frames, frameBytes, gap);
    }

    /** Everything that can reject a span, with the size accounting it makes on the way. */
    method CheckSpan(span: Span) returns (rejected: bool)
      requires Valid()
      modifies this`intervalBytes
      ensures rejected <==> !Admits(Abstract(), span, shape.frames, frameBytes)
      ensures !rejected ==>
        intervalBytes == IntervalListChars(Coalesce(intervals, span.startFrame, |span.bytes| / frameBytes, activeBytes))
    {
      if !SpanFits(span, previousEnd, shape.frames, frameBytes) {
        return true;
      }
      var full := AccountInterval(span.startFrame, |span.bytes| / frameBytes);
      if full {
        return true;
      }
      ghost var next := Append(Abstract(), span, frameBytes);
      AppendValid(Abstract(), span, shape.frames, frameBytes);
      var over := ExceedsMarkerBound(shape, generation, activeBytes + |span.bytes|, intervalBytes, next);
      return over;
    }

    /** The write succeeded: file, index and totals move on together. */
    method StoreSpan(span: Span, spanFrames: int, ghost next: Stored)
      requires ValidShape(shape) && frameBytes == ShapeFrameBytes(shape)
      requires next == Stored(Coalesce(intervals, span.startFrame, spanFrames, activeBytes), file + span.bytes)
      requires ValidStored(next, shape.frames, frameBytes) && End(next.intervals) == span.startFrame + spanFrames
      requires activeBytes == |file| && intervalBytes == IntervalListChars(next.intervals)
      requires hash.fed == Covered(next.intervals, next.file, frameBytes)
      modifies this
      ensures Valid() && Abstract() == next
    {
      file := file + span.bytes;
      RecordInterval(span.startFrame, spanFrames);
      activeBytes := activeBytes + |span.bytes|;
      previousEnd := span.startFrame + spanFrames;
      assert intervals == next.intervals && file == next.file;
    }

    /** Charges the encoded size of the interval a span would open or lengthen. */
    method AccountInterval(startFrame: int, spanFrames: int) returns (full: bool)
      requires intervalBytes == IntervalListChars(intervals)
      modifies this`intervalBytes
      ensures full <==> !Adjacent(intervals, startFrame) && |intervals| >= MAX_INTERVALS
      ensures !full ==> intervalBytes == IntervalListChars(Coalesce(intervals, startFrame, spanFrames, activeBytes))
    {
      if !Adjacent(intervals, startFrame) {
        if |intervals| >= MAX_INTERVALS {
          return true;
        }
        var added := Interval(startFrame, spanFrames, activeBytes);
        ListCharsSnoc(intervals, added);
        intervalBytes := intervalBytes + IntervalChars(added) + (if |intervals| == 0 then 0 else 1);
      } else {
        var prior := intervals[|intervals| - 1];
        var longer := Interval(prior.startFrame, prior.frames + spanFrames, prior.byteOffset);
        LengthenChars(intervals, longer);
        intervalBytes := intervalBytes + IntervalChars(longer) - IntervalChars(prior);
      }
      return false;
    }

    /** Lengthens the last interval or pushes a new one. */
    method RecordInterval(startFrame: int, spanFrames: int)
      modifies this`intervals
      ensures intervals == Coalesce(old(intervals), startFrame, spanFrames, activeBytes)
    {
      if Adjacent(intervals, startFrame) {
        var prior := intervals[|intervals| - 1];
        intervals := intervals[..|intervals| - 1]
          + [Interval(prior.startFrame, prior.frames + spanFrames, prior.byteOffset)];
      } else {
        intervals := intervals + [Interval(startFrame, spanFrames, activeBytes)];
      }
    }

    /**
     End of the span stream: trailing silence, index validation, comparison with an asserted
     index, and the identity of the whole dense source.
     */
    method Finish(asserted: Option<Index>, blake3: seq<Byte> -> string, cancelZerosAfter: Option<nat>)
      returns (r: Result<Index, StoreError>)
      requires Valid()
      modifies hash
      ensures r == Verdict(
        GapCancelled(cancelZerosAfter, (shape.frames - previousEnd) * frameBytes),
        asserted, IndexOf(shape, intervals),
        blake3(Dense(intervals, file, shape.frames, frameBytes)) == shape.identity[7..])
      ensures r.Ok? ==> ValidIndex(r.value) && hash.fed == Dense(intervals, file, shape.frames, frameBytes)
    {
      var gap, base := (shape.frames - previousEnd) * frameBytes, previousEnd * frameBytes;
      assert SafeInt(gap, 0) && SafeInt(base, 0) && base + gap <= MAX_SAFE by {
        GapSafe(intervals, shape.frames, shape.frames, frameBytes);
      }
      var zeros := HashZeros(hash, gap, base, cancelZerosAfter);
      if zeros.Some? {
        return Err(zeros.value);
      }
      var derived := DeriveIndex();
      if asserted.Some? && !SameIndex(asserted.value, derived) {
        return Err(Corrupt);
      }
      if blake3(hash.fed) != shape.identity[7..] {
        return Err(Corrupt);
      }
      return Ok(derived);
    }

    /** The index of what was stored passes validation; the source's error branch is dead here. */
    method DeriveIndex() returns (index: Index)
      requires ValidShape(shape) && frameBytes == ShapeFrameBytes(shape)
      requires ValidStored(Abstract(), shape.frames, frameBytes) && activeBytes == |file|
      ensures index == IndexOf(shape, intervals) && ValidIndex(index)
    {
      var checked := ValidateSparsePcmIndex(
        shape, intervals, Some(activeBytes), Some(CanonicalBytes(shape)), Some(activeBytes));
      index := checked.value;
    }
  }

  // ---------------------------------------------------------------- whole runs

  /** What a run of accepted spans leaves behind. */
  function AppendAll(s: Stored, spans: seq<Span>, fb: int): Stored
    requires 0 < fb
    decreases |spans|
  {
    if spans == [] then s else AppendAll(Append(s, spans[0], fb), spans[1..], fb)
  }

  predicate AdmitsAll(s: Stored, spans: seq<Span>, frames: int, fb: int)
    requires 0 < fb
    decreases |spans|
  {
    spans != [] ==> Admits(s, spans[0], frames, fb) && AdmitsAll(Append(s, spans[0], fb), spans[1..], frames, fb)
  }

  /** Accepting one more span at the end of a run. */
  lemma {:induction false} RunSnoc(s: Stored, spans: seq<Span>, last: Span, frames: int, fb: int)
    requires 0 < fb
    ensures AppendAll(s, spans + [last], fb) == Append(AppendAll(s, spans, fb), last, fb)
    ensures AdmitsAll(s, spans + [last], frames, fb)
      <==> AdmitsAll(s, spans, frames, fb) && Admits(AppendAll(s, spans, fb), last, frames, fb)
    decreases |spans|
  {
    if spans == [] {
      assert spans + [last] == [last];
      assert [last][1..] == [];
    } else {
      assert (spans + [last])[1..] == spans[1..] + [last];
      RunSnoc(Append(s, spans[0], fb), spans[1..], last, frames, fb);
    }
  }

  /** The span bytes of a run, end to end. */
  function Payload(spans: seq<Span>): seq<Byte> {
    if spans == [] then [] else spans[0].bytes + Payload(spans[1..])
  }

  /** The dense source a run of spans describes, read off the spans alone. */
  function Timeline(from: int, spans: seq<Span>, fb: int): seq<Byte>
    requires 0 < fb
    decreases |spans|
  {
    if spans == [] then []
    else
      var gap := Zeros(Max(0, (spans[0].startFrame - from) * fb));
      gap + spans[0].bytes + Timeline(spans[0].startFrame + |spans[0].bytes| / fb, spans[1..], fb)
  }

  /** The packed file of a run is its spans end to end, accepted or not. */
  lemma {:induction false} RunFile(s: Stored, spans: seq<Span>, fb: int)
    requires 0 < fb
    ensures AppendAll(s, spans, fb).file == s.file + Payload(spans)
    decreases |spans|
  {
    if spans == [] {
      assert s.file + Payload(spans) == s.file;
    } else {
      RunFile(Append(s, spans[0], fb), spans[1..], fb);
      Reassociate(s.file, spans[0].bytes, Payload(spans[1..]));
    }
  }

  /** Accepting a run keeps the index valid, coalesced and in step with the file. */
  lemma {:induction false} RunValid(s: Stored, spans: seq<Span>, frames: int, fb: int)
    requires ValidStored(s, frames, fb) && AdmitsAll(s, spans, frames, fb)
    ensures ValidStored(AppendAll(s, spans, fb), frames, fb)
    decreases |spans|
  {
    if spans != [] {
      AppendValid(s, spans[0], frames, fb);
      RunValid(Append(s, spans[0], fb), spans[1..], frames, fb);
    }
  }

  /**
   The dense bytes an accepted run stands for are its spans laid on the timeline with silence
   between them, whatever the run was coalesced into.
   */
  lemma {:induction false} RunDense(s: Stored, spans: seq<Span>, frames: int, fb: int)
    requires ValidStored(s, frames, fb) && AdmitsAll(s, spans, frames, fb)
    ensures ValidStored(AppendAll(s, spans, fb), frames, fb)
    ensures var t := AppendAll(s, spans, fb);
            Covered(t.intervals, t.file, fb) == Covered(s.intervals, s.file, fb) + Timeline(End(s.intervals), spans, fb)
    decreases |spans|
  {
    RunValid(s, spans, frames, fb);
    if spans == [] {
      assert Covered(s.intervals, s.file, fb) + [] == Covered(s.intervals, s.file, fb);
    } else {
      var next := Append(s, spans[0], fb);
      var gap := (spans[0].startFrame - End(s.intervals)) * fb;
      MulMono(0, spans[0].startFrame - End(s.intervals), fb);
      CoveredAppend(s, spans[0], frames, fb, gap);
      RunDense(next, spans[1..], frames, fb);
      TimelineStep(End(s.intervals), spans, fb, gap);
      var old', rest := Covered(s.intervals, s.file, fb), Timeline(End(next.intervals), spans[1..], fb);
      Reassociate(old', Zeros(gap), spans[0].bytes);
      Reassociate(old', Zeros(gap) + spans[0].bytes, rest);
    }
  }

  lemma TimelineStep(from: int, spans: seq<Span>, fb: int, gap: nat)
    requires 0 < fb && spans != [] && gap == (spans[0].startFrame - from) * fb
    ensures Timeline(from, spans, fb) == (Zeros(gap) + spans[0].bytes)
      + Timeline(spans[0].startFrame + |spans[0].bytes| / fb, spans[1..], fb)
  {
  }

  lemma Reassociate(a: seq<Byte>, b: seq<Byte>, c: seq<Byte>)
    ensures (a + b) + c == a + (b + c)
  {
  }
}
