/**
 The sparse data plane end to end: a decoded package is mapped, ingested, stored and
 re-verified, and every stage agrees on one dense source.
 */
module SparseInstall {
  import opened Common
  import opened StemShape
  import opened DensePcm
  import opened SparsePcm
  import opened SparseManifest
  import opened SparseMarker
  import opened SparseIngest
  import opened SparseMapping
  import opened SparseVerify
  import Worker = SparseVerifyWorker
  import opened SparseWindow

  /** The packed PCM of a matching decode fills the manifest's intervals exactly. */
  lemma PackageLaid(m: Manifest, decoded: seq<seq<seq<Byte>>>)
    requires WellFormed(m) && |decoded| == |m.chunks| && DecodeMatches(m, decoded, ShapeFrameBytes(m.shape))
    ensures var fb := ShapeFrameBytes(m.shape);
            var ivs := IndexedUpTo(m.intervals, |m.intervals|, fb);
            && ValidIntervals(ivs, m.shape.frames, fb)
            && ActiveBytes(ivs, fb) == |ConcatAllFrom(decoded, 0)|
  {
    var fb := ShapeFrameBytes(m.shape);
    IndexedValid(m.intervals, |m.intervals|, m.shape.frames, fb);
    MatchedLength(m, decoded, fb, 0);
  }

  /** The dense source a package declares: its decoded frames at their places, silence elsewhere. */
  ghost function DeclaredSource(m: Manifest, decoded: seq<seq<seq<Byte>>>): seq<Byte>
    requires WellFormed(m) && |decoded| == |m.chunks| && DecodeMatches(m, decoded, ShapeFrameBytes(m.shape))
  {
    PackageLaid(m, decoded);
    Dense(IndexedUpTo(m.intervals, |m.intervals|, ShapeFrameBytes(m.shape)), ConcatAllFrom(decoded, 0),
          m.shape.frames, ShapeFrameBytes(m.shape))
  }

  /** The decode is complete and its dense source has the declared identity. */
  ghost predicate Declared(m: Manifest, decoded: seq<seq<seq<Byte>>>, blake3: seq<Byte> -> string)
    requires WellFormed(m) && |decoded| == |m.chunks|
  {
    && DecodeMatches(m, decoded, ShapeFrameBytes(m.shape))
    && blake3(DeclaredSource(m, decoded)) == m.shape.identity[7..]
  }

  predicate Calm(w: Weather) {
    !w.cancelled && w.cancelZerosAfter.None? && w.quotaOk && w.writeOk
  }

  datatype Installed = Installed(index: Index, file: seq<Byte>)

  /**
   Stream.runForEach(spans, processSpan) and the checks after it. Whatever the decoder's cuts and
   the surroundings' failures, ingest never rejects a mapped span; an install that succeeds holds
   exactly the declared source under the index the manifest implies; and in calm weather it
   succeeds for every complete decode whose dense bytes have the declared identity.
   */
  method Install(
    m: Manifest, decoded: seq<seq<seq<Byte>>>, generation: FilePart, blake3: seq<Byte> -> string,
    weather: nat -> Weather, troubles: nat -> Trouble) returns (r: Result<Installed, StoreError>)
    requires WellFormed(m) && |decoded| == |m.chunks|
    ensures r != Err(Boundary)
    ensures r.Ok? ==>
      && Declared(m, decoded, blake3)
      && ValidIndex(r.value.index) && r.value.index.shape == m.shape
      && r.value.index.intervals == IndexedUpTo(m.intervals, |m.intervals|, ShapeFrameBytes(m.shape))
      && r.value.file == ConcatAllFrom(decoded, 0) && |r.value.file| == r.value.index.activeBytes
    ensures Declared(m, decoded, blake3) && (forall i :: Calm(weather(i)) && Smooth(troubles(i))) ==> r.Ok?
  {
    var pull := new SparsePull(m, decoded);
    var ingest := new Ingest(m.shape, generation);
    var i := 0;
    while true
      invariant fresh(pull) && fresh(ingest) && fresh(ingest.hash) && 0 <= i
      invariant InStep(pull, ingest) && pull.manifest == m && pull.decoded == decoded
      decreases |ConcatAllFrom(decoded, 0)| - pull.packedFrame
    {
      pull.PackedWithin();
      var step := IngestNext(pull, ingest, weather(i), troubles(i));
      match step {
        case Continue =>
        case Finished => break;
        case Stopped(error) => return Err(error);
      }
      i := i + 1;
    }
    r := FinishInstall(pull, ingest, blake3, weather(i).cancelZerosAfter);
  }

  datatype Step = Continue | Finished | Stopped(error: StoreError)

  /** The mapper and the transaction have seen the same spans. */
  ghost predicate InStep(pull: SparsePull, ingest: Ingest)
    reads pull, ingest, ingest.hash
  {
    && pull.Valid() && ingest.Valid() && ingest.shape == pull.manifest.shape
    && ingest.Abstract() == AppendAll(Stored([], []), pull.emitted, pull.frameBytes)
  }

  /** Pulls one span and stores it; the only failures are an incomplete decode and the weather's. */
  method IngestNext(pull: SparsePull, ingest: Ingest, w: Weather, p: Trouble) returns (step: Step)
    requires InStep(pull, ingest)
    modifies pull, ingest, ingest.hash
    ensures step.Continue? ==> InStep(pull, ingest) && pull.packedFrame > old(pull.packedFrame)
    ensures step.Finished? ==> InStep(pull, ingest) && pull.done
    ensures step != Stopped(Boundary)
    ensures step.Stopped? && Calm(w) && Smooth(p) ==> !DecodeMatches(pull.manifest, pull.decoded, pull.frameBytes)
  {
    ghost var before := pull.emitted;
    var span := pull.NextSpan(p);
    if span.Err? {
      return Stopped(if span.error.PullCancelled? then Cancelled else if FromOutside(span.error) then Io else Corrupt);
    }
    if span.value.None? {
      return Finished;
    }
    assert Admits(ingest.Abstract(), span.value.value, ingest.shape.frames, ingest.frameBytes) by {
      RunSnoc(Stored([], []), before, span.value.value, pull.manifest.shape.frames, pull.frameBytes);
    }
    RunSnoc(Stored([], []), before, span.value.value, pull.manifest.shape.frames, pull.frameBytes);
    var failed := ingest.ProcessSpan(span.value.value, w);
    if failed.Some? {
      return Stopped(failed.value);
    }
    return Continue;
  }

  method FinishInstall(
    pull: SparsePull, ingest: Ingest, blake3: seq<Byte> -> string, cancelZerosAfter: Option<nat>)
    returns (r: Result<Installed, StoreError>)
    requires pull.Valid() && pull.done && ingest.Valid() && ingest.shape == pull.manifest.shape
    requires ingest.Abstract() == AppendAll(Stored([], []), pull.emitted, pull.frameBytes)
    modifies ingest.hash
    ensures DecodeMatches(pull.manifest, pull.decoded, pull.frameBytes)
    ensures r != Err(Boundary)
    ensures r.Ok? ==> Declared(pull.manifest, pull.decoded, blake3)
    ensures r.Ok? ==>
      && ValidIndex(r.value.index) && r.value.index.shape == pull.manifest.shape
      && r.value.index.intervals == IndexedUpTo(pull.manifest.intervals, |pull.manifest.intervals|, pull.frameBytes)
      && r.value.file == ConcatAllFrom(pull.decoded, 0) && |r.value.file| == r.value.index.activeBytes
    ensures Declared(pull.manifest, pull.decoded, blake3) && cancelZerosAfter.None? ==> r.Ok?
  {
    pull.Drained();
    var index := ingest.Finish(None, blake3, cancelZerosAfter);
    if index.Err? {
      return Err(index.error);
    }
    return Ok(Installed(index.value, ingest.file));
  }

  /**
   Whatever happened during the install, an installed source is never refused by a verifier, local or Worker, which confirms
   it unless a read or a cancellation stops it; and every window a player reads from it is the same slice of the declared source.
   */
  method InstallVerifyRead(
    m: Manifest, decoded: seq<seq<seq<Byte>>>, generation: FilePart, blake3: seq<Byte> -> string,
    weather: nat -> Weather, troubles: nat -> Trouble, w: Storage, cancelGap: nat -> Option<nat>, g: Worker.Signal, startFrame: int, frameCount: int, missing: nat)
    returns (r: Result<Installed, StoreError>, local: Option<bool>, worker: Worker.Verdict, window: Result<seq<Byte>, PcmError>)
    requires WellFormed(m) && |decoded| == |m.chunks|
    requires 0 <= startFrame && 1 <= frameCount <= MAX_WINDOW_FRAMES && startFrame + frameCount <= m.shape.frames
    ensures Declared(m, decoded, blake3) && (forall i :: Calm(weather(i)) && Smooth(troubles(i))) ==> r.Ok?
    ensures r.Ok? ==> Declared(m, decoded, blake3)
    ensures r.Ok? ==> local == if Unstopped(w, cancelGap, r.value.index) then Some(true) else None
    ensures r.Ok? ==> worker != Worker.Decided(false)
    ensures r.Ok? && missing == 0 ==> window.Ok?
    ensures r.Ok? && window.Ok? ==>
      var fb := ShapeFrameBytes(m.shape);
      && 0 <= startFrame * fb <= (startFrame + frameCount) * fb <= |DeclaredSource(m, decoded)|
      && window.value == DeclaredSource(m, decoded)[startFrame * fb..(startFrame + frameCount) * fb]
  {
    local, worker, window := None, Worker.Stopped, Err(NotAdmitted);
    r := Install(m, decoded, generation, blake3, weather, troubles);
    if r.Ok? {
      local := VerifyLocal(r.value.index, r.value.file, blake3, w, cancelGap);
      worker := Worker.VerifyOnWorker(r.value.index, r.value.file, blake3, w, g);
      window := ReadSparsePcmWindow(r.value.index, true, r.value.file, startFrame, frameCount, missing);
    }
  }
}
