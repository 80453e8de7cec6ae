/**
 Re-verification of a committed source without a Worker (src/stems/sparse-store.ts, verifyMarker), and the
 counts the host expects of a Worker (src/stems/sparse-verify-worker-protocol.ts).
 */
module SparseVerify {
  import opened Common
  import opened StemShape
  import opened DensePcm
  import opened SparsePcm
  import opened SparseIngest

  const READ_BYTES := 512 * 1024
  const ZERO_BYTES := 64 * 1024

  // ---------------------------------------------------------------- expected counts

  /** Math.ceil(bytes / size) */
  function Pieces(bytes: int, size: int): int
    requires 0 < size
  {
    (bytes + size - 1) / size
  }

  function GapBytes(ivs: seq<Interval>, k: int, fb: int): int
    requires 0 <= k < |ivs|
  {
    (ivs[k].startFrame - PrevEnd(ivs, k)) * fb
  }

  /** Blob reads for the first n intervals. */
  function ReadCalls(ivs: seq<Interval>, n: nat, fb: int): int
    requires n <= |ivs|
  {
    if n == 0 then 0 else ReadCalls(ivs, n - 1, fb) + Pieces(ivs[n - 1].frames * fb, READ_BYTES)
  }

  /** Zero updates for the gaps before the first n intervals. */
  function ZeroUpdates(ivs: seq<Interval>, n: nat, fb: int): int
    requires n <= |ivs|
  {
    if n == 0 then 0 else ZeroUpdates(ivs, n - 1, fb) + Pieces(GapBytes(ivs, n - 1, fb), ZERO_BYTES)
  }

  datatype Counts = Counts(readCalls: int, zeroUpdates: int, hashUpdates: int)

  function ExpectedCounts(ivs: seq<Interval>, frames: int, fb: int): Counts {
    var pieces := ReadCalls(ivs, |ivs|, fb);
    var zeros := ZeroUpdates(ivs, |ivs|, fb) + Pieces((frames - End(ivs)) * fb, ZERO_BYTES);
    Counts(pieces, zeros, pieces + zeros)
  }

  /** sparseVerifyExpectedCounts */
  method SparseVerifyExpectedCounts(index: Index) returns (c: Counts)
    requires ValidIndex(index)
    ensures c == ExpectedCounts(index.intervals, index.shape.frames, ShapeFrameBytes(index.shape))
  {
    var fb := ShapeFrameBytes(index.shape);
    var readCalls, zeroUpdates, previousEnd := 0, 0, 0;
    for i := 0 to |index.intervals|
      invariant previousEnd == PrevEnd(index.intervals, i)
      invariant readCalls == ReadCalls(index.intervals, i, fb)
      invariant zeroUpdates == ZeroUpdates(index.intervals, i, fb)
    {
      var interval := index.intervals[i];
      zeroUpdates := zeroUpdates + Pieces((interval.startFrame - previousEnd) * fb, ZERO_BYTES);
      readCalls := readCalls + Pieces(interval.frames * fb, READ_BYTES);
      previousEnd := interval.startFrame + interval.frames;
    }
    zeroUpdates := zeroUpdates + Pieces((index.shape.frames - previousEnd) * fb, ZERO_BYTES);
    c := Counts(readCalls, zeroUpdates, readCalls + zeroUpdates);
  }

  lemma {:induction false} PiecesBound(bytes: int, size: int)
    requires 0 < size && 0 <= bytes
    ensures 0 <= Pieces(bytes, size) <= bytes
    ensures bytes > 0 ==> 1 <= Pieces(bytes, size)
  {
    var p := Pieces(bytes, size);
    assert p * size <= bytes + size - 1 < p * size + size;
    if p > bytes {
      MulMono(bytes + 1, p, size);
      MulSum(bytes, 1, size);
      MulMono(1, size, bytes);
    }
  }

  /** Every counted update carries at least one byte, so no count leaves the safe range. */
  lemma {:induction false} CountsBounded(ivs: seq<Interval>, n: nat, fb: int)
    requires Laid(ivs, fb) && 0 < fb && n <= |ivs|
    ensures 0 <= ReadCalls(ivs, n, fb) && 0 <= ZeroUpdates(ivs, n, fb)
    ensures ReadCalls(ivs, n, fb) + ZeroUpdates(ivs, n, fb) <= PrevEnd(ivs, n) * fb
  {
    if n > 0 {
      CountsBounded(ivs, n - 1, fb);
      IntervalBounds(ivs, n - 1, fb);
      PiecesBound(ivs[n - 1].frames * fb, READ_BYTES);
      PiecesBound(GapBytes(ivs, n - 1, fb), ZERO_BYTES);
    }
  }

  lemma ExpectedCountsSafe(index: Index)
    requires ValidIndex(index)
    ensures var c := ExpectedCounts(index.intervals, index.shape.frames, ShapeFrameBytes(index.shape));
            0 <= c.readCalls && 0 <= c.zeroUpdates && c.hashUpdates <= index.canonicalBytes <= MAX_SAFE
  {
    var ivs, fb := index.intervals, ShapeFrameBytes(index.shape);
    CountsBounded(ivs, |ivs|, fb);
    MulMono(0, index.shape.frames - End(ivs), fb);
    MulSum(index.shape.frames, End(ivs), fb);
    PiecesBound((index.shape.frames - End(ivs)) * fb, ZERO_BYTES);
  }

  // ---------------------------------------------------------------- the local verifier

  /** What storage and the signal do to a verification: how many bytes a read brings too few, and which is refused or cancelled. */
  datatype Storage = Storage(missing: nat -> nat, stopsRead: nat -> bool)

  /** These reads are made and bring everything. */
  predicate Delivers(w: Storage, from: int, to: int) {
    forall n: nat | from <= n < to :: !w.stopsRead(n) && w.missing(n) == 0
  }

  lemma PiecesReached(bytes: int, size: int, n: nat)
    requires 0 < size && 0 <= bytes
    ensures n * size < bytes ==> n < Pieces(bytes, size)
    ensures bytes <= n * size < bytes + size ==> n == Pieces(bytes, size)
  {
    var p := Pieces(bytes, size);
    assert p * size <= bytes + size - 1 < p * size + size;
    if n < p {
      MulMono(n + 1, p, size);
      MulSum(n, 1, size);
    } else if p < n {
      MulMono(p + 1, n, size);
      MulSum(p, 1, size);
    }
  }

  /** One read of a non-empty range: a short one is an error. */
  method ReadPiece(hash: Hasher, range: seq<Byte>, w: Storage, n: nat) returns (ok: bool)
    requires range != []
    modifies hash
    ensures ok <==> !w.stopsRead(n) && w.missing(n) == 0
    ensures ok ==> hash.fed == old(hash.fed) + range
  {
    if w.stopsRead(n) {
      return false;
    }
    var piece := Brought(range, w.missing(n));
    BroughtWhole(range, w.missing(n));
    if |piece| != |range| {
      return false;
    }
    hash.Update(piece);
    return true;
  }

  /** Reads one interval behind the cursor in 512 KiB pieces. */
  method ReadInterval(hash: Hasher, data: seq<Byte>, from: int, bytes: int, w: Storage, made: nat) returns (ok: bool, readCalls: nat)
    requires 0 <= from && 0 <= bytes && from + bytes <= |data|
    modifies hash
    ensures 0 <= Pieces(bytes, READ_BYTES) && (ok <==> Delivers(w, made, made + Pieces(bytes, READ_BYTES)))
    ensures ok ==> readCalls == made + Pieces(bytes, READ_BYTES) && hash.fed == old(hash.fed) + data[from..from + bytes]
  {
    PiecesBound(bytes, READ_BYTES);
    var offset := 0;
    ghost var pieces := 0;
    readCalls := made;
    while offset < bytes
      invariant 0 <= pieces && offset == pieces * READ_BYTES && offset < bytes + READ_BYTES && readCalls == made + pieces
      invariant hash.fed == old(hash.fed) + data[from..from + Min(offset, bytes)] && Delivers(w, made, readCalls)
      decreases bytes - offset
    {
      PiecesReached(bytes, READ_BYTES, pieces);
      var end := Min(offset + READ_BYTES, bytes);
      SliceJoins(data, from, from + offset, from + end);
      ok := ReadPiece(hash, data[from + offset..from + end], w, readCalls);
      if !ok {
        return false, readCalls;
      }
      readCalls := readCalls + 1;
      offset := offset + READ_BYTES;
      pieces := pieces + 1;
    }
    PiecesReached(bytes, READ_BYTES, pieces);
    return true, readCalls;
  }

  lemma {:induction false} StepBounds(ivs: seq<Interval>, k: int, data: seq<Byte>, fb: int)
    requires Laid(ivs, fb) && 0 < fb && ActiveBytes(ivs, fb) <= |data| && 0 <= k < |ivs|
    ensures 0 <= GapBytes(ivs, k, fb) && 0 <= ivs[k].byteOffset && 0 <= ivs[k].frames * fb
    ensures ivs[k].byteOffset + ivs[k].frames * fb <= |data|
    ensures Laid(ivs[..k], fb) && ActiveBytes(ivs[..k], fb) <= |data|
    ensures Laid(ivs[..k + 1], fb) && ActiveBytes(ivs[..k + 1], fb) <= |data|
  {
    IntervalBounds(ivs, k, fb);
    CoveredPrefix(ivs, k, data, fb);
    CoveredPrefix(ivs, k + 1, data, fb);
  }

  /** Covered, one interval at a time. */
  lemma {:induction false} CoveredStep(ivs: seq<Interval>, k: int, data: seq<Byte>, fb: int)
    requires Laid(ivs, fb) && 0 < fb && ActiveBytes(ivs, fb) <= |data| && 0 <= k < |ivs|
    ensures 0 <= GapBytes(ivs, k, fb) && 0 <= ivs[k].byteOffset && 0 <= ivs[k].frames * fb
    ensures ivs[k].byteOffset + ivs[k].frames * fb <= |data|
    ensures Laid(ivs[..k], fb) && ActiveBytes(ivs[..k], fb) <= |data|
    ensures Laid(ivs[..k + 1], fb) && ActiveBytes(ivs[..k + 1], fb) <= |data|
    ensures Covered(ivs[..k + 1], data, fb) == Covered(ivs[..k], data, fb) + Zeros(GapBytes(ivs, k, fb))
      + data[ivs[k].byteOffset..ivs[k].byteOffset + ivs[k].frames * fb]
  {
    StepBounds(ivs, k, data, fb);
    var front := ivs[..k + 1];
    assert front[..k] == ivs[..k] && front[k] == ivs[k];
  }

  /** Silence before interval k, or behind the last. */
  function SilentBytes(ivs: seq<Interval>, k: nat, frames: int, fb: int): int
    requires k <= |ivs|
  {
    if k < |ivs| then GapBytes(ivs, k, fb) else (frames - End(ivs)) * fb
  }

  /** The first n intervals are read in full, and no gap before them is cancelled. */
  predicate AllRead(w: Storage, cancelGap: nat -> Option<nat>, ivs: seq<Interval>, n: nat, frames: int, fb: int)
    requires n <= |ivs|
  {
    && (forall i | 0 <= i < ReadCalls(ivs, n, fb) :: !w.stopsRead(i) && w.missing(i) == 0)
    && (forall k | 0 <= k < n :: !GapCancelled(cancelGap(k), SilentBytes(ivs, k, frames, fb)))
  }

  lemma {:induction false} AllReadNext(
    w: Storage, cancelGap: nat -> Option<nat>, ivs: seq<Interval>, k: nat, frames: int, fb: int, made: int)
    requires Laid(ivs, fb) && 0 < fb && k < |ivs| && made == ReadCalls(ivs, k, fb)
    ensures var pieces := Pieces(ivs[k].frames * fb, READ_BYTES); 0 <= made && 0 <= pieces && ReadCalls(ivs, k + 1, fb) == made + pieces
    ensures AllRead(w, cancelGap, ivs, k, frames, fb) ==>
      (AllRead(w, cancelGap, ivs, k + 1, frames, fb)
       <==> !GapCancelled(cancelGap(k), GapBytes(ivs, k, fb)) && Delivers(w, made, made + Pieces(ivs[k].frames * fb, READ_BYTES)))
  {
    IntervalBounds(ivs, k, fb);
    CountsBounded(ivs, k, fb);
    PiecesBound(ivs[k].frames * fb, READ_BYTES);
  }

  lemma {:induction false} AllReadBefore(
    w: Storage, cancelGap: nat -> Option<nat>, ivs: seq<Interval>, k: nat, n: nat, frames: int, fb: int)
    requires Laid(ivs, fb) && 0 < fb && k <= n <= |ivs| && AllRead(w, cancelGap, ivs, n, frames, fb)
    ensures AllRead(w, cancelGap, ivs, k, frames, fb)
  {
    CallsGrow(ivs, k, n, fb);
  }

  lemma {:induction false} CallsGrow(ivs: seq<Interval>, j: nat, k: nat, fb: int)
    requires Laid(ivs, fb) && 0 < fb && j <= k <= |ivs|
    ensures 0 <= ReadCalls(ivs, j, fb) <= ReadCalls(ivs, k, fb)
    ensures 0 <= ZeroUpdates(ivs, j, fb) <= ZeroUpdates(ivs, k, fb)
    decreases k
  {
    CountsBounded(ivs, j, fb);
    if j < k {
      CallsGrow(ivs, j, k - 1, fb);
      IntervalBounds(ivs, k - 1, fb);
      PiecesBound(ivs[k - 1].frames * fb, READ_BYTES);
      PiecesBound(GapBytes(ivs, k - 1, fb), ZERO_BYTES);
    }
  }

  /** One interval of the local walk: the gap before it, then its bytes at the payload cursor. */
  method VerifyInterval(
    hash: Hasher, ivs: seq<Interval>, k: nat, data: seq<Byte>, frames: int, fb: int, w: Storage, cancel: Option<nat>, made: nat)
    returns (ok: bool, readCalls: nat)
    requires Laid(ivs, fb) && 0 < fb && ActiveBytes(ivs, fb) == |data| && End(ivs) <= frames && frames * fb <= MAX_SAFE && k < |ivs|
    requires Laid(ivs[..k], fb) && ActiveBytes(ivs[..k], fb) <= |data| && hash.fed == Covered(ivs[..k], data, fb)
    modifies hash
    ensures Laid(ivs[..k + 1], fb) && ActiveBytes(ivs[..k + 1], fb) <= |data|
    ensures 0 <= Pieces(ivs[k].frames * fb, READ_BYTES)
    ensures ok <==> !GapCancelled(cancel, GapBytes(ivs, k, fb)) && Delivers(w, made, made + Pieces(ivs[k].frames * fb, READ_BYTES))
    ensures ok ==> readCalls == made + Pieces(ivs[k].frames * fb, READ_BYTES) && hash.fed == Covered(ivs[..k + 1], data, fb)
  {
    CoveredStep(ivs, k, data, fb);
    PiecesBound(ivs[k].frames * fb, READ_BYTES);
    IntervalBounds(ivs, k, fb);
    var frameCursor, payloadCursor := PrevEnd(ivs, k), PrevOffset(ivs, k, fb);
    assert LaidAt(ivs, k, fb);
    assert End(ivs[..k]) == frameCursor;
    GapSafe(ivs[..k], ivs[k].startFrame, frames, fb);
    var zeros := HashZeros(hash, (ivs[k].startFrame - frameCursor) * fb, frameCursor * fb, cancel);
    if zeros.Some? {
      return false, made;
    }
    ok, readCalls := ReadInterval(hash, data, payloadCursor, ivs[k].frames * fb, w, made);
  }

  /** The walk over all intervals. */
  method VerifyIntervals(
    hash: Hasher, ivs: seq<Interval>, data: seq<Byte>, frames: int, fb: int, w: Storage, cancelGap: nat -> Option<nat>)
    returns (ok: bool, frameCursor: int, payloadCursor: int)
    requires Laid(ivs, fb) && 0 < fb && ActiveBytes(ivs, fb) == |data| && End(ivs) <= frames && frames * fb <= MAX_SAFE
    requires hash.fed == []
    modifies hash
    ensures ok <==> AllRead(w, cancelGap, ivs, |ivs|, frames, fb)
    ensures ok ==> frameCursor == End(ivs) && payloadCursor == |data| && hash.fed == Covered(ivs, data, fb)
  {
    frameCursor, payloadCursor := 0, 0;
    var readCalls := 0;
    var k := 0;
    while k < |ivs|
      invariant 0 <= k <= |ivs| && frameCursor == PrevEnd(ivs, k) && payloadCursor == PrevOffset(ivs, k, fb)
      invariant Laid(ivs[..k], fb) && ActiveBytes(ivs[..k], fb) <= |data| && hash.fed == Covered(ivs[..k], data, fb)
      invariant readCalls == ReadCalls(ivs, k, fb) && AllRead(w, cancelGap, ivs, k, frames, fb)
    {
      ok, readCalls := VerifyInterval(hash, ivs, k, data, frames, fb, w, cancelGap(k), readCalls);
      AllReadNext(w, cancelGap, ivs, k, frames, fb, ReadCalls(ivs, k, fb));
      if !ok {
        if AllRead(w, cancelGap, ivs, |ivs|, frames, fb) {
          AllReadBefore(w, cancelGap, ivs, k + 1, |ivs|, frames, fb);
        }
        return false, frameCursor, payloadCursor;
      }
      assert LaidAt(ivs, k, fb);
      payloadCursor := payloadCursor + ivs[k].frames * fb;
      frameCursor := ivs[k].startFrame + ivs[k].frames;
      k := k + 1;
    }
    assert ivs[..k] == ivs;
    return true, frameCursor, payloadCursor;
  }

  /** verifyMarker without a Worker: it decides unless a read or the signal stops it, and then the digest of the dense source decides. */
  method VerifyLocal(index: Index, data: seq<Byte>, blake3: seq<Byte> -> string, w: Storage, cancelGap: nat -> Option<nat>)
    returns (r: Option<bool>)
    requires ValidIndex(index) && |data| == index.activeBytes
    ensures r.Some? <==> Unstopped(w, cancelGap, index)
    ensures var dense := Dense(index.intervals, data, index.shape.frames, ShapeFrameBytes(index.shape));
            r.Some? ==> (r.value <==> blake3(dense) == index.shape.identity[7..])
  {
    var ivs, frames, fb := index.intervals, index.shape.frames, ShapeFrameBytes(index.shape);
    var hash := new Hasher();
    var walked, frameCursor, payloadCursor := VerifyIntervals(hash, ivs, data, frames, fb, w, cancelGap);
    if !walked {
      return None;
    }
    GapSafe(ivs, frames, frames, fb);
    var zeros := HashZeros(hash, (frames - frameCursor) * fb, frameCursor * fb, cancelGap(|ivs|));
    if zeros.Some? {
      return None;
    }
    return Some(payloadCursor == |data| && blake3(hash.fed) == index.shape.identity[7..]);
  }

  /** Nothing stops the local verification of an index. */
  predicate Unstopped(w: Storage, cancelGap: nat -> Option<nat>, index: Index) {
    var ivs, frames, fb := index.intervals, index.shape.frames, ShapeFrameBytes(index.shape);
    AllRead(w, cancelGap, ivs, |ivs|, frames, fb) && !GapCancelled(cancelGap(|ivs|), SilentBytes(ivs, |ivs|, frames, fb))
  }
}
