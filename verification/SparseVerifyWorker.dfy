/**
 Verification in a Worker: the packed transfer of the index, the Worker's admission and walk, and the host's verdict
 (src/stems/sparse-verify-worker-protocol.ts, src/internal/engine-web-sparse-verify-worker.ts).
 */
module SparseVerifyWorker {
  import opened Common
  import opened StemShape
  import opened DensePcm
  import opened SparsePcm
  import opened SparseIngest
  import opened SparseVerify

  const MAX_PACKED_BYTES := 256 * 1024
  const MAX_PACKED_INTERVALS := MAX_PACKED_BYTES / 24

  // ---------------------------------------------------------------- transfer to the Worker

  datatype Request = Request(
    identity: string, frames: int, channels: int, bitDepth: int, frameBytes: int, canonicalBytes: int, activeBytes: int,
    intervalCount: int, intervals: seq<int>, data: seq<Byte>)

  /** Three numbers per interval: start, frames, offset. */
  function Packed(ivs: seq<Interval>): (r: seq<int>)
    ensures |r| == 3 * |ivs|
  {
    if ivs == [] then []
    else
      var last := ivs[|ivs| - 1];
      Packed(ivs[..|ivs| - 1]) + [last.startFrame, last.frames, last.byteOffset]
  }

  /** packSparseVerifyIntervals: an index too large for the message is verified locally. */
  method PackIntervals(ivs: seq<Interval>) returns (r: Option<seq<int>>)
    ensures r == if |ivs| > MAX_PACKED_INTERVALS then None else Some(Packed(ivs))
  {
    if |ivs| > MAX_PACKED_INTERVALS {
      return None;
    }
    var packed := new int[3 * |ivs|];
    for i := 0 to |ivs|
      invariant packed[..3 * i] == Packed(ivs[..i])
    {
      packed[3 * i] := ivs[i].startFrame;
      packed[3 * i + 1] := ivs[i].frames;
      packed[3 * i + 2] := ivs[i].byteOffset;
      assert ivs[..i + 1][..i] == ivs[..i];
      assert packed[..3 * (i + 1)] == packed[..3 * i] + [ivs[i].startFrame, ivs[i].frames, ivs[i].byteOffset];
    }
    assert ivs[..|ivs|] == ivs;
    assert packed[..] == packed[..3 * |ivs|];
    return Some(packed[..]);
  }

  /** Interval k of a packed message. */
  function Unpacked(packed: seq<int>, k: nat): Interval
    requires 3 * k + 2 < |packed|
  {
    Interval(packed[3 * k], packed[3 * k + 1], packed[3 * k + 2])
  }

  function UnpackedAll(packed: seq<int>, n: nat): (r: seq<Interval>)
    requires 3 * n <= |packed|
    ensures |r| == n
  {
    seq(n, k requires 0 <= k < n => Unpacked(packed, k))
  }

  /** Packing loses nothing. */
  lemma {:induction false} UnpackPacked(ivs: seq<Interval>)
    ensures UnpackedAll(Packed(ivs), |ivs|) == ivs
  {
    if ivs != [] {
      var n := |ivs| - 1;
      UnpackPacked(ivs[..n]);
      forall k | 0 <= k < |ivs|
        ensures Unpacked(Packed(ivs), k) == ivs[k]
      {
        if k < n {
          assert Unpacked(Packed(ivs), k) == Unpacked(Packed(ivs[..n]), k) == UnpackedAll(Packed(ivs[..n]), n)[k];
        }
      }
    }
  }

  /** What sparseVerifyWorkerStart accepts: in order and in bounds, touching intervals allowed. */
  predicate RequestAdmitted(q: Request) {
    && SourceAdmitted(q)
    && 0 <= q.intervalCount <= MAX_PACKED_INTERVALS && |q.intervals| == 3 * q.intervalCount
    && |q.data| == q.activeBytes && SafeInt(q.activeBytes, 0)
    && var ivs := UnpackedAll(q.intervals, q.intervalCount);
       Laid(ivs, q.frameBytes) && End(ivs) <= q.frames && ActiveBytes(ivs, q.frameBytes) == q.activeBytes
  }

  /** The message names no sample rate. */
  predicate SourceAdmitted(q: Request) {
    && ValidIdentity(q.identity) && SafeInt(q.frames, 1) && (q.channels == 1 || q.channels == 2) && (q.bitDepth == 16 || q.bitDepth == 24)
    && q.frameBytes == FrameBytes(q.channels, q.bitDepth) && SafeInt(q.canonicalBytes, 0) && q.canonicalBytes == q.frames * q.frameBytes
  }

  /** The Worker's running checks decide exactly whether one more interval still fits. */
  lemma StartStep(ivs: seq<Interval>, iv: Interval, frames: int, fb: int)
    requires Laid(ivs, fb) && End(ivs) <= frames && 0 < fb && frames * fb <= MAX_SAFE && frames <= MAX_SAFE
    ensures StartAdmits(iv, End(ivs), ActiveBytes(ivs, fb), frames, fb)
      <==> Laid(ivs + [iv], fb) && EndFrame(iv) <= frames
  {
    var all := ivs + [iv];
    LaidMonotone(ivs, 0, |ivs|, fb);
    if StartAdmits(iv, End(ivs), ActiveBytes(ivs, fb), frames, fb) {
      forall k | 0 <= k < |all|
        ensures LaidAt(all, k, fb)
      {
        if k < |ivs| { assert LaidAt(ivs, k, fb); }
      }
    }
    if Laid(all, fb) && EndFrame(iv) <= frames {
      assert LaidAt(all, |ivs|, fb);
      PackedNoLonger(all, |all|, fb);
      MulMono(EndFrame(iv), frames, fb);
      assert 0 <= iv.frames * fb;
    }
  }

  predicate StartAdmits(iv: Interval, previousEnd: int, expectedOffset: int, frames: int, fb: int) {
    && SafeInt(iv.startFrame, 0) && SafeInt(iv.frames, 1) && SafeInt(iv.byteOffset, 0)
    && SafeInt(iv.startFrame + iv.frames, 0)
    && SafeInt(iv.frames * fb, 0) && SafeInt(iv.byteOffset + iv.frames * fb, 0)
    && !(iv.startFrame < previousEnd || iv.startFrame + iv.frames > frames || iv.byteOffset != expectedOffset)
  }

  /** sparseVerifyWorkerStart */
  method WorkerStart(q: Request) returns (ok: bool)
    ensures ok <==> RequestAdmitted(q)
  {
    if !SourceAdmitted(q) {
      return false;
    }
    if !SafeInt(q.intervalCount, 0) || q.intervalCount > MAX_PACKED_INTERVALS || |q.intervals| != 3 * q.intervalCount {
      return false;
    }
    if !SafeInt(q.activeBytes, 0) || |q.data| != q.activeBytes {
      return false;
    }
    var previousEnd, expectedOffset := 0, 0;
    ghost var all := UnpackedAll(q.intervals, q.intervalCount);
    for k := 0 to q.intervalCount
      invariant Laid(all[..k], q.frameBytes) && End(all[..k]) <= q.frames
      invariant previousEnd == End(all[..k]) && expectedOffset == ActiveBytes(all[..k], q.frameBytes)
    {
      var iv := Unpacked(q.intervals, k);
      assert all[..k] + [iv] == all[..k + 1];
      StartStep(all[..k], iv, q.frames, q.frameBytes);
      if !StartAdmits(iv, previousEnd, expectedOffset, q.frames, q.frameBytes) {
        if Laid(all, q.frameBytes) {
          LaidPrefix(all, k + 1, q.frameBytes);
          LaidMonotone(all, k + 1, |all|, q.frameBytes);
        }
        return false;
      }
      previousEnd := iv.startFrame + iv.frames;
      expectedOffset := iv.byteOffset + iv.frames * q.frameBytes;
    }
    assert all[..q.intervalCount] == all;
    return expectedOffset == q.activeBytes;
  }

  // ---------------------------------------------------------------- the Worker's walk

  /** Counters of one job, beside the hash they describe. */
  class Counters {
    var readCalls: int
    var readBytes: int
    var hashedBytes: int
    var hashUpdates: int
    var zeroUpdates: int

    constructor ()
      ensures readCalls == readBytes == hashedBytes == hashUpdates == zeroUpdates == 0
    {
      readCalls, readBytes, hashedBytes, hashUpdates, zeroUpdates := 0, 0, 0, 0, 0;
    }
  }

  /** Where the job is cancelled: before a block of zeros, or before the digest. */
  datatype Signal = Signal(stopsZeros: nat -> bool, stopsEnd: bool)

  predicate Silent(g: Signal, from: int, to: int) {
    forall n: nat | from <= n < to :: !g.stopsZeros(n)
  }

  /** hashUpdateSync: progress beyond the declared size would be an error. */
  method HashUpdate(hash: Hasher, c: Counters, bytes: seq<Byte>, canonicalBytes: int) returns (ok: bool)
    modifies hash, c`hashedBytes, c`hashUpdates
    ensures ok <==> old(c.hashedBytes) + |bytes| <= canonicalBytes
    ensures hash.fed == old(hash.fed) + bytes
    ensures c.hashedBytes == old(c.hashedBytes) + |bytes| && c.hashUpdates == old(c.hashUpdates) + 1
  {
    hash.Update(bytes);
    c.hashedBytes := c.hashedBytes + |bytes|;
    c.hashUpdates := c.hashUpdates + 1;
    return c.hashedBytes <= canonicalBytes;
  }

  /** Hashes a gap in 64 KiB blocks; only the signal stops it. */
  method WorkerZeros(hash: Hasher, c: Counters, bytes: int, base: int, canonicalBytes: int, g: Signal) returns (ok: bool)
    requires 0 <= c.zeroUpdates && base == c.hashedBytes && SafeInt(bytes, 0) && SafeInt(base, 0) && base + bytes <= canonicalBytes <= MAX_SAFE
    modifies hash, c`hashedBytes, c`hashUpdates, c`zeroUpdates
    ensures 0 <= Pieces(bytes, ZERO_BYTES) && (ok <==> Silent(g, old(c.zeroUpdates), old(c.zeroUpdates) + Pieces(bytes, ZERO_BYTES)))
    ensures ok ==> hash.fed == old(hash.fed) + Zeros(bytes) && c.hashedBytes == base + bytes
    ensures ok ==> c.zeroUpdates == old(c.zeroUpdates) + Pieces(bytes, ZERO_BYTES) && c.hashUpdates == old(c.hashUpdates) + Pieces(bytes, ZERO_BYTES)
  {
    PiecesBound(bytes, ZERO_BYTES);
    if !SafeInt(bytes, 0) || !SafeInt(base, 0) || !SafeInt(base + bytes, 0) {
      return false;
    }
    var offset := 0;
    ghost var blocks := 0;
    while offset < bytes
      invariant 0 <= blocks && offset == blocks * ZERO_BYTES && offset < bytes + ZERO_BYTES
      invariant hash.fed == old(hash.fed) + Zeros(Min(offset, bytes)) && c.hashedBytes == base + Min(offset, bytes)
      invariant c.zeroUpdates == old(c.zeroUpdates) + blocks && c.hashUpdates == old(c.hashUpdates) + blocks
      invariant Silent(g, old(c.zeroUpdates), c.zeroUpdates)
      decreases bytes - offset
    {
      PiecesReached(bytes, ZERO_BYTES, blocks);
      if g.stopsZeros(c.zeroUpdates) {
        return false;
      }
      var take := Min(ZERO_BYTES, bytes - offset);
      ZerosConcat(offset, take);
      var fits := HashUpdate(hash, c, Zeros(take), canonicalBytes);
      if !fits {
        return false;
      }
      c.zeroUpdates := c.zeroUpdates + 1;
      offset := offset + ZERO_BYTES;
      blocks := blocks + 1;
    }
    PiecesReached(bytes, ZERO_BYTES, blocks);
    return true;
  }

  /** readAndConsume: one read of a non-empty range, hashed when it is not short. */
  method ReadAndConsume(hash: Hasher, c: Counters, range: seq<Byte>, canonicalBytes: int, w: Storage) returns (ok: bool)
    requires range != [] && 0 <= c.readCalls && c.hashedBytes + |range| <= canonicalBytes
    modifies hash, c`hashedBytes, c`hashUpdates, c`readCalls, c`readBytes
    ensures ok <==> !w.stopsRead(old(c.readCalls)) && w.missing(old(c.readCalls)) == 0
    ensures ok ==> hash.fed == old(hash.fed) + range && c.readCalls == old(c.readCalls) + 1 && c.hashUpdates == old(c.hashUpdates) + 1
    ensures ok ==> c.readBytes == old(c.readBytes) + |range| && c.hashedBytes == old(c.hashedBytes) + |range|
  {
    if w.stopsRead(c.readCalls) {
      return false;
    }
    var piece := Brought(range, w.missing(c.readCalls));
    BroughtWhole(range, w.missing(c.readCalls));
    if |piece| != |range| {
      return false;
    }
    ok := HashUpdate(hash, c, piece, canonicalBytes);
    c.readCalls := c.readCalls + 1;
    c.readBytes := c.readBytes + |piece|;
  }

  /** Reads one interval at its own offset; the payload cursor follows every read and is checked after each. */
  method WorkerInterval(
    hash: Hasher, c: Counters, data: seq<Byte>, byteOffset: int, bytes: int, cursor: int, activeBytes: int, canonicalBytes: int, w: Storage)
    returns (ok: bool, payloadCursor: int)
    requires 0 <= byteOffset && 0 <= bytes && byteOffset + bytes <= |data|
    requires 0 <= c.readCalls && cursor + bytes <= activeBytes && c.hashedBytes + bytes <= canonicalBytes
    modifies hash, c`hashedBytes, c`hashUpdates, c`readCalls, c`readBytes
    ensures 0 <= Pieces(bytes, READ_BYTES) && (ok <==> Delivers(w, old(c.readCalls), old(c.readCalls) + Pieces(bytes, READ_BYTES)))
    ensures ok ==> hash.fed == old(hash.fed) + data[byteOffset..byteOffset + bytes] && payloadCursor == cursor + bytes
    ensures ok ==> c.readCalls == old(c.readCalls) + Pieces(bytes, READ_BYTES) && c.hashUpdates == old(c.hashUpdates) + Pieces(bytes, READ_BYTES)
    ensures ok ==> c.readBytes == old(c.readBytes) + bytes && c.hashedBytes == old(c.hashedBytes) + bytes
  {
    PiecesBound(bytes, READ_BYTES);
    var localOffset := 0;
    payloadCursor := cursor;
    ghost var pieces := 0;
    while localOffset < bytes
      invariant 0 <= pieces && localOffset == pieces * READ_BYTES && localOffset < bytes + READ_BYTES
      invariant hash.fed == old(hash.fed) + data[byteOffset..byteOffset + Min(localOffset, bytes)]
      invariant c.readCalls == old(c.readCalls) + pieces && c.hashUpdates == old(c.hashUpdates) + pieces
      invariant payloadCursor == cursor + Min(localOffset, bytes) && c.readBytes == old(c.readBytes) + Min(localOffset, bytes)
      invariant c.hashedBytes == old(c.hashedBytes) + Min(localOffset, bytes) && Delivers(w, old(c.readCalls), c.readCalls)
      decreases bytes - localOffset
    {
      PiecesReached(bytes, READ_BYTES, pieces);
      var end := Min(localOffset + READ_BYTES, bytes);
      SliceJoins(data, byteOffset, byteOffset + localOffset, byteOffset + end);
      ok := ReadAndConsume(hash, c, data[byteOffset + localOffset..byteOffset + end], canonicalBytes, w);
      if !ok {
        return false, payloadCursor;
      }
      payloadCursor := payloadCursor + end - localOffset;
      if payloadCursor > activeBytes {
        return false, payloadCursor;
      }
      localOffset := localOffset + READ_BYTES;
      pieces := pieces + 1;
    }
    PiecesReached(bytes, READ_BYTES, pieces);
    return true, payloadCursor;
  }

  /** The walk before interval k: cursors, hash and counters. */
  ghost predicate Walked(hash: Hasher, c: Counters, ivs: seq<Interval>, k: nat, data: seq<Byte>, fb: int, frameCursor: int, payloadCursor: int)
    requires Laid(ivs, fb) && 0 < fb && ActiveBytes(ivs, fb) == |data| && k <= |ivs|
    reads hash, c
  {
    && frameCursor == PrevEnd(ivs, k) && payloadCursor == c.readBytes == PrevOffset(ivs, k, fb)
    && Laid(ivs[..k], fb) && ActiveBytes(ivs[..k], fb) <= |data| && hash.fed == Covered(ivs[..k], data, fb)
    && c.readCalls == ReadCalls(ivs, k, fb) >= 0 && c.zeroUpdates == ZeroUpdates(ivs, k, fb) >= 0
    && c.hashUpdates == c.readCalls + c.zeroUpdates && c.hashedBytes == frameCursor * fb
  }

  /** One interval of the walk. */
  method WalkInterval(
    hash: Hasher, c: Counters, ivs: seq<Interval>, k: nat, data: seq<Byte>, frames: int, fb: int, frameCursor: int, cursor: int,
    w: Storage, g: Signal) returns (ok: bool, payloadCursor: int)
    requires Laid(ivs, fb) && 0 < fb && ActiveBytes(ivs, fb) == |data| && End(ivs) <= frames && frames * fb <= MAX_SAFE && k < |ivs|
    requires Walked(hash, c, ivs, k, data, fb, frameCursor, cursor)
    modifies hash, c
    ensures 0 <= ReadCalls(ivs, k, fb) <= ReadCalls(ivs, k + 1, fb) && 0 <= ZeroUpdates(ivs, k, fb) <= ZeroUpdates(ivs, k + 1, fb)
    ensures ok <==> Silent(g, ZeroUpdates(ivs, k, fb), ZeroUpdates(ivs, k + 1, fb)) && Delivers(w, ReadCalls(ivs, k, fb), ReadCalls(ivs, k + 1, fb))
    ensures ok ==> Walked(hash, c, ivs, k + 1, data, fb, EndFrame(ivs[k]), payloadCursor)
  {
    CoveredStep(ivs, k, data, fb);
    CallsGrow(ivs, k, k + 1, fb);
    IntervalBounds(ivs, k, fb);
    assert LaidAt(ivs, k, fb) && End(ivs[..k]) == frameCursor;
    GapSafe(ivs[..k], ivs[k].startFrame, frames, fb);
    MulMono(EndFrame(ivs[k]), frames, fb);
    payloadCursor := cursor;
    ok := WorkerZeros(hash, c, (ivs[k].startFrame - frameCursor) * fb, frameCursor * fb, frames * fb, g);
    if ok {
      ok, payloadCursor := WorkerInterval(hash, c, data, ivs[k].byteOffset, ivs[k].frames * fb, cursor, |data|, frames * fb, w);
    }
  }

  /** What the Worker reports when it is done. */
  datatype Report = Report(digest: string, counts: Counts, readBytes: int, hashedBytes: int)

  /** Nothing stops a job with these counts. */
  predicate Undisturbed(w: Storage, g: Signal, counts: Counts) {
    && (forall n | 0 <= n < counts.readCalls :: !w.stopsRead(n) && w.missing(n) == 0)
    && (forall n | 0 <= n < counts.zeroUpdates :: !g.stopsZeros(n)) && !g.stopsEnd
  }

  lemma {:induction false} Disturbed(w: Storage, g: Signal, ivs: seq<Interval>, k: nat, frames: int, fb: int)
    requires Laid(ivs, fb) && 0 < fb && End(ivs) <= frames && k < |ivs|
    requires !(Silent(g, ZeroUpdates(ivs, k, fb), ZeroUpdates(ivs, k + 1, fb)) && Delivers(w, ReadCalls(ivs, k, fb), ReadCalls(ivs, k + 1, fb)))
    ensures !Undisturbed(w, g, ExpectedCounts(ivs, frames, fb))
  {
    CallsGrow(ivs, k + 1, |ivs|, fb);
    CallsGrow(ivs, k, k + 1, fb);
    MulMono(0, frames - End(ivs), fb);
    PiecesBound((frames - End(ivs)) * fb, ZERO_BYTES);
  }

  /** The walk over all intervals. */
  method Walk(hash: Hasher, c: Counters, ivs: seq<Interval>, data: seq<Byte>, frames: int, fb: int, w: Storage, g: Signal)
    returns (ok: bool, frameCursor: int, payloadCursor: int)
    requires Laid(ivs, fb) && 0 < fb && ActiveBytes(ivs, fb) == |data| && End(ivs) <= frames && frames * fb <= MAX_SAFE
    requires Walked(hash, c, ivs, 0, data, fb, 0, 0)
    modifies hash, c
    ensures ok ==> Walked(hash, c, ivs, |ivs|, data, fb, frameCursor, payloadCursor)
    ensures ok ==> Silent(g, 0, ZeroUpdates(ivs, |ivs|, fb)) && Delivers(w, 0, ReadCalls(ivs, |ivs|, fb))
    ensures !ok ==> !Undisturbed(w, g, ExpectedCounts(ivs, frames, fb))
  {
    frameCursor, payloadCursor := 0, 0;
    var k := 0;
    while k < |ivs|
      invariant 0 <= k <= |ivs| && Walked(hash, c, ivs, k, data, fb, frameCursor, payloadCursor)
      invariant Silent(g, 0, ZeroUpdates(ivs, k, fb)) && Delivers(w, 0, ReadCalls(ivs, k, fb))
    {
      ok, payloadCursor := WalkInterval(hash, c, ivs, k, data, frames, fb, frameCursor, payloadCursor, w, g);
      if !ok {
        Disturbed(w, g, ivs, k, frames, fb);
        return false, frameCursor, payloadCursor;
      }
      frameCursor := ivs[k].startFrame + ivs[k].frames;
      k := k + 1;
    }
    return true, frameCursor, payloadCursor;
  }

  /** An admitted request is answered with the digest of the dense source and the expected counts, unless a read or the signal stops it. */
  method WorkerVerify(q: Request, blake3: seq<Byte> -> string, w: Storage, g: Signal) returns (r: Option<Report>)
    requires RequestAdmitted(q)
    ensures r.Some? <==> Undisturbed(w, g, ExpectedCounts(UnpackedAll(q.intervals, q.intervalCount), q.frames, q.frameBytes))
    ensures var ivs := UnpackedAll(q.intervals, q.intervalCount);
            r.Some? ==> r.value == Report(blake3(Dense(ivs, q.data, q.frames, q.frameBytes)), ExpectedCounts(ivs, q.frames, q.frameBytes), q.activeBytes, q.canonicalBytes)
  {
    var hash := new Hasher();
    var c := new Counters();
    var frames, fb := q.frames, q.frameBytes;
    var ivs := UnpackedAll(q.intervals, q.intervalCount);
    GapSafe(ivs, frames, frames, fb);
    PiecesBound((frames - End(ivs)) * fb, ZERO_BYTES);
    var walked, frameCursor, payloadCursor := Walk(hash, c, ivs, q.data, frames, fb, w, g);
    if !walked {
      return None;
    }
    assert ivs[..|ivs|] == ivs;
    var silent := WorkerZeros(hash, c, (frames - frameCursor) * fb, frameCursor * fb, q.canonicalBytes, g);
    if !silent || g.stopsEnd {
      return None;
    }
    if payloadCursor != |q.data| || c.readBytes != q.activeBytes || c.hashedBytes != q.canonicalBytes {
      return None;
    }
    return Some(Report(blake3(hash.fed), Counts(c.readCalls, c.zeroUpdates, c.hashUpdates), c.readBytes, c.hashedBytes));
  }

  /** How the host comes to a verdict through the Worker. */
  datatype Verdict = TooLarge | Stopped | Decided(ok: bool)

  /** verifyMarker through the Worker: an index that does not fit the message is left to the local verifier. */
  method VerifyOnWorker(index: Index, data: seq<Byte>, blake3: seq<Byte> -> string, w: Storage, g: Signal) returns (r: Verdict)
    requires ValidIndex(index) && |data| == index.activeBytes
    ensures r.TooLarge? <==> |index.intervals| > MAX_PACKED_INTERVALS
    ensures !r.TooLarge? ==>
      (r.Decided? <==> Undisturbed(w, g, ExpectedCounts(index.intervals, index.shape.frames, ShapeFrameBytes(index.shape))))
    ensures var dense := Dense(index.intervals, data, index.shape.frames, ShapeFrameBytes(index.shape));
            r.Decided? ==> (r.ok <==> blake3(dense) == index.shape.identity[7..])
  {
    var packed := PackIntervals(index.intervals);
    if packed.None? {
      return TooLarge;
    }
    var q := Request(index.shape.identity, index.shape.frames, index.shape.channels, index.shape.bitDepth,
                     ShapeFrameBytes(index.shape), index.canonicalBytes, index.activeBytes, |index.intervals|, packed.value, data);
    UnpackPacked(index.intervals);
    ActiveBytesSafe(index.shape, index.intervals);
    assert RequestAdmitted(q);
    var report := WorkerVerify(q, blake3, w, g);
    if report.None? {
      return Stopped;
    }
    var expected := SparseVerifyExpectedCounts(index);
    return Decided(
      && report.value.counts == expected && report.value.readBytes == index.activeBytes
      && report.value.hashedBytes == index.canonicalBytes && report.value.digest == index.shape.identity[7..]);
  }
}
