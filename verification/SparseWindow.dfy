/**
 Bounded logical window reads over an admitted index (src/stems/sparse-pcm.ts):
 binary search, one contiguous packed read, and a scatter into a zeroed buffer.
 */
module SparseWindow {
  import opened Common
  import opened StemShape
  import opened DensePcm
  import opened SparsePcm

  /** Index of the first interval that ends after the given frame. */
  method FirstIntersecting(ivs: seq<Interval>, frame: int, ghost fb: int) returns (low: int)
    requires Laid(ivs, fb) && 0 < fb
    ensures 0 <= low <= |ivs|
    ensures PrevEnd(ivs, low) <= frame || low == 0
    ensures low < |ivs| ==> frame < EndFrame(ivs[low])
  {
    low := 0;
    var high := |ivs|;
    while low < high
      invariant 0 <= low <= high <= |ivs|
      invariant low > 0 ==> EndFrame(ivs[low - 1]) <= frame
      invariant high < |ivs| ==> frame < EndFrame(ivs[high])
    {
      var middle := low + (high - low) / 2;
      var end := ivs[middle].startFrame + ivs[middle].frames;
      if end <= frame {
        low := middle + 1;
      } else {
        high := middle;
      }
    }
  }

  /** Uint8Array.prototype.set at an offset. */
  method SetBytes(output: array<Byte>, source: seq<Byte>, at: int)
    requires 0 <= at && at + |source| <= output.Length
    modifies output
    ensures output[..] == old(output[..at]) + source + old(output[at + |source|..])
  {
    forall i | 0 <= i < |source| {
      output[at + i] := source[i];
    }
  }

  /** What the window buffer holds once the intervals before position k are copied. */
  ghost predicate Filled(output: seq<Byte>, dense: seq<Byte>, from: int, settled: int) {
    && 0 <= from && from + |output| <= |dense|
    && forall p :: 0 <= p < |output| ==> output[p] == (if from + p < settled then dense[from + p] else 0)
  }

  /** Copying interval k, clipped to the window, settles every byte before its end. */
  lemma {:induction false} CopyInterval(
    ivs: seq<Interval>, k: int, packed: seq<Byte>, frames: int, fb: int, start: int, count: int,
    before: seq<Byte>, after: seq<Byte>)
    requires Laid(ivs, fb) && 0 < fb && ActiveBytes(ivs, fb) <= |packed| && End(ivs) <= frames
    requires 0 <= start && 1 <= count && start + count <= frames && 0 <= k < |ivs|
    requires |before| == count * fb
    requires Filled(before, Dense(ivs, packed, frames, fb), start * fb, PrevEnd(ivs, k) * fb)
    requires var lo := Max(start, ivs[k].startFrame);
             var hi := Min(start + count, EndFrame(ivs[k]));
             && lo < hi
             && 0 <= (lo - start) * fb <= (hi - start) * fb <= |before|
             && 0 <= ivs[k].byteOffset + (lo - ivs[k].startFrame) * fb
             && ivs[k].byteOffset + (lo - ivs[k].startFrame) * fb <= ivs[k].byteOffset + (hi - ivs[k].startFrame) * fb <= |packed|
             && after == before[..(lo - start) * fb]
                  + packed[ivs[k].byteOffset + (lo - ivs[k].startFrame) * fb..ivs[k].byteOffset + (hi - ivs[k].startFrame) * fb]
                  + before[(hi - start) * fb..]
    ensures Filled(after, Dense(ivs, packed, frames, fb), start * fb, EndFrame(ivs[k]) * fb)
  {
    var iv, dense := ivs[k], Dense(ivs, packed, frames, fb);
    var lo, hi := Max(start, iv.startFrame), Min(start + count, EndFrame(iv));
    var from := start * fb;
    IntervalBounds(ivs, k, fb);
    MulSum(lo, start, fb);
    MulSum(hi, start, fb);
    MulSum(lo, iv.startFrame, fb);
    MulSum(hi, iv.startFrame, fb);
    MulSum(start, count, fb);
    MulMono(start, lo, fb);
    MulMono(iv.startFrame, lo, fb);
    MulMono(hi, EndFrame(iv), fb);
    MulMono(hi, start + count, fb);
    assert |after| == |before|;
    forall p | 0 <= p < |after|
      ensures after[p] == (if from + p < EndFrame(iv) * fb then dense[from + p] else 0)
    {
      if from + p < lo * fb {
        assert after[p] == before[p];
        if PrevEnd(ivs, k) * fb <= from + p {
          if iv.startFrame * fb <= from + p {
            assert false;
          }
          DenseGap(ivs, k, packed, frames, fb, from + p);
        }
      } else if from + p < hi * fb {
        DenseInside(ivs, k, packed, frames, fb, from + p);
        assert after[p] == packed[iv.byteOffset + from + p - iv.startFrame * fb];
      } else {
        assert after[p] == before[p];
      }
    }
  }

  /** A window that reaches no further interval is completely settled. */
  lemma {:induction false} NothingFurther(
    ivs: seq<Interval>, k: int, packed: seq<Byte>, frames: int, fb: int, start: int, count: int, output: seq<Byte>)
    requires Laid(ivs, fb) && 0 < fb && ActiveBytes(ivs, fb) <= |packed| && End(ivs) <= frames
    requires 0 <= start && 1 <= count && start + count <= frames && 0 <= k <= |ivs|
    requires |output| == count * fb
    requires Filled(output, Dense(ivs, packed, frames, fb), start * fb, PrevEnd(ivs, k) * fb)
    requires k < |ivs| ==> start + count <= ivs[k].startFrame
    ensures 0 <= start * fb <= (start + count) * fb <= frames * fb
    ensures output == Dense(ivs, packed, frames, fb)[start * fb..(start + count) * fb]
  {
    var dense, from := Dense(ivs, packed, frames, fb), start * fb;
    MulSum(start, count, fb);
    MulMono(start + count, frames, fb);
    if k < |ivs| {
      MulMono(start + count, ivs[k].startFrame, fb);
    }
    forall p | 0 <= p < |output|
      ensures output[p] == dense[from + p]
    {
      if PrevEnd(ivs, k) * fb <= from + p {
        if k < |ivs| {
          DenseGap(ivs, k, packed, frames, fb, from + p);
        } else {
          DenseTail(ivs, packed, frames, fb, from + p);
        }
      }
    }
  }

  /** Position of frame f, clipped into interval k, inside the packed file. */
  function PackedAt(iv: Interval, f: int, fb: int): int {
    iv.byteOffset + (f - iv.startFrame) * fb
  }

  /** Between the first and the last touched interval every clipped range lies in the one contiguous read. */
  lemma ClippedRange(ivs: seq<Interval>, first: int, k: int, last: int, fb: int, start: int, count: int)
    requires Laid(ivs, fb) && 0 < fb && 0 <= first <= k <= last < |ivs| && 0 <= start && 1 <= count
    requires start < EndFrame(ivs[first]) && ivs[last].startFrame < start + count
    ensures var lo := Max(start, ivs[k].startFrame);
            var hi := Min(start + count, EndFrame(ivs[k]));
            && lo < hi
            && 0 <= (lo - start) * fb <= (hi - start) * fb <= count * fb
            && (hi - lo) * fb == (hi - start) * fb - (lo - start) * fb
            && 0 <= PackedAt(ivs[first], Max(start, ivs[first].startFrame), fb) <= PackedAt(ivs[k], lo, fb)
            && PackedAt(ivs[k], lo, fb) + (hi - lo) * fb == PackedAt(ivs[k], hi, fb)
            && PackedAt(ivs[k], lo, fb) <= PackedAt(ivs[k], hi, fb)
            && PackedAt(ivs[k], hi, fb) <= PackedAt(ivs[last], Min(start + count, EndFrame(ivs[last])), fb) <= ActiveBytes(ivs, fb)
  {
    var lo, hi := Max(start, ivs[k].startFrame), Min(start + count, EndFrame(ivs[k]));
    OrderedEnds(ivs, first, k, fb);
    OrderedEnds(ivs, k, last, fb);
    IntervalBounds(ivs, first, fb);
    IntervalBounds(ivs, k, fb);
    IntervalBounds(ivs, last, fb);
    MulSum(hi - start, lo - start, fb);
    MulMono(0, lo - start, fb);
    MulMono(lo, hi, fb);
    MulMono(lo - start, hi - start, fb);
    MulMono(hi - start, count, fb);
    PackedOrder(ivs[first], fb);
    PackedOrder(ivs[k], fb);
    PackedOrder(ivs[last], fb);
    MulSum(hi - ivs[k].startFrame, lo - ivs[k].startFrame, fb);
    MulMono(0, lo - ivs[k].startFrame, fb);
    MulMono(hi - ivs[k].startFrame, ivs[k].frames, fb);
    var f := Max(start, ivs[first].startFrame);
    MulMono(0, f - ivs[first].startFrame, fb);
    MulMono(f - ivs[first].startFrame, ivs[first].frames, fb);
    var l := Min(start + count, EndFrame(ivs[last]));
    MulMono(0, l - ivs[last].startFrame, fb);
    MulMono(l - ivs[last].startFrame, ivs[last].frames, fb);
  }

  lemma PackedOrder(iv: Interval, fb: int)
    ensures PackedAt(iv, EndFrame(iv), fb) == iv.byteOffset + iv.frames * fb
    ensures PackedAt(iv, iv.startFrame, fb) == iv.byteOffset
  {
  }

  /** Earlier intervals end before later ones start, on the timeline and in the file. */
  lemma OrderedEnds(ivs: seq<Interval>, j: int, k: int, fb: int)
    requires Laid(ivs, fb) && 0 < fb && 0 <= j <= k < |ivs|
    ensures j < k ==> EndFrame(ivs[j]) <= ivs[k].startFrame
    ensures j < k ==> ivs[j].byteOffset + ivs[j].frames * fb <= ivs[k].byteOffset
  {
    if j < k {
      LaidMonotone(ivs, j + 1, k, fb);
      assert LaidAt(ivs, k, fb);
    }
  }

  /** Some interval has frames in the window. */
  predicate Touches(ivs: seq<Interval>, start: int, count: int) {
    exists k :: 0 <= k < |ivs| && TouchesAt(ivs, k, start, count)
  }

  predicate TouchesAt(ivs: seq<Interval>, k: int, start: int, count: int)
    requires 0 <= k < |ivs|
  {
    ivs[k].startFrame < start + count && start < EndFrame(ivs[k])
  }

  /** The interval the search finds decides whether any touches. */
  lemma FirstTouches(ivs: seq<Interval>, first: int, start: int, count: int, fb: int)
    requires Laid(ivs, fb) && 0 < fb && 0 <= first <= |ivs| && (PrevEnd(ivs, first) <= start || first == 0)
    requires first < |ivs| ==> start < EndFrame(ivs[first])
    ensures Touches(ivs, start, count) <==> first < |ivs| && ivs[first].startFrame < start + count
  {
    if first < |ivs| && ivs[first].startFrame < start + count {
      assert TouchesAt(ivs, first, start, count);
    }
    forall k | 0 <= k < |ivs| && TouchesAt(ivs, k, start, count)
      ensures first < |ivs| && ivs[first].startFrame < start + count
    {
      if k < first {
        LaidMonotone(ivs, k + 1, first, fb);
      } else {
        OrderedEnds(ivs, first, k, fb);
        IntervalBounds(ivs, first, fb);
      }
    }
  }

  /** An admitted index, its file, and a bounded window of its frames. */
  predicate InWindow(index: Index, admitted: bool, packed: seq<Byte>, startFrame: int, frameCount: int) {
    && admitted && |packed| == index.activeBytes
    && SafeInt(startFrame, 0) && 1 <= frameCount <= MAX_WINDOW_FRAMES && startFrame + frameCount <= index.shape.frames
  }

  /**
   One bounded logical window. `admitted` is membership in the module's set of indexes it validated
   itself; `missing` is how many bytes the one read of the packed file brings too few.
   */
  method ReadSparsePcmWindow(index: Index, admitted: bool, packed: seq<Byte>, startFrame: int, frameCount: int, missing: nat)
    returns (r: Result<seq<Byte>, PcmError>)
    requires admitted ==> ValidIndex(index)
    ensures r.Ok? <==> InWindow(index, admitted, packed, startFrame, frameCount) && !(missing > 0 && Touches(index.intervals, startFrame, frameCount))
    ensures r == Err(ShortRead) <==> InWindow(index, admitted, packed, startFrame, frameCount) && missing > 0 && Touches(index.intervals, startFrame, frameCount)
    ensures r.Ok? ==>
      var fb := ShapeFrameBytes(index.shape);
      && 0 <= startFrame * fb <= (startFrame + frameCount) * fb <= index.shape.frames * fb
      && r.value == Dense(index.intervals, packed, index.shape.frames, fb)[startFrame * fb..(startFrame + frameCount) * fb]
  {
    if !admitted {
      return Err(NotAdmitted);
    }
    if |packed| != index.activeBytes {
      return Err(SizeMismatch);
    }
    if !SafeInt(startFrame, 0) || !SafeInt(frameCount, 1) || frameCount > MAX_WINDOW_FRAMES
       || startFrame + frameCount > index.shape.frames {
      return Err(BadWindow);
    }
    var bytes := ReadWindow(
      index.intervals, packed, index.shape.frames, ShapeFrameBytes(index.shape), startFrame, frameCount, missing);
    if bytes.None? {
      return Err(ShortRead);
    }
    return Ok(bytes.value);
  }

  /** The window read itself, once its arguments are admitted. */
  method ReadWindow(
    ivs: seq<Interval>, packed: seq<Byte>, ghost frames: int, fb: int, start: int, count: int, missing: nat)
    returns (bytes: Option<seq<Byte>>)
    requires Laid(ivs, fb) && 0 < fb && ActiveBytes(ivs, fb) == |packed| && End(ivs) <= frames
    requires 0 <= start && 1 <= count && start + count <= frames
    ensures 0 <= start * fb <= (start + count) * fb <= frames * fb
    ensures bytes.None? <==> missing > 0 && Touches(ivs, start, count)
    ensures bytes.Some? ==> bytes.value == Dense(ivs, packed, frames, fb)[start * fb..(start + count) * fb]
  {
    ghost var dense := Dense(ivs, packed, frames, fb);
    MulSum(start, count, fb);
    MulMono(start + count, frames, fb);
    var output := new Byte[count * fb](_ => 0);
    var first := FirstIntersecting(ivs, start, fb);
    FirstTouches(ivs, first, start, count, fb);
    MulMono(PrevEnd(ivs, first), start, fb);
    assert Filled(output[..], dense, start * fb, PrevEnd(ivs, first) * fb);
    if first >= |ivs| || ivs[first].startFrame >= start + count {
      NothingFurther(ivs, first, packed, frames, fb, start, count, output[..]);
      return Some(output[..]);
    }
    var read := ReadTouched(output, ivs, packed, first, fb, start, count, missing, frames);
    return if read then Some(output[..]) else None;
  }

  /** One contiguous read from the first to the last interval the window touches, scattered into the buffer. */
  method ReadTouched(
    output: array<Byte>, ivs: seq<Interval>, packed: seq<Byte>, first: int, fb: int, start: int, count: int, missing: nat,
    ghost frames: int) returns (read: bool)
    requires Laid(ivs, fb) && 0 < fb && ActiveBytes(ivs, fb) == |packed| && End(ivs) <= frames
    requires 0 <= start && 1 <= count && start + count <= frames && output.Length == count * fb
    requires 0 <= first < |ivs| && start < EndFrame(ivs[first]) && ivs[first].startFrame < start + count
    requires Filled(output[..], Dense(ivs, packed, frames, fb), start * fb, PrevEnd(ivs, first) * fb)
    modifies output
    ensures read <==> missing == 0
    ensures 0 <= start * fb <= (start + count) * fb <= frames * fb
    ensures read ==> output[..] == Dense(ivs, packed, frames, fb)[start * fb..(start + count) * fb]
  {
    MulSum(start, count, fb);
    MulMono(start + count, frames, fb);
    MulMono(0, start, fb);
    var last := first;
    while last + 1 < |ivs| && ivs[last + 1].startFrame < start + count
      invariant first <= last < |ivs| && ivs[last].startFrame < start + count
    {
      last := last + 1;
    }
    var packedStart := PackedAt(ivs[first], Max(start, ivs[first].startFrame), fb);
    var packedEnd := PackedAt(ivs[last], Min(start + count, EndFrame(ivs[last])), fb);
    ClippedRange(ivs, first, first, last, fb, start, count);
    RangeNotEmpty(ivs, first, last, fb, start, count);
    var source := Brought(packed[packedStart..packedEnd], missing);
    BroughtWhole(packed[packedStart..packedEnd], missing);
    if |source| != packedEnd - packedStart {
      return false;
    }
    CopyIntervals(output, ivs, source, packedStart, first, last, fb, start, count, packed, frames);
    NothingFurther(ivs, last + 1, packed, frames, fb, start, count, output[..]);
    return true;
  }

  lemma RangeNotEmpty(ivs: seq<Interval>, first: int, last: int, fb: int, start: int, count: int)
    requires Laid(ivs, fb) && 0 < fb && 0 <= first <= last < |ivs| && 0 <= start && 1 <= count
    requires start < EndFrame(ivs[first]) && ivs[last].startFrame < start + count
    ensures PackedAt(ivs[first], Max(start, ivs[first].startFrame), fb) < PackedAt(ivs[last], Min(start + count, EndFrame(ivs[last])), fb)
  {
    ClippedRange(ivs, first, first, last, fb, start, count);
    OrderedEnds(ivs, first, last, fb);
    IntervalBounds(ivs, first, fb);
    var lo, hi := Max(start, ivs[first].startFrame), Min(start + count, EndFrame(ivs[first]));
    MulMono(1, hi - lo, fb);
  }

  /** Scatters the one contiguous read into the buffer, interval by interval. */
  method CopyIntervals(
    output: array<Byte>, ivs: seq<Interval>, source: seq<Byte>, packedStart: int, first: int, last: int,
    fb: int, start: int, count: int, ghost packed: seq<Byte>, ghost frames: int)
    requires Laid(ivs, fb) && 0 < fb && ActiveBytes(ivs, fb) == |packed| && End(ivs) <= frames
    requires 0 <= start && 1 <= count && start + count <= frames && output.Length == count * fb
    requires 0 <= first <= last < |ivs| && start < EndFrame(ivs[first]) && ivs[last].startFrame < start + count
    requires packedStart == PackedAt(ivs[first], Max(start, ivs[first].startFrame), fb)
    requires 0 <= packedStart <= PackedAt(ivs[last], Min(start + count, EndFrame(ivs[last])), fb) <= |packed|
    requires source == packed[packedStart..PackedAt(ivs[last], Min(start + count, EndFrame(ivs[last])), fb)]
    requires Filled(output[..], Dense(ivs, packed, frames, fb), start * fb, PrevEnd(ivs, first) * fb)
    modifies output
    ensures Filled(output[..], Dense(ivs, packed, frames, fb), start * fb, EndFrame(ivs[last]) * fb)
  {
    var i := first;
    while i <= last
      invariant first <= i <= last + 1
      invariant Filled(output[..], Dense(ivs, packed, frames, fb), start * fb, PrevEnd(ivs, i) * fb)
    {
      var from := Max(start, ivs[i].startFrame);
      var to := Min(start + count, EndFrame(ivs[i]));
      ClippedRange(ivs, first, i, last, fb, start, count);
      if to > from {
        var sourceOffset := PackedAt(ivs[i], from, fb) - packedStart;
        var piece := source[sourceOffset..sourceOffset + (to - from) * fb];
        SliceOfSlice(packed, packedStart, PackedAt(ivs[last], Min(start + count, EndFrame(ivs[last])), fb),
                     PackedAt(ivs[i], from, fb), PackedAt(ivs[i], to, fb));
        CopyOne(output, ivs, i, piece, fb, start, count, packed, frames);
      }
      i := i + 1;
    }
  }

  method CopyOne(
    output: array<Byte>, ivs: seq<Interval>, i: int, piece: seq<Byte>,
    fb: int, start: int, count: int, ghost packed: seq<Byte>, ghost frames: int)
    requires Laid(ivs, fb) && 0 < fb && ActiveBytes(ivs, fb) == |packed| && End(ivs) <= frames
    requires 0 <= start && 1 <= count && start + count <= frames && output.Length == count * fb
    requires 0 <= i < |ivs|
    requires var lo := Max(start, ivs[i].startFrame);
             var hi := Min(start + count, EndFrame(ivs[i]));
             && lo < hi
             && 0 <= (lo - start) * fb <= (hi - start) * fb <= output.Length
             && 0 <= PackedAt(ivs[i], lo, fb) <= PackedAt(ivs[i], hi, fb) <= |packed|
             && piece == packed[PackedAt(ivs[i], lo, fb)..PackedAt(ivs[i], hi, fb)]
             && |piece| == (hi - start) * fb - (lo - start) * fb
    requires Filled(output[..], Dense(ivs, packed, frames, fb), start * fb, PrevEnd(ivs, i) * fb)
    modifies output
    ensures Filled(output[..], Dense(ivs, packed, frames, fb), start * fb, EndFrame(ivs[i]) * fb)
  {
    ghost var before := output[..];
    var lo := Max(start, ivs[i].startFrame);
    SetBytes(output, piece, (lo - start) * fb);
    CopyInterval(ivs, i, packed, frames, fb, start, count, before, output[..]);
  }
}
