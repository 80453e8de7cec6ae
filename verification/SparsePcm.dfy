/**
 The packed-PCM index: its validation with exact accounting of its encoded size, and
 bounded window reads by binary search (src/stems/sparse-pcm.ts).
 */
module SparsePcm {
  import opened Common
  import opened CanonicalJson
  import opened StemShape
  import opened DensePcm

  const MAX_WINDOW_FRAMES := 8192
  const MAX_INTERVALS := 65536
  const MAX_INDEX_BYTES := 8 * 1024 * 1024
  const PCM_FORMAT: Plain := "miso_sparse_pcm_v1"

  datatype Index = Index(shape: Shape, intervals: seq<Interval>, activeBytes: int, canonicalBytes: int)

  datatype PcmError =
    | CorruptShape
    | TooManyIntervals
    | BadInterval(at: int)
    | IndexTooLarge
    | SizeMismatch
    | NotAdmitted
    | BadWindow
    | ShortRead

  // ---------------------------------------------------------------- encoded size

  /** Length of an interval as JSON.stringify prints it: 39 fixed characters and three numbers. */
  function IntervalChars(iv: Interval): nat {
    39 + |Decimal(iv.byteOffset)| + |Decimal(iv.frames)| + |Decimal(iv.startFrame)|
  }

  function IntervalJson(iv: Interval): Json {
    Object([Field("startFrame", Number(iv.startFrame)), Field("frames", Number(iv.frames)),
            Field("byteOffset", Number(iv.byteOffset))])
  }

  function IntervalsJson(ivs: seq<Interval>): (r: seq<Json>)
    ensures |r| == |ivs|
  {
    seq(|ivs|, i requires 0 <= i < |ivs| => IntervalJson(ivs[i]))
  }

  function IndexJson(index: Index): Json {
    Object([Field("format", Text(PCM_FORMAT)), Field("identity", Text(index.shape.identity)),
            Field("sampleRateHz", Number(index.shape.sampleRateHz)), Field("channels", Number(index.shape.channels)),
            Field("bitDepth", Number(index.shape.bitDepth)), Field("frames", Number(index.shape.frames)),
            Field("intervals", Array(IntervalsJson(index.intervals))),
            Field("activeBytes", Number(index.activeBytes)), Field("canonicalBytes", Number(index.canonicalBytes))])
  }

  /** Encoded interval objects without the commas between them. */
  function IntervalCharsSum(ivs: seq<Interval>): nat {
    if ivs == [] then 0 else IntervalChars(ivs[0]) + IntervalCharsSum(ivs[1..])
  }

  lemma IntervalLength(iv: Interval)
    ensures |Print(IntervalJson(iv))| == IntervalChars(iv)
  {
    FieldsChars3(IntervalJson(iv).fields);
    ObjectChars(IntervalJson(iv).fields);
  }

  lemma {:induction false} IntervalsSum(ivs: seq<Interval>)
    ensures SumLengths(PrintItems(IntervalsJson(ivs))) == IntervalCharsSum(ivs)
  {
    if ivs != [] {
      IntervalsSum(ivs[1..]);
      IntervalLength(ivs[0]);
      assert IntervalsJson(ivs)[1..] == IntervalsJson(ivs[1..]);
    }
  }

  lemma {:induction false} IntervalCharsSnoc(ivs: seq<Interval>, iv: Interval)
    ensures IntervalCharsSum(ivs + [iv]) == IntervalCharsSum(ivs) + IntervalChars(iv)
  {
    if ivs == [] {
      assert ivs + [iv] == [iv];
      assert [iv][1..] == [];
    } else {
      IntervalCharsSnoc(ivs[1..], iv);
      assert (ivs + [iv])[1..] == ivs[1..] + [iv];
    }
  }

  /** Characters between the brackets of an encoded interval array, commas included. */
  function IntervalListChars(ivs: seq<Interval>): nat {
    IntervalCharsSum(ivs) + Max(0, |ivs| - 1)
  }

  lemma IntervalsLength(ivs: seq<Interval>)
    ensures |Print(Array(IntervalsJson(ivs)))| == IntervalListChars(ivs) + 2
  {
    JoinLength(PrintItems(IntervalsJson(ivs)));
    IntervalsSum(ivs);
  }

  /** Everything in an encoded index except what stands between the interval brackets. */
  function IndexFrameChars(shape: Shape, activeBytes: int, canonicalBytes: int): nat {
    143 + |Decimal(activeBytes)| + |Decimal(shape.bitDepth)| + |Decimal(canonicalBytes)| + |Decimal(shape.channels)|
      + |Decimal(shape.frames)| + |shape.identity| + |Decimal(shape.sampleRateHz)|
  }

  lemma IndexLength(index: Index)
    ensures |Print(IndexJson(index))|
         == IndexFrameChars(index.shape, index.activeBytes, index.canonicalBytes) + IntervalListChars(index.intervals)
  {
    var f := IndexJson(index).fields;
    IntervalsLength(index.intervals);
    FieldsChars9(f);
    ObjectChars(f);
    assert FieldChars(f[0]) == 6 + 3 + 20;
    assert FieldChars(f[1]) == 8 + 3 + 2 + |index.shape.identity|;
    assert FieldChars(f[6]) == 9 + 3 + IntervalListChars(index.intervals) + 2;
  }

  // ---------------------------------------------------------------- admission

  /** What validateSparsePcmIndex admits, stated without its loop. */
  predicate ValidIntervals(ivs: seq<Interval>, frames: int, fb: int) {
    Laid(ivs, fb) && Separated(ivs) && End(ivs) <= frames
  }

  predicate Matches(declared: Option<int>, actual: int) {
    declared.Some? ==> declared.value == actual
  }

  predicate ValidIndex(index: Index) {
    && ValidShape(index.shape)
    && |index.intervals| <= MAX_INTERVALS
    && ValidIntervals(index.intervals, index.shape.frames, ShapeFrameBytes(index.shape))
    && index.activeBytes == ActiveBytes(index.intervals, ShapeFrameBytes(index.shape))
    && index.canonicalBytes == CanonicalBytes(index.shape)
  }

  /** Every number of a valid index is a safe integer. */
  lemma ValidNumbers(shape: Shape, ivs: seq<Interval>, k: int)
    requires ValidShape(shape) && ValidIntervals(ivs, shape.frames, ShapeFrameBytes(shape))
    requires 0 <= k < |ivs|
    ensures SafeInt(ivs[k].startFrame, 0) && SafeInt(ivs[k].frames, 1) && SafeInt(ivs[k].byteOffset, 0)
    ensures PrevOffset(ivs, k + 1, ShapeFrameBytes(shape)) <= MAX_SAFE
    ensures EndFrame(ivs[k]) <= shape.frames
  {
    var fb := ShapeFrameBytes(shape);
    IntervalBounds(ivs, k, fb);
    PackedNoLonger(ivs, k + 1, fb);
    MulMono(EndFrame(ivs[k]), shape.frames, fb);
  }

  lemma ActiveBytesSafe(shape: Shape, ivs: seq<Interval>)
    requires ValidShape(shape) && ValidIntervals(ivs, shape.frames, ShapeFrameBytes(shape))
    ensures SafeInt(ActiveBytes(ivs, ShapeFrameBytes(shape)), 0)
  {
    LaidMonotone(ivs, 0, |ivs|, ShapeFrameBytes(shape));
    if ivs != [] {
      ValidNumbers(shape, ivs, |ivs| - 1);
    }
  }

  /** 39 fixed characters and three numbers of at most sixteen digits. */
  lemma IntervalCharsBound(iv: Interval)
    requires SafeInt(iv.startFrame, 0) && SafeInt(iv.frames, 0) && SafeInt(iv.byteOffset, 0)
    ensures IntervalChars(iv) <= 87
  {
    SafeDigits(iv.startFrame);
    SafeDigits(iv.frames);
    SafeDigits(iv.byteOffset);
  }

  lemma {:induction false} IntervalCharsSumBound(ivs: seq<Interval>)
    requires forall k :: 0 <= k < |ivs| ==>
      SafeInt(ivs[k].startFrame, 0) && SafeInt(ivs[k].frames, 0) && SafeInt(ivs[k].byteOffset, 0)
    ensures IntervalCharsSum(ivs) <= 87 * |ivs|
  {
    if ivs != [] {
      IntervalCharsBound(ivs[0]);
      IntervalCharsSumBound(ivs[1..]);
    }
  }

  /** The 8 MiB bound on interval metadata can never reject intervals that passed the other checks. */
  lemma {:induction false} IntervalBoundUnreachable(shape: Shape, ivs: seq<Interval>)
    requires ValidShape(shape) && ValidIntervals(ivs, shape.frames, ShapeFrameBytes(shape))
    requires |ivs| <= MAX_INTERVALS
    ensures IntervalCharsSum(ivs) <= 5701632
  {
    forall k | 0 <= k < |ivs|
      ensures SafeInt(ivs[k].startFrame, 0) && SafeInt(ivs[k].frames, 0) && SafeInt(ivs[k].byteOffset, 0)
    {
      ValidNumbers(shape, ivs, k);
    }
    IntervalCharsSumBound(ivs);
  }

  lemma FrameCharsBound(index: Index)
    requires ValidIndex(index)
    ensures IndexFrameChars(index.shape, index.activeBytes, index.canonicalBytes) <= 400
  {
    var s := index.shape;
    ActiveBytesSafe(s, index.intervals);
    SafeDigits(index.activeBytes);
    SafeDigits(index.canonicalBytes);
    SafeDigits(s.frames);
    SafeDigits(s.sampleRateHz);
    SafeDigits(s.channels);
    SafeDigits(s.bitDepth);
  }

  /** So does the 8 MiB bound on the whole encoding: neither size check can fail. */
  lemma IndexBoundUnreachable(index: Index)
    requires ValidIndex(index)
    ensures |Print(IndexJson(index))| <= MAX_INDEX_BYTES
  {
    IntervalBoundUnreachable(index.shape, index.intervals);
    FrameCharsBound(index);
    IndexLength(index);
  }

  /** The checks one interval meets in the validation loop, in their order. */
  predicate StepAdmitted(iv: Interval, first: bool, previousEnd: int, expectedOffset: int, frames: int, fb: int) {
    && SafeInt(iv.startFrame, 0) && SafeInt(iv.frames, 1) && SafeInt(iv.byteOffset, 0)
    && !(iv.startFrame < previousEnd || iv.startFrame + iv.frames > frames)
    && (first || iv.startFrame != previousEnd)
    && iv.byteOffset == expectedOffset
    && SafeInt(iv.byteOffset + iv.frames * fb, 0)
  }

  /** The running totals decide exactly whether the longer prefix is still valid. */
  lemma StepDecides(shape: Shape, ivs: seq<Interval>, iv: Interval)
    requires ValidShape(shape) && ValidIntervals(ivs, shape.frames, ShapeFrameBytes(shape))
    ensures var fb := ShapeFrameBytes(shape);
            var admitted := StepAdmitted(iv, ivs == [], End(ivs), ActiveBytes(ivs, fb), shape.frames, fb);
            admitted <==> ValidIntervals(ivs + [iv], shape.frames, fb)
  {
    var fb, all := ShapeFrameBytes(shape), ivs + [iv];
    if ValidIntervals(all, shape.frames, fb) {
      assert LaidAt(all, |ivs|, fb);
      ValidNumbers(shape, all, |ivs|);
      assert all[|ivs|] == iv;
    }
    if StepAdmitted(iv, ivs == [], End(ivs), ActiveBytes(ivs, fb), shape.frames, fb) {
      forall k | 0 <= k < |all|
        ensures LaidAt(all, k, fb)
      {
        if k < |ivs| { assert LaidAt(ivs, k, fb); }
      }
    }
  }

  /** A valid index has only valid prefixes. */
  lemma ValidPrefix(ivs: seq<Interval>, n: int, frames: int, fb: int)
    requires ValidIntervals(ivs, frames, fb) && 0 <= n <= |ivs| && 0 < fb
    ensures ValidIntervals(ivs[..n], frames, fb)
  {
    LaidPrefix(ivs, n, fb);
    LaidMonotone(ivs, n, |ivs|, fb);
    assert forall k :: 1 <= k < n ==> PrevEnd(ivs[..n], k) == PrevEnd(ivs, k);
  }

  /** One round of the validation loop, in terms of the prefixes of the raw list. */
  lemma ScanStep(shape: Shape, raw: seq<Interval>, i: int)
    requires ValidShape(shape) && |raw| <= MAX_INTERVALS && 0 <= i < |raw|
    requires ValidIntervals(raw[..i], shape.frames, ShapeFrameBytes(shape))
    ensures var fb := ShapeFrameBytes(shape);
            var admitted := StepAdmitted(raw[i], i == 0, End(raw[..i]), ActiveBytes(raw[..i], fb), shape.frames, fb);
            && (admitted <==> ValidIntervals(raw[..i + 1], shape.frames, fb))
            && (!admitted ==> !ValidIntervals(raw, shape.frames, fb))
            && (admitted ==> IntervalCharsSum(raw[..i + 1]) <= MAX_INDEX_BYTES)
    ensures IntervalCharsSum(raw[..i + 1]) == IntervalCharsSum(raw[..i]) + |Print(IntervalJson(raw[i]))|
    ensures End(raw[..i + 1]) == raw[i].startFrame + raw[i].frames
    ensures ActiveBytes(raw[..i + 1], ShapeFrameBytes(shape))
         == raw[i].byteOffset + raw[i].frames * ShapeFrameBytes(shape)
  {
    var fb := ShapeFrameBytes(shape);
    assert raw[..i] + [raw[i]] == raw[..i + 1];
    StepDecides(shape, raw[..i], raw[i]);
    IntervalCharsSnoc(raw[..i], raw[i]);
    IntervalLength(raw[i]);
    if ValidIntervals(raw[..i + 1], shape.frames, fb) {
      IntervalBoundUnreachable(shape, raw[..i + 1]);
    }
    if ValidIntervals(raw, shape.frames, fb) {
      ValidPrefix(raw, i + 1, shape.frames, fb);
    }
  }

  /** The validation loop: running offset and metadata size of the intervals accepted so far. */
  method ScanIntervals(shape: Shape, raw: seq<Interval>)
    returns (failure: Option<PcmError>, expectedOffset: int, metadataBytes: int)
    requires ValidShape(shape) && |raw| <= MAX_INTERVALS
    ensures failure.None? <==> ValidIntervals(raw, shape.frames, ShapeFrameBytes(shape))
    ensures failure.None? ==>
      expectedOffset == ActiveBytes(raw, ShapeFrameBytes(shape)) && metadataBytes == IntervalCharsSum(raw)
    ensures failure.Some? ==>
      && failure.value.BadInterval? && 0 <= failure.value.at < |raw|
      && ValidIntervals(raw[..failure.value.at], shape.frames, ShapeFrameBytes(shape))
      && !ValidIntervals(raw[..failure.value.at + 1], shape.frames, ShapeFrameBytes(shape))
  {
    var fb := ShapeFrameBytes(shape);
    var previousEnd := 0;
    expectedOffset, metadataBytes := 0, 0;
    for i := 0 to |raw|
      invariant ValidIntervals(raw[..i], shape.frames, fb)
      invariant expectedOffset == ActiveBytes(raw[..i], fb) && previousEnd == End(raw[..i])
      invariant metadataBytes == IntervalCharsSum(raw[..i])
    {
      var iv := raw[i];
      ScanStep(shape, raw, i);
      if !StepAdmitted(iv, i == 0, previousEnd, expectedOffset, shape.frames, fb) {
        return Some(BadInterval(i)), expectedOffset, metadataBytes;
      }
      expectedOffset := iv.byteOffset + iv.frames * fb;
      previousEnd := iv.startFrame + iv.frames;
      metadataBytes := metadataBytes + |Print(IntervalJson(iv))|;
      if metadataBytes > MAX_INDEX_BYTES {
        return Some(IndexTooLarge), expectedOffset, metadataBytes;
      }
    }
    assert raw[..|raw|] == raw;
    failure := None;
  }

  method ValidateSparsePcmIndex(
    shape: Shape, raw: seq<Interval>, activeBytes: Option<int>, canonicalBytes: Option<int>, packed: Option<int>)
    returns (r: Result<Index, PcmError>)
    ensures var fb := ShapeFrameBytes(shape);
            r.Ok? <==> (&& ValidShape(shape)
                        && |raw| <= MAX_INTERVALS
                        && ValidIntervals(raw, shape.frames, fb)
                        && Matches(activeBytes, ActiveBytes(raw, fb))
                        && Matches(canonicalBytes, CanonicalBytes(shape))
                        && Matches(packed, ActiveBytes(raw, fb)))
    ensures r.Ok? ==> ValidIndex(r.value) && r.value.shape == shape && r.value.intervals == raw
    ensures r != Err(IndexTooLarge)
  {
    if !ValidShape(shape) {
      return Err(CorruptShape);
    }
    if |raw| > MAX_INTERVALS {
      return Err(TooManyIntervals);
    }
    var canonical := shape.frames * ShapeFrameBytes(shape);
    var failure, expectedOffset, metadataBytes := ScanIntervals(shape, raw);
    if failure.Some? {
      return Err(failure.value);
    }
    if !Matches(activeBytes, expectedOffset) || !Matches(canonicalBytes, canonical) || !Matches(packed, expectedOffset) {
      return Err(SizeMismatch);
    }
    var index := Index(shape, raw, expectedOffset, canonical);
    var encodedBytes := EncodedBytes(index, metadataBytes);
    IndexBoundUnreachable(index);
    if encodedBytes > MAX_INDEX_BYTES {
      return Err(IndexTooLarge);
    }
    return Ok(index);
  }

  /** The hand-written prefix and suffix measure exactly the canonical JSON of the index. */
  method EncodedBytes(index: Index, metadataBytes: nat) returns (n: int)
    requires metadataBytes == IntervalCharsSum(index.intervals)
    ensures n == |Print(IndexJson(index))|
  {
    var s := index.shape;
    var prefix := "{\"activeBytes\":" + Decimal(index.activeBytes) + ",\"bitDepth\":" + Decimal(s.bitDepth)
      + ",\"canonicalBytes\":" + Decimal(index.canonicalBytes) + ",\"channels\":" + Decimal(s.channels)
      + ",\"format\":" + Quote(PCM_FORMAT) + ",\"frames\":" + Decimal(s.frames)
      + ",\"identity\":" + Quote(s.identity) + ",\"intervals\":[";
    var suffix := "],\"sampleRateHz\":" + Decimal(s.sampleRateHz) + "}";
    n := |prefix| + metadataBytes + Max(0, |index.intervals| - 1) + |suffix|;
    IndexLength(index);
  }
}
