/** The commit marker and the size it will have (src/stems/sparse-store.ts, makeMarker). */
module SparseMarker {
  import opened Common
  import opened CanonicalJson
  import opened StemShape
  import opened DensePcm
  import opened SparsePcm

  const MARKER_TAG: Plain := "miso_sparse_pcm_commit_v1"
  const MAX_MARKER_BYTES := 8 * 1024 * 1024
  /** safeFilePart rejects anything longer. */
  const MAX_FILE_PART := 128

  datatype Marker = Marker(index: Index, payloadName: Plain, generation: Plain)

  predicate FilePartChar(c: char) {
    'a' <= c <= 'z' || 'A' <= c <= 'Z' || '0' <= c <= '9' || c == '_' || c == '-'
  }

  type FilePart = s: string | 0 < |s| <= MAX_FILE_PART && forall i :: 0 <= i < |s| ==> FilePartChar(s[i]) witness "a"

  function PayloadName(shape: Shape, generation: FilePart): (name: Plain)
    requires ValidIdentity(shape.identity)
    ensures |name| == 91 + |generation|
  {
    "sparse-pcm-v1-data-blake3-" + shape.identity[7..] + "-" + generation
  }

  function MarkerName(shape: Shape): (name: Plain)
    requires ValidIdentity(shape.identity)
  {
    "sparse-pcm-v1-commit-blake3-" + shape.identity[7..] + ".json"
  }

  function MarkerFront(index: Index): seq<Field> {
    [Field("format", Text(MARKER_TAG)), Field("identity", Text(index.shape.identity)),
     Field("sampleRateHz", Number(index.shape.sampleRateHz)), Field("channels", Number(index.shape.channels)),
     Field("bitDepth", Number(index.shape.bitDepth)), Field("frames", Number(index.shape.frames)),
     Field("canonicalBytes", Number(index.canonicalBytes)), Field("activeBytes", Number(index.activeBytes))]
  }

  function MarkerBack(payloadName: Plain, generation: Plain): seq<Field> {
    [Field("payloadName", Text(payloadName)), Field("generation", Text(generation))]
  }

  function MarkerJson(m: Marker): Json {
    Object(MarkerFront(m.index) + [Field("index", IndexJson(m.index))] + MarkerBack(m.payloadName, m.generation))
  }

  /** canonicalJsonBytes(makeMarker(...)).byteLength */
  function MarkerBytes(m: Marker): nat {
    |Print(MarkerJson(m))|
  }

  /** prospectiveMarkerBytes: a marker with no intervals, plus the running encoded interval contents. */
  function ProspectiveMarkerBytes(
    shape: Shape, generation: Plain, payload: Plain, activeBytes: int, intervalBytes: int): int
  {
    MarkerBytes(Marker(Index(shape, [], activeBytes, CanonicalBytes(shape)), payload, generation)) + intervalBytes
  }

  lemma MarkerLength(m: Marker)
    ensures MarkerBytes(m) == FieldsChars(MarkerFront(m.index)) + FieldsChars(MarkerBack(m.payloadName, m.generation))
                              + 8 + |Print(IndexJson(m.index))| + 12
  {
    var f := Field("index", IndexJson(m.index));
    ObjectChars(MarkerFront(m.index) + [f] + MarkerBack(m.payloadName, m.generation));
    FieldsCharsAround(MarkerFront(m.index), f, MarkerBack(m.payloadName, m.generation));
  }

  /** The prospective size is exactly the length of the marker that would be written now. */
  lemma ProspectiveExact(shape: Shape, generation: Plain, payload: Plain, ivs: seq<Interval>, activeBytes: int)
    ensures ProspectiveMarkerBytes(shape, generation, payload, activeBytes, IntervalListChars(ivs))
         == MarkerBytes(Marker(Index(shape, ivs, activeBytes, CanonicalBytes(shape)), payload, generation))
  {
    var empty := Index(shape, [], activeBytes, CanonicalBytes(shape));
    var full := Index(shape, ivs, activeBytes, CanonicalBytes(shape));
    MarkerLength(Marker(empty, payload, generation));
    MarkerLength(Marker(full, payload, generation));
    IndexLength(empty);
    IndexLength(full);
    assert MarkerFront(empty) == MarkerFront(full);
  }

  lemma NumberFieldBound(key: Plain, n: int)
    requires SafeInt(n, 0) && |key| <= 200
    ensures FieldChars(Field(key, Number(n))) <= 256
  {
    SafeDigits(n);
  }

  lemma TextFieldBound(key: Plain, t: Plain)
    requires |key| + |t| <= 250
    ensures FieldChars(Field(key, Text(t))) <= 256
  {
  }

  lemma MarkerFrontBound(index: Index)
    requires ValidIndex(index)
    ensures FieldsChars(MarkerFront(index)) <= 8 * 256
  {
    var s, f := index.shape, MarkerFront(index);
    ActiveBytesSafe(s, index.intervals);
    TextFieldBound(f[0].key, MARKER_TAG);
    TextFieldBound(f[1].key, s.identity);
    NumberFieldBound(f[2].key, s.sampleRateHz);
    NumberFieldBound(f[3].key, s.channels);
    NumberFieldBound(f[4].key, s.bitDepth);
    NumberFieldBound(f[5].key, s.frames);
    NumberFieldBound(f[6].key, index.canonicalBytes);
    NumberFieldBound(f[7].key, index.activeBytes);
    forall i | 0 <= i < |f|
      ensures FieldChars(f[i]) <= 256
    {
      assert f[i] in [f[0], f[1], f[2], f[3], f[4], f[5], f[6], f[7]];
    }
    FieldsCharsBound(f, 256);
  }

  /** With file parts of at most 128 characters, the marker bound never rejects a valid index. */
  lemma MarkerBoundUnreachable(index: Index, generation: FilePart)
    requires ValidIndex(index)
    ensures MarkerBytes(Marker(index, PayloadName(index.shape, generation), generation)) <= MAX_MARKER_BYTES
  {
    MarkerLength(Marker(index, PayloadName(index.shape, generation), generation));
    MarkerFrontBound(index);
    FieldsCharsBound(MarkerBack(PayloadName(index.shape, generation), generation), 256);
    IntervalBoundUnreachable(index.shape, index.intervals);
    FrameCharsBound(index);
    IndexLength(index);
  }
}
