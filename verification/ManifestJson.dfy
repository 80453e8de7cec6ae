/** A manifest as a JSON value, and reading one back by exact keys (src/stems/sparse-format.ts). */
module ManifestJson {
  import opened Common
  import opened CanonicalJson
  import opened KeyOrder
  import opened JsonReader
  import opened StemShape
  import opened SparseManifest

  const FORMAT: Plain := "miso_sparse_stem_v1"

  const ROOT_KEYS: seq<string> := ["bitDepth", "channels", "chunks", "format", "frames", "identity", "intervals", "sampleRateHz"]
  const INTERVAL_KEYS: seq<string> := ["frames", "packedFrameOffset", "startFrame"]
  const CHUNK_KEYS: seq<string> := ["bytes", "flacSha256", "frames", "offset", "packedStartFrame", "pcmSha256"]

  function IntervalFields(iv: StemInterval): seq<Field> {
    [Field("startFrame", Number(iv.startFrame)), Field("frames", Number(iv.frames)), Field("packedFrameOffset", Number(iv.packedFrameOffset))]
  }

  function ChunkFields(c: StemChunk): seq<Field> {
    [Field("offset", Number(c.offset)), Field("bytes", Number(c.bytes)), Field("frames", Number(c.frames)),
     Field("packedStartFrame", Number(c.packedStartFrame)), Field("flacSha256", Text(c.flacSha256)), Field("pcmSha256", Text(c.pcmSha256))]
  }

  function IntervalItems(ivs: seq<StemInterval>): (r: seq<Json>)
    ensures |r| == |ivs|
  {
    seq(|ivs|, i requires 0 <= i < |ivs| => Object(IntervalFields(ivs[i])))
  }

  function ChunkItems(cs: seq<StemChunk>): (r: seq<Json>)
    ensures |r| == |cs|
  {
    seq(|cs|, i requires 0 <= i < |cs| => Object(ChunkFields(cs[i])))
  }

  function RootFields(shape: Shape, intervals: seq<Json>, chunks: seq<Json>): seq<Field> {
    [Field("format", Text(FORMAT)), Field("identity", Text(shape.identity)), Field("sampleRateHz", Number(shape.sampleRateHz)),
     Field("channels", Number(shape.channels)), Field("bitDepth", Number(shape.bitDepth)), Field("frames", Number(shape.frames)),
     Field("intervals", Array(intervals)), Field("chunks", Array(chunks))]
  }

  function ToJson(m: Manifest): Json {
    Object(RootFields(m.shape, IntervalItems(m.intervals), ChunkItems(m.chunks)))
  }

  // ---------------------------------------------------------------- lookup

  function Get(fs: seq<Field>, key: string): Option<Json> {
    if |fs| == 0 then None
    else if fs[|fs| - 1].key == key then Some(fs[|fs| - 1].value)
    else Get(fs[..|fs| - 1], key)
  }

  lemma {:induction false} GetAt(fs: seq<Field>, i: nat)
    requires Distinct(fs) && i < |fs|
    ensures Get(fs, fs[i].key) == Some(fs[i].value)
    decreases |fs|
  {
    var n := |fs| - 1;
    if i < n {
      GetAt(fs[..n], i);
    }
  }

  /** What is found does not depend on the order of the members. */
  lemma {:induction false} GetPermuted(fs: seq<Field>, gs: seq<Field>, i: nat)
    requires Distinct(fs) && multiset(fs) == multiset(gs) && |fs| == |gs| && i < |fs|
    ensures Get(gs, fs[i].key) == Some(fs[i].value)
  {
    DistinctPermuted(fs, gs);
    assert fs[i] in multiset(gs);
    var k :| 0 <= k < |gs| && gs[k] == fs[i];
    GetAt(gs, k);
  }

  // ---------------------------------------------------------------- reading

  /** As many members as expected keys, and each key among them. */
  predicate HasExactly(fs: seq<Field>, keys: seq<string>) {
    |fs| == |keys| && forall k | k in keys :: Get(fs, k).Some?
  }

  function IntAt(fs: seq<Field>, key: string, minimum: int): Option<int> {
    match Get(fs, key)
    case Some(Number(n)) => if SafeInt(n, minimum) then Some(n) else None
    case _ => None
  }

  function DigestAt(fs: seq<Field>, key: string): Option<Plain> {
    match Get(fs, key)
    case Some(Text(t)) => if ValidDigest(t) then Some(t) else None
    case _ => None
  }

  function ReadInterval(v: Json): Option<StemInterval> {
    if !v.Object? || !HasExactly(v.fields, INTERVAL_KEYS) then None
    else
      match (IntAt(v.fields, "startFrame", 0), IntAt(v.fields, "frames", 1), IntAt(v.fields, "packedFrameOffset", 0))
      case (Some(start), Some(frames), Some(packed)) => Some(StemInterval(start, frames, packed))
      case _ => None
  }

  function ReadChunk(v: Json): Option<StemChunk> {
    if !v.Object? || !HasExactly(v.fields, CHUNK_KEYS) then None
    else
      match (IntAt(v.fields, "offset", 0), IntAt(v.fields, "bytes", 1), IntAt(v.fields, "frames", 1), IntAt(v.fields, "packedStartFrame", 0),
             DigestAt(v.fields, "flacSha256"), DigestAt(v.fields, "pcmSha256"))
      case (Some(offset), Some(bytes), Some(frames), Some(packed), Some(flac), Some(pcm)) =>
        Some(StemChunk(offset, bytes, frames, packed, flac, pcm))
      case _ => None
  }

  /** Every member of the array, or nothing. */
  function ReadAll<T>(items: seq<Json>, one: Json -> Option<T>): (r: Option<seq<T>>)
    ensures r.Some? ==> |r.value| == |items|
    decreases |items|
  {
    if |items| == 0 then Some([])
    else
      match (ReadAll(items[..|items| - 1], one), one(items[|items| - 1]))
      case (Some(front), Some(last)) => Some(front + [last])
      case _ => None
  }

  function ReadShape(fs: seq<Field>): Option<Shape> {
    match (Get(fs, "identity"), IntAt(fs, "sampleRateHz", 1), IntAt(fs, "channels", 1), IntAt(fs, "bitDepth", 1), IntAt(fs, "frames", 1))
    case (Some(Text(identity)), Some(rate), Some(channels), Some(bitDepth), Some(frames)) =>
      Some(Shape(identity, rate, channels, bitDepth, frames))
    case _ => None
  }

  /** The manifest a value spells out, before any of its numbers are compared with each other. */
  function ReadManifest(v: Json): Option<Manifest> {
    if !v.Object? || !HasExactly(v.fields, ROOT_KEYS) || Get(v.fields, "format") != Some(Text(FORMAT)) then None
    else
      match (Get(v.fields, "intervals"), Get(v.fields, "chunks"), ReadShape(v.fields))
      case (Some(Array(intervals)), Some(Array(chunks)), Some(shape)) => ReadParts(shape, intervals, chunks)
      case _ => None
  }

  function ReadParts(shape: Shape, intervals: seq<Json>, chunks: seq<Json>): Option<Manifest> {
    match (ReadAll(intervals, ReadInterval), ReadAll(chunks, ReadChunk))
    case (Some(ivs), Some(cs)) => Some(Manifest(shape, ivs, cs))
    case _ => None
  }

  // ---------------------------------------------------------------- any order of keys

  predicate Permuted(v: Json, fs: seq<Field>) {
    v.Object? && |v.fields| == |fs| && multiset(v.fields) == multiset(fs)
  }

  lemma IntervalKeys(iv: StemInterval)
    ensures Distinct(IntervalFields(iv))
  {
    var fs := IntervalFields(iv);
    assert |fs[0].key| == 10 && |fs[1].key| == 6 && |fs[2].key| == 17;
  }

  lemma ChunkKeys(c: StemChunk)
    ensures Distinct(ChunkFields(c))
  {
    var fs := ChunkFields(c);
    assert |fs[0].key| == 6 && |fs[1].key| == 5 && |fs[2].key| == 6 && |fs[3].key| == 16 && |fs[4].key| == 10 && |fs[5].key| == 9;
    assert fs[0].key[0] != fs[2].key[0];
  }

  lemma RootKeys(shape: Shape, ivs: seq<Json>, cs: seq<Json>)
    ensures Distinct(RootFields(shape, ivs, cs))
  {
    var fs := RootFields(shape, ivs, cs);
    assert |fs[0].key| == 6 && |fs[1].key| == 8 && |fs[2].key| == 12 && |fs[3].key| == 8;
    assert |fs[4].key| == 8 && |fs[5].key| == 6 && |fs[6].key| == 9 && |fs[7].key| == 6;
    assert fs[0].key[1] == 'o' && fs[5].key[1] == 'r' && fs[7].key[1] == 'h';
    assert fs[1].key[0] == 'i' && fs[3].key[0] == 'c' && fs[4].key[0] == 'b';
  }

  lemma ReadIntervalOf(v: Json, iv: StemInterval)
    requires Permuted(v, IntervalFields(iv))
    requires SafeInt(iv.startFrame, 0) && SafeInt(iv.frames, 1) && SafeInt(iv.packedFrameOffset, 0)
    ensures ReadInterval(v) == Some(iv)
  {
    var fs := IntervalFields(iv);
    IntervalKeys(iv);
    GetPermuted(fs, v.fields, 0);
    GetPermuted(fs, v.fields, 1);
    GetPermuted(fs, v.fields, 2);
  }

  predicate ChunkNumbers(c: StemChunk) {
    && SafeInt(c.offset, 0) && SafeInt(c.bytes, 1) && SafeInt(c.frames, 1) && SafeInt(c.packedStartFrame, 0)
    && ValidDigest(c.flacSha256) && ValidDigest(c.pcmSha256)
  }

  lemma ReadChunkOf(v: Json, c: StemChunk)
    requires Permuted(v, ChunkFields(c)) && ChunkNumbers(c)
    ensures ReadChunk(v) == Some(c)
  {
    var fs := ChunkFields(c);
    ChunkKeys(c);
    GetPermuted(fs, v.fields, 0);
    GetPermuted(fs, v.fields, 1);
    GetPermuted(fs, v.fields, 2);
    GetPermuted(fs, v.fields, 3);
    GetPermuted(fs, v.fields, 4);
    GetPermuted(fs, v.fields, 5);
  }

  lemma {:induction false} ReadAllOf<T>(items: seq<Json>, one: Json -> Option<T>, xs: seq<T>)
    requires |items| == |xs| && forall i | 0 <= i < |items| :: one(items[i]) == Some(xs[i])
    ensures ReadAll(items, one) == Some(xs)
    decreases |items|
  {
    if |items| > 0 {
      var n := |items| - 1;
      ReadAllOf(items[..n], one, xs[..n]);
      assert xs == xs[..n] + [xs[n]];
    }
  }

  lemma {:induction false} FieldAt(v: Json, fs: seq<Field>, i: nat, key: Plain, value: Json)
    requires Permuted(v, fs) && Distinct(fs) && i < |fs| && fs[i] == Field(key, value)
    ensures Get(v.fields, key) == Some(value)
  {
    GetPermuted(fs, v.fields, i);
  }

  /** What the members of a manifest are, whatever the order of its keys. */
  predicate RootIs(v: Json, shape: Shape, ivs: seq<Json>, cs: seq<Json>) {
    var members := v.Object? && |v.fields| == 8
      && Get(v.fields, "format") == Some(Text(FORMAT)) && Get(v.fields, "identity") == Some(Text(shape.identity))
      && Get(v.fields, "intervals") == Some(Array(ivs)) && Get(v.fields, "chunks") == Some(Array(cs))
      && Get(v.fields, "sampleRateHz") == Some(Number(shape.sampleRateHz)) && Get(v.fields, "channels") == Some(Number(shape.channels))
      && Get(v.fields, "bitDepth") == Some(Number(shape.bitDepth)) && Get(v.fields, "frames") == Some(Number(shape.frames));
    members
  }

  lemma {:induction false} ShapeMembers(v: Json, shape: Shape, ivs: seq<Json>, cs: seq<Json>)
    requires Permuted(v, RootFields(shape, ivs, cs)) && Distinct(RootFields(shape, ivs, cs))
    ensures Get(v.fields, "sampleRateHz") == Some(Number(shape.sampleRateHz)) && Get(v.fields, "channels") == Some(Number(shape.channels))
    ensures Get(v.fields, "bitDepth") == Some(Number(shape.bitDepth)) && Get(v.fields, "frames") == Some(Number(shape.frames))
  {
    var fs := RootFields(shape, ivs, cs);
    FieldAt(v, fs, 2, "sampleRateHz", Number(shape.sampleRateHz));
    FieldAt(v, fs, 3, "channels", Number(shape.channels));
    FieldAt(v, fs, 4, "bitDepth", Number(shape.bitDepth));
    FieldAt(v, fs, 5, "frames", Number(shape.frames));
  }

  lemma {:induction false} RootMembers(v: Json, shape: Shape, ivs: seq<Json>, cs: seq<Json>)
    requires Permuted(v, RootFields(shape, ivs, cs))
    ensures RootIs(v, shape, ivs, cs)
  {
    var fs := RootFields(shape, ivs, cs);
    RootKeys(shape, ivs, cs);
    ShapeMembers(v, shape, ivs, cs);
    FieldAt(v, fs, 0, "format", Text(FORMAT));
    FieldAt(v, fs, 1, "identity", Text(shape.identity));
    FieldAt(v, fs, 6, "intervals", Array(ivs));
    FieldAt(v, fs, 7, "chunks", Array(cs));
  }

  lemma {:induction false} RootReads(v: Json, m: Manifest, ivs: seq<Json>, cs: seq<Json>)
    requires RootIs(v, m.shape, ivs, cs) && ValidShape(m.shape)
    requires ReadAll(ivs, ReadInterval) == Some(m.intervals) && ReadAll(cs, ReadChunk) == Some(m.chunks)
    ensures ReadManifest(v) == Some(m)
  {
    assert ReadShape(v.fields) == Some(m.shape);
    assert HasExactly(v.fields, ROOT_KEYS);
  }

  lemma IntervalNumbers(ivs: seq<StemInterval>, k: nat, frames: int)
    requires (forall i | 0 <= i < |ivs| :: IntervalPlaced(ivs, i, frames)) && k < |ivs| && SafeInt(frames, 1)
    ensures SafeInt(ivs[k].startFrame, 0) && SafeInt(ivs[k].frames, 1) && SafeInt(ivs[k].packedFrameOffset, 0)
  {
    StemEndNonNegative(ivs, k, frames);
    assert IntervalPlaced(ivs, k, frames);
  }

  /** Offsets of chunks stay far below the safe range, so no sum in the validation is unsafe. */
  lemma {:induction false} ChunkSums(chunks: seq<StemChunk>, k: nat, rate: int)
    requires k <= |chunks| && 0 <= rate && forall i | 0 <= i < k :: ChunkPlaced(chunks, i, rate)
    ensures 0 <= ChunkBytesBefore(chunks, k) <= k * MAX_CHUNK_BYTES
    ensures 0 <= ChunkFramesBefore(chunks, k) <= k * (rate * 30)
  {
    if k > 0 {
      ChunkSums(chunks, k - 1, rate);
      assert ChunkPlaced(chunks, k - 1, rate);
      MulSum(k - 1, 1, rate * 30);
    }
  }

  lemma ChunkNumbersHold(chunks: seq<StemChunk>, k: nat, rate: int)
    requires (forall i | 0 <= i < |chunks| :: ChunkPlaced(chunks, i, rate)) && k < |chunks| <= MAX_CHUNKS && SupportedRate(rate)
    ensures ChunkNumbers(chunks[k])
  {
    ChunkSums(chunks, k, rate);
    assert ChunkPlaced(chunks, k, rate);
    MulMono(k, MAX_CHUNKS, rate * 30);
  }

  ghost predicate IntervalsSpelled(items: seq<Json>, ivs: seq<StemInterval>) {
    |items| == |ivs| && forall i | 0 <= i < |items| :: Permuted(items[i], IntervalFields(ivs[i]))
  }

  ghost predicate ChunksSpelled(items: seq<Json>, chunks: seq<StemChunk>) {
    |items| == |chunks| && forall i | 0 <= i < |items| :: Permuted(items[i], ChunkFields(chunks[i]))
  }

  /** A value that spells out a manifest, whatever the order of its keys. */
  ghost predicate Describes(v: Json, m: Manifest) {
    exists ivs, cs :: IntervalsSpelled(ivs, m.intervals) && ChunksSpelled(cs, m.chunks) && Permuted(v, RootFields(m.shape, ivs, cs))
  }

  lemma IntervalsRead(items: seq<Json>, ivs: seq<StemInterval>, frames: int)
    requires IntervalsSpelled(items, ivs) && SafeInt(frames, 1) && forall i | 0 <= i < |ivs| :: IntervalPlaced(ivs, i, frames)
    ensures ReadAll(items, ReadInterval) == Some(ivs)
  {
    forall i | 0 <= i < |items|
      ensures ReadInterval(items[i]) == Some(ivs[i])
    {
      IntervalNumbers(ivs, i, frames);
      ReadIntervalOf(items[i], ivs[i]);
    }
    ReadAllOf(items, ReadInterval, ivs);
  }

  lemma {:induction false} ChunksRead(items: seq<Json>, chunks: seq<StemChunk>, rate: int)
    requires ChunksSpelled(items, chunks) && |chunks| <= MAX_CHUNKS && SupportedRate(rate)
    requires forall i | 0 <= i < |chunks| :: ChunkPlaced(chunks, i, rate)
    ensures ReadAll(items, ReadChunk) == Some(chunks)
  {
    forall i | 0 <= i < |items|
      ensures ReadChunk(items[i]) == Some(chunks[i])
    {
      ChunkNumbersHold(chunks, i, rate);
      ReadChunkOf(items[i], chunks[i]);
    }
    ReadAllOf(items, ReadChunk, chunks);
  }

  lemma {:induction false} ReadManifestOf(v: Json, m: Manifest)
    requires Describes(v, m) && WellFormed(m)
    ensures ReadManifest(v) == Some(m)
  {
    var ivs, cs :| IntervalsSpelled(ivs, m.intervals) && ChunksSpelled(cs, m.chunks) && Permuted(v, RootFields(m.shape, ivs, cs));
    IntervalsRead(ivs, m.intervals, m.shape.frames);
    ChunksRead(cs, m.chunks, m.shape.sampleRateHz);
    RootMembers(v, m.shape, ivs, cs);
    RootReads(v, m, ivs, cs);
  }

  // ---------------------------------------------------------------- the canonical value

  lemma CanonLeaves(fs: seq<Field>)
    requires forall i | 0 <= i < |fs| :: fs[i].value.Number? || fs[i].value.Text?
    ensures Permuted(Canon(Object(fs)), fs)
  {
    var cfs := CanonFields(fs);
    forall i | 0 <= i < |fs|
      ensures cfs[i] == fs[i]
    {
      assert cfs[i] == CanonField(fs[i]);
    }
    assert cfs == fs;
    SortKeeps(fs);
  }

  predicate Leaf(f: Field) {
    f.value.Text? || f.value.Number?
  }

  /** Leaves stay what they are; lists are taken item by item. */
  lemma {:induction false} CanonMixed(fs: seq<Field>, gs: seq<Field>)
    requires |fs| == |gs| && forall i | 0 <= i < |fs| :: gs[i].key == fs[i].key
    requires forall i | 0 <= i < |fs| :: if fs[i].value.Array? then gs[i].value == Array(CanonItems(fs[i].value.items)) else Leaf(fs[i]) && gs[i] == fs[i]
    ensures CanonFields(fs) == gs
  {
    var cfs := CanonFields(fs);
    forall i | 0 <= i < |fs|
      ensures cfs[i] == gs[i]
    {
      assert cfs[i] == CanonField(fs[i]);
    }
  }

  lemma {:induction false} CanonRoot(shape: Shape, ivs: seq<Json>, cs: seq<Json>)
    ensures CanonFields(RootFields(shape, ivs, cs)) == RootFields(shape, CanonItems(ivs), CanonItems(cs))
  {
    CanonMixed(RootFields(shape, ivs, cs), RootFields(shape, CanonItems(ivs), CanonItems(cs)));
  }

  lemma {:induction false} CanonIntervals(ivs: seq<StemInterval>)
    ensures IntervalsSpelled(CanonItems(IntervalItems(ivs)), ivs)
  {
    forall i | 0 <= i < |ivs|
      ensures Permuted(Canon(IntervalItems(ivs)[i]), IntervalFields(ivs[i]))
    {
      CanonLeaves(IntervalFields(ivs[i]));
    }
  }

  lemma {:induction false} CanonChunks(chunks: seq<StemChunk>)
    ensures ChunksSpelled(CanonItems(ChunkItems(chunks)), chunks)
  {
    forall i | 0 <= i < |chunks|
      ensures Permuted(Canon(ChunkItems(chunks)[i]), ChunkFields(chunks[i]))
    {
      CanonLeaves(ChunkFields(chunks[i]));
    }
  }

  /** The object a manifest is spells it out. */
  lemma ToJsonDescribes(m: Manifest)
    ensures Describes(ToJson(m), m)
  {
    var ivs, cs := IntervalItems(m.intervals), ChunkItems(m.chunks);
    assert IntervalsSpelled(ivs, m.intervals) && ChunksSpelled(cs, m.chunks);
    assert Permuted(ToJson(m), RootFields(m.shape, ivs, cs));
  }

  lemma SortedPermuted(fs: seq<Field>)
    ensures Permuted(Object(SortFields(fs)), fs)
  {
    SortKeeps(fs);
  }

  lemma CanonToJson(m: Manifest)
    ensures Canon(ToJson(m)) == Object(SortFields(RootFields(m.shape, CanonItems(IntervalItems(m.intervals)), CanonItems(ChunkItems(m.chunks)))))
  {
    CanonRoot(m.shape, IntervalItems(m.intervals), ChunkItems(m.chunks));
  }

  lemma Spelled(v: Json, m: Manifest, ivs: seq<Json>, cs: seq<Json>)
    requires IntervalsSpelled(ivs, m.intervals) && ChunksSpelled(cs, m.chunks) && Permuted(v, RootFields(m.shape, ivs, cs))
    ensures Describes(v, m)
  {
  }

  /** The object whose text is the encoding of a manifest spells the manifest, its keys in order. */
  lemma {:induction false} CanonDescribes(m: Manifest)
    ensures Describes(Canon(ToJson(m)), m) && Ordered(Canon(ToJson(m)))
  {
    CanonOrdered(ToJson(m));
    var ivs, cs := CanonItems(IntervalItems(m.intervals)), CanonItems(ChunkItems(m.chunks));
    CanonIntervals(m.intervals);
    CanonChunks(m.chunks);
    CanonToJson(m);
    SortedPermuted(RootFields(m.shape, ivs, cs));
    Spelled(Canon(ToJson(m)), m, ivs, cs);
  }
}
