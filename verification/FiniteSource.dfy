/** The decoder's byte source over one declared chunk of a response (src/stems/decoder-byte-source.ts, src/stems/sparse-resolver.ts). */
module FiniteSource {
  import opened Common
  import opened StemShape
  import opened Sha256Compress
  import opened Sha256Stream
  import opened ResponseCursor
  import opened FlacMetadata

  function HexDigitOf(n: nat): char
    requires n < 16
  {
    if n < 10 then ('0' as int + n) as char else ('a' as int + n - 10) as char
  }

  /** digestHex */
  function Hex(bytes: seq<Byte>): string {
    if |bytes| == 0 then ""
    else Hex(bytes[..|bytes| - 1]) + [HexDigitOf(bytes[|bytes| - 1] / 16), HexDigitOf(bytes[|bytes| - 1] % 16)]
  }

  datatype Input = Input(bytes: seq<Byte>, end: bool)

  /** The declared chunk: the body's first extent bytes; what a short body never brings counts as zeros. */
  function Declared(body: seq<Byte>, extent: nat): (e: seq<Byte>)
    ensures |e| == extent
    ensures extent <= |body| ==> e == body[..extent]
  {
    if extent <= |body| then body[..extent] else body + Zeros(extent - |body|)
  }

  lemma DeclaredSlice(body: seq<Byte>, extent: nat, a: nat, b: nat)
    requires a <= b <= extent && b <= |body|
    ensures Declared(body, extent)[a..b] == body[a..b]
  {
  }

  class Source {
    const cursor: Cursor
    const hash: IncrementalSha256
    const extent: nat
    const sha256: string
    const expected: Option<Expected>
    const backend: Backend

    var offset: nat
    var seenBytes: nat
    /** Bytes the chunk's own reader has handed out. */
    var consumed: nat
    var prepared: bool
    var finished: bool
    var sourceDone: bool

    /** The body from the start of the chunk on, and the position of that start. */
    ghost const body: seq<Byte>
    ghost const start: nat
    /** Where the audio starts, once prepared, and what the decoder has been given of it. */
    ghost var audioAt: nat
    ghost var given: seq<Byte>

    ghost function Encoded(): seq<Byte> {
      Declared(body, extent)
    }

    ghost predicate Counting()
      reads `offset, `seenBytes, `consumed, `sourceDone
    {
      offset == seenBytes == consumed <= extent && offset <= |body| && sourceDone == (offset == extent)
    }

    ghost predicate Aligned()
      reads `offset, cursor
    {
      cursor.Valid() && offset <= |body| && cursor.Rest() == body[offset..] && cursor.position == start + offset
    }

    ghost predicate Hashing()
      reads `offset, `finished, hash, hash.state, hash.block
    {
      hash.Valid() && offset <= |body| && hash.message == body[..offset] && (hash.finished <==> finished)
    }

    ghost predicate Valid()
      reads this, cursor, hash, hash.state, hash.block
    {
      var valid := 1 <= extent && Counting() && Aligned() && Hashing();
      valid
    }

    constructor (cursor: Cursor, extent: nat, sha256: string, expected: Option<Expected>, backend: Backend)
      requires cursor.Valid() && 1 <= extent
      ensures Valid() && this.cursor == cursor && this.extent == extent && this.sha256 == sha256 && this.expected == expected
      ensures body == cursor.Rest() && start == cursor.position && offset == 0 && !prepared && !finished
      ensures fresh(hash) && fresh(hash.state) && fresh(hash.block) && fresh(hash.words)
    {
      this.cursor, this.extent, this.sha256, this.expected, this.backend := cursor, extent, sha256, expected, backend;
      hash := new IncrementalSha256();
      offset, seenBytes, consumed, prepared, finished, sourceDone := 0, 0, 0, false, false, false;
      body, start, audioAt, given := cursor.Rest(), cursor.position, 0, [];
    }

    /** What the chunk's reader delivers: never past the declared extent. */
    method ReadBytes(maximumBytes: int) returns (r: Option<Input>)
      requires Counting() && Aligned() && offset < extent
      modifies `consumed, cursor
      ensures old(cursor.Clean()) ==> cursor.Clean()
      ensures r.Some? ==> 1 <= maximumBytes && cursor.scratchLive
      ensures r.Some? ==> var n := Min(maximumBytes, extent - offset);
        offset + n <= |body| && r.value == Input(body[offset..offset + n], offset + n == extent)
        && cursor.Valid() && cursor.Rest() == body[offset + n..] && cursor.position == start + offset + n && consumed == offset + n
      ensures r.None? && old(cursor.Clean()) && 1 <= maximumBytes <= MAX_INPUT_BYTES && !old(cursor.scratchLive) ==>
        |body| < offset + Min(maximumBytes, extent - offset)
    {
      var length := Min(maximumBytes, extent - consumed);
      var bytes := cursor.ReadChunk(length);
      if bytes.None? {
        return None;
      }
      consumed := consumed + |bytes.value|;
      assert body[offset..][..length] == body[offset..offset + length] && body[offset..][length..] == body[offset + length..];
      return Some(Input(bytes.value, consumed == extent));
    }

    /** The next input in order, hashed once; asked within the extent it fails only if the body is short. */
    method Pull(maximumBytes: int) returns (r: Option<Input>)
      requires Valid() && !finished
      modifies `offset, `seenBytes, `consumed, `sourceDone, cursor
      modifies hash`blockBytes, hash`totalBytes, hash`message, hash`blocks, hash.state, hash.block, hash.words
      ensures old(cursor.Clean()) ==> cursor.Clean()
      ensures r.Some? ==> Valid() && cursor.scratchLive && 1 <= maximumBytes <= MAX_INPUT_BYTES && old(offset) < extent
      ensures r.Some? ==> offset == old(offset) + Min(maximumBytes, extent - old(offset))
      ensures r.Some? ==> r.value == Input(Encoded()[old(offset)..offset], offset == extent)
      ensures r.None? && old(cursor.Clean()) && 1 <= maximumBytes <= MAX_INPUT_BYTES && !old(cursor.scratchLive) && old(offset) < extent ==>
        |body| < extent
    {
      if maximumBytes < 1 || maximumBytes > MAX_INPUT_BYTES || offset >= extent {
        return None;
      }
      r := ReadBytes(maximumBytes);
      if r.None? {
        return None;
      }
      DeclaredSlice(body, extent, offset, consumed);
      Account(r.value);
    }

    /** Hashes an input and counts it. */
    method Account(input: Input)
      requires Hashing() && !finished && offset == seenBytes && offset + |input.bytes| == consumed <= extent && consumed <= |body|
      requires input == Input(body[offset..consumed], consumed == extent)
      modifies `offset, `seenBytes, `sourceDone
      modifies hash`blockBytes, hash`totalBytes, hash`message, hash`blocks, hash.state, hash.block, hash.words
      ensures Hashing() && Counting() && offset == consumed
    {
      var ok := hash.Update(input.bytes, backend);
      assert body[..consumed] == body[..offset] + body[offset..consumed];
      offset, seenBytes := offset + |input.bytes|, seenBytes + |input.bytes|;
      sourceDone := input.end || offset == extent;
    }

    /** A section of the encoding, in as many pulls as it takes; every borrow is released. */
    method ReadExact(length: nat) returns (r: Option<seq<Byte>>)
      requires Valid() && !finished && !cursor.scratchLive
      modifies `offset, `seenBytes, `consumed, `sourceDone, cursor
      modifies hash`blockBytes, hash`totalBytes, hash`message, hash`blocks, hash.state, hash.block, hash.words
      ensures old(cursor.Clean()) ==> cursor.Clean()
      ensures r.Some? ==> Valid() && !cursor.scratchLive && offset == old(offset) + length && r.value == Encoded()[old(offset)..offset]
      ensures r.None? && old(cursor.Clean()) ==> |body| < extent || extent < old(offset) + length
    {
      var output: seq<Byte> := [];
      while |output| < length
        invariant Valid() && !cursor.scratchLive && (old(cursor.Clean()) ==> cursor.Clean())
        invariant |output| <= length && offset == old(offset) + |output| && output == Encoded()[old(offset)..offset]
        decreases length - |output|
      {
        var input := Pull(Min(MAX_INPUT_BYTES, length - |output|));
        if input.None? {
          return None;
        }
        SliceJoins(Encoded(), old(offset), old(offset) + |output|, offset);
        output := output + input.value.bytes;
        cursor.Release();
      }
      return Some(output);
    }

    /** Hashes a metadata payload without keeping it. */
    method Skip(length: nat) returns (ok: bool)
      requires Valid() && !finished && !cursor.scratchLive
      modifies `offset, `seenBytes, `consumed, `sourceDone, cursor
      modifies hash`blockBytes, hash`totalBytes, hash`message, hash`blocks, hash.state, hash.block, hash.words
      ensures old(cursor.Clean()) ==> cursor.Clean()
      ensures ok ==> Valid() && !cursor.scratchLive && offset == old(offset) + length
      ensures !ok && old(cursor.Clean()) ==> |body| < extent || extent < old(offset) + length
    {
      var skipped := length;
      while skipped > 0
        invariant Valid() && !cursor.scratchLive && (old(cursor.Clean()) ==> cursor.Clean())
        invariant 0 <= skipped <= length && offset + skipped == old(offset) + length
        decreases skipped
      {
        var input := Pull(Min(MAX_INPUT_BYTES, skipped));
        if input.None? {
          return false;
        }
        skipped := skipped - |input.value.bytes|;
        cursor.Release();
      }
      return true;
    }

    /** The block the encoding has at an offset, if its header is there and accepted. */
    ghost function BlockAt(at: nat, count: nat): Option<Block> {
      if at + 4 > extent then None else AcceptedBlock(Encoded()[at..at + 4], at, count, extent)
    }

    /** One metadata block: its header, which the scanner has to accept at this very offset, and its payload. */
    method TakeBlock(scanner: MetadataScanner) returns (ok: bool)
      requires Valid() && !finished && !cursor.scratchLive && !scanner.complete && scanner.nextOffset == offset
      modifies scanner, `offset, `seenBytes, `consumed, `sourceDone, cursor
      modifies hash`blockBytes, hash`totalBytes, hash`message, hash`blocks, hash.state, hash.block, hash.words
      ensures old(cursor.Clean()) ==> cursor.Clean()
      ensures ok ==> Valid() && !cursor.scratchLive && scanner.nextOffset == offset && scanner.blockCount == old(scanner.blockCount) + 1
      ensures ok ==> old(offset) + 4 <= offset < extent
      ensures ok ==> BlockAt(old(offset), old(scanner.blockCount)) == Some(Block(offset - old(offset) - 4, offset, scanner.complete))
      ensures !ok && old(cursor.Clean()) ==> |body| < extent || BlockAt(old(offset), old(scanner.blockCount)).None?
    {
      ghost var before, count := offset, scanner.blockCount;
      var header := ReadExact(4);
      if header.None? {
        return false;
      }
      assert before + 4 <= extent && header.value == Encoded()[before..before + 4];
      var metadata := scanner.AcceptHeader(header.value, extent);
      assert metadata == BlockAt(before, count);
      if metadata.None? {
        return false;
      }
      ok := Skip(metadata.value.next - offset);
    }

    ghost function Ahead(complete: bool, count: nat): Option<nat>
      reads `offset
    {
      if complete then Some(offset) else AudioFrom(Encoded(), offset, count)
    }

    /** The walk consumes and hashes the metadata and stops exactly where the audio starts. */
    method WalkMetadata(last: bool) returns (ok: bool)
      requires Valid() && !finished && !cursor.scratchLive && offset == PROBE_BYTES
      modifies `offset, `seenBytes, `consumed, `sourceDone, cursor
      modifies hash`blockBytes, hash`totalBytes, hash`message, hash`blocks, hash.state, hash.block, hash.words
      ensures old(cursor.Clean()) ==> cursor.Clean()
      ensures ok ==> Valid() && !cursor.scratchLive
      ensures ok ==> if last then offset == PROBE_BYTES else AudioFrom(Encoded(), PROBE_BYTES, 1) == Some(offset)
      ensures !ok && old(cursor.Clean()) ==> |body| < extent || (!last && AudioFrom(Encoded(), PROBE_BYTES, 1).None?)
    {
      var scanner := new MetadataScanner(last);
      while !scanner.complete
        invariant Valid() && !cursor.scratchLive && (old(cursor.Clean()) ==> cursor.Clean()) && scanner.nextOffset == offset
        invariant last ==> scanner.complete && offset == PROBE_BYTES
        invariant !last ==> AudioFrom(Encoded(), PROBE_BYTES, 1) == Ahead(scanner.complete, scanner.blockCount)
        decreases extent - offset
      {
        var taken := TakeBlock(scanner);
        if !taken {
          return false;
        }
      }
      return true;
    }

    /** Frames and PCM bytes of the chunk, declared or from STREAMINFO. */
    function Totals(info: StreamInfo): Option<(int, int)> {
      var frames := if expected.Some? then expected.value.frames else info.totalSamples;
      var bytes := if expected.Some? then expected.value.canonicalBytes else frames * FrameBytes(info.channels, info.bitDepth);
      if SafeInt(frames, 1) && SafeInt(bytes, 1) then Some((frames, bytes)) else None
    }

    /** The encoding has no acceptable metadata, no audio behind it, or no usable size. */
    ghost predicate Unplayable() {
      AudioStart(Encoded(), expected).None? || Totals(ParsedStreamInfo(Encoded()[..PROBE_BYTES], expected).value).None?
    }

    lemma {:induction false} StartAfterWalk(info: StreamInfo)
      requires PROBE_BYTES <= extent && ParsedStreamInfo(Encoded()[..PROBE_BYTES], expected) == Some(info)
      ensures AudioStart(Encoded(), expected) ==
        if Encoded()[4] < 128 then AudioFrom(Encoded(), PROBE_BYTES, 1) else if extent > PROBE_BYTES then Some(PROBE_BYTES) else None
      ensures Encoded()[4] < 128 && AudioStart(Encoded(), expected).Some? ==> PROBE_BYTES < AudioStart(Encoded(), expected).value < extent
    {
      if Encoded()[4] < 128 && AudioFrom(Encoded(), PROBE_BYTES, 1).Some? {
        AudioInside(Encoded(), PROBE_BYTES, 1);
      }
    }

    /** The decoder has been given exactly the bytes from the start of the audio to the cursor. */
    ghost predicate Giving()
      reads `offset, `given, `audioAt
    {
      audioAt <= offset <= extent && given == Encoded()[audioAt..offset]
    }

    /** The signature and the first block: the stream information, and whether it is the only one. */
    method Probe() returns (info: Option<StreamInfo>, last: bool)
      requires Valid() && !finished && offset == 0 && !cursor.scratchLive
      modifies `offset, `seenBytes, `consumed, `sourceDone, cursor
      modifies hash`blockBytes, hash`totalBytes, hash`message, hash`blocks, hash.state, hash.block, hash.words
      ensures old(cursor.Clean()) ==> cursor.Clean()
      ensures info.Some? ==> Valid() && !cursor.scratchLive && offset == PROBE_BYTES <= extent && last == (Encoded()[4] >= 128)
      ensures info.Some? ==> ParsedStreamInfo(Encoded()[..PROBE_BYTES], expected) == info
      ensures info.None? && old(cursor.Clean()) ==>
        |body| < extent || extent < PROBE_BYTES || ParsedStreamInfo(Encoded()[..PROBE_BYTES], expected).None?
    {
      var probe := ReadExact(PROBE_BYTES);
      if probe.None? {
        return None, false;
      }
      assert probe.value == Encoded()[..PROBE_BYTES] && probe.value[4] == Encoded()[4];
      return ParsedStreamInfo(probe.value, expected), probe.value[4] >= 128;
    }

    /** Up to the start of the audio. */
    method Locate() returns (info: Option<StreamInfo>)
      requires Valid() && !finished && offset == 0 && !cursor.scratchLive
      modifies `offset, `seenBytes, `consumed, `sourceDone, cursor
      modifies hash`blockBytes, hash`totalBytes, hash`message, hash`blocks, hash.state, hash.block, hash.words
      ensures old(cursor.Clean()) ==> cursor.Clean()
      ensures info.Some? ==> Valid() && !cursor.scratchLive && AudioStart(Encoded(), expected) == Some(offset)
      ensures info.Some? ==> PROBE_BYTES <= extent && ParsedStreamInfo(Encoded()[..PROBE_BYTES], expected) == info
      ensures info.None? && old(cursor.Clean()) ==> |body| < extent || AudioStart(Encoded(), expected).None?
    {
      var last;
      info, last := Probe();
      if info.Some? {
        StartAfterWalk(info.value);
        var ok := WalkMetadata(last);
        if !ok || offset >= extent {
          info := None;
        }
      }
    }

    /** Preparing reads the metadata and nothing of the audio. */
    method Prepare() returns (r: Option<(StreamInfo, int, int)>)
      requires Valid() && !prepared && !finished && offset == 0 && !cursor.scratchLive
      modifies `offset, `seenBytes, `consumed, `sourceDone, `prepared, `audioAt, `given, cursor
      modifies hash`blockBytes, hash`totalBytes, hash`message, hash`blocks, hash.state, hash.block, hash.words
      ensures old(cursor.Clean()) ==> cursor.Clean()
      ensures r.Some? ==> Valid() && prepared && !cursor.scratchLive && AudioStart(Encoded(), expected) == Some(audioAt) && audioAt == offset && Giving()
      ensures r.Some? ==> ParsedStreamInfo(Encoded()[..PROBE_BYTES], expected) == Some(r.value.0)
      ensures r.Some? ==> Totals(r.value.0) == Some((r.value.1, r.value.2))
      ensures r.None? && old(cursor.Clean()) ==> |body| < extent || Unplayable()
    {
      var info := Locate();
      if info.None? {
        return None;
      }
      var totals := Totals(info.value);
      if totals.None? {
        return None;
      }
      prepared, audioAt, given := true, offset, [];
      return Some((info.value, totals.value.0, totals.value.1));
    }

    /** One input credit: the next bytes of the audio, and whether they are its last. */
    method Read(maximumBytes: int) returns (r: Option<Input>)
      requires Valid() && (prepared ==> Giving())
      modifies `offset, `seenBytes, `consumed, `sourceDone, `given, cursor
      modifies hash`blockBytes, hash`totalBytes, hash`message, hash`blocks, hash.state, hash.block, hash.words
      ensures old(cursor.Clean()) ==> cursor.Clean()
      ensures r.Some? ==> prepared && !finished && Valid() && Giving() && cursor.scratchLive
      ensures r.Some? ==> |r.value.bytes| >= 1 && given == old(given) + r.value.bytes && r.value.end == (offset == extent)
      ensures r.None? && old(cursor.Clean()) && !old(cursor.scratchLive) ==> !prepared || finished || old(sourceDone) || |body| < extent || !(1 <= maximumBytes <= MAX_INPUT_BYTES)
    {
      if !prepared || finished || sourceDone {
        return None;
      }
      ghost var before := offset;
      r := Pull(maximumBytes);
      if r.Some? {
        given := given + r.value.bytes;
        assert Encoded()[audioAt..offset] == Encoded()[audioAt..before] + Encoded()[before..offset];
      }
    }

    /** Whatever the decoder left is hashed too. */
    method DrainRest() returns (ok: bool)
      requires Valid() && !finished && !cursor.scratchLive
      modifies `offset, `seenBytes, `consumed, `sourceDone, cursor
      modifies hash`blockBytes, hash`totalBytes, hash`message, hash`blocks, hash.state, hash.block, hash.words
      ensures old(cursor.Clean()) ==> cursor.Clean()
      ensures ok ==> Valid() && !cursor.scratchLive && offset == extent
      ensures !ok && old(cursor.Clean()) ==> |body| < extent
    {
      while !sourceDone
        invariant Valid() && !cursor.scratchLive && (old(cursor.Clean()) ==> cursor.Clean())
        decreases extent - offset
      {
        var input := Pull(MAX_INPUT_BYTES);
        if input.None? {
          return false;
        }
        cursor.Release();
      }
      return true;
    }

    /**
      * The chunk verifies exactly if its declared bytes have its declared digest, and then the response stands at the
      * first byte behind it.
      */
    method Finish() returns (ok: bool)
      requires Valid() && prepared && !finished && !cursor.scratchLive
      modifies `offset, `seenBytes, `consumed, `sourceDone, `finished, cursor, hash, hash.state, hash.block, hash.words
      ensures old(cursor.Clean()) ==> cursor.Clean()
      ensures ok ==> finished && extent <= |body| && Hex(Sha256Of(body[..extent])) == sha256
      ensures ok ==> cursor.Valid() && cursor.position == start + extent && cursor.Rest() == body[extent..] && !cursor.scratchLive
      ensures !ok && old(cursor.Clean()) ==> |body| < extent || Hex(Sha256Of(body[..extent])) != sha256
    {
      var drained := DrainRest();
      if !drained {
        return false;
      }
      finished := true;
      var digest := hash.Digest(backend);
      return seenBytes == extent && offset == extent && Hex(digest.value) == sha256;
    }
  }
}
