/** STREAMINFO and the walk over FLAC metadata blocks (src/stems/native-flac-metadata.ts; RFC 9639, sections 8.1 and 8.2). */
module FlacMetadata {
  import opened Common
  import opened StemShape

  const PROBE_BYTES := 42
  const MAX_BLOCKS := 128

  function U16(b: seq<Byte>, at: nat): int
    requires at + 2 <= |b|
  {
    b[at] as int * 256 + b[at + 1] as int
  }

  function U24(b: seq<Byte>, at: nat): int
    requires at + 3 <= |b|
  {
    b[at] as int * 65536 + b[at + 1] as int * 256 + b[at + 2] as int
  }

  // ---------------------------------------------------------------- metadata blocks

  datatype Block = Block(length: int, next: int, last: bool)

  /** What a block header at an offset says, if the package accepts it. */
  function AcceptedBlock(header: seq<Byte>, at: int, count: int, total: int): Option<Block> {
    if |header| != 4 || count >= MAX_BLOCKS then None
    else
      var kind, next := header[0] as int % 128, at + 4 + U24(header, 1);
      if kind == 0 || kind > 6 || next >= total then None else Some(Block(U24(header, 1), next, header[0] >= 128))
  }

  /** The first byte behind the metadata blocks from an offset on. */
  function AudioFrom(encoded: seq<Byte>, at: nat, count: nat): Option<nat>
    decreases MAX_BLOCKS - count
  {
    if count >= MAX_BLOCKS || at + 4 > |encoded| then None
    else
      match AcceptedBlock(encoded[at..at + 4], at, count, |encoded|)
      case None => None
      case Some(b) => if b.last then Some(b.next) else AudioFrom(encoded, b.next, count + 1)
  }

  /** The audio lies inside the encoding, behind at least the probe. */
  lemma {:induction false} AudioInside(encoded: seq<Byte>, at: nat, count: nat)
    requires AudioFrom(encoded, at, count).Some?
    ensures at + 4 <= AudioFrom(encoded, at, count).value < |encoded|
    decreases MAX_BLOCKS - count
  {
    var b := AcceptedBlock(encoded[at..at + 4], at, count, |encoded|).value;
    if !b.last {
      AudioInside(encoded, b.next, count + 1);
    }
  }

  /** The walker: it asks for one header after the other and keeps where the next one is. */
  class MetadataScanner {
    var nextOffset: nat
    var blockCount: nat
    var complete: bool

    constructor (streamInfoIsFinal: bool)
      ensures nextOffset == PROBE_BYTES && blockCount == 1 && complete == streamInfoIsFinal
    {
      nextOffset, blockCount, complete := PROBE_BYTES, 1, streamInfoIsFinal;
    }

    method AcceptHeader(header: seq<Byte>, total: int) returns (r: Option<Block>)
      requires !complete
      modifies this
      ensures r == AcceptedBlock(header, old(nextOffset), old(blockCount), total)
      ensures r.None? ==> nextOffset == old(nextOffset) && blockCount == old(blockCount) && !complete
      ensures r.Some? ==> nextOffset == r.value.next && blockCount == old(blockCount) + 1 && complete == r.value.last
    {
      if |header| != 4 || blockCount >= MAX_BLOCKS {
        return None;
      }
      var kind := header[0] as int % 128;
      if kind == 0 || kind > 6 {
        return None;
      }
      var length := U24(header, 1);
      var next := nextOffset + 4 + length;
      if next >= total {
        return None;
      }
      r := Some(Block(length, next, header[0] >= 128));
      blockCount, nextOffset, complete := blockCount + 1, next, header[0] >= 128;
    }
  }

  // ---------------------------------------------------------------- the blocks of an encoder

  /** A metadata block as section 8 lays it out. */
  datatype Metadata = Metadata(kind: int, payload: seq<Byte>)

  predicate Writable(m: Metadata) {
    1 <= m.kind <= 6 && |m.payload| < 0x100_0000
  }

  function BlockHeader(m: Metadata, last: bool): (h: seq<Byte>)
    requires Writable(m)
    ensures |h| == 4
  {
    [(if last then 128 else 0) + m.kind, |m.payload| / 65536, |m.payload| / 256 % 256, |m.payload| % 256]
  }

  /** Blocks in order, the last-block flag on the last. */
  function Written(blocks: seq<Metadata>): seq<Byte>
    requires forall m | m in blocks :: Writable(m)
  {
    if |blocks| == 0 then [] else BlockHeader(blocks[0], |blocks| == 1) + blocks[0].payload + Written(blocks[1..])
  }

  lemma HeaderAccepted(m: Metadata, last: bool, at: int, count: int, total: int)
    requires Writable(m) && count < MAX_BLOCKS && at + 4 + |m.payload| < total
    ensures AcceptedBlock(BlockHeader(m, last), at, count, total) == Some(Block(|m.payload|, at + 4 + |m.payload|, last))
  {
    var n := |m.payload|;
    var high := n / 256;
    assert n == 256 * high + n % 256 && n / 65536 == high / 256;
  }

  /** However many blocks were written, within the limit, the walk ends exactly behind the last. */
  lemma {:induction false} WalkFindsAudio(front: seq<Byte>, blocks: seq<Metadata>, audio: seq<Byte>, count: nat)
    requires (forall m | m in blocks :: Writable(m)) && 0 < |blocks| && count + |blocks| <= MAX_BLOCKS && |audio| > 0
    ensures AudioFrom(front + Written(blocks) + audio, |front|, count) == Some(|front| + |Written(blocks)|)
    decreases |blocks|
  {
    var encoded, m := front + Written(blocks) + audio, blocks[0];
    var header := BlockHeader(m, |blocks| == 1);
    var rest := blocks[1..];
    assert Written(blocks) == header + m.payload + Written(rest);
    assert encoded[|front|..|front| + 4] == header;
    HeaderAccepted(m, |blocks| == 1, |front|, count, |encoded|);
    if |blocks| == 1 {
      assert Written(rest) == [];
    } else {
      var further := front + header + m.payload;
      assert encoded == further + Written(rest) + audio;
      WalkFindsAudio(further, rest, audio, count + 1);
    }
  }

  // ---------------------------------------------------------------- STREAMINFO

  datatype StreamInfo = StreamInfo(sampleRateHz: int, channels: int, bitDepth: int, totalSamples: int)

  /** What the manifest declares of a chunk. */
  datatype Expected = Expected(sampleRateHz: int, channels: int, bitDepth: int, frames: int, canonicalBytes: int)

  /** Bytes most significant first, as a number. */
  function Unsigned(b: seq<Byte>, at: nat, n: nat): nat
    requires at + n <= |b|
    decreases n, b
  {
    if n == 0 then 0 else 256 * Unsigned(b, at, n - 1) + b[at + n - 1]
  }

  /** Sample rate in 20 bits, channels less one in 3, bits a sample less one in 5, samples in 36. */
  function Unpack(packed: nat): StreamInfo {
    StreamInfo(packed / 0x1000_0000_0000 % 0x10_0000, packed / 0x200_0000_0000 % 8 + 1, packed / 0x10_0000_0000 % 32 + 1, packed % 0x10_0000_0000)
  }

  function Pack(info: StreamInfo): int {
    ((info.sampleRateHz * 8 + (info.channels - 1)) * 32 + (info.bitDepth - 1)) * 0x10_0000_0000 + info.totalSamples
  }

  /** Every field is read from the bits section 8.2 puts it in. */
  lemma UnpackPack(info: StreamInfo)
    requires 0 <= info.sampleRateHz < 0x10_0000 && 1 <= info.channels <= 8 && 1 <= info.bitDepth <= 32 && 0 <= info.totalSamples < 0x10_0000_0000
    ensures 0 <= Pack(info) && Unpack(Pack(info)) == info
  {
    var high := info.sampleRateHz * 8 + (info.channels - 1);
    var mid := high * 32 + (info.bitDepth - 1);
    var packed := Pack(info);
    assert packed == mid * 0x10_0000_0000 + info.totalSamples;
    assert packed / 0x10_0000_0000 == mid;
    assert packed / 0x200_0000_0000 == mid / 32 == high;
    assert packed / 0x1000_0000_0000 == high / 8 == info.sampleRateHz;
  }

  predicate Agrees(info: StreamInfo, expected: Expected) {
    && info.sampleRateHz == expected.sampleRateHz && info.channels == expected.channels && info.bitDepth == expected.bitDepth
    && (info.totalSamples != 0 ==>
          info.totalSamples == expected.frames && info.totalSamples * FrameBytes(info.channels, info.bitDepth) == expected.canonicalBytes)
  }

  /** The probe of 42 bytes: the marker, the first block header and its STREAMINFO. */
  function ParsedStreamInfo(probe: seq<Byte>, expected: Option<Expected>): Option<StreamInfo> {
    if |probe| != PROBE_BYTES || probe[..4] != [0x66, 0x4c, 0x61, 0x43] || probe[4] % 128 != 0 || U24(probe, 5) != 34 then None
    else if U16(probe, 8) < 16 || U16(probe, 10) < U16(probe, 8) then None
    else if U24(probe, 12) != 0 && U24(probe, 15) != 0 && U24(probe, 12) > U24(probe, 15) then None
    else
      var info := Unpack(Unsigned(probe, 18, 8));
      if !SupportedRate(info.sampleRateHz) || info.channels > 2 || (info.bitDepth != 16 && info.bitDepth != 24) then None
      else if expected.Some? && !Agrees(info, expected.value) then None
      else Some(info)
  }

  /** What the decoder is given in place of the metadata: the same STREAMINFO, marked as the last block. */
  function Description(probe: seq<Byte>): seq<Byte>
    requires |probe| == PROBE_BYTES
  {
    probe[4 := 0x80]
  }

  lemma {:induction false} UnsignedSame(a: seq<Byte>, b: seq<Byte>, at: nat, n: nat)
    requires at + n <= |a| && at + n <= |b| && forall i | at <= i < at + n :: a[i] == b[i]
    ensures Unsigned(a, at, n) == Unsigned(b, at, n)
  {
    if n > 0 {
      UnsignedSame(a, b, at, n - 1);
    }
  }

  lemma DescriptionParses(probe: seq<Byte>, expected: Option<Expected>)
    requires ParsedStreamInfo(probe, expected).Some?
    ensures |probe| == PROBE_BYTES && Description(probe)[4] >= 128
    ensures ParsedStreamInfo(Description(probe), expected) == ParsedStreamInfo(probe, expected)
  {
    UnsignedSame(probe, Description(probe), 18, 8);
    assert Description(probe)[..4] == probe[..4];
  }

  /** Where the audio of an encoded chunk starts, if its metadata is acceptable. */
  function AudioStart(encoded: seq<Byte>, expected: Option<Expected>): Option<nat> {
    if |encoded| < PROBE_BYTES || ParsedStreamInfo(encoded[..PROBE_BYTES], expected).None? then None
    else if encoded[4] >= 128 then if |encoded| > PROBE_BYTES then Some(PROBE_BYTES) else None
    else AudioFrom(encoded, PROBE_BYTES, 1)
  }

  /** An encoded chunk of any legal metadata blocks: its audio is what follows the last of them. */
  lemma {:induction false} AudioFound(probe: seq<Byte>, blocks: seq<Metadata>, audio: seq<Byte>, expected: Option<Expected>)
    requires ParsedStreamInfo(probe, expected).Some? && (forall m | m in blocks :: Writable(m)) && |blocks| < MAX_BLOCKS && |audio| > 0
    requires |probe| == PROBE_BYTES
    requires probe[4] >= 128 <==> |blocks| == 0
    ensures AudioStart(probe + Written(blocks) + audio, expected) == Some(PROBE_BYTES + |Written(blocks)|)
    ensures (probe + Written(blocks) + audio)[PROBE_BYTES + |Written(blocks)|..] == audio
  {
    var encoded := probe + Written(blocks) + audio;
    assert encoded[..PROBE_BYTES] == probe;
    if |blocks| > 0 {
      WalkFindsAudio(probe, blocks, audio, 1);
    }
  }
}
