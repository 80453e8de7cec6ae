/** Identity and native PCM shape, shared by manifests, indexes and markers. */
module StemShape {
  import opened Common
  import opened CanonicalJson

  predicate HexDigit(c: char) {
    '0' <= c <= '9' || 'a' <= c <= 'f'
  }

  predicate ValidDigest(s: string) {
    |s| == 64 && forall i :: 0 <= i < 64 ==> HexDigit(s[i])
  }

  /** "blake3:" and 64 lowercase hex digits. */
  predicate ValidIdentity(s: string) {
    |s| == 71 && s[..7] == "blake3:" && ValidDigest(s[7..])
  }

  predicate SupportedRate(hz: int) {
    hz == 44100 || hz == 48000 || hz == 88200 || hz == 96000
  }

  datatype Shape = Shape(identity: Plain, sampleRateHz: int, channels: int, bitDepth: int, frames: int)

  /** Bytes of one interleaved frame: channels * (bitDepth / 8) for the two depths there are. */
  function FrameBytes(channels: int, bitDepth: int): int {
    if bitDepth == 24 then 3 * channels else 2 * channels
  }

  function ShapeFrameBytes(s: Shape): int {
    FrameBytes(s.channels, s.bitDepth)
  }

  function CanonicalBytes(s: Shape): int {
    s.frames * ShapeFrameBytes(s)
  }

  predicate ValidShape(s: Shape) {
    && ValidIdentity(s.identity)
    && SupportedRate(s.sampleRateHz)
    && (s.channels == 1 || s.channels == 2)
    && (s.bitDepth == 16 || s.bitDepth == 24)
    && SafeInt(s.frames, 1)
    && CanonicalBytes(s) <= MAX_SAFE
  }
}
