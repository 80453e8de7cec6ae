/** Interleaved little-endian PCM to per-channel planes (src/stems/pump.ts, deinterleaveCanonicalPcm). */
module PcmSamples {
  import opened Common
  import opened StemShape

  /** Two's complement value of a little-endian sample; -0x8000 and -0x800000 are reached. */
  function Signed(bytes: seq<Byte>, bitDepth: int): int
    requires (bitDepth == 16 && |bytes| == 2) || (bitDepth == 24 && |bytes| == 3)
  {
    if bitDepth == 16 then
      var v := bytes[0] as int + 256 * (bytes[1] as int);
      if v >= 0x8000 then v - 0x1_0000 else v
    else
      var v := bytes[0] as int + 256 * (bytes[1] as int) + 65536 * (bytes[2] as int);
      if v >= 0x80_0000 then v - 0x100_0000 else v
  }

  function FullScale(bitDepth: int): (scale: int)
    requires bitDepth == 16 || bitDepth == 24
    ensures scale > 0
  {
    if bitDepth == 16 then 32768 else 8388608
  }

  /** The float written for a sample; both divisions are exact in single precision. */
  function Sample(bytes: seq<Byte>, bitDepth: int): real
    requires (bitDepth == 16 && |bytes| == 2) || (bitDepth == 24 && |bytes| == 3)
  {
    Signed(bytes, bitDepth) as real / FullScale(bitDepth) as real
  }

  /** The little-endian bytes of a signed sample. */
  function Encode(value: int, bitDepth: int): seq<Byte>
    requires bitDepth == 16 || bitDepth == 24
    requires -FullScale(bitDepth) <= value < FullScale(bitDepth)
  {
    var v := if value < 0 then value + 2 * FullScale(bitDepth) else value;
    if bitDepth == 16 then [v % 256, v / 256] else [v % 256, v / 256 % 256, v / 65536]
  }

  /** Every byte pattern is a sample, and the sample determines the bytes. */
  lemma {:induction false} SampleFaithful(bytes: seq<Byte>, bitDepth: int)
    requires (bitDepth == 16 && |bytes| == 2) || (bitDepth == 24 && |bytes| == 3)
    ensures -FullScale(bitDepth) <= Signed(bytes, bitDepth) < FullScale(bitDepth)
    ensures Encode(Signed(bytes, bitDepth), bitDepth) == bytes
  {
    var v := Signed(bytes, bitDepth);
    var u := if v < 0 then v + 2 * FullScale(bitDepth) else v;
    if bitDepth == 16 {
      assert u == bytes[0] as int + 256 * (bytes[1] as int);
    } else {
      var high := bytes[1] as int + 256 * (bytes[2] as int);
      assert u == bytes[0] as int + 256 * high;
      assert u / 256 == high;
    }
  }

  /** The floats lie in [-1, 1) and scale back to the samples. */
  lemma SampleRange(bytes: seq<Byte>, bitDepth: int)
    requires (bitDepth == 16 && |bytes| == 2) || (bitDepth == 24 && |bytes| == 3)
    ensures -1.0 <= Sample(bytes, bitDepth) < 1.0
    ensures Sample(bytes, bitDepth) * FullScale(bitDepth) as real == Signed(bytes, bitDepth) as real
  {
    SampleFaithful(bytes, bitDepth);
    var n := Signed(bytes, bitDepth);
    if bitDepth == 16 {
      assert Sample(bytes, bitDepth) == n as real / 32768.0;
    } else {
      assert Sample(bytes, bitDepth) == n as real / 8388608.0;
    }
  }

  predicate Layout(channels: int, bitDepth: int) {
    (channels == 1 || channels == 2) && (bitDepth == 16 || bitDepth == 24)
  }

  /** Byte position of one sample. */
  function At(frame: int, channel: int, channels: int, bitDepth: int): int {
    frame * FrameBytes(channels, bitDepth) + channel * (bitDepth / 8)
  }

  lemma AtInside(frame: int, channel: int, channels: int, bitDepth: int, frames: int)
    requires Layout(channels, bitDepth) && 0 <= frame < frames && 0 <= channel < channels
    ensures 0 <= At(frame, channel, channels, bitDepth)
    ensures At(frame, channel, channels, bitDepth) + bitDepth / 8 <= frames * FrameBytes(channels, bitDepth)
  {
    var fb := FrameBytes(channels, bitDepth);
    MulMono(frame + 1, frames, fb);
    MulSum(frame, 1, fb);
  }

  function SampleAt(bytes: seq<Byte>, frame: int, channel: int, channels: int, bitDepth: int): real
    requires Layout(channels, bitDepth) && 0 <= frame && 0 <= channel < channels
    requires (frame + 1) * FrameBytes(channels, bitDepth) <= |bytes|
  {
    AtInside(frame, channel, channels, bitDepth, frame + 1);
    var at := At(frame, channel, channels, bitDepth);
    Sample(bytes[at..at + bitDepth / 8], bitDepth)
  }

  /** One plane per channel, for frames [from, from + n). */
  function Planes(bytes: seq<Byte>, from: int, n: nat, channels: int, bitDepth: int): (r: seq<seq<real>>)
    requires Layout(channels, bitDepth) && 0 <= from && (from + n) * FrameBytes(channels, bitDepth) <= |bytes|
    ensures |r| == channels
  {
    seq(channels, c requires 0 <= c < channels =>
      seq(n, f requires 0 <= f < n =>
        FrameWithin(from + f, from + n, channels, bitDepth, |bytes|);
        SampleAt(bytes, from + f, c, channels, bitDepth)))
  }

  lemma FrameWithin(frame: int, frames: int, channels: int, bitDepth: int, size: int)
    requires Layout(channels, bitDepth) && 0 <= frame < frames && frames * FrameBytes(channels, bitDepth) <= size
    ensures (frame + 1) * FrameBytes(channels, bitDepth) <= size
  {
    MulMono(frame + 1, frames, FrameBytes(channels, bitDepth));
  }

  lemma WindowSample(
    pcm: seq<Byte>, bytes: seq<Byte>, start: int, frame: int, channel: int, channels: int, bitDepth: int, base: int)
    requires Layout(channels, bitDepth) && 0 <= start <= frame && 0 <= channel < channels
    requires base == start * FrameBytes(channels, bitDepth) && 0 <= base && base + |bytes| <= |pcm|
    requires bytes == pcm[base..base + |bytes|]
    requires (frame - start + 1) * FrameBytes(channels, bitDepth) <= |bytes|
    ensures (frame + 1) * FrameBytes(channels, bitDepth) <= |pcm|
    ensures SampleAt(bytes, frame - start, channel, channels, bitDepth) == SampleAt(pcm, frame, channel, channels, bitDepth)
  {
    var fb := FrameBytes(channels, bitDepth);
    MulSum(frame - start + 1, start, fb);
    AtInside(frame - start, channel, channels, bitDepth, frame - start + 1);
    AtInside(frame, channel, channels, bitDepth, frame + 1);
    MulSum(frame - start, start, fb);
    var a, b := At(frame - start, channel, channels, bitDepth), At(frame, channel, channels, bitDepth);
    assert b == a + base;
    var w := bitDepth / 8;
    SliceOfSlice(pcm, base, base + |bytes|, b, b + w);
  }

  /** Reading through a window is reading the source at the window's place. */
  lemma WindowPlanes(
    pcm: seq<Byte>, bytes: seq<Byte>, start: int, from: int, n: nat, channels: int, bitDepth: int, base: int)
    requires Layout(channels, bitDepth) && 0 <= start <= from
    requires base == start * FrameBytes(channels, bitDepth) && 0 <= base && base + |bytes| <= |pcm|
    requires bytes == pcm[base..base + |bytes|]
    requires (from - start + n) * FrameBytes(channels, bitDepth) <= |bytes|
    ensures (from + n) * FrameBytes(channels, bitDepth) <= |pcm|
    ensures Planes(bytes, from - start, n, channels, bitDepth) == Planes(pcm, from, n, channels, bitDepth)
  {
    MulSum(from - start + n, start, FrameBytes(channels, bitDepth));
    var p, q := Planes(bytes, from - start, n, channels, bitDepth), Planes(pcm, from, n, channels, bitDepth);
    forall c | 0 <= c < channels
      ensures p[c] == q[c]
    {
      forall f | 0 <= f < n
        ensures p[c][f] == q[c][f]
      {
        FrameWithin(from - start + f, from - start + n, channels, bitDepth, |bytes|);
        WindowSample(pcm, bytes, start, from + f, c, channels, bitDepth, base);
      }
    }
  }

  /** One pass of the inner loop: every channel of one frame. */
  method FillFrame(bytes: seq<Byte>, source: int, frame: int, channels: int, bitDepth: int, planes: array2<real>)
    requires Layout(channels, bitDepth) && 0 <= source && (source + 1) * FrameBytes(channels, bitDepth) <= |bytes|
    requires planes.Length0 == channels && 0 <= frame < planes.Length1
    modifies planes
    ensures forall c :: 0 <= c < channels ==> planes[c, frame] == SampleAt(bytes, source, c, channels, bitDepth)
    ensures forall c, f :: 0 <= c < channels && 0 <= f < planes.Length1 && f != frame ==> planes[c, f] == old(planes[c, f])
  {
    ghost var want := seq(channels, c requires 0 <= c < channels => SampleAt(bytes, source, c, channels, bitDepth));
    var channel := 0;
    while channel < channels
      invariant 0 <= channel <= channels
      invariant forall c :: 0 <= c < channel ==> planes[c, frame] == want[c]
      invariant forall c, f :: 0 <= c < channels && 0 <= f < planes.Length1 && f != frame ==> planes[c, f] == old(planes[c, f])
    {
      AtInside(source, channel, channels, bitDepth, source + 1);
      var offset := At(source, channel, channels, bitDepth);
      var sample := Sample(bytes[offset..offset + bitDepth / 8], bitDepth);
      assert sample == want[channel];
      planes[channel, frame] := sample;
      channel := channel + 1;
    }
  }

  /** Fills the planes; the planes may be longer than the chunk. */
  method Deinterleave(
    bytes: seq<Byte>, firstFrame: int, frames: int, channels: int, bitDepth: int, planes: array2<real>) returns (ok: bool)
    requires Layout(channels, bitDepth) && 0 <= firstFrame && 0 <= frames
    modifies planes
    ensures ok <==> planes.Length0 == channels && frames <= planes.Length1
                    && (firstFrame + frames) * FrameBytes(channels, bitDepth) <= |bytes|
    ensures ok ==>
      && (forall c, f :: 0 <= c < channels && 0 <= f < frames ==>
            planes[c, f] == Planes(bytes, firstFrame, frames, channels, bitDepth)[c][f])
      && (forall c, f :: 0 <= c < channels && frames <= f < planes.Length1 ==> planes[c, f] == old(planes[c, f]))
    ensures !ok ==> forall c, f :: 0 <= c < planes.Length0 && 0 <= f < planes.Length1 ==> planes[c, f] == old(planes[c, f])
  {
    if planes.Length0 != channels || planes.Length1 < frames {
      return false;
    }
    if (firstFrame + frames) * FrameBytes(channels, bitDepth) > |bytes| {
      return false;
    }
    ghost var want := Planes(bytes, firstFrame, frames, channels, bitDepth);
    var frame := 0;
    while frame < frames
      invariant 0 <= frame <= frames
      invariant forall c, f :: 0 <= c < channels && 0 <= f < frame ==> planes[c, f] == want[c][f]
      invariant forall c, f :: 0 <= c < channels && frame <= f < planes.Length1 ==> planes[c, f] == old(planes[c, f])
    {
      FrameWithin(firstFrame + frame, firstFrame + frames, channels, bitDepth, |bytes|);
      FillFrame(bytes, firstFrame + frame, frame, channels, bitDepth, planes);
      frame := frame + 1;
    }
    return true;
  }
}
