/**
 The one object every stage of the sparse data plane agrees on: the dense canonical
 byte sequence that an interval index and its packed file stand for.
 */
module DensePcm {
  import opened Common

  datatype Interval = Interval(startFrame: int, frames: int, byteOffset: int)

  function EndFrame(iv: Interval): int {
    iv.startFrame + iv.frames
  }

  /** End of the interval before position k on the timeline; 0 before the first. */
  function PrevEnd(ivs: seq<Interval>, k: int): int
    requires 0 <= k <= |ivs|
  {
    if k == 0 then 0 else EndFrame(ivs[k - 1])
  }

  /** End of the bytes packed before position k. */
  function PrevOffset(ivs: seq<Interval>, k: int, fb: int): int
    requires 0 <= k <= |ivs|
  {
    if k == 0 then 0 else ivs[k - 1].byteOffset + ivs[k - 1].frames * fb
  }

  function End(ivs: seq<Interval>): int {
    PrevEnd(ivs, |ivs|)
  }

  function ActiveBytes(ivs: seq<Interval>, fb: int): int {
    PrevOffset(ivs, |ivs|, fb)
  }

  predicate LaidAt(ivs: seq<Interval>, k: int, fb: int)
    requires 0 <= k < |ivs|
  {
    && 1 <= ivs[k].frames
    && PrevEnd(ivs, k) <= ivs[k].startFrame
    && ivs[k].byteOffset == PrevOffset(ivs, k, fb)
  }

  /** In timeline order, without overlap, packed back to back. */
  predicate Laid(ivs: seq<Interval>, fb: int) {
    forall k :: 0 <= k < |ivs| ==> LaidAt(ivs, k, fb)
  }

  /** No two neighbours touch: every mergeable pair has been coalesced. */
  predicate Separated(ivs: seq<Interval>) {
    forall k :: 1 <= k < |ivs| ==> PrevEnd(ivs, k) < ivs[k].startFrame
  }

  predicate Adjacent(ivs: seq<Interval>, startFrame: int) {
    ivs != [] && EndFrame(ivs[|ivs| - 1]) == startFrame
  }

  /** A run of frames either lengthens the last interval or opens a new one at the given offset. */
  function Coalesce(ivs: seq<Interval>, startFrame: int, frames: int, byteOffset: int): seq<Interval> {
    if Adjacent(ivs, startFrame) then
      var prior := ivs[|ivs| - 1];
      ivs[..|ivs| - 1] + [Interval(prior.startFrame, prior.frames + frames, prior.byteOffset)]
    else
      ivs + [Interval(startFrame, frames, byteOffset)]
  }

  lemma LengthenKeeps(ivs: seq<Interval>, n: int, fb: int)
    requires Laid(ivs, fb) && Separated(ivs) && ivs != [] && 1 <= n
    ensures var last := ivs[|ivs| - 1];
            var t := ivs[..|ivs| - 1] + [Interval(last.startFrame, last.frames + n, last.byteOffset)];
            && Laid(t, fb) && Separated(t)
            && End(t) == End(ivs) + n && ActiveBytes(t, fb) == ActiveBytes(ivs, fb) + n * fb
  {
    var last := ivs[|ivs| - 1];
    var t := ivs[..|ivs| - 1] + [Interval(last.startFrame, last.frames + n, last.byteOffset)];
    forall i | 0 <= i < |t|
      ensures LaidAt(t, i, fb)
      ensures i > 0 ==> PrevEnd(t, i) < t[i].startFrame
    {
      assert LaidAt(ivs, i, fb);
    }
    MulSum(last.frames, n, fb);
  }

  lemma OpenKeeps(ivs: seq<Interval>, startFrame: int, n: int, fb: int)
    requires Laid(ivs, fb) && Separated(ivs) && 1 <= n && End(ivs) <= startFrame
    requires ivs != [] ==> End(ivs) < startFrame
    ensures var t := ivs + [Interval(startFrame, n, ActiveBytes(ivs, fb))];
            && Laid(t, fb) && Separated(t)
            && End(t) == startFrame + n && ActiveBytes(t, fb) == ActiveBytes(ivs, fb) + n * fb
  {
    var t := ivs + [Interval(startFrame, n, ActiveBytes(ivs, fb))];
    forall i | 0 <= i < |t|
      ensures LaidAt(t, i, fb)
      ensures i > 0 ==> PrevEnd(t, i) < t[i].startFrame
    {
      if i < |ivs| { assert LaidAt(ivs, i, fb); }
    }
  }

  /** Coalescing keeps the index laid out, separated and in step with the packed file. */
  lemma CoalesceKeeps(ivs: seq<Interval>, startFrame: int, n: int, fb: int)
    requires Laid(ivs, fb) && Separated(ivs) && 1 <= n && End(ivs) <= startFrame
    ensures var t := Coalesce(ivs, startFrame, n, ActiveBytes(ivs, fb));
            && Laid(t, fb) && Separated(t)
            && End(t) == startFrame + n && ActiveBytes(t, fb) == ActiveBytes(ivs, fb) + n * fb
            && |t| == (if Adjacent(ivs, startFrame) then |ivs| else |ivs| + 1)
  {
    if Adjacent(ivs, startFrame) {
      LengthenKeeps(ivs, n, fb);
    } else {
      OpenKeeps(ivs, startFrame, n, fb);
    }
  }

  lemma LaidPrefix(ivs: seq<Interval>, n: int, fb: int)
    requires Laid(ivs, fb) && 0 <= n <= |ivs|
    ensures Laid(ivs[..n], fb)
    ensures End(ivs[..n]) == PrevEnd(ivs, n)
    ensures ActiveBytes(ivs[..n], fb) == PrevOffset(ivs, n, fb)
  {
    var p := ivs[..n];
    forall k | 0 <= k < |p|
      ensures LaidAt(p, k, fb)
    {
      assert LaidAt(ivs, k, fb);
    }
  }

  /** Ends and offsets never decrease along the index. */
  lemma {:induction false} LaidMonotone(ivs: seq<Interval>, j: int, k: int, fb: int)
    requires Laid(ivs, fb) && 0 <= j <= k <= |ivs| && 0 <= fb
    ensures 0 <= PrevEnd(ivs, j) <= PrevEnd(ivs, k)
    ensures 0 <= PrevOffset(ivs, j, fb) <= PrevOffset(ivs, k, fb)
    decreases k
  {
    if k > 0 {
      var i := k - 1;
      assert LaidAt(ivs, i, fb);
      assert 0 <= ivs[i].frames * fb;
      if j < k {
        LaidMonotone(ivs, j, i, fb);
      } else {
        LaidMonotone(ivs, i, i, fb);
      }
    }
  }

  /** The packed file is never longer than the timeline up to the same point. */
  lemma {:induction false} PackedNoLonger(ivs: seq<Interval>, k: int, fb: int)
    requires Laid(ivs, fb) && 0 <= k <= |ivs| && 0 <= fb
    ensures PrevOffset(ivs, k, fb) <= PrevEnd(ivs, k) * fb
  {
    if k > 0 {
      var i := k - 1;
      assert LaidAt(ivs, i, fb);
      PackedNoLonger(ivs, i, fb);
      MulMono(PrevEnd(ivs, i), ivs[i].startFrame, fb);
      MulSum(ivs[i].startFrame, ivs[i].frames, fb);
    }
  }

  /** Dense bytes of the frames before the end of the last interval. */
  function Covered(ivs: seq<Interval>, packed: seq<Byte>, fb: int): (d: seq<Byte>)
    requires Laid(ivs, fb) && 0 < fb && ActiveBytes(ivs, fb) <= |packed|
    ensures |d| == End(ivs) * fb
  {
    if ivs == [] then []
    else
      var n := |ivs| - 1;
      var last := ivs[n];
      assert LaidAt(ivs, n, fb);
      LaidPrefix(ivs, n, fb);
      LaidMonotone(ivs, n, |ivs|, fb);
      MulMono(PrevEnd(ivs, n), last.startFrame, fb);
      MulSum(last.startFrame, PrevEnd(ivs, n), fb);
      MulSum(last.startFrame, last.frames, fb);
      Covered(ivs[..n], packed, fb)
        + Zeros((last.startFrame - PrevEnd(ivs, n)) * fb)
        + packed[last.byteOffset..last.byteOffset + last.frames * fb]
  }

  /** The whole dense source: what the index and the packed file stand for. */
  function Dense(ivs: seq<Interval>, packed: seq<Byte>, frames: int, fb: int): (d: seq<Byte>)
    requires Laid(ivs, fb) && 0 < fb && ActiveBytes(ivs, fb) <= |packed| && End(ivs) <= frames
    ensures |d| == frames * fb
  {
    MulMono(End(ivs), frames, fb);
    MulSum(frames, End(ivs), fb);
    Covered(ivs, packed, fb) + Zeros((frames - End(ivs)) * fb)
  }

  /** Bytes before the end of interval k - 1 do not depend on what follows it. */
  lemma {:induction false} CoveredPrefix(ivs: seq<Interval>, k: int, packed: seq<Byte>, fb: int)
    requires Laid(ivs, fb) && 0 < fb && ActiveBytes(ivs, fb) <= |packed| && 0 <= k <= |ivs|
    ensures Laid(ivs[..k], fb) && ActiveBytes(ivs[..k], fb) <= |packed|
    ensures 0 <= PrevEnd(ivs, k) * fb <= End(ivs) * fb
    ensures Covered(ivs[..k], packed, fb) == Covered(ivs, packed, fb)[..PrevEnd(ivs, k) * fb]
    decreases |ivs|
  {
    LaidPrefix(ivs, k, fb);
    LaidMonotone(ivs, k, |ivs|, fb);
    MulMono(0, PrevEnd(ivs, k), fb);
    MulMono(PrevEnd(ivs, k), End(ivs), fb);
    if k == |ivs| {
      assert ivs[..k] == ivs;
    } else {
      var n := |ivs| - 1;
      LaidPrefix(ivs, n, fb);
      LaidMonotone(ivs, n, |ivs|, fb);
      CoveredPrefix(ivs[..n], k, packed, fb);
      assert ivs[..n][..k] == ivs[..k];
      assert PrevEnd(ivs[..n], k) == PrevEnd(ivs, k);
    }
  }

  /** Frames before interval k and after its predecessor are silence. */
  lemma DenseGap(ivs: seq<Interval>, k: int, packed: seq<Byte>, frames: int, fb: int, p: int)
    requires Laid(ivs, fb) && 0 < fb && ActiveBytes(ivs, fb) <= |packed| && End(ivs) <= frames
    requires 0 <= k < |ivs| && PrevEnd(ivs, k) * fb <= p < ivs[k].startFrame * fb
    ensures 0 <= p < frames * fb && Dense(ivs, packed, frames, fb)[p] == 0
  {
    DenseSplit(ivs, k, packed, frames, fb);
  }

  /** Frames inside interval k are its packed bytes. */
  lemma DenseInside(ivs: seq<Interval>, k: int, packed: seq<Byte>, frames: int, fb: int, p: int)
    requires Laid(ivs, fb) && 0 < fb && ActiveBytes(ivs, fb) <= |packed| && End(ivs) <= frames
    requires 0 <= k < |ivs| && ivs[k].startFrame * fb <= p < EndFrame(ivs[k]) * fb
    ensures 0 <= ivs[k].byteOffset + p - ivs[k].startFrame * fb < |packed|
    ensures 0 <= p < frames * fb
    ensures Dense(ivs, packed, frames, fb)[p] == packed[ivs[k].byteOffset + p - ivs[k].startFrame * fb]
  {
    DenseSplit(ivs, k, packed, frames, fb);
    MulSum(ivs[k].startFrame, ivs[k].frames, fb);
  }

  /** Frames after the last interval are silence. */
  lemma DenseTail(ivs: seq<Interval>, packed: seq<Byte>, frames: int, fb: int, p: int)
    requires Laid(ivs, fb) && 0 < fb && ActiveBytes(ivs, fb) <= |packed| && End(ivs) <= frames
    requires End(ivs) * fb <= p < frames * fb
    ensures 0 <= p && Dense(ivs, packed, frames, fb)[p] == 0
  {
    LaidMonotone(ivs, 0, |ivs|, fb);
    MulMono(End(ivs), frames, fb);
    MulSum(frames, End(ivs), fb);
    assert |Covered(ivs, packed, fb)| == End(ivs) * fb;
  }

  /** Positions of interval k, on the timeline and in the packed file. */
  lemma IntervalBounds(ivs: seq<Interval>, k: int, fb: int)
    requires Laid(ivs, fb) && 0 < fb && 0 <= k < |ivs|
    ensures 0 <= PrevEnd(ivs, k) <= ivs[k].startFrame < EndFrame(ivs[k]) <= End(ivs)
    ensures 0 <= PrevEnd(ivs, k) * fb <= ivs[k].startFrame * fb < EndFrame(ivs[k]) * fb <= End(ivs) * fb
    ensures (ivs[k].startFrame - PrevEnd(ivs, k)) * fb == ivs[k].startFrame * fb - PrevEnd(ivs, k) * fb
    ensures EndFrame(ivs[k]) * fb == ivs[k].startFrame * fb + ivs[k].frames * fb
    ensures 0 <= ivs[k].byteOffset
    ensures ivs[k].byteOffset + ivs[k].frames * fb <= ActiveBytes(ivs, fb)
  {
    assert LaidAt(ivs, k, fb);
    LaidMonotone(ivs, 0, k, fb);
    LaidMonotone(ivs, k, k + 1, fb);
    LaidMonotone(ivs, k + 1, |ivs|, fb);
    MulMono(0, PrevEnd(ivs, k), fb);
    MulMono(PrevEnd(ivs, k), ivs[k].startFrame, fb);
    MulSum(ivs[k].startFrame, PrevEnd(ivs, k), fb);
    MulSum(ivs[k].startFrame, ivs[k].frames, fb);
    MulMono(EndFrame(ivs[k]), End(ivs), fb);
  }

  /** The last interval, after the silence before it, ends Covered. */
  lemma CoveredLast(ivs: seq<Interval>, packed: seq<Byte>, fb: int)
    requires Laid(ivs, fb) && 0 < fb && ActiveBytes(ivs, fb) <= |packed| && ivs != []
    ensures var n := |ivs| - 1;
            var c := Covered(ivs, packed, fb);
            && 0 <= PrevEnd(ivs, n) * fb <= ivs[n].startFrame * fb <= |c|
            && 0 <= ivs[n].byteOffset && ivs[n].byteOffset + ivs[n].frames * fb <= |packed|
            && ivs[n].startFrame >= PrevEnd(ivs, n)
            && c[PrevEnd(ivs, n) * fb..ivs[n].startFrame * fb] == Zeros((ivs[n].startFrame - PrevEnd(ivs, n)) * fb)
            && c[ivs[n].startFrame * fb..] == packed[ivs[n].byteOffset..ivs[n].byteOffset + ivs[n].frames * fb]
  {
    var n := |ivs| - 1;
    IntervalBounds(ivs, n, fb);
    LaidPrefix(ivs, n, fb);
    LaidMonotone(ivs, n, |ivs|, fb);
    var a, g := Covered(ivs[..n], packed, fb), Zeros((ivs[n].startFrame - PrevEnd(ivs, n)) * fb);
    var d := packed[ivs[n].byteOffset..ivs[n].byteOffset + ivs[n].frames * fb];
    assert Covered(ivs, packed, fb) == a + g + d;
    assert |a| == PrevEnd(ivs, n) * fb;
    assert (a + g + d)[|a|..|a| + |g|] == g;
    assert (a + g + d)[|a| + |g|..] == d;
  }

  /** Dense, cut around interval k. */
  lemma DenseSplit(ivs: seq<Interval>, k: int, packed: seq<Byte>, frames: int, fb: int)
    requires Laid(ivs, fb) && 0 < fb && ActiveBytes(ivs, fb) <= |packed| && End(ivs) <= frames
    requires 0 <= k < |ivs|
    ensures var d := Dense(ivs, packed, frames, fb);
            var a, b, e, o := PrevEnd(ivs, k) * fb, ivs[k].startFrame * fb, EndFrame(ivs[k]) * fb, ivs[k].byteOffset;
            && 0 <= a <= b < e <= |d|
            && 0 <= o && o + (e - b) <= |packed|
            && d[a..b] == Zeros(b - a)
            && d[b..e] == packed[o..o + (e - b)]
  {
    var upTo := ivs[..k + 1];
    IntervalBounds(ivs, k, fb);
    MulMono(End(ivs), frames, fb);
    CoveredPrefix(ivs, k + 1, packed, fb);
    CoveredLast(upTo, packed, fb);
    var c := Covered(ivs, packed, fb);
    var e := EndFrame(ivs[k]) * fb;
    assert c <= Dense(ivs, packed, frames, fb);
    assert Covered(upTo, packed, fb) == c[..e];
    assert PrevEnd(upTo, k) == PrevEnd(ivs, k);
    SliceOfPrefix(c, e, Dense(ivs, packed, frames, fb), PrevEnd(ivs, k) * fb, ivs[k].startFrame * fb);
    SliceOfPrefix(c, e, Dense(ivs, packed, frames, fb), ivs[k].startFrame * fb, e);
    assert c[..e][ivs[k].startFrame * fb..] == c[..e][ivs[k].startFrame * fb..e];
  }

  lemma SliceOfPrefix(c: seq<Byte>, e: int, d: seq<Byte>, i: int, j: int)
    requires c <= d && 0 <= i <= j <= e <= |c|
    ensures d[i..j] == c[..e][i..j]
  {
  }
}
