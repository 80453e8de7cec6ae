/** The commit protocol over sparse indexes: what a complete marker guarantees about the stored stem. */
module CommittedSource {
  import opened Common
  import opened StemShape
  import opened DensePcm
  import opened SparsePcm
  import SparseVerify
  import Commit = SparseCommit

  /** What the end of the ingested stream has proved: a valid index over the file, and the declared identity. */
  ghost predicate Proven(blake3: seq<Byte> -> string, index: Index, file: seq<Byte>) {
    && ValidIndex(index) && |file| == index.activeBytes
    && blake3(Dense(index.intervals, file, index.shape.frames, ShapeFrameBytes(index.shape))) == index.shape.identity[7..]
  }

  /**
    * After any run of the commit, its failures, cancellations and crashes included: a complete marker stands beside
    * a closed data file of its size whose expansion has the declared identity, so that a verifier never refuses it, and
    * confirms it unless a read or a cancellation stops it.
    */
  method VerifyCommitted(
    blake3: seq<Byte> -> string, ghost run: seq<Commit.State<Index>>, ghost n: nat, marker: Commit.Entry<Index>, data: Commit.Entry<seq<Byte>>,
    w: SparseVerify.Storage, cancelGap: nat -> Option<nat>) returns (ok: Option<bool>)
    requires Commit.Run((i: Index, d: seq<Byte>) => Proven(blake3, i, d), (i: Index) => i.activeBytes, run) && n < |run|
    requires marker == run[n].marker && data == run[n].data && marker.Complete?
    ensures data.Complete? && |data.value| == marker.value.activeBytes && ok != Some(false)
    ensures SparseVerify.Unstopped(w, cancelGap, marker.value) ==> ok == Some(true)
  {
    ghost var proven: Commit.Proof<Index> := (i: Index, d: seq<Byte>) => Proven(blake3, i, d);
    Commit.CommitSafety(proven, (i: Index) => i.activeBytes, run, n);
    assert proven(marker.value, data.value);
    ok := SparseVerify.VerifyLocal(marker.value, data.value, blake3, w, cancelGap);
  }
}
