/**
 The two-file commit: the data file is closed before the marker is created, and a failure at any
 step removes the marker before the data (src/stems/sparse-store.ts, ingestAndCommit and its
 cleanup). Steps are separate because a failure, a cancellation or a crash may fall between any two.
 */
module SparseCommit {
  import opened Common

  /** A directory entry: missing, created but not closed, or closed with its contents. */
  datatype Entry<T> = Absent | Partial | Complete(value: T)

  datatype Stage =
    | Start | Streaming | ClosingData | DataClosed | CreatingMarker | WritingMarker | ClosingMarker | Checking
    | Committed
    | AbortingMarker | AbortingData | RemovingMarker | RemovingData | Failed
    | Crashed

  /** The marker is represented by the index it carries; its payload name is fixed by the transaction. */
  datatype State<I> = State(
    stage: Stage,
    written: seq<Byte>,
    index: I,
    data: Entry<seq<Byte>>,
    marker: Entry<I>,
    dataOwned: bool,
    markerOwned: bool,
    dataWriter: bool,
    markerWriter: bool,
    dataClosed: bool,
    markerClosed: bool,
    markerCommitted: bool,
    removalFailed: bool)

  /** What the end of the stream proved about an index and the bytes written. */
  type Proof<!I> = (I, seq<Byte>) -> bool

  ghost predicate Init<I>(s: State<I>) {
    && s.stage == Start && s.written == [] && s.data.Absent? && s.marker.Absent?
    && !s.dataOwned && !s.markerOwned && !s.dataWriter && !s.markerWriter
    && !s.dataClosed && !s.markerClosed && !s.markerCommitted && !s.removalFailed
  }

  // ---------------------------------------------------------------- forward steps

  /** The name is reserved before the backend is asked; a failed create may have created the entry. */
  ghost predicate CreateData<I>(s: State<I>, t: State<I>) {
    && s.stage == Start
    && (|| t == s.(stage := Streaming, dataOwned := true, dataWriter := true, data := Partial)
        || t == s.(stage := AbortingMarker, dataOwned := true)
        || t == s.(stage := AbortingMarker, dataOwned := true, data := Partial))
  }

  ghost predicate WriteData<I>(s: State<I>, t: State<I>, bytes: seq<Byte>) {
    && s.stage == Streaming
    && (|| t == s.(written := s.written + bytes)
        || t == s.(stage := AbortingMarker))
  }

  /** End of stream: only a proven index and payload go on to be closed. */
  ghost predicate Judge<I>(proven: Proof<I>, s: State<I>, t: State<I>, index: I) {
    && s.stage == Streaming
    && (|| (proven(index, s.written) && t == s.(stage := ClosingData, index := index))
        || t == s.(stage := AbortingMarker))
  }

  /** A failed close may nevertheless have closed the file. */
  ghost predicate CloseData<I>(s: State<I>, t: State<I>) {
    && s.stage == ClosingData
    && (|| t == s.(stage := DataClosed, dataClosed := true, data := Complete(s.written))
        || t == s.(stage := AbortingMarker)
        || t == s.(stage := AbortingMarker, data := Complete(s.written)))
  }

  /** Marker size and quota. */
  ghost predicate AdmitMarker<I>(s: State<I>, t: State<I>) {
    && s.stage == DataClosed
    && (t == s.(stage := CreatingMarker) || t == s.(stage := AbortingMarker))
  }

  ghost predicate CreateMarker<I>(s: State<I>, t: State<I>) {
    && s.stage == CreatingMarker
    && (|| t == s.(stage := WritingMarker, markerOwned := true, markerWriter := true, marker := Partial)
        || t == s.(stage := AbortingMarker, markerOwned := true)
        || t == s.(stage := AbortingMarker, markerOwned := true, marker := Partial))
  }

  ghost predicate WriteMarker<I>(s: State<I>, t: State<I>) {
    && s.stage == WritingMarker
    && (t == s.(stage := ClosingMarker) || t == s.(stage := AbortingMarker))
  }

  ghost predicate CloseMarker<I>(s: State<I>, t: State<I>) {
    && s.stage == ClosingMarker
    && (|| t == s.(stage := Checking, markerClosed := true, marker := Complete(s.index))
        || t == s.(stage := AbortingMarker)
        || t == s.(stage := AbortingMarker, marker := Complete(s.index)))
  }

  /** Cancellation checks and the re-read of the data size; only then is the commit final. */
  ghost predicate Check<I>(activeBytes: I -> int, s: State<I>, t: State<I>) {
    && s.stage == Checking
    && (|| (s.data.Complete? && |s.data.value| == activeBytes(s.index) && t == s.(stage := Committed, markerCommitted := true))
        || t == s.(stage := AbortingMarker))
  }

  // ---------------------------------------------------------------- unwinding

  /** Aborting an unclosed writer may leave its entry as it was, partial, or gone. */
  ghost predicate AbortMarker<I>(s: State<I>, t: State<I>) {
    && s.stage == AbortingMarker
    && (if s.markerWriter && !s.markerClosed then
          || t == s.(stage := AbortingData)
          || t == s.(stage := AbortingData, marker := Partial)
          || t == s.(stage := AbortingData, marker := Absent)
        else t == s.(stage := AbortingData))
  }

  ghost predicate AbortData<I>(s: State<I>, t: State<I>) {
    && s.stage == AbortingData
    && (if s.dataWriter && !s.dataClosed then
          || t == s.(stage := RemovingMarker)
          || t == s.(stage := RemovingMarker, data := Partial)
          || t == s.(stage := RemovingMarker, data := Absent)
        else t == s.(stage := RemovingMarker))
  }

  /** A failed removal ends the cleanup: the data stays. */
  ghost predicate RemoveMarker<I>(s: State<I>, t: State<I>) {
    && s.stage == RemovingMarker
    && (if s.markerOwned && !s.markerCommitted then
          || t == s.(stage := RemovingData, marker := Absent)
          || t == s.(stage := Failed, removalFailed := true)
          || t == s.(stage := Failed, removalFailed := true, marker := Absent)
        else t == s.(stage := RemovingData))
  }

  ghost predicate RemoveData<I>(s: State<I>, t: State<I>) {
    && s.stage == RemovingData
    && (if s.dataOwned && !s.markerCommitted then
          || t == s.(stage := Failed, data := Absent)
          || t == s.(stage := Failed, removalFailed := true)
          || t == s.(stage := Failed, removalFailed := true, data := Absent)
        else t == s.(stage := Failed))
  }

  /** The process ends; what is on storage stays. */
  ghost predicate Crash<I>(s: State<I>, t: State<I>) {
    t == s.(stage := Crashed)
  }

  ghost predicate Fill<I(!new)>(proven: Proof<I>, s: State<I>, t: State<I>) {
    || CreateData(s, t)
    || (exists bytes :: WriteData(s, t, bytes))
    || (exists index :: Judge(proven, s, t, index))
  }

  ghost predicate Seal<I>(s: State<I>, t: State<I>) {
    CloseData(s, t) || AdmitMarker(s, t)
  }

  ghost predicate Publish<I>(activeBytes: I -> int, s: State<I>, t: State<I>) {
    CreateMarker(s, t) || WriteMarker(s, t) || CloseMarker(s, t) || Check(activeBytes, s, t)
  }

  ghost predicate Abort<I>(s: State<I>, t: State<I>) {
    AbortMarker(s, t) || AbortData(s, t)
  }

  ghost predicate Remove<I>(s: State<I>, t: State<I>) {
    RemoveMarker(s, t) || RemoveData(s, t)
  }

  ghost predicate Next<I(!new)>(proven: Proof<I>, activeBytes: I -> int, s: State<I>, t: State<I>) {
    Fill(proven, s, t) || Seal(s, t) || Publish(activeBytes, s, t) || Abort(s, t) || Remove(s, t) || Crash(s, t)
  }

  // ---------------------------------------------------------------- safety

  /** A complete marker stands beside a closed data file that was proven under its index. */
  ghost predicate Safe<I>(proven: Proof<I>, s: State<I>) {
    s.marker.Complete? ==> s.data.Complete? && proven(s.marker.value, s.data.value)
  }

  /** The data file is closed and was proven. */
  ghost predicate DataReady<I>(proven: Proof<I>, s: State<I>) {
    s.dataClosed && s.data == Complete(s.written) && proven(s.index, s.written)
  }

  ghost predicate Inv<I>(proven: Proof<I>, s: State<I>) {
    && (s.marker.Complete? ==> s.marker.value == s.index && DataReady(proven, s))
    && (!s.markerOwned ==> s.marker.Absent? && !s.markerWriter)
    && (!s.dataOwned ==> s.data.Absent? && !s.dataWriter)
    && (s.markerCommitted ==> s.stage in {Committed, Crashed} && s.marker.Complete?)
    && match s.stage
       case Start => !s.dataOwned && !s.markerOwned
       case Streaming => s.dataOwned && !s.markerOwned
       case ClosingData => s.dataOwned && !s.markerOwned && proven(s.index, s.written)
       case DataClosed => s.dataOwned && !s.markerOwned && DataReady(proven, s)
       case CreatingMarker => s.dataOwned && !s.markerOwned && DataReady(proven, s)
       case WritingMarker => s.dataOwned && s.markerOwned && DataReady(proven, s)
       case ClosingMarker => s.dataOwned && s.markerOwned && DataReady(proven, s)
       case Checking => s.dataOwned && s.markerOwned && s.marker.Complete? && DataReady(proven, s)
       case Committed => s.markerCommitted && s.marker.Complete?
       case AbortingMarker => s.dataOwned && (s.markerOwned ==> DataReady(proven, s))
       case AbortingData => s.dataOwned && (s.markerOwned ==> DataReady(proven, s))
       case RemovingMarker => s.dataOwned && (s.markerOwned ==> DataReady(proven, s))
       case RemovingData => s.dataOwned && s.marker.Absent?
       case Failed => s.removalFailed || (s.data.Absent? && s.marker.Absent?)
       case Crashed => true
  }

  /** A closed data file stays as it is while the marker's entry, complete or partial, is there. */
  ghost predicate Keeps<I>(s: State<I>, t: State<I>) {
    s.data.Complete? && t.data != s.data ==> s.marker.Absent? && t.marker.Absent?
  }

  lemma {:induction false} NextInv<I(!new)>(proven: Proof<I>, activeBytes: I -> int, s: State<I>, t: State<I>)
    requires Inv(proven, s) && Next(proven, activeBytes, s, t)
    ensures Inv(proven, t) && Keeps(s, t)
  {
    if Fill(proven, s, t) {
      FillInv(proven, s, t);
    } else if Seal(s, t) {
      SealInv(proven, s, t);
    } else if Publish(activeBytes, s, t) {
      PublishInv(proven, activeBytes, s, t);
    } else if Abort(s, t) {
      AbortInv(proven, s, t);
    } else if Remove(s, t) {
      RemoveInv(proven, s, t);
    }
  }

  lemma FillInv<I(!new)>(proven: Proof<I>, s: State<I>, t: State<I>)
    requires Inv(proven, s) && Fill(proven, s, t)
    ensures Inv(proven, t) && Keeps(s, t)
  {
  }

  lemma SealInv<I>(proven: Proof<I>, s: State<I>, t: State<I>)
    requires Inv(proven, s) && Seal(s, t)
    ensures Inv(proven, t) && Keeps(s, t)
  {
  }

  lemma PublishInv<I>(proven: Proof<I>, activeBytes: I -> int, s: State<I>, t: State<I>)
    requires Inv(proven, s) && Publish(activeBytes, s, t)
    ensures Inv(proven, t) && Keeps(s, t)
  {
  }

  lemma AbortInv<I>(proven: Proof<I>, s: State<I>, t: State<I>)
    requires Inv(proven, s) && Abort(s, t)
    ensures Inv(proven, t) && Keeps(s, t)
  {
  }

  lemma RemoveInv<I>(proven: Proof<I>, s: State<I>, t: State<I>)
    requires Inv(proven, s) && Remove(s, t)
    ensures Inv(proven, t) && Keeps(s, t)
  {
  }

  ghost predicate Run<I(!new)>(proven: Proof<I>, activeBytes: I -> int, run: seq<State<I>>) {
    && run != [] && Init(run[0])
    && forall i :: 0 <= i < |run| - 1 ==> Next(proven, activeBytes, run[i], run[i + 1])
  }

  lemma {:induction false} RunInv<I(!new)>(proven: Proof<I>, activeBytes: I -> int, run: seq<State<I>>, n: nat)
    requires Run(proven, activeBytes, run) && n < |run|
    ensures Inv(proven, run[n])
  {
    if n > 0 {
      RunInv(proven, activeBytes, run, n - 1);
      NextInv(proven, activeBytes, run[n - 1], run[n]);
    }
  }

  /**
   Every run, with failure, cancellation or crash after any step and with failing removals: a
   complete marker always stands beside its closed, proven data file; a reported commit left one;
   and a cleanup whose removals worked left nothing.
   */
  lemma CommitSafety<I(!new)>(proven: Proof<I>, activeBytes: I -> int, run: seq<State<I>>, n: nat)
    requires Run(proven, activeBytes, run) && n < |run|
    ensures Safe(proven, run[n])
    ensures run[n].stage == Committed ==> run[n].marker.Complete?
    ensures run[n].stage == Failed && !run[n].removalFailed ==> run[n].data.Absent? && run[n].marker.Absent?
  {
    RunInv(proven, activeBytes, run, n);
  }

  /** No step takes a closed data file away while the marker's entry, complete or partial, is there. */
  lemma {:induction false} DataOutlivesMarker<I(!new)>(proven: Proof<I>, activeBytes: I -> int, run: seq<State<I>>, n: nat)
    requires Run(proven, activeBytes, run) && n + 1 < |run|
    ensures Keeps(run[n], run[n + 1])
  {
    RunInv(proven, activeBytes, run, n);
    NextInv(proven, activeBytes, run[n], run[n + 1]);
  }

  /** Once committed, nothing but a crash can follow, and a crash changes neither file. */
  lemma {:induction false} CommitStays<I(!new)>(
    proven: Proof<I>, activeBytes: I -> int, run: seq<State<I>>, m: nat, n: nat)
    requires Run(proven, activeBytes, run) && m <= n < |run| && run[m].stage == Committed
    ensures run[n].stage in {Committed, Crashed} && run[n].marker == run[m].marker && run[n].data == run[m].data
  {
    if m < n {
      CommitStays(proven, activeBytes, run, m, n - 1);
      assert Next(proven, activeBytes, run[n - 1], run[n]);
    }
  }
}
