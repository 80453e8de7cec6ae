/** One shared slot between the main thread and a decoder Worker, atomic step by atomic step (src/stems/flac-input-slot.ts). */
module FlacInputSlot {
  import opened Common

  const SLOT_BYTES := 262144

  datatype Word = Empty | Full | Eof | Aborted

  /** Where publish stands; the thread that publishes is also the one that aborts. */
  datatype Producer =
    | Idle
    | Checked(chunk: seq<Byte>, final: bool)
    | Copied(chunk: seq<Byte>, final: bool)
    | OffsetStored(chunk: seq<Byte>, final: bool)
    | LengthStored(chunk: seq<Byte>, final: bool)
    | FinalStored(chunk: seq<Byte>, final: bool)

  /** Where read stands; room is the size of its target. */
  datatype Consumer =
    | Away
    | Looking(room: nat)
    | Waiting(room: nat)
    | SawFull(room: nat)
    | GotLength(room: nat, len: int)
    | GotOffset(room: nat, len: int, off: int)
    | Took(len: int, next: int)
    | GotFinal(last: bool)
    | ClearedOffset(last: bool)
    | ClearedLength(last: bool)
    | ClearedFinal(last: bool)

  /** What a read last returned. */
  datatype Result = Nothing | Bytes(count: int) | EndOfFile | WasAborted | Corrupt

  datatype State = State(
    word: Word, length: int, offset: int, final: bool, buffer: seq<Byte>,
    producer: Producer, consumer: Consumer, refillRequested: bool,
    result: Result, published: seq<Byte>, read: seq<Byte>, loaded: bool, ended: bool, aborted: bool,
    requests: nat, publishes: nat)

  datatype Action = Publish(chunk: seq<Byte>, final: bool) | ProducerStep | Abort | Read(room: nat) | ConsumerStep

  function Init(buffer: seq<Byte>): State {
    State(Empty, 0, 0, false, buffer, Idle, Away, false, Nothing, [], [], false, false, false, 0, 0)
  }

  /** publish starts only with a chunk that fits and an empty slot; otherwise it throws and changes nothing. */
  predicate Enabled(s: State, a: Action) {
    match a
    case Publish(chunk, final) => s.producer.Idle? && 1 <= |chunk| <= SLOT_BYTES && s.word.Empty?
    case ProducerStep => !s.producer.Idle?
    case Abort => s.producer.Idle?
    case Read(room) => s.consumer.Away? && room >= 1
    case ConsumerStep => !s.consumer.Away? && (s.consumer.Waiting? ==> !s.word.Empty?)
  }

  function Produce(s: State): State
    requires !s.producer.Idle?
  {
    match s.producer
    case Checked(chunk, final) => s.(buffer := chunk + s.buffer[Min(|chunk|, |s.buffer|)..], producer := Copied(chunk, final))
    case Copied(chunk, final) => s.(offset := 0, producer := OffsetStored(chunk, final))
    case OffsetStored(chunk, final) => s.(length := |chunk|, producer := LengthStored(chunk, final))
    case LengthStored(chunk, final) => s.(final := final, producer := FinalStored(chunk, final))
    case FinalStored(chunk, final) =>
      s.(word := Full, producer := Idle, published := s.published + chunk, loaded := true, ended := final, publishes := s.publishes + 1)
  }

  /** The loop of read: look, and on an empty slot ask once for a refill and wait. */
  function Look(s: State, room: nat): State {
    match s.word
    case Aborted => s.(consumer := Away, result := WasAborted)
    case Eof => s.(consumer := Away, result := EndOfFile)
    case Empty => s.(consumer := Waiting(room), refillRequested := true, requests := s.requests + if s.refillRequested then 0 else 1)
    case Full => s.(consumer := SawFull(room), refillRequested := false)
  }

  /** Copies what fits; a length and an offset that make no sense are reported. */
  function Take(s: State, room: nat, len: int, off: int): State {
    if !(1 <= len <= |s.buffer| && 0 <= off < len) then s.(consumer := Away, result := Corrupt) else
    var copied := Min(room, len - off);
    s.(consumer := Took(len, off + copied), read := s.read + s.buffer[off..off + copied], result := Bytes(copied))
  }

  function Consume(s: State): State
    requires !s.consumer.Away?
  {
    match s.consumer
    case Looking(room) => Look(s, room)
    case Waiting(room) => s.(consumer := Looking(room))
    case SawFull(room) => s.(consumer := GotLength(room, s.length))
    case GotLength(room, len) => s.(consumer := GotOffset(room, len, s.offset))
    case GotOffset(room, len, off) => Take(s, room, len, off)
    case Took(len, next) =>
      if next == len then s.(consumer := GotFinal(s.final)) else s.(offset := next, consumer := Away)
    case GotFinal(last) => s.(offset := 0, consumer := ClearedOffset(last))
    case ClearedOffset(last) => s.(length := 0, consumer := ClearedLength(last))
    case ClearedLength(last) => s.(final := false, consumer := ClearedFinal(last))
    case ClearedFinal(last) => s.(word := if last then Eof else Empty, consumer := Away, loaded := false)
  }

  /** The consumer is between its look at a full slot and its last store. */
  predicate Reading(c: Consumer) {
    !c.Away? && !c.Looking? && !c.Waiting?
  }

  /** The chunk in the slot: what was read and what is left of it are everything published. */
  predicate Holding(s: State) {
    && 0 <= s.offset < s.length <= |s.buffer| && s.final == s.ended
    && s.read + s.buffer[s.offset..s.length] == s.published
  }

  predicate ConsumerInv(s: State) {
    match s.consumer
    case Away => s.loaded ==> Holding(s)
    case Looking(room) => room >= 1 && (s.loaded ==> Holding(s))
    case Waiting(room) => room >= 1 && (s.loaded ==> Holding(s))
    case SawFull(room) => room >= 1 && Holding(s)
    case GotLength(room, len) => room >= 1 && Holding(s) && len == s.length
    case GotOffset(room, len, off) => room >= 1 && Holding(s) && len == s.length && off == s.offset
    case Took(len, next) =>
      && 0 <= next <= len == s.length <= |s.buffer| && s.final == s.ended && s.read + s.buffer[next..len] == s.published
    case GotFinal(last) => s.read == s.published && last == s.ended
    case ClearedOffset(last) => s.read == s.published && last == s.ended
    case ClearedLength(last) => s.read == s.published && last == s.ended
    case ClearedFinal(last) => s.read == s.published && last == s.ended
  }

  predicate ProducerInv(s: State) {
    && (!s.producer.Idle? ==> s.word.Empty? && 1 <= |s.producer.chunk| <= SLOT_BYTES)
    && (!s.producer.Idle? && !s.producer.Checked? ==> s.producer.chunk <= s.buffer)
    && (s.producer.OffsetStored? || s.producer.LengthStored? || s.producer.FinalStored? ==> s.offset == 0)
    && (s.producer.LengthStored? || s.producer.FinalStored? ==> s.length == |s.producer.chunk|)
    && (s.producer.FinalStored? ==> s.final == s.producer.final)
  }

  predicate Inv(s: State) {
    && |s.buffer| == SLOT_BYTES
    && ConsumerInv(s) && ProducerInv(s)
    && (Reading(s.consumer) ==> s.loaded && (s.word.Full? || s.word.Aborted?))
    && (s.word.Full? ==> s.loaded)
    && (s.word.Empty? ==> !s.loaded && !s.ended)
    && (s.word.Eof? ==> !s.loaded && s.ended)
    && (s.word.Aborted? ==> s.aborted)
    && (!s.loaded ==> s.read == s.published)
    && !s.result.Corrupt?
    && (s.result.EndOfFile? ==> !s.loaded && s.ended && !s.word.Empty?)
    && RefillInv(s)
  }

  /** At most one refill is asked for ahead of what is published, and only with nothing in the slot. */
  predicate RefillInv(s: State) {
    && s.requests <= s.publishes + 1
    && (s.requests > s.publishes ==> s.refillRequested && !s.loaded && (s.word.Empty? || s.word.Aborted?))
  }

  function Apply(s: State, a: Action): State
    requires Enabled(s, a)
  {
    match a
    case Publish(chunk, final) => s.(producer := Checked(chunk, final))
    case ProducerStep => Produce(s)
    case Abort => s.(word := Aborted, aborted := true)
    case Read(room) => s.(consumer := Looking(room))
    case ConsumerStep => Consume(s)
  }

  lemma PublishInv(s: State)
    requires Inv(s) && !s.producer.Idle?
    ensures Inv(Produce(s))
  {
    var t := Produce(s);
    if s.producer.FinalStored? {
      var chunk := s.producer.chunk;
      assert t.buffer[0..t.length] == chunk;
      assert s.read + chunk == t.published;
    }
  }

  lemma TakeInv(s: State)
    requires Inv(s) && s.consumer.GotOffset?
    ensures Inv(Consume(s))
  {
    var t := Consume(s);
    var next := t.consumer.next;
    assert s.buffer[s.offset..s.length] == s.buffer[s.offset..next] + s.buffer[next..s.length];
  }

  lemma LookInv(s: State)
    requires Inv(s) && s.consumer.Looking?
    ensures Inv(Consume(s))
  {
  }

  lemma TookInv(s: State)
    requires Inv(s) && s.consumer.Took?
    ensures Inv(Consume(s))
  {
    if s.consumer.next == s.consumer.len {
      assert s.buffer[s.consumer.next..s.consumer.len] == [];
    }
  }

  lemma ClearInv(s: State)
    requires Inv(s)
    requires s.consumer.GotFinal? || s.consumer.ClearedOffset? || s.consumer.ClearedLength? || s.consumer.ClearedFinal?
    ensures Inv(Consume(s))
  {
  }

  lemma {:induction false} ConsumeInv(s: State)
    requires Inv(s) && Enabled(s, ConsumerStep)
    ensures Inv(Consume(s))
  {
    match s.consumer
    case Looking(_) => LookInv(s);
    case GotOffset(_, _, _) => TakeInv(s);
    case Took(_, _) => TookInv(s);
    case Waiting(_) =>
    case SawFull(_) =>
    case GotLength(_, _) =>
    case _ => ClearInv(s);
  }

  /** Every atomic step of either thread, in any interleaving, keeps the invariant. */
  lemma {:induction false} ApplyInv(s: State, a: Action)
    requires Inv(s) && Enabled(s, a)
    ensures Inv(Apply(s, a))
  {
    match a
    case ProducerStep => PublishInv(s);
    case ConsumerStep => ConsumeInv(s);
    case _ =>
  }

  /** The state after a run; a step that is not enabled does not happen. */
  function After(buffer: seq<Byte>, actions: seq<Action>): State
    decreases |actions|
  {
    if |actions| == 0 then Init(buffer)
    else
      var s, a := After(buffer, actions[..|actions| - 1]), actions[|actions| - 1];
      if Enabled(s, a) then Apply(s, a) else s
  }

  lemma {:induction false} RunInv(buffer: seq<Byte>, actions: seq<Action>)
    requires |buffer| == SLOT_BYTES
    ensures Inv(After(buffer, actions))
    decreases |actions|
  {
    if |actions| > 0 {
      RunInv(buffer, actions[..|actions| - 1]);
      var s, a := After(buffer, actions[..|actions| - 1]), actions[|actions| - 1];
      if Enabled(s, a) {
        ApplyInv(s, a);
      }
    }
  }

  /** What is in the slot and not read yet. */
  function Unread(s: State): seq<Byte> {
    match s.consumer
    case Took(len, next) => if 0 <= next <= len <= |s.buffer| then s.buffer[next..len] else []
    case GotFinal(_) => []
    case ClearedOffset(_) => []
    case ClearedLength(_) => []
    case ClearedFinal(_) => []
    case _ => if s.loaded && 0 <= s.offset <= s.length <= |s.buffer| then s.buffer[s.offset..s.length] else []
  }

  /**
    * In every run, aborted or not, the bytes read and the bytes left in the slot are the bytes published, in order;
    * end of file means that the final chunk was read to its last byte; and a producer that publishes only when
    * asked finds the slot empty unless it was aborted. The consumer never finds corrupt bounds.
    */
  lemma {:induction false} SlotSafety(buffer: seq<Byte>, actions: seq<Action>)
    requires |buffer| == SLOT_BYTES
    ensures var s := After(buffer, actions); s.read + Unread(s) == s.published && s.read <= s.published
    ensures var s := After(buffer, actions); s.result.EndOfFile? || s.word.Eof? ==> s.read == s.published && s.ended
    ensures var s := After(buffer, actions); s.requests > s.publishes && !s.aborted ==> s.word.Empty? && Unread(s) == []
    ensures var s := After(buffer, actions); (s.word.Aborted? ==> s.aborted) && !s.result.Corrupt?
  {
    RunInv(buffer, actions);
  }
}
