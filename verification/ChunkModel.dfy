/**
 The append protocol of a chunk as a state machine. Every critical section of
 `Chunk::append`, of its timer callback, of `query_and_seal` and of `read` runs under
 the chunk's mutex and is one step; a run is any sequence of steps.
 */
module ChunkModel {
  import opened Types
  import Stores
  import opened Requests

  datatype Phase = Open | Sealed

  /**
   `size`, `phase`, `file` and `queue` are the chunk's own fields. `answers` holds the promises
   that have a value, `timers` the requests whose timer has not fired, and `aborted` records a
   promise set twice (an assertion failure in `FutureState::set_value`). `requests` (every call
   so far, a call's number being its position) and `commits` (every request written, in write
   order) are history.
   */
  datatype State = State(
    phase: Phase,
    size: Uint64,
    file: Stores.File,
    queue: seq<Request>,
    requests: seq<Request>,
    timers: set<nat>,
    answers: map<nat, Status>,
    aborted: bool,
    commits: seq<Request>)

  /** What the store answers to the one write a request can cause. */
  type Io = nat -> Status

  datatype Event =
    | Append(offset: Uint64, buf: seq<Byte>)
    | Timeout(id: nat)
    | Seal(lengthIsNull: bool, sealStatus: Status, sizeStatus: Status)
    | Read(bufIsNull: bool, offset: Uint64, size: Uint64, openStatus: Status, readStatus: Status)

  function Init(file: Stores.File): State {
    State(Open, 0, file, [], [], {}, map[], false, [])
  }

  /** A file just created with O_CREAT | O_EXCL, in either store. */
  predicate FreshFile(file: Stores.File) {
    file.data == [] && Stores.AtEnd(file)
  }

  /** Sets the promise of a request, or returns from a call that never parked. */
  function Answer(s: State, id: nat, status: Status): State {
    if id in s.answers then s.(aborted := true) else s.(answers := s.answers[id := status])
  }

  /** No store holds 2^64 bytes, whatever the write would otherwise have returned. */
  function WriteStatus(io: Io, file: Stores.File, r: Request): Status {
    if io(r.id) == OK && |file.data| + |r.buf| >= TWO_64 then Error(EFBIG) else io(r.id)
  }

  /** A successful store append and the update of `_size`. */
  function Commit(s: State, r: Request): State {
    s.(file := Stores.Append(s.file, r.buf),
       size := (s.size + |r.buf|) % TWO_64,
       commits := s.commits + [r])
  }

  /** Sets the promise of a drained request unless it is ready. */
  function AnswerIfPending(s: State, id: nat, status: Status): State {
    if id in s.answers then s else Answer(s, id, status)
  }

  /** One turn of the drain loop on the first parked request, which is at or below the size. */
  function DrainOne(io: Io, s: State): State
    requires s.queue != [] && s.queue[0].offset <= s.size
  {
    var r := s.queue[0];
    var rest := s.(queue := s.queue[1..]);
    if r.offset < s.size then
      AnswerIfPending(rest, r.id, Error(EINVAL))
    else
      var status := WriteStatus(io, s.file, r);
      AnswerIfPending(if status == OK then Commit(rest, r) else rest, r.id, status)
  }

  /** The drain loop: it stops at the first parked request beyond the size. */
  function Drain(io: Io, s: State): State
    decreases |s.queue|
  {
    if s.queue == [] || s.queue[0].offset > s.size then s else Drain(io, DrainOne(io, s))
  }

  function AppendStep(io: Io, s: State, offset: Uint64, buf: seq<Byte>): State {
    var r := Request(|s.requests|, offset, buf);
    var called := s.(requests := s.requests + [r]);
    if s.phase == Sealed then
      Answer(called, r.id, Error(EPERM))
    else if offset < s.size then
      Answer(called, r.id, Error(EINVAL))
    else if offset != s.size then
      called.(timers := s.timers + {r.id}, queue := Insert(s.queue, r))
    else
      var status := WriteStatus(io, s.file, r);
      if status != OK then
        Answer(called, r.id, status)
      else
        Answer(Drain(io, Commit(called, r)), r.id, OK)
  }

  /** A timer that is not armed does not fire. */
  function TimeoutStep(s: State, id: nat): State {
    if id !in s.timers then
      s
    else
      var fired := s.(timers := s.timers - {id});
      if id in s.answers then fired else Answer(fired.(queue := Unlink(s.queue, id)), id, Error(EINVAL))
  }

  function SealStep(s: State, lengthIsNull: bool, sealStatus: Status, sizeStatus: Status): State {
    if lengthIsNull || sealStatus != OK || sizeStatus != OK then s else s.(phase := Sealed)
  }

  /** The range check of `Chunk::read`, whose sum is computed modulo 2^64. */
  predicate InRange(s: State, offset: Uint64, size: Uint64) {
    (offset + size) % TWO_64 <= s.size
  }

  /** A read opens a handle of its own and reads through that. */
  function ReadStep(s: State, bufIsNull: bool, offset: Uint64, size: Uint64, openStatus: Status, readStatus: Status): State {
    if bufIsNull || !InRange(s, offset, size) || openStatus != OK then
      s
    else
      var (file, handle) := Stores.OpenReader(s.file);
      s.(file := Stores.ReadEffect(file, handle, offset, size, readStatus))
  }

  function ReadReply(s: State, offset: Uint64, size: Uint64, openStatus: Status, readStatus: Status, buf: seq<Byte>)
    : Stores.Reply
  {
    if !InRange(s, offset, size) then
      Stores.Reply(Error(EINVAL), buf)
    else if openStatus != OK then
      Stores.Reply(openStatus, buf)
    else
      Stores.ReadReply(Stores.OpenReader(s.file).0, offset, size, readStatus, buf)
  }

  function Step(io: Io, s: State, e: Event): State {
    match e
    case Append(offset, buf) => AppendStep(io, s, offset, buf)
    case Timeout(id) => TimeoutStep(s, id)
    case Seal(lengthIsNull, sealStatus, sizeStatus) => SealStep(s, lengthIsNull, sealStatus, sizeStatus)
    case Read(bufIsNull, offset, size, openStatus, readStatus) =>
      ReadStep(s, bufIsNull, offset, size, openStatus, readStatus)
  }

  function Run(io: Io, s: State, events: seq<Event>): State
    decreases |events|
  {
    if events == [] then s else Run(io, Step(io, s, events[0]), events[1..])
  }

  lemma {:induction false} RunSnoc(io: Io, s: State, events: seq<Event>, e: Event)
    ensures Run(io, s, events + [e]) == Step(io, Run(io, s, events), e)
    decreases |events|
  {
    if events == [] {
    } else {
      assert (events + [e])[1..] == events[1..] + [e];
      RunSnoc(io, Step(io, s, events[0]), events[1..], e);
    }
  }
}
