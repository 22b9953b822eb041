/** A second request at an offset where one already waits: it is never linked, and only its timer answers it. */
module ChunkStranded {
  import opened Types
  import opened Requests
  import opened ChunkModel
  import opened ChunkSafety

  /** Called and unanswered, with its timer armed, but not in the waiting set. */
  ghost predicate Stranded(s: State, id: nat) {
    && id < |s.requests| && id in s.timers && id !in s.answers
    && (forall q :: q in s.queue ==> q.id != id)
  }

  /** Parking at an occupied offset strands the request. */
  lemma OccupiedOffsetStrands(io: Io, s: State, offset: Uint64, buf: seq<Byte>)
    requires Inv(s) && s.phase == Open && HasOffset(s.queue, offset)
    ensures Stranded(AppendStep(io, s, offset, buf), |s.requests|)
    ensures AppendStep(io, s, offset, buf).queue == s.queue
  {
    OccupiedStays(s.queue, Request(|s.requests|, offset, buf));
  }

  lemma {:induction false} OccupiedStays(queue: seq<Request>, r: Request)
    requires Sorted(queue) && HasOffset(queue, r.offset)
    ensures Insert(queue, r) == queue
  {
    var q :| q in queue && q.offset == r.offset;
    assert queue == [queue[0]] + queue[1..];
    if queue[0].offset != r.offset {
      assert q in queue[1..];
      OccupiedStays(queue[1..], r);
    }
  }

  /** The drain answers only requests of the waiting set. */
  lemma {:induction false} DrainAnswersWaiting(io: Io, s: State, id: nat)
    requires id !in s.answers && forall q :: q in s.queue ==> q.id != id
    ensures id !in Drain(io, s).answers && Drain(io, s).timers == s.timers && Drain(io, s).requests == s.requests
    ensures forall q :: q in Drain(io, s).queue ==> q in s.queue
    decreases |s.queue|
  {
    if s.queue != [] && s.queue[0].offset <= s.size {
      assert s.queue[0] in s.queue;
      DrainAnswersWaiting(io, DrainOne(io, s), id);
    }
  }

  lemma AppendLeavesStranded(io: Io, s: State, offset: Uint64, buf: seq<Byte>, id: nat)
    requires Sorted(s.queue) && Stranded(s, id)
    ensures Stranded(AppendStep(io, s, offset, buf), id)
  {
    var r := Request(|s.requests|, offset, buf);
    InsertKeepsSet(s.queue, r);
    DrainAnswersWaiting(io, Commit(s.(requests := s.requests + [r]), r), id);
  }

  lemma StepLeavesStranded(io: Io, s: State, e: Event, id: nat)
    requires Sorted(s.queue) && Stranded(s, id) && e != Timeout(id)
    ensures Stranded(Step(io, s, e), id)
  {
    match e
    case Append(offset, buf) => AppendLeavesStranded(io, s, offset, buf, id);
    case Timeout(other) => UnlinkKeepsSet(s.queue, other);
    case Seal(_, _, _) =>
    case Read(_, _, _, _, _) =>
  }

  ghost predicate TimedOut(s: State, id: nat) {
    id in s.answers && s.answers[id] == Error(EINVAL)
  }

  lemma StepOfStranded(io: Io, s: State, e: Event, id: nat)
    requires Inv(s) && Stranded(s, id)
    ensures Inv(Step(io, s, e))
    ensures if e == Timeout(id) then TimedOut(Step(io, s, e), id) else Stranded(Step(io, s, e), id)
  {
    StepKeeps(io, s, e);
    if e != Timeout(id) {
      StepLeavesStranded(io, s, e, id);
    }
  }

  lemma RunStaysTimedOut(io: Io, s: State, events: seq<Event>, id: nat)
    requires Inv(s) && TimedOut(s, id)
    ensures TimedOut(Run(io, s, events), id)
  {
    RunKeeps(io, s, events);
  }

  /**
   In every run a stranded request waits until its own timer fires, and is then answered EINVAL:
   no append, drain or seal ever answers it, even if its offset becomes the size.
   */
  lemma {:induction false} OnlyItsTimerAnswers(io: Io, s: State, events: seq<Event>, id: nat)
    requires Inv(s) && Stranded(s, id)
    ensures if Timeout(id) in events then TimedOut(Run(io, s, events), id) else Stranded(Run(io, s, events), id)
    decreases |events|
  {
    if events != [] {
      var e, rest := events[0], events[1..];
      StepOfStranded(io, s, e, id);
      assert events == [e] + rest;
      if e == Timeout(id) {
        RunStaysTimedOut(io, Step(io, s, e), rest, id);
      } else {
        OnlyItsTimerAnswers(io, Step(io, s, e), rest, id);
      }
    }
  }
}
