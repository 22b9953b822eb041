/** What each call and callback answers, case by case, and what it leaves alone. */
module ChunkAnswers {
  import opened Types
  import Stores
  import opened Requests
  import opened ChunkModel
  import opened ChunkSafety
  import opened ChunkRuns
  import ChunkExact

  /** The call was answered on the spot and nothing else happened. */
  ghost predicate OnlyAnswered(s: State, t: State, r: Request, status: Status) {
    t == s.(requests := s.requests + [r], answers := s.answers[r.id := status])
  }

  /** The call waits with its timer armed, linked unless one already waits at its offset. */
  ghost predicate OnlyParked(s: State, t: State, r: Request) {
    && t == s.(requests := s.requests + [r], timers := s.timers + {r.id}, queue := t.queue)
    && Sorted(t.queue)
    && (forall q :: q in t.queue <==> q in s.queue || (q == r && !HasOffset(s.queue, r.offset)))
  }

  /** The bytes of the request directly follow the old file, and nothing but the drain comes after. */
  ghost predicate Written(s: State, t: State, r: Request) {
    && r.id in t.answers && t.answers[r.id] == OK
    && s.file.data + r.buf <= t.file.data
    && s.commits + [r] <= t.commits
    && t.requests == s.requests + [r] && t.timers == s.timers && t.phase == Open
  }

  /**
   Every append, in every state a run can reach. A sealed chunk refuses it; an open one refuses what
   lies below its size, parks what lies beyond, and at the size does what the store says.
   */
  lemma AppendAnswers(io: Io, s: State, offset: Uint64, buf: seq<Byte>)
    requires Inv(s)
    ensures var r := Request(|s.requests|, offset, buf);
      var t := AppendStep(io, s, offset, buf);
      && (s.phase == Sealed ==> OnlyAnswered(s, t, r, Error(EPERM)))
      && (s.phase == Open && offset < s.size ==> OnlyAnswered(s, t, r, Error(EINVAL)))
      && (s.phase == Open && offset > s.size ==> OnlyParked(s, t, r))
      && (s.phase == Open && offset == s.size && io(r.id) != OK ==> OnlyAnswered(s, t, r, io(r.id)))
      && (s.phase == Open && offset == s.size && io(r.id) == OK ==>
            if s.size + |buf| < TWO_64 then Written(s, t, r) else OnlyAnswered(s, t, r, Error(EFBIG)))
  {
    var r := Request(|s.requests|, offset, buf);
    assert r.id !in s.answers;
    InsertKeepsSet(s.queue, r);
    if s.phase == Open && offset == s.size && io(r.id) == OK && s.size + |buf| < TWO_64 {
      AcceptedIsWritten(io, s, r);
    }
  }

  lemma AcceptedIsWritten(io: Io, s: State, r: Request)
    requires Inv(s) && s.phase == Open && r.id == |s.requests| && r.offset == s.size
    requires io(r.id) == OK && s.size + |r.buf| < TWO_64
    ensures Written(s, AppendStep(io, s, r.offset, r.buf), r)
  {
    var called := s.(requests := s.requests + [r]);
    CallKeeps(s, {}, r);
    assert {} + {r.id} == {r.id};
    CommitKeeps(called, {r.id}, r);
    CommitMatchesFile(called, r);
    DrainKeeps(io, Commit(called, r), {r.id});
  }

  // ----- what the drain answers, whatever the store does -----

  /** Another written request has the byte at this one's offset. */
  ghost predicate Covered(commits: seq<Request>, q: Request) {
    exists c :: c in commits && c != q && c.offset <= q.offset < c.offset + |c.buf|
  }

  /** The answer of a drained request: EINVAL if it was overtaken, else what the store said to its write. */
  ghost function DrainAnswer(io: Io, commits: seq<Request>, q: Request): Status {
    if Covered(commits, q) then Error(EINVAL)
    else if io(q.id) == OK && q.offset + |q.buf| >= TWO_64 then Error(EFBIG)
    else io(q.id)
  }

  lemma {:induction false} DrainTakesFromQueue(io: Io, s: State)
    ensures forall c :: c in Drain(io, s).commits ==> c in s.commits || c in s.queue
    ensures forall q :: q in Drain(io, s).queue ==> q in s.queue
    decreases |s.queue|
  {
    if s.queue != [] && s.queue[0].offset <= s.size {
      assert s.queue == [s.queue[0]] + s.queue[1..];
      DrainTakesFromQueue(io, DrainOne(io, s));
    }
  }

  /** Below the size every byte belongs to a written request; at the size, none does that is already written or waits. */
  lemma CoveredExactly(s: State, running: set<nat>, r: Request, commits: seq<Request>)
    requires Core(s, running) && s.queue != [] && r == s.queue[0] && r.offset <= s.size && r !in s.commits
    requires s.commits <= commits && forall c :: c in commits ==> c in s.commits || c in s.queue
    ensures Covered(commits, r) <==> r.offset < s.size
  {
    if r.offset < s.size {
      ChunkExact.CommitsAreChain(s.commits);
      var i := ChunkExact.CoveringShape(ChunkExact.Shapes(s.commits), r.offset);
      var c := s.commits[i];
      assert c in s.commits && commits[i] == c;
      assert c != r;
    } else {
      CommitsSit(s);
      forall c | c in commits && c != r
        ensures !(c.offset <= r.offset < c.offset + |c.buf|)
      {
        if c in s.commits {
          assert Sits(s, c);
        }
      }
    }
  }

  lemma DrainOneAnswers(io: Io, s: State, running: set<nat>)
    requires Core(s, running) && s.queue != [] && s.queue[0].offset <= s.size
    ensures var r := s.queue[0];
      && r.id in DrainOne(io, s).answers
      && DrainOne(io, s).answers[r.id] ==
           (if r.offset < s.size then Error(EINVAL)
            else if io(r.id) == OK && s.size + |r.buf| >= TWO_64 then Error(EFBIG)
            else io(r.id))
  {
    assert s.queue[0] in s.queue;
  }

  /** Everything the rest of the drain writes was written before the first request or waited beside it. */
  lemma FirstDrained(io: Io, s: State, running: set<nat>)
    requires Core(s, running) && s.phase == Open && s.queue != [] && s.queue[0].offset <= s.size
    ensures var t := Drain(io, s);
      DrainedRight(io, t, s.queue[0])
  {
    DrainOneAnswers(io, s, running);
    DequeueKeeps(s, running);
    DrainTakesFromQueue(io, s);
    DrainExtends(io, s, running);
    CoveredExactly(s, running, s.queue[0], Drain(io, s).commits);
  }

  lemma DrainExtends(io: Io, s: State, running: set<nat>)
    requires Core(s, running) && s.phase == Open && s.queue != [] && s.queue[0].offset <= s.size
    ensures Extends(s, Drain(io, s)) && Extends(DrainOne(io, s), Drain(io, s))
  {
    DrainOneKeeps(io, s, running);
    DrainKeeps(io, DrainOne(io, s), running);
    DrainKeeps(io, s, running);
  }

  /** What has become of a request after a drain. */
  ghost predicate DrainedRight(io: Io, t: State, q: Request) {
    if q.offset > t.size then q in t.queue
    else q.id in t.answers && t.answers[q.id] == DrainAnswer(io, t.commits, q)
  }

  lemma {:induction false} DrainAnswersEach(io: Io, s: State, running: set<nat>, q: Request)
    requires Core(s, running) && s.phase == Open && q in s.queue
    ensures DrainedRight(io, Drain(io, s), q)
    decreases |s.queue|
  {
    if s.queue[0].offset <= s.size {
      assert s.queue == [s.queue[0]] + s.queue[1..];
      if q == s.queue[0] {
        FirstDrained(io, s, running);
      } else {
        DrainOneKeeps(io, s, running);
        DrainAnswersEach(io, DrainOne(io, s), running, q);
      }
    }
  }

  /** Exactly the requests beyond the size go on waiting, and every other has its right answer. */
  ghost predicate Settled(io: Io, queue: seq<Request>, t: State) {
    && (forall q :: q in t.queue <==> q in queue && q.offset > t.size)
    && (forall q :: q in queue && q.offset <= t.size ==>
          q.id in t.answers && t.answers[q.id] == DrainAnswer(io, t.commits, q))
  }

  /**
   The drain, whatever the store does: exactly the requests beyond the final size go on waiting; each
   other is refused if a written request has the byte at its offset, and otherwise answered with what
   the store said to its write.
   */
  lemma DrainAnswers(io: Io, s: State, running: set<nat>)
    requires Core(s, running) && s.phase == Open
    ensures Settled(io, s.queue, Drain(io, s))
  {
    var t := Drain(io, s);
    forall q | q in s.queue
      ensures DrainedRight(io, t, q)
    {
      DrainAnswersEach(io, s, running, q);
    }
    DrainKeeps(io, s, running);
    DrainTakesFromQueue(io, s);
  }

  lemma CommitSettles(io: Io, s: State, r: Request)
    requires Core(s, {r.id}) && s.phase == Open && Known(s, r) && r !in s.commits
    requires r.offset == s.size && s.size + |r.buf| < TWO_64
    ensures Settled(io, s.queue, Drain(io, Commit(s, r))) && r.id !in Drain(io, Commit(s, r)).answers
  {
    CommitKeeps(s, {r.id}, r);
    DrainAnswers(io, Commit(s, r), {r.id});
    DrainKeeps(io, Commit(s, r), {r.id});
  }

  lemma AnswerLeavesSettled(io: Io, queue: seq<Request>, s: State, id: nat)
    requires Settled(io, queue, s) && id !in s.answers
    ensures Settled(io, queue, Answer(s, id, OK))
  {
  }

  /** An append that is accepted settles every waiting request at or below the new size, and no other. */
  lemma AcceptedAppendSettles(io: Io, s: State, offset: Uint64, buf: seq<Byte>)
    requires Inv(s) && s.phase == Open && offset == s.size
    requires io(|s.requests|) == OK && s.size + |buf| < TWO_64
    ensures Settled(io, s.queue, AppendStep(io, s, offset, buf))
  {
    var r := Request(|s.requests|, offset, buf);
    var called := s.(requests := s.requests + [r]);
    CallKeeps(s, {}, r);
    assert {} + {r.id} == {r.id};
    CommitSettles(io, called, r);
    AnswerLeavesSettled(io, s.queue, Drain(io, Commit(called, r)), r.id);
  }

  // ----- timers -----

  /** A timer that fires on a waiting request answers it EINVAL and unlinks it; otherwise it only goes off. */
  lemma TimeoutAnswers(s: State, id: nat)
    requires Inv(s)
    ensures var t := TimeoutStep(s, id);
      if id !in s.timers then t == s
      else if id in s.answers then t == s.(timers := s.timers - {id})
      else
        && t == s.(timers := s.timers - {id}, answers := s.answers[id := Error(EINVAL)], queue := t.queue)
        && Sorted(t.queue) && forall q :: q in t.queue <==> q in s.queue && q.id != id
  {
    UnlinkKeepsSet(s.queue, id);
  }

  // ----- reads -----

  /** The reply of a read, case by case: exactly when it is refused, and by whom. */
  lemma ReadAnswers(s: State, offset: Uint64, size: Uint64, openStatus: Status, readStatus: Status, buf: seq<Byte>)
    requires Inv(s)
    ensures var reply := ReadReply(s, offset, size, openStatus, readStatus, buf);
      var wraps := offset + size >= TWO_64;
      && (!wraps && offset + size > s.size ==> reply == Stores.Reply(Error(EINVAL), buf))
      && (wraps && offset + size - TWO_64 > s.size ==> reply == Stores.Reply(Error(EINVAL), buf))
      && (offset + size <= s.size && openStatus != OK ==> reply == Stores.Reply(openStatus, buf))
      && (offset + size <= s.size && openStatus == OK ==>
            var bytes := s.file.data[offset..offset + size];
            if s.file.Mem? then reply == Stores.Reply(OK, buf + bytes)
            else if offset >= TWO_63 then reply == Stores.Reply(Error(EINVAL), buf)
            else if readStatus != OK then reply == Stores.Reply(readStatus, buf)
            else reply == Stores.Reply(OK, bytes))
      && (wraps && offset + size - TWO_64 <= s.size ==>
            if openStatus != OK then reply == Stores.Reply(openStatus, buf)
            else if s.file.Mem? then
              reply == Stores.Reply(OK, buf + if offset <= s.size then s.file.data[offset..] else [])
            else reply == Stores.Reply(if offset < TWO_63 && readStatus != OK then readStatus else Error(EINVAL), buf))
  {
    if offset + size >= TWO_64 {
      assert (offset + size) % TWO_64 == offset + size - TWO_64;
    } else {
      assert (offset + size) % TWO_64 == offset + size;
    }
  }
}
