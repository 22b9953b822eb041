/** What every step of a chunk keeps, and what follows for whole runs. */
module ChunkSafety {
  import opened Types
  import Stores
  import opened Requests
  import opened ChunkModel

  ghost predicate Known(s: State, r: Request) {
    r.id < |s.requests| && s.requests[r.id] == r
  }

  ghost predicate Distinct(rs: seq<Request>) {
    forall i, j :: 0 <= i < j < |rs| ==> rs[i] != rs[j]
  }

  /** The file is the concatenation of the written buffers in write order, and `_size` its length. */
  ghost predicate FileMatchesCommits(s: State) {
    && Stores.AtEnd(s.file)
    && s.file.data == Concat(s.commits)
    && s.size == |s.file.data|
    && BackToBack(s.commits)
    && Distinct(s.commits)
  }

  ghost predicate Committed(s: State, id: nat) {
    id < |s.requests| && s.requests[id] in s.commits
  }

  ghost predicate AnsweredOk(s: State, id: nat) {
    id in s.answers && s.answers[id] == OK
  }

  /**
   What holds throughout a critical section, where `running` are the requests the section
   is dealing with: they have no answer yet and are out of the waiting set.
   */
  ghost predicate Core(s: State, running: set<nat>) {
    && !s.aborted
    && FileMatchesCommits(s)
    && Sorted(s.queue)
    && (forall i :: 0 <= i < |s.requests| ==> s.requests[i].id == i)
    && (forall c :: c in s.commits ==> Known(s, c))
    && (forall q :: q in s.queue ==> Known(s, q) && q.id in s.timers && q.id !in s.answers && q.id !in running)
    && (forall id :: id in s.timers ==> id < |s.requests|)
    && (forall id :: id in s.answers ==> id < |s.requests|)
    && (forall id :: id in running ==> id < |s.requests| && id !in s.answers)
    && (forall id: nat :: id < |s.requests| ==> id in s.answers || id in s.timers || id in running)
    && (forall id: nat :: id < |s.requests| && id !in running ==> (Committed(s, id) <==> AnsweredOk(s, id)))
  }

  /** Between critical sections every parked offset lies beyond the size. */
  ghost predicate Inv(s: State) {
    && Core(s, {})
    && (forall q :: q in s.queue ==> q.offset > s.size)
  }

  /** What no step undoes. */
  ghost predicate Extends(s: State, t: State) {
    && s.requests <= t.requests
    && s.commits <= t.commits
    && s.file.data <= t.file.data
    && s.size <= t.size
    && (s.file.Mem? <==> t.file.Mem?)
    && (forall id :: id in s.answers ==> id in t.answers && t.answers[id] == s.answers[id])
    && (s.phase == Sealed ==> t.phase == Sealed && t.file.data == s.file.data && t.size == s.size && t.commits == s.commits)
  }

  // ----- the moves a critical section is made of -----

  lemma CallKeeps(s: State, running: set<nat>, r: Request)
    requires Core(s, running) && r.id == |s.requests|
    ensures Core(s.(requests := s.requests + [r]), running + {r.id})
    ensures r !in s.commits
  {
    var t := s.(requests := s.requests + [r]);
    assert forall i :: 0 <= i < |s.requests| ==> t.requests[i] == s.requests[i];
    forall id: nat | id < |t.requests| && id !in running + {r.id}
      ensures Committed(t, id) <==> AnsweredOk(t, id)
    {
      assert Committed(s, id) <==> AnsweredOk(s, id);
    }
  }

  lemma DequeueKeeps(s: State, running: set<nat>)
    requires Core(s, running) && s.queue != []
    ensures Core(s.(queue := s.queue[1..]), running + {s.queue[0].id})
    ensures s.queue[0] !in s.commits
    ensures s.queue[0].id !in running
  {
    var r := s.queue[0];
    var t := s.(queue := s.queue[1..]);
    assert r in s.queue;
    assert Committed(s, r.id) <==> AnsweredOk(s, r.id);
    forall q | q in t.queue
      ensures q in s.queue && q.id != r.id
    {
      assert Known(s, q) && Known(s, r);
    }
    forall id: nat | id < |t.requests| && id !in running + {r.id}
      ensures Committed(t, id) <==> AnsweredOk(t, id)
    {
      assert Committed(s, id) <==> AnsweredOk(s, id);
    }
  }

  lemma CommitMatchesFile(s: State, r: Request)
    requires FileMatchesCommits(s)
    requires r !in s.commits && r.offset == s.size && |s.file.data| + |r.buf| < TWO_64
    ensures FileMatchesCommits(Commit(s, r))
    ensures Commit(s, r).file.data == s.file.data + r.buf
    ensures Commit(s, r).size == s.size + |r.buf|
  {
    Stores.PositionalAppend(s.file, r.buf);
    ConcatSnoc(s.commits, r);
    BackToBackSnoc(s.commits, r);
    assert (s.size + |r.buf|) % TWO_64 == s.size + |r.buf|;
  }

  lemma CommitKeeps(s: State, running: set<nat>, r: Request)
    requires Core(s, running) && Known(s, r) && r.id in running
    requires r !in s.commits && r.offset == s.size && |s.file.data| + |r.buf| < TWO_64
    ensures Core(Commit(s, r), running)
    ensures r in Commit(s, r).commits
    ensures Commit(s, r).size == s.size + |r.buf|
    ensures s.phase == Open ==> Extends(s, Commit(s, r))
  {
    var t := Commit(s, r);
    CommitMatchesFile(s, r);
    forall c | c in t.commits
      ensures Known(t, c)
    {
      assert c in s.commits || c == r;
      assert Known(s, c);
    }
    forall id: nat | id < |t.requests| && id !in running
      ensures Committed(t, id) <==> AnsweredOk(t, id)
    {
      assert Committed(s, id) <==> AnsweredOk(s, id);
      assert t.requests[id] != r;
      assert t.requests[id] in t.commits <==> t.requests[id] in s.commits;
    }
  }

  lemma AnswerKeeps(s: State, running: set<nat>, id: nat, status: Status)
    requires Core(s, running) && id in running
    requires status == OK <==> Committed(s, id)
    ensures Core(Answer(s, id, status), running - {id})
    ensures Extends(s, Answer(s, id, status))
  {
    var t := Answer(s, id, status);
    forall i: nat | i < |t.requests| && i !in running - {id}
      ensures Committed(t, i) <==> AnsweredOk(t, i)
    {
      if i != id {
        assert Committed(s, i) <==> AnsweredOk(s, i);
      }
    }
  }

  // ----- the drain -----

  lemma DrainOneKeeps(io: Io, s: State, running: set<nat>)
    requires Core(s, running) && s.phase == Open
    requires s.queue != [] && s.queue[0].offset <= s.size
    ensures var t := DrainOne(io, s);
      && Core(t, running)
      && Extends(s, t)
      && t.phase == Open && t.requests == s.requests && t.timers == s.timers
  {
    var r := s.queue[0];
    var rest := s.(queue := s.queue[1..]);
    DequeueKeeps(s, running);
    assert r in s.queue;
    var status := if r.offset < s.size then Error(EINVAL) else WriteStatus(io, s.file, r);
    var written := if status == OK then Commit(rest, r) else rest;
    if status == OK {
      CommitKeeps(rest, running + {r.id}, r);
    }
    AnswerKeeps(written, running + {r.id}, r.id, status);
    assert running + {r.id} - {r.id} == running;
  }

  /** The drain keeps the invariant and ends at the first gap. */
  lemma {:induction false} DrainKeeps(io: Io, s: State, running: set<nat>)
    requires Core(s, running) && s.phase == Open
    ensures var t := Drain(io, s);
      && Core(t, running)
      && Extends(s, t)
      && (forall q :: q in t.queue ==> q.offset > t.size)
      && t.phase == Open && t.requests == s.requests && t.timers == s.timers
    decreases |s.queue|
  {
    if s.queue == [] || s.queue[0].offset > s.size {
    } else {
      DrainOneKeeps(io, s, running);
      DrainKeeps(io, DrainOne(io, s), running);
    }
  }

  // ----- the steps -----

  lemma ParkKeeps(s: State, offset: Uint64, buf: seq<Byte>)
    requires Inv(s) && s.phase == Open && offset > s.size
    ensures var r := Request(|s.requests|, offset, buf);
      var t := s.(requests := s.requests + [r], timers := s.timers + {r.id}, queue := Insert(s.queue, r));
      Inv(t) && Extends(s, t)
  {
    var r := Request(|s.requests|, offset, buf);
    var called := s.(requests := s.requests + [r]);
    var t := called.(timers := s.timers + {r.id}, queue := Insert(s.queue, r));
    CallKeeps(s, {}, r);
    InsertKeepsSet(s.queue, r);
    assert !Committed(t, r.id);
    forall id: nat | id < |t.requests|
      ensures Committed(t, id) <==> AnsweredOk(t, id)
    {
      if id != r.id {
        assert Committed(called, id) <==> AnsweredOk(called, id);
      }
    }
  }

  lemma AppendKeeps(io: Io, s: State, offset: Uint64, buf: seq<Byte>)
    requires Inv(s)
    ensures Inv(AppendStep(io, s, offset, buf)) && Extends(s, AppendStep(io, s, offset, buf))
  {
    var r := Request(|s.requests|, offset, buf);
    var called := s.(requests := s.requests + [r]);
    CallKeeps(s, {}, r);
    assert {} + {r.id} == {r.id} && {r.id} - {r.id} == {};
    if s.phase == Sealed {
      AnswerKeeps(called, {r.id}, r.id, Error(EPERM));
    } else if offset < s.size {
      AnswerKeeps(called, {r.id}, r.id, Error(EINVAL));
    } else if offset != s.size {
      ParkKeeps(s, offset, buf);
    } else if WriteStatus(io, s.file, r) != OK {
      AnswerKeeps(called, {r.id}, r.id, WriteStatus(io, s.file, r));
    } else {
      DirectKeeps(io, called, r);
      ExtendsTransitive(s, called, AppendStep(io, s, offset, buf));
    }
  }

  /** The direct write, the drain after it and the reply. */
  lemma DirectKeeps(io: Io, s: State, r: Request)
    requires Core(s, {r.id}) && s.phase == Open && Known(s, r)
    requires r !in s.commits && r.offset == s.size && |s.file.data| + |r.buf| < TWO_64
    ensures var t := Answer(Drain(io, Commit(s, r)), r.id, OK);
      Inv(t) && Extends(s, t)
  {
    CommitKeeps(s, {r.id}, r);
    var written := Commit(s, r);
    DrainKeeps(io, written, {r.id});
    var drained := Drain(io, written);
    AnswerKeeps(drained, {r.id}, r.id, OK);
    assert {r.id} - {r.id} == {};
    ExtendsTransitive(s, written, drained);
    ExtendsTransitive(s, drained, Answer(drained, r.id, OK));
  }

  lemma ExtendsTransitive(s: State, t: State, u: State)
    requires Extends(s, t) && Extends(t, u)
    ensures Extends(s, u)
  {
  }

  lemma TimeoutKeeps(s: State, id: nat)
    requires Inv(s)
    ensures Inv(TimeoutStep(s, id)) && Extends(s, TimeoutStep(s, id))
    ensures id in s.timers ==> id in TimeoutStep(s, id).answers
  {
    if id in s.timers && id !in s.answers {
      UnlinkKeepsSet(s.queue, id);
      var t := TimeoutStep(s, id);
      assert !Committed(s, id);
      forall i: nat | i < |t.requests|
        ensures Committed(t, i) <==> AnsweredOk(t, i)
      {
        assert Committed(s, i) <==> AnsweredOk(s, i);
      }
    } else if id in s.timers {
      var t := TimeoutStep(s, id);
      forall i: nat | i < |t.requests|
        ensures Committed(t, i) <==> AnsweredOk(t, i)
      {
        assert Committed(s, i) <==> AnsweredOk(s, i);
      }
    }
  }

  lemma StepKeeps(io: Io, s: State, e: Event)
    requires Inv(s)
    ensures Inv(Step(io, s, e)) && Extends(s, Step(io, s, e))
  {
    match e
    case Append(offset, buf) => AppendKeeps(io, s, offset, buf);
    case Timeout(id) => TimeoutKeeps(s, id);
    case Seal(_, _, _) => SameBookkeeping(s, Step(io, s, e));
    case Read(bufIsNull, offset, size, openStatus, readStatus) =>
      ReadKeeps(s, bufIsNull, offset, size, openStatus, readStatus);
  }

  lemma ReadKeeps(s: State, bufIsNull: bool, offset: Uint64, size: Uint64, openStatus: Status, readStatus: Status)
    requires Inv(s)
    ensures var t := ReadStep(s, bufIsNull, offset, size, openStatus, readStatus);
      Inv(t) && Extends(s, t) && t.file.data == s.file.data
  {
    var (file, handle) := Stores.OpenReader(s.file);
    Stores.ReadKeepsAppendPosition(file, handle, offset, size, readStatus);
    SameBookkeeping(s, ReadStep(s, bufIsNull, offset, size, openStatus, readStatus));
  }

  /** A step that changes only the phase or the readers' positions keeps everything. */
  lemma SameBookkeeping(s: State, t: State)
    requires Inv(s)
    requires t.file.data == s.file.data && Stores.AtEnd(t.file) && (t.file.Mem? <==> s.file.Mem?)
    requires t == s.(phase := t.phase, file := t.file)
    requires s.phase == Sealed ==> t.phase == Sealed
    ensures Inv(t) && Extends(s, t)
  {
    forall id: nat | id < |t.requests|
      ensures Committed(t, id) <==> AnsweredOk(t, id)
    {
      assert Committed(s, id) <==> AnsweredOk(s, id);
    }
  }

  /** Safety over whole runs: every interleaving keeps the invariant and undoes nothing. */
  lemma {:induction false} RunKeeps(io: Io, s: State, events: seq<Event>)
    requires Inv(s)
    ensures Inv(Run(io, s, events)) && Extends(s, Run(io, s, events))
    decreases |events|
  {
    if events == [] {
    } else {
      StepKeeps(io, s, events[0]);
      RunKeeps(io, Step(io, s, events[0]), events[1..]);
    }
  }
}
