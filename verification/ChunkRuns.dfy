/** Theorems about every run of a chunk, from its creation on. */
module ChunkRuns {
  import opened Types
  import Stores
  import opened Requests
  import opened ChunkModel
  import opened ChunkSafety

  /** The bytes of a request sit at its own offset in the file. */
  ghost predicate Sits(s: State, r: Request) {
    r.offset + |r.buf| <= |s.file.data| && s.file.data[r.offset..r.offset + |r.buf|] == r.buf
  }

  lemma CommitsSit(s: State)
    requires FileMatchesCommits(s)
    ensures forall c :: c in s.commits ==> Sits(s, c)
  {
    forall c | c in s.commits
      ensures Sits(s, c)
    {
      var i :| 0 <= i < |s.commits| && s.commits[i] == c;
      BytesSit(s.commits, i);
    }
  }

  /**
   In every interleaving: no promise is set twice; a request whose timer is no longer armed has
   its answer; a request is answered OK exactly when it was written, and then its bytes sit at
   its offset; the file is the written buffers in write order and `_size` its length.
   */
  lemma EveryRun(io: Io, file: Stores.File, events: seq<Event>)
    requires FreshFile(file)
    ensures var s := Run(io, Init(file), events);
      && Inv(s)
      && !s.aborted
      && (forall id: nat :: id < |s.requests| && id !in s.timers ==> id in s.answers)
      && (forall id: nat :: id < |s.requests| ==> (AnsweredOk(s, id) <==> Committed(s, id)))
      && (forall c :: c in s.commits ==> Sits(s, c))
      && s.file.data == Concat(s.commits)
      && s.size == |s.file.data|
  {
    RunKeeps(io, Init(file), events);
    CommitsSit(Run(io, Init(file), events));
  }

  /** Bytes at the right place do not tell an accepted request from a refused one with the same content. */
  lemma RefusedBytesMaySit(io: Io, b: Byte)
    requires io(0) == OK
    ensures var s := Run(io, Init(Stores.Mem([])), [Append(0, [b]), Append(0, [b])]);
      |s.requests| == 2 && Sits(s, s.requests[1]) && 1 in s.answers && s.answers[1] == Error(EINVAL)
  {
    var s0 := Init(Stores.Mem([]));
    var s1 := Step(io, s0, Append(0, [b]));
    assert s1.file.data == [b] && s1.size == 1;
    assert [Append(0, [b]), Append(0, [b])][1..] == [Append(0, [b])];
    assert [Append(0, [b])][1..] == [];
    var s2 := Step(io, s1, Append(0, [b]));
    assert Run(io, s0, [Append(0, [b]), Append(0, [b])]) == Run(io, s1, [Append(0, [b])]) == s2;
  }

  /** After a successful seal nothing changes the chunk any more, and a waiting request can only end in error. */
  lemma SealIsFinal(io: Io, s: State, events: seq<Event>)
    requires Inv(s) && s.phase == Sealed
    ensures var t := Run(io, s, events);
      && t.phase == Sealed && t.file.data == s.file.data && t.size == s.size && t.commits == s.commits
      && (forall id: nat :: id in t.answers && id !in s.answers ==> t.answers[id] != OK)
  {
    RunKeeps(io, s, events);
    var t := Run(io, s, events);
    forall id: nat | id in t.answers && id !in s.answers
      ensures t.answers[id] != OK
    {
      CommittedBefore(s, t, id);
    }
  }

  lemma CommittedBefore(s: State, t: State, id: nat)
    requires Inv(s) && Inv(t) && Extends(s, t) && t.commits == s.commits
    ensures AnsweredOk(t, id) ==> AnsweredOk(s, id)
  {
    if AnsweredOk(t, id) {
      assert Committed(t, id);
      var c := t.requests[id];
      assert c in s.commits && Known(s, c);
      assert Committed(s, id);
    }
  }

  /** The range check compares the right number exactly unless the sum wraps to something no larger than the size. */
  lemma RangeCheckExact(s: State, offset: Uint64, size: Uint64)
    ensures (InRange(s, offset, size) <==> offset + size <= s.size) <==>
              offset + size < TWO_64 || offset + size - TWO_64 > s.size
  {
    if offset + size >= TWO_64 {
      assert (offset + size) % TWO_64 == offset + size - TWO_64;
    }
  }

  /** A read inside the file answers the same at every later time, sealed or not. */
  lemma ReadsAreStable(io: Io, s: State, events: seq<Event>, offset: Uint64, size: Uint64, openStatus: Status,
                       readStatus: Status, buf: seq<Byte>)
    requires Inv(s) && offset + size <= s.size
    ensures var t := Run(io, s, events);
      && ReadReply(t, offset, size, openStatus, readStatus, buf) == ReadReply(s, offset, size, openStatus, readStatus, buf)
      && (openStatus == OK && readStatus == OK && offset < TWO_63 && buf == [] ==>
            ReadReply(t, offset, size, openStatus, readStatus, buf) == Stores.Reply(OK, s.file.data[offset..offset + size]))
  {
    RunKeeps(io, s, events);
    var t := Run(io, s, events);
    SliceOfLonger(s.file.data, t.file.data, offset, size);
    RangeCheckExact(s, offset, size);
    RangeCheckExact(t, offset, size);
  }

  lemma SliceOfLonger(data: seq<Byte>, longer: seq<Byte>, offset: nat, size: nat)
    requires data <= longer && offset + size <= |data|
    ensures Stores.Slice(longer, offset, size) == Stores.Slice(data, offset, size) == data[offset..offset + size]
  {
    assert data == longer[..|data|];
    assert longer[offset..offset + size] == data[offset..offset + size];
  }

  // ----- the drain, exactly -----

  /** With a store that never fails, what the drain does to the part of the waiting set it removes. */
  ghost predicate DrainedExactly(s: State, t: State) {
    && s.commits <= t.commits
    && (forall c :: c in t.commits[|s.commits|..] ==> c in s.queue)
    && (forall q :: q in t.queue <==> q in s.queue && q.offset > t.size)
    && (forall q :: q in s.queue && q.offset <= t.size ==>
          q.id in t.answers && t.answers[q.id] == (if q in t.commits then OK else Error(EINVAL)))
    && (forall q :: q in s.queue && q !in t.commits ==> q.offset != t.size)
  }

  lemma DrainOneExact(io: Io, s: State, running: set<nat>)
    requires Core(s, running) && s.phase == Open && s.queue != [] && s.queue[0].offset <= s.size
    requires forall n :: io(n) == OK
    requires Fits(s)
    ensures var t := DrainOne(io, s);
      var r := s.queue[0];
      && t.queue == s.queue[1..]
      && t.commits == (if r.offset == s.size then s.commits + [r] else s.commits)
      && t.size == (if r.offset == s.size then s.size + |r.buf| else s.size)
      && t.answers == s.answers[r.id := if r.offset == s.size then OK else Error(EINVAL)]
  {
    assert s.queue[0] in s.queue;
  }

  ghost predicate Fits(s: State) {
    forall q :: q in s.queue ==> q.offset + |q.buf| < TWO_64
  }

  lemma {:induction false} DrainRemoves(io: Io, s: State, running: set<nat>)
    requires Core(s, running) && s.phase == Open && Fits(s)
    requires forall n :: io(n) == OK
    requires forall q :: q in s.queue ==> q !in s.commits
    ensures DrainedExactly(s, Drain(io, s))
    decreases |s.queue|
  {
    if s.queue == [] || s.queue[0].offset > s.size {
      assert forall q :: q in s.queue ==> q.offset > s.size;
      assert s.commits[|s.commits|..] == [];
    } else {
      var r := s.queue[0];
      var m := DrainOne(io, s);
      var t := Drain(io, s);
      assert r in s.queue;
      DrainOneExact(io, s, running);
      DrainOneKeeps(io, s, running);
      assert forall q :: q in m.queue ==> q in s.queue;
      forall q | q in m.queue
        ensures q !in m.commits
      {
        assert q != r;
      }
      DrainRemoves(io, m, running);
      DrainKeeps(io, m, running);
      assert forall q :: q in s.queue <==> q == r || q in m.queue;
      DrainStepExact(s, m, t, r);
    }
  }

  /**
   With a store that never fails, the drained requests are exactly those at or below the final size:
   the ones written follow one another from the old size, the others are refused, and no request
   left behind continues the file.
   */
  lemma DrainIsExact(io: Io, s: State, running: set<nat>)
    requires Core(s, running) && s.phase == Open && Fits(s)
    requires forall n :: io(n) == OK
    ensures DrainedExactly(s, Drain(io, s)) && FileMatchesCommits(Drain(io, s))
  {
    forall q | q in s.queue
      ensures q !in s.commits
    {
      assert !Committed(s, q.id);
    }
    DrainRemoves(io, s, running);
    DrainKeeps(io, s, running);
  }

  lemma DrainStepExact(s: State, m: State, t: State, r: Request)
    requires DrainedExactly(m, t) && Extends(m, t)
    requires r.offset <= s.size <= m.size
    requires forall q :: q in s.queue <==> q == r || q in m.queue
    requires r !in m.queue && r !in s.commits
    requires m.commits == (if r.offset == s.size then s.commits + [r] else s.commits)
    requires r.id in m.answers && m.answers[r.id] == (if r.offset == s.size then OK else Error(EINVAL))
    ensures DrainedExactly(s, t)
  {
    var k := |s.commits|;
    if r.offset == s.size {
      assert t.commits[k] == r;
      assert t.commits[k..] == [r] + t.commits[k + 1..];
    }
    assert t.commits == t.commits[..k] + t.commits[k..];
    assert t.commits[..k] == s.commits;
    assert r.offset != s.size ==> r !in t.commits[k..];
  }
}
