/**
 When "answered OK" and "the bytes sit at the offset" are the same thing: exactly when the other
 requests cannot, back to back from zero, carry the file past the end of this one.
 */
module ChunkExact {
  import opened Types
  import Stores
  import opened Requests
  import opened ChunkModel
  import opened ChunkSafety
  import opened ChunkRuns

  /** What a caller knows of a request before the call: where it goes and how long it is. */
  datatype Shape = Shape(offset: Uint64, length: nat)

  function ShapeOf(r: Request): Shape {
    Shape(r.offset, |r.buf|)
  }

  function Shapes(rs: seq<Request>): (shapes: seq<Shape>)
    ensures |shapes| == |rs|
  {
    seq(|rs|, i requires 0 <= i < |rs| => ShapeOf(rs[i]))
  }

  /** The shapes of the appends among some events, in order. */
  function Calls(events: seq<Event>): seq<Shape> {
    if events == [] then []
    else
      (match events[0]
       case Append(offset, buf) => [Shape(offset, |buf|)]
       case _ => []) + Calls(events[1..])
  }

  function Length(chain: seq<Shape>): nat {
    if chain == [] then 0 else Length(chain[..|chain| - 1]) + chain[|chain| - 1].length
  }

  /** The shapes follow one another from zero. */
  ghost predicate IsChain(chain: seq<Shape>) {
    chain == [] ||
    (IsChain(chain[..|chain| - 1]) && chain[|chain| - 1].offset == Length(chain[..|chain| - 1]))
  }

  /** A chain drawn from the shapes covers everything up to an end. */
  ghost predicate Reaches(chain: seq<Shape>, others: multiset<Shape>, end: int) {
    IsChain(chain) && multiset(chain) <= others && end <= Length(chain) < TWO_64
  }

  ghost predicate CanReach(others: multiset<Shape>, end: int) {
    exists chain :: Reaches(chain, others, end)
  }

  /** The others can carry the file to the end of the shape without it. */
  ghost predicate Overrun(r: Shape, others: multiset<Shape>) {
    CanReach(others, r.offset + r.length)
  }

  // ----- written requests form a chain -----

  lemma {:induction false} CommitsAreChain(rs: seq<Request>)
    requires BackToBack(rs)
    ensures IsChain(Shapes(rs)) && Length(Shapes(rs)) == |Concat(rs)|
    decreases |rs|
  {
    if rs != [] {
      var n := |rs| - 1;
      assert forall i :: 0 <= i < n ==> rs[..n][..i] == rs[..i];
      CommitsAreChain(rs[..n]);
      assert Shapes(rs)[..n] == Shapes(rs[..n]);
    }
  }

  lemma ShapesSplit(rs: seq<Request>, i: nat)
    requires i < |rs|
    ensures multiset(Shapes(rs)) == multiset(Shapes(rs[..i] + rs[i + 1..])) + multiset{ShapeOf(rs[i])}
  {
    var before, after := Shapes(rs[..i]), Shapes(rs[i + 1..]);
    assert Shapes(rs) == before + [ShapeOf(rs[i])] + after;
    assert Shapes(rs[..i] + rs[i + 1..]) == before + after;
  }

  /** Distinct requests taken from a list have shapes taken from its shapes. */
  lemma {:induction false} ShapesOfSome(some: seq<Request>, all: seq<Request>)
    requires Distinct(some) && forall r :: r in some ==> r in all
    ensures multiset(Shapes(some)) <= multiset(Shapes(all))
    decreases |some|
  {
    if some != [] {
      var n := |some| - 1;
      var last := some[n];
      assert last in some;
      var i :| 0 <= i < |all| && all[i] == last;
      var rest := all[..i] + all[i + 1..];
      forall r | r in some[..n]
        ensures r in rest
      {
        assert r in some && r != last;
        var j :| 0 <= j < |all| && all[j] == r;
        assert j < i ==> rest[j] == r;
        assert j > i ==> rest[j - 1] == r;
      }
      ShapesOfSome(some[..n], rest);
      ShapesSplit(all, i);
      assert Shapes(some) == Shapes(some[..n]) + [ShapeOf(last)];
    }
  }

  /** What the other requests of a state look like. */
  ghost function OtherShapes(s: State, id: nat): multiset<Shape>
    requires id < |s.requests|
  {
    multiset(Shapes(s.requests)) - multiset{ShapeOf(s.requests[id])}
  }

  /** The written requests, if this one is not among them, are drawn from the others. */
  lemma CommitsAreOthers(s: State, id: nat)
    requires Inv(s) && id < |s.requests| && !Committed(s, id)
    ensures multiset(Shapes(s.commits)) <= OtherShapes(s, id)
  {
    var others := s.requests[..id] + s.requests[id + 1..];
    forall c | c in s.commits
      ensures c in others
    {
      assert Known(s, c);
      assert c.id < id ==> others[c.id] == c;
      assert c.id > id ==> others[c.id - 1] == c;
    }
    ShapesOfSome(s.commits, others);
    ShapesSplit(s.requests, id);
  }

  /** Written requests drawn from shapes that cannot reach an end stop short of it. */
  lemma WrittenStopShort(commits: seq<Request>, others: multiset<Shape>, end: int)
    requires BackToBack(commits) && |Concat(commits)| < TWO_64
    requires multiset(Shapes(commits)) <= others && !CanReach(others, end)
    ensures |Concat(commits)| < end
  {
    CommitsAreChain(commits);
    assert !Reaches(Shapes(commits), others, end);
  }

  /** A request that was not written ends past the file, if the others cannot reach its end. */
  lemma UnwrittenEndsPastFile(s: State, id: nat)
    requires Inv(s) && id < |s.requests| && !Committed(s, id)
    requires !Overrun(ShapeOf(s.requests[id]), OtherShapes(s, id))
    ensures s.requests[id].offset + |s.requests[id].buf| > s.size
  {
    CommitsAreOthers(s, id);
    WrittenStopShort(s.commits, OtherShapes(s, id), s.requests[id].offset + |s.requests[id].buf|);
  }

  lemma WrittenSits(s: State, id: nat)
    requires Inv(s) && id < |s.requests| && Committed(s, id)
    ensures Sits(s, s.requests[id])
  {
    CommitsSit(s);
  }

  /** If the others cannot reach the end of a request, it is answered OK exactly when it lies in the file. */
  lemma OkIffSits(s: State, id: nat)
    requires Inv(s) && id < |s.requests|
    requires !Overrun(ShapeOf(s.requests[id]), OtherShapes(s, id))
    ensures var r := s.requests[id];
      && (AnsweredOk(s, id) <==> Sits(s, r))
      && (AnsweredOk(s, id) <==> r.offset + |r.buf| <= s.size)
  {
    assert Committed(s, id) <==> AnsweredOk(s, id);
    if Committed(s, id) {
      WrittenSits(s, id);
    } else {
      UnwrittenEndsPastFile(s, id);
    }
  }

  // ----- whole runs -----

  lemma {:induction false} DrainRequests(io: Io, s: State)
    ensures Drain(io, s).requests == s.requests
    decreases |s.queue|
  {
    if s.queue != [] && s.queue[0].offset <= s.size {
      DrainRequests(io, DrainOne(io, s));
    }
  }

  lemma StepRequests(io: Io, s: State, e: Event)
    ensures Step(io, s, e).requests ==
              s.requests + if e.Append? then [Request(|s.requests|, e.offset, e.buf)] else []
  {
    if e.Append? {
      var r := Request(|s.requests|, e.offset, e.buf);
      DrainRequests(io, Commit(s.(requests := s.requests + [r]), r));
    }
  }

  lemma StepShapes(io: Io, s: State, e: Event)
    ensures Shapes(Step(io, s, e).requests) == Shapes(s.requests) + Calls([e])
  {
    StepRequests(io, s, e);
    assert [e][1..] == [];
  }

  /** The requests of a run are the appends of its events, in order. */
  lemma {:induction false} RunRequests(io: Io, s: State, events: seq<Event>)
    ensures Shapes(Run(io, s, events).requests) == Shapes(s.requests) + Calls(events)
    decreases |events|
  {
    if events != [] {
      StepShapes(io, s, events[0]);
      RunRequests(io, Step(io, s, events[0]), events[1..]);
      CallsInParts([events[0]], events[1..]);
      assert events == [events[0]] + events[1..];
    }
  }

  /** In one run, a request is answered OK exactly when its bytes sit at its offset. */
  ghost predicate CoincideIn(io: Io, file: Stores.File, events: seq<Event>, id: nat) {
    var s := Run(io, Init(file), events);
    id < |s.requests| ==> (AnsweredOk(s, id) <==> Sits(s, s.requests[id]))
  }

  /** A run in which some request of shape `r` and, of the others, all or at most these are made. */
  ghost predicate IsRunOf(r: Shape, others: multiset<Shape>, all: bool, file: Stores.File, events: seq<Event>, id: nat) {
    && FreshFile(file)
    && id < |Calls(events)| && Calls(events)[id] == r
    && multiset(Calls(events)) <= others + multiset{r}
    && (all ==> multiset(Calls(events)) == others + multiset{r})
  }

  /** In every run, whatever the order, the contents, the outcomes of the store, timeouts, seals and reads. */
  ghost predicate AlwaysCoincide(r: Shape, others: multiset<Shape>, all: bool) {
    forall io: Io, file, events, id: nat {:trigger CoincideIn(io, file, events, id)} ::
      IsRunOf(r, others, all, file, events, id) ==> CoincideIn(io, file, events, id)
  }

  lemma NoOverrunCoincides(r: Shape, others: multiset<Shape>, io: Io, file: Stores.File, events: seq<Event>, id: nat)
    requires !Overrun(r, others) && IsRunOf(r, others, false, file, events, id)
    ensures CoincideIn(io, file, events, id)
  {
    OthersOfRun(r, others, io, file, events, id);
    MoreReachFurther(OtherShapes(Run(io, Init(file), events), id), others, r.offset + r.length);
    RunCoincides(io, file, events, id);
  }

  lemma OthersOfRun(r: Shape, others: multiset<Shape>, io: Io, file: Stores.File, events: seq<Event>, id: nat)
    requires IsRunOf(r, others, false, file, events, id)
    ensures var s := Run(io, Init(file), events);
      id < |s.requests| && ShapeOf(s.requests[id]) == r && OtherShapes(s, id) <= others
  {
    var s := Run(io, Init(file), events);
    RunRequests(io, Init(file), events);
    assert Shapes(Init(file).requests) == [];
    assert Shapes(s.requests) == Calls(events);
    assert ShapeOf(s.requests[id]) == Shapes(s.requests)[id];
  }

  lemma RunCoincides(io: Io, file: Stores.File, events: seq<Event>, id: nat)
    requires FreshFile(file)
    requires var s := Run(io, Init(file), events);
      id < |s.requests| && !Overrun(ShapeOf(s.requests[id]), OtherShapes(s, id))
    ensures CoincideIn(io, file, events, id)
  {
    RunKeeps(io, Init(file), events);
    OkIffSits(Run(io, Init(file), events), id);
  }

  lemma MoreReachFurther(fewer: multiset<Shape>, others: multiset<Shape>, end: int)
    requires fewer <= others
    ensures CanReach(fewer, end) ==> CanReach(others, end)
  {
    if CanReach(fewer, end) {
      var chain :| Reaches(chain, fewer, end);
      assert Reaches(chain, others, end);
    }
  }

  // ----- a run that breaks it -----

  function Zeros(n: nat): seq<Byte> {
    seq(n, _ => 0)
  }

  function ZeroAppends(shapes: seq<Shape>): (events: seq<Event>)
    ensures |events| == |shapes|
  {
    seq(|shapes|, i requires 0 <= i < |shapes| => Append(shapes[i].offset, Zeros(shapes[i].length)))
  }

  lemma {:induction false} RunInParts(io: Io, s: State, a: seq<Event>, b: seq<Event>)
    ensures Run(io, s, a + b) == Run(io, Run(io, s, a), b)
    decreases |a|
  {
    if a == [] {
      assert a + b == b;
    } else {
      assert (a + b)[1..] == a[1..] + b;
      RunInParts(io, Step(io, s, a[0]), a[1..], b);
    }
  }

  lemma {:induction false} CallsInParts(a: seq<Event>, b: seq<Event>)
    ensures Calls(a + b) == Calls(a) + Calls(b)
    decreases |a|
  {
    if a == [] {
      assert a + b == b;
    } else {
      assert (a + b)[1..] == a[1..] + b;
      CallsInParts(a[1..], b);
    }
  }

  lemma {:induction false} CallsOfZeroAppends(shapes: seq<Shape>)
    ensures Calls(ZeroAppends(shapes)) == shapes
    decreases |shapes|
  {
    if shapes != [] {
      assert ZeroAppends(shapes)[1..] == ZeroAppends(shapes[1..]);
      CallsOfZeroAppends(shapes[1..]);
      assert shapes == [shapes[0]] + shapes[1..];
    }
  }

  /** A chunk that holds nothing but zeros, with no request waiting. */
  ghost predicate AllZeros(s: State, length: nat, calls: nat) {
    s.phase == Open && s.size == length && s.file == Stores.Mem(Zeros(length)) && s.queue == [] && |s.requests| == calls
  }

  lemma ZeroAppendsSnoc(chain: seq<Shape>)
    requires chain != []
    ensures var n := |chain| - 1;
      ZeroAppends(chain) == ZeroAppends(chain[..n]) + [Append(chain[n].offset, Zeros(chain[n].length))]
  {
  }

  lemma WriteZeros(io: Io, s: State, length: nat)
    requires Inv(s) && AllZeros(s, s.size, |s.requests|) && s.size + length < TWO_64 && io(|s.requests|) == OK
    ensures AllZeros(Step(io, s, Append(s.size, Zeros(length))), s.size + length, |s.requests| + 1)
  {
    var r := Request(|s.requests|, s.size, Zeros(length));
    assert Zeros(s.size) + Zeros(length) == Zeros(s.size + length);
    var written := Commit(s.(requests := s.requests + [r]), r);
    assert Drain(io, written) == written;
  }

  lemma OneMoreAppend(io: Io, events: seq<Event>, length: nat, calls: nat, more: nat)
    requires AllZeros(Run(io, Init(Stores.Mem([])), events), length, calls)
    requires length + more < TWO_64 && io(calls) == OK
    ensures AllZeros(Run(io, Init(Stores.Mem([])), events + [Append(length, Zeros(more))]), length + more, calls + 1)
  {
    RunSnoc(io, Init(Stores.Mem([])), events, Append(length, Zeros(more)));
    RunKeeps(io, Init(Stores.Mem([])), events);
    WriteZeros(io, Run(io, Init(Stores.Mem([])), events), more);
  }

  /** Zeros sent in the order of a chain are all written. */
  lemma {:induction false} ChainIsWritten(io: Io, chain: seq<Shape>)
    requires IsChain(chain) && Length(chain) < TWO_64
    requires forall n :: 0 <= n < |chain| ==> io(n) == OK
    ensures AllZeros(Run(io, Init(Stores.Mem([])), ZeroAppends(chain)), Length(chain), |chain|)
    decreases |chain|
  {
    if chain != [] {
      var n := |chain| - 1;
      ChainIsWritten(io, chain[..n]);
      ZeroAppendsSnoc(chain);
      OneMoreAppend(io, ZeroAppends(chain[..n]), Length(chain[..n]), n, chain[n].length);
    }
  }

  /** A request that ends inside the zeros is not answered OK, but its zeros sit there. */
  lemma RefusedZerosSit(io: Io, s: State, r: Shape)
    requires Inv(s) && AllZeros(s, s.size, |s.requests|) && r.offset + r.length <= s.size
    requires io(|s.requests|) != OK
    ensures var t := Step(io, s, Append(r.offset, Zeros(r.length)));
      var id := |s.requests|;
      id in t.answers && t.answers[id] != OK && |t.requests| == id + 1 && Sits(t, t.requests[id])
  {
    var id := |s.requests|;
    assert id !in s.answers;
    assert Zeros(s.size)[r.offset..r.offset + r.length] == Zeros(r.length);
  }

  lemma {:induction false} Listing(m: multiset<Shape>) returns (list: seq<Shape>)
    ensures multiset(list) == m
    decreases |m|
  {
    if |m| == 0 {
      list := [];
    } else {
      var x :| x in m;
      var rest := Listing(m - multiset{x});
      list := rest + [x];
    }
  }

  /** If the others can reach the end of a request, some run of all of them refuses it with its bytes in place. */
  lemma OverrunBreaks(r: Shape, others: multiset<Shape>)
    returns (io: Io, file: Stores.File, events: seq<Event>, id: nat)
    requires Overrun(r, others)
    ensures IsRunOf(r, others, true, file, events, id) && !CoincideIn(io, file, events, id)
  {
    var chain :| Reaches(chain, others, r.offset + r.length);
    var rest := Listing(others - multiset(chain));
    id := |chain|;
    file := Stores.Mem([]);
    io := n => if n == |chain| then Error(EIO) else OK;
    var call := Append(r.offset, Zeros(r.length));
    var head := ZeroAppends(chain) + [call];
    events := head + ZeroAppends(rest);
    TheCallsAre(chain, r, rest);
    var s0 := Init(file);
    var s1 := Run(io, s0, ZeroAppends(chain));
    ChainIsWritten(io, chain);
    RunKeeps(io, s0, ZeroAppends(chain));
    RefusedZerosSit(io, s1, r);
    StepKeeps(io, s1, call);
    RunSnoc(io, s0, ZeroAppends(chain), call);
    RunInParts(io, s0, head, ZeroAppends(rest));
    RunKeeps(io, Step(io, s1, call), ZeroAppends(rest));
    StillSits(Step(io, s1, call), Run(io, s0, events), id);
  }

  lemma TheCallsAre(chain: seq<Shape>, r: Shape, rest: seq<Shape>)
    ensures Calls(ZeroAppends(chain) + [Append(r.offset, Zeros(r.length))] + ZeroAppends(rest)) == chain + [r] + rest
  {
    var call := Append(r.offset, Zeros(r.length));
    CallsOfZeroAppends(chain);
    CallsOfZeroAppends(rest);
    CallsInParts(ZeroAppends(chain), [call]);
    CallsInParts(ZeroAppends(chain) + [call], ZeroAppends(rest));
    assert [call][1..] == [];
    assert Calls([call]) == [r];
  }

  lemma StillSits(s: State, t: State, id: nat)
    requires Extends(s, t) && id < |s.requests| && id in s.answers && s.answers[id] != OK && Sits(s, s.requests[id])
    ensures id < |t.requests| && !AnsweredOk(t, id) && Sits(t, t.requests[id])
  {
    var r := s.requests[id];
    assert t.requests[id] == r;
    assert s.file.data == t.file.data[..|s.file.data|];
    assert t.file.data[r.offset..r.offset + |r.buf|] == s.file.data[r.offset..r.offset + |r.buf|];
  }

  /**
   The exact condition: "answered OK" and "the bytes sit at the offset" coincide in every run of a
   request and some others if and only if no others, back to back from zero, reach the request's
   end; and it makes no difference whether all the others are made or only some.
   */
  lemma CoincideExactly(r: Shape, others: multiset<Shape>, all: bool)
    ensures AlwaysCoincide(r, others, all) <==> !Overrun(r, others)
  {
    if Overrun(r, others) {
      var io, file, events, id := OverrunBreaks(r, others);
      assert IsRunOf(r, others, all, file, events, id) && !CoincideIn(io, file, events, id);
    } else {
      forall io: Io, file, events, id: nat | IsRunOf(r, others, all, file, events, id)
        ensures CoincideIn(io, file, events, id)
      {
        NoOverrunCoincides(r, others, io, file, events, id);
      }
    }
  }

  // ----- a condition that is easy to see -----

  ghost predicate Overlap(a: Shape, b: Shape) {
    a.offset < b.offset + b.length && b.offset < a.offset + a.length
  }

  lemma {:induction false} CoveringShape(chain: seq<Shape>, x: nat) returns (i: nat)
    requires IsChain(chain) && x < Length(chain)
    ensures i < |chain| && chain[i].offset <= x < chain[i].offset + chain[i].length
    decreases |chain|
  {
    var n := |chain| - 1;
    if x >= Length(chain[..n]) {
      i := n;
    } else {
      i := CoveringShape(chain[..n], x);
    }
  }

  /** Others that do not overlap a non-empty request cannot get past it. */
  lemma NoOverlapNoOverrun(r: Shape, others: multiset<Shape>)
    requires r.length > 0 && forall x :: x in others ==> !Overlap(r, x)
    ensures !Overrun(r, others)
  {
    if Overrun(r, others) {
      var chain :| Reaches(chain, others, r.offset + r.length);
      var i := CoveringShape(chain, r.offset);
      assert chain[i] in multiset(chain);
      assert chain[i] in others && Overlap(r, chain[i]);
      assert false;
    }
  }

  lemma OtherShape(s: State, id: nat, x: Shape) returns (other: nat)
    requires id < |s.requests| && x in OtherShapes(s, id)
    ensures other < |s.requests| && other != id && ShapeOf(s.requests[other]) == x
  {
    var others := s.requests[..id] + s.requests[id + 1..];
    ShapesSplit(s.requests, id);
    assert x in Shapes(others);
    var i :| 0 <= i < |others| && Shapes(others)[i] == x;
    other := if i < id then i else i + 1;
    assert others[i] == s.requests[other];
  }

  /** A non-empty request that overlaps no other is answered OK exactly when it lies in the file. */
  lemma OkIffInsideFile(s: State, id: nat)
    requires Inv(s) && id < |s.requests| && s.requests[id].buf != []
    requires forall other: nat :: other < |s.requests| && other != id ==>
               !Overlap(ShapeOf(s.requests[id]), ShapeOf(s.requests[other]))
    ensures var r := s.requests[id];
      && (AnsweredOk(s, id) <==> Sits(s, r))
      && (AnsweredOk(s, id) <==> r.offset + |r.buf| <= s.size)
  {
    var r := ShapeOf(s.requests[id]);
    forall x | x in OtherShapes(s, id)
      ensures !Overlap(r, x)
    {
      var other := OtherShape(s, id, x);
    }
    NoOverlapNoOverrun(r, OtherShapes(s, id));
    OkIffSits(s, id);
  }
}
