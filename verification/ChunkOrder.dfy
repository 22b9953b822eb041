/** Appends that tile a range may arrive in any order. */
module ChunkOrder {
  import opened Types
  import Stores
  import opened Requests
  import opened ChunkModel
  import opened ChunkSafety

  function AsEvent(r: Request): Event {
    Append(r.offset, r.buf)
  }

  ghost predicate Appends(events: seq<Event>) {
    forall i :: 0 <= i < |events| ==> events[i].Append?
  }

  /** The buffers of a list of appends, one after the other. */
  function Bytes(events: seq<Event>): seq<Byte> {
    if events == [] then
      []
    else
      var last := events[|events| - 1];
      Bytes(events[..|events| - 1]) + if last.Append? then last.buf else []
  }

  ghost predicate Follows(a: Event, b: Event)
    requires a.Append? && b.Append?
  {
    b.offset == a.offset + |a.buf|
  }

  /** Where the first `n` appends of a list end. */
  function EndOf(tiles: seq<Event>, n: nat): nat
    requires n <= |tiles|
  {
    if n == 0 || !tiles[n - 1].Append? then 0 else tiles[n - 1].offset + |tiles[n - 1].buf|
  }

  /** Non-empty appends, listed by offset, that cover [0, N) without gap or overlap. */
  ghost predicate Tiling(tiles: seq<Event>) {
    && Appends(tiles)
    && (forall i :: 0 <= i < |tiles| ==> tiles[i].buf != [])
    && (tiles != [] ==> tiles[0].offset == 0)
    && (forall i, j :: 0 <= i && j == i + 1 && j < |tiles| ==> Follows(tiles[i], tiles[j]))
    && EndOf(tiles, |tiles|) < TWO_64
  }

  lemma StartsAtEnd(tiles: seq<Event>, i: nat)
    requires Tiling(tiles) && i < |tiles|
    ensures tiles[i].offset == EndOf(tiles, i)
  {
    assert i > 0 ==> Follows(tiles[i - 1], tiles[i]);
  }

  lemma {:induction false} EndsGrow(tiles: seq<Event>, i: nat, j: nat)
    requires Tiling(tiles) && i <= j <= |tiles|
    ensures EndOf(tiles, i) + (j - i) <= EndOf(tiles, j)
    decreases j
  {
    if i < j {
      EndsGrow(tiles, i, j - 1);
      StartsAtEnd(tiles, j - 1);
    }
  }

  /** A tile is known by its offset. */
  lemma TileIndex(tiles: seq<Event>, i: nat, j: nat)
    requires Tiling(tiles) && i < |tiles| && j < |tiles|
    ensures i < j <==> tiles[i].offset < tiles[j].offset
  {
    StartsAtEnd(tiles, i);
    StartsAtEnd(tiles, j);
    if i <= j {
      EndsGrow(tiles, i, j);
    } else {
      EndsGrow(tiles, j, i);
    }
  }

  ghost predicate NoRepeats(events: seq<Event>) {
    forall i, j :: 0 <= i < j < |events| ==> events[i] != events[j]
  }

  lemma {:induction false} CountOnce(events: seq<Event>, e: Event)
    requires NoRepeats(events)
    ensures multiset(events)[e] <= 1
    decreases |events|
  {
    if events != [] {
      var n := |events| - 1;
      assert events == events[..n] + [events[n]];
      CountOnce(events[..n], e);
      assert events[n] !in multiset(events[..n]);
    }
  }

  lemma CountTwice(events: seq<Event>, i: nat, j: nat)
    requires i < j < |events| && events[i] == events[j]
    ensures multiset(events)[events[i]] >= 2
  {
    assert events == events[..j] + events[j..];
    assert events[i] == events[..j][i] && events[j] == events[j..][0];
    assert events[i] in multiset(events[..j]) && events[i] in multiset(events[j..]);
  }

  /** A permutation of the tiles has no repeats and the same elements. */
  lemma PermutationOfTiles(tiles: seq<Event>, events: seq<Event>)
    requires Tiling(tiles) && multiset(events) == multiset(tiles)
    ensures NoRepeats(events) && Appends(events)
    ensures forall e :: e in events <==> e in tiles
  {
    forall i, j | 0 <= i < j < |tiles|
      ensures tiles[i] != tiles[j]
    {
      TileIndex(tiles, i, j);
    }
    forall i, j | 0 <= i < j < |events|
      ensures events[i] != events[j]
    {
      CountOnce(tiles, events[i]);
      if events[i] == events[j] {
        CountTwice(events, i, j);
      }
    }
    assert forall e :: e in events <==> e in multiset(events);
    assert forall e :: e in tiles <==> e in multiset(tiles);
    forall i | 0 <= i < |events|
      ensures events[i].Append?
    {
      assert events[i] in events;
    }
  }

  /** The first `j` tiles are written, and every request so far is written or waiting. */
  ghost predicate Placed(s: State, tiles: seq<Event>, j: nat) {
    && Tiling(tiles)
    && j <= |tiles|
    && |s.commits| == j
    && (forall i :: 0 <= i < j ==> AsEvent(s.commits[i]) == tiles[i])
    && (forall q :: q in s.queue ==> AsEvent(q) in tiles && q.offset >= s.size)
    && s.size == EndOf(tiles, j)
    && s.phase == Open
  }

  ghost predicate Accounted(s: State) {
    forall r :: r in s.requests ==> r in s.commits || r in s.queue
  }

  /** A tile that starts at the size is the next one. */
  lemma NextTile(tiles: seq<Event>, e: Event, j: nat)
    requires Tiling(tiles) && e in tiles && j <= |tiles| && e.offset == EndOf(tiles, j)
    ensures j < |tiles| && e == tiles[j]
    ensures EndOf(tiles, j + 1) == EndOf(tiles, j) + |e.buf| < TWO_64
  {
    var i :| 0 <= i < |tiles| && tiles[i] == e;
    StartsAtEnd(tiles, i);
    if i < j {
      EndsGrow(tiles, i, j);
    } else {
      EndsGrow(tiles, j, i);
    }
    EndsGrow(tiles, i + 1, |tiles|);
  }

  lemma CommitTile(s: State, tiles: seq<Event>, j: nat, r: Request)
    requires Placed(s, tiles, j) && FileMatchesCommits(s)
    requires AsEvent(r) in tiles && r.offset == s.size && r !in s.commits
    requires forall q :: q in s.queue ==> q.offset > s.size
    ensures j < |tiles| && |s.file.data| + |r.buf| < TWO_64
    ensures Placed(Commit(s, r), tiles, j + 1)
  {
    var t := Commit(s, r);
    NextTile(tiles, AsEvent(r), j);
    CommitMatchesFile(s, r);
    forall q | q in t.queue
      ensures q.offset >= t.size
    {
      var e := AsEvent(q);
      var i :| 0 <= i < |tiles| && tiles[i] == e;
      TileIndex(tiles, j, i);
      StartsAtEnd(tiles, i);
      EndsGrow(tiles, j + 1, i);
    }
  }

  ghost predicate Kept(s: State, t: State) {
    forall r :: r in s.commits || r in s.queue ==> r in t.commits || r in t.queue
  }

  lemma DrainOneTile(io: Io, s: State, tiles: seq<Event>, j: nat)
    requires FileMatchesCommits(s) && Sorted(s.queue) && Placed(s, tiles, j)
    requires s.queue != [] && s.queue[0].offset <= s.size
    requires s.queue[0] !in s.commits && s.queue[0].id !in s.answers
    requires forall n :: io(n) == OK
    ensures Placed(DrainOne(io, s), tiles, j + 1) && Kept(s, DrainOne(io, s))
  {
    var r := s.queue[0];
    var rest := s.(queue := s.queue[1..]);
    assert r in s.queue;
    assert s.queue == [r] + rest.queue;
    CommitTile(rest, tiles, j, r);
    DrainOneWrites(io, s);
    AnsweredPlaced(Commit(rest, r), r.id, tiles, j + 1);
  }

  lemma DrainOneWrites(io: Io, s: State)
    requires s.queue != [] && s.queue[0].offset == s.size && s.queue[0].id !in s.answers
    requires |s.file.data| + |s.queue[0].buf| < TWO_64
    requires forall n :: io(n) == OK
    ensures DrainOne(io, s) == Answer(Commit(s.(queue := s.queue[1..]), s.queue[0]), s.queue[0].id, OK)
  {
  }

  lemma AnsweredPlaced(s: State, id: nat, tiles: seq<Event>, j: nat)
    requires Placed(s, tiles, j) && id !in s.answers
    ensures Placed(Answer(s, id, OK), tiles, j)
  {
  }

  lemma DrainTileStep(io: Io, s: State, running: set<nat>, tiles: seq<Event>, j: nat)
    requires Core(s, running) && Placed(s, tiles, j)
    requires s.queue != [] && s.queue[0].offset <= s.size
    requires forall n :: io(n) == OK
    ensures Placed(DrainOne(io, s), tiles, j + 1) && Kept(s, DrainOne(io, s))
    ensures Core(DrainOne(io, s), running) && |DrainOne(io, s).queue| < |s.queue|
  {
    DequeueKeeps(s, running);
    assert s.queue[0] in s.queue;
    DrainOneTile(io, s, tiles, j);
    DrainOneKeeps(io, s, running);
  }

  lemma KeptTwice(s: State, t: State, u: State)
    requires Kept(s, t) && Kept(t, u)
    ensures Kept(s, u)
  {
  }

  /** The drain writes tiles and refuses none. */
  lemma {:induction false} DrainTiles(io: Io, s: State, running: set<nat>, tiles: seq<Event>, j: nat) returns (k: nat)
    requires Core(s, running) && Placed(s, tiles, j)
    requires forall n :: io(n) == OK
    ensures Placed(Drain(io, s), tiles, k) && Kept(s, Drain(io, s))
    decreases |s.queue|
  {
    if s.queue == [] || s.queue[0].offset > s.size {
      k := j;
    } else {
      DrainTileStep(io, s, running, tiles, j);
      k := DrainTiles(io, DrainOne(io, s), running, tiles, j + 1);
      KeptTwice(s, DrainOne(io, s), Drain(io, s));
    }
  }

  lemma SameOffsetSameTile(tiles: seq<Event>, a: Event, b: Event)
    requires Tiling(tiles) && a in tiles && b in tiles && a.offset == b.offset
    ensures a == b
  {
    var i :| 0 <= i < |tiles| && tiles[i] == a;
    var j :| 0 <= j < |tiles| && tiles[j] == b;
    TileIndex(tiles, i, j);
    TileIndex(tiles, j, i);
  }

  /** A tile that has not arrived yet is at or beyond the size, and no waiting request has its offset. */
  lemma NewTile(s: State, tiles: seq<Event>, j: nat, e: Event)
    requires Inv(s) && Placed(s, tiles, j) && e in tiles
    requires forall r :: r in s.requests ==> AsEvent(r) != e
    ensures e.offset >= s.size
    ensures !HasOffset(s.queue, e.offset)
  {
    var i :| 0 <= i < |tiles| && tiles[i] == e;
    forall n | 0 <= n < j
      ensures tiles[n] != e
    {
      assert s.commits[n] in s.commits;
      assert Known(s, s.commits[n]);
    }
    StartsAtEnd(tiles, i);
    EndsGrow(tiles, j, i);
    forall q | q in s.queue
      ensures q.offset != e.offset
    {
      assert Known(s, q);
      if q.offset == e.offset {
        SameOffsetSameTile(tiles, AsEvent(q), e);
      }
    }
  }

  /** The direct write of a tile and the drain after it. */
  lemma WriteTile(io: Io, s: State, tiles: seq<Event>, j: nat, r: Request) returns (k: nat)
    requires Core(s, {r.id}) && Placed(s, tiles, j) && Known(s, r) && AsEvent(r) in tiles
    requires r.offset == s.size && r !in s.commits && forall q :: q in s.queue ==> q.offset > s.size
    requires forall n :: io(n) == OK
    ensures WriteStatus(io, s.file, r) == OK
    ensures var t := Drain(io, Commit(s, r));
      && Placed(t, tiles, k)
      && t.requests == s.requests && r.id !in t.answers
      && r in t.commits
      && Kept(s, t)
  {
    CommitTile(s, tiles, j, r);
    CommitKeeps(s, {r.id}, r);
    DrainKeeps(io, Commit(s, r), {r.id});
    k := DrainTiles(io, Commit(s, r), {r.id}, tiles, j + 1);
  }

  lemma TileStep(io: Io, s: State, tiles: seq<Event>, j: nat, e: Event) returns (k: nat)
    requires Inv(s) && Placed(s, tiles, j) && Accounted(s) && e in tiles
    requires forall r :: r in s.requests ==> AsEvent(r) != e
    requires forall n :: io(n) == OK
    ensures Placed(Step(io, s, e), tiles, k) && Accounted(Step(io, s, e))
    ensures Step(io, s, e).requests == s.requests + [Request(|s.requests|, e.offset, e.buf)]
  {
    var r := Request(|s.requests|, e.offset, e.buf);
    NewTile(s, tiles, j, e);
    if e.offset != s.size {
      InsertKeepsSet(s.queue, r);
      k := j;
    } else {
      CallKeeps(s, {}, r);
      assert {} + {r.id} == {r.id};
      k := WriteTile(io, s.(requests := s.requests + [r]), tiles, j, r);
    }
  }

  /** The calls so far are the first `n` events, in order. */
  ghost predicate Arrived(s: State, events: seq<Event>, n: nat) {
    && n <= |events|
    && |s.requests| == n
    && (forall i :: 0 <= i < n ==> AsEvent(s.requests[i]) == events[i])
  }

  /** Where a run of the first `n` events of a permutation of the tiles stands. */
  ghost predicate Standing(s: State, tiles: seq<Event>, events: seq<Event>, n: nat, k: nat) {
    Placed(s, tiles, k) && Accounted(s) && Arrived(s, events, n)
  }

  lemma StandingStep(io: Io, s: State, tiles: seq<Event>, events: seq<Event>, n: nat, j: nat) returns (k: nat)
    requires Inv(s) && Standing(s, tiles, events, n, j) && n < |events|
    requires forall m :: io(m) == OK
    requires NoRepeats(events) && forall e :: e in events ==> e in tiles
    ensures Standing(Step(io, s, events[n]), tiles, events, n + 1, k)
  {
    StillToArrive(s, events, n);
    k := TileStep(io, s, tiles, j, events[n]);
  }

  lemma {:induction false} RunTiles(io: Io, file: Stores.File, tiles: seq<Event>, events: seq<Event>, n: nat)
    returns (k: nat)
    requires FreshFile(file) && Tiling(tiles) && n <= |events|
    requires forall m :: io(m) == OK
    requires NoRepeats(events) && forall e :: e in events ==> e in tiles
    ensures Standing(Run(io, Init(file), events[..n]), tiles, events, n, k)
    decreases n
  {
    if n == 0 {
      k := 0;
      StandingAtStart(file, tiles, events);
      assert events[..0] == [];
    } else {
      var j := RunTiles(io, file, tiles, events, n - 1);
      k := RunOneMore(io, file, tiles, events, n - 1, j);
    }
  }

  lemma StandingAtStart(file: Stores.File, tiles: seq<Event>, events: seq<Event>)
    requires FreshFile(file) && Tiling(tiles)
    ensures Standing(Init(file), tiles, events, 0, 0)
  {
  }

  lemma RunOneMore(io: Io, file: Stores.File, tiles: seq<Event>, events: seq<Event>, n: nat, j: nat) returns (k: nat)
    requires FreshFile(file) && n < |events|
    requires forall m :: io(m) == OK
    requires NoRepeats(events) && forall e :: e in events ==> e in tiles
    requires Standing(Run(io, Init(file), events[..n]), tiles, events, n, j)
    ensures Standing(Run(io, Init(file), events[..n + 1]), tiles, events, n + 1, k)
  {
    var s := Run(io, Init(file), events[..n]);
    ReachableInv(io, file, events[..n]);
    RunPrefix(io, Init(file), events, n);
    k := StandingStep(io, s, tiles, events, n, j);
  }

  lemma ReachableInv(io: Io, file: Stores.File, events: seq<Event>)
    requires FreshFile(file)
    ensures Inv(Run(io, Init(file), events))
  {
    RunKeeps(io, Init(file), events);
  }

  lemma RunPrefix(io: Io, s: State, events: seq<Event>, n: nat)
    requires n < |events|
    ensures Run(io, s, events[..n + 1]) == Step(io, Run(io, s, events[..n]), events[n])
  {
    assert events[..n + 1] == events[..n] + [events[n]];
    RunSnoc(io, s, events[..n], events[n]);
  }

  lemma StillToArrive(s: State, events: seq<Event>, n: nat)
    requires Arrived(s, events, n) && NoRepeats(events) && n < |events|
    ensures forall r :: r in s.requests ==> AsEvent(r) != events[n]
  {
    forall r | r in s.requests
      ensures AsEvent(r) != events[n]
    {
      var i :| 0 <= i < n && s.requests[i] == r;
      assert AsEvent(s.requests[i]) == events[i];
    }
  }

  /** Once every tile has arrived, every tile is written. */
  lemma AllTilesWritten(s: State, tiles: seq<Event>, j: nat)
    requires Inv(s) && Placed(s, tiles, j) && Accounted(s)
    requires forall e :: e in tiles ==> exists r :: r in s.requests && AsEvent(r) == e
    ensures j == |tiles| && s.queue == []
  {
    if j < |tiles| {
      assert tiles[j] in tiles;
      var r :| r in s.requests && AsEvent(r) == tiles[j];
      StartsAtEnd(tiles, j);
      assert r !in s.queue;
      var i :| 0 <= i < |s.commits| && s.commits[i] == r;
      TileIndex(tiles, i, j);
      assert false;
    }
    if s.queue != [] {
      assert s.queue[0] in s.queue;
      var i :| 0 <= i < |tiles| && tiles[i] == AsEvent(s.queue[0]);
      StartsAtEnd(tiles, i);
      EndsGrow(tiles, i, |tiles|);
      assert false;
    }
  }

  /**
   Order independence: if the appends are a permutation of a tiling of [0, N), the store never
   fails and no seal or timeout intervenes, every append is answered OK and the file is the
   buffers in offset order, whatever the order of arrival.
   */
  lemma OrderIndependence(io: Io, file: Stores.File, tiles: seq<Event>, events: seq<Event>)
    requires FreshFile(file) && Tiling(tiles) && multiset(events) == multiset(tiles)
    requires forall n :: io(n) == OK
    ensures var s := Run(io, Init(file), events);
      && s.file.data == Bytes(tiles)
      && s.size == |Bytes(tiles)|
      && s.queue == []
      && |s.requests| == |events|
      && (forall id: nat :: id < |events| ==> AsEvent(s.requests[id]) == events[id] && AnsweredOk(s, id))
  {
    PermutationOfTiles(tiles, events);
    var k := RunTiles(io, file, tiles, events, |events|);
    assert events[..|events|] == events;
    RunKeeps(io, Init(file), events);
    var s := Run(io, Init(file), events);
    forall e | e in tiles
      ensures exists r :: r in s.requests && AsEvent(r) == e
    {
      var i :| 0 <= i < |events| && events[i] == e;
      assert AsEvent(s.requests[i]) == e;
    }
    AllTilesWritten(s, tiles, k);
    WrittenBytes(s.commits, tiles);
    AllOk(s);
  }

  lemma AllOk(s: State)
    requires Inv(s) && Accounted(s) && s.queue == []
    ensures forall id: nat :: id < |s.requests| ==> AnsweredOk(s, id)
  {
    forall id: nat | id < |s.requests|
      ensures AnsweredOk(s, id)
    {
      assert s.requests[id] in s.requests;
      assert Committed(s, id);
    }
  }

  lemma {:induction false} WrittenBytes(rs: seq<Request>, tiles: seq<Event>)
    requires Appends(tiles) && |rs| == |tiles|
    requires forall i :: 0 <= i < |rs| ==> AsEvent(rs[i]) == tiles[i]
    ensures Concat(rs) == Bytes(tiles)
    decreases |rs|
  {
    if rs != [] {
      WrittenBytes(rs[..|rs| - 1], tiles[..|rs| - 1]);
      assert AsEvent(rs[|rs| - 1]) == tiles[|rs| - 1];
    }
  }
}
