/** A chunk over LocalStore behaves like a chunk over MemStore. */
module ChunkStores {
  import opened Types
  import Stores
  import opened Requests
  import opened ChunkModel

  /** Equal but for the representation of the file, which holds the same bytes in both. */
  ghost predicate Same(a: State, b: State) {
    && b == a.(file := b.file)
    && b.file.data == a.file.data
    && Stores.AtEnd(a.file) && Stores.AtEnd(b.file)
  }

  lemma SameCommit(a: State, b: State, r: Request)
    requires Same(a, b)
    ensures Same(Commit(a, r), Commit(b, r))
  {
    Stores.PositionalAppend(a.file, r.buf);
    Stores.PositionalAppend(b.file, r.buf);
  }

  lemma {:induction false} SameDrain(io: Io, a: State, b: State)
    requires Same(a, b)
    ensures Same(Drain(io, a), Drain(io, b))
    decreases |a.queue|
  {
    if a.queue == [] || a.queue[0].offset > a.size {
    } else {
      SameCommit(a.(queue := a.queue[1..]), b.(queue := b.queue[1..]), a.queue[0]);
      SameDrain(io, DrainOne(io, a), DrainOne(io, b));
    }
  }

  lemma SameRead(a: State, b: State, offset: Uint64, size: Uint64, openStatus: Status, readStatus: Status)
    requires Same(a, b)
    ensures Same(ReadStep(a, false, offset, size, openStatus, readStatus),
                 ReadStep(b, false, offset, size, openStatus, readStatus))
  {
    var (fa, ha) := Stores.OpenReader(a.file);
    var (fb, hb) := Stores.OpenReader(b.file);
    Stores.ReadKeepsAppendPosition(fa, ha, offset, size, readStatus);
    Stores.ReadKeepsAppendPosition(fb, hb, offset, size, readStatus);
  }

  lemma SameAppend(io: Io, a: State, b: State, offset: Uint64, buf: seq<Byte>)
    requires Same(a, b)
    ensures Same(AppendStep(io, a, offset, buf), AppendStep(io, b, offset, buf))
  {
    var r := Request(|a.requests|, offset, buf);
    var a', b' := a.(requests := a.requests + [r]), b.(requests := b.requests + [r]);
    if a.phase == Open && offset == a.size && WriteStatus(io, a.file, r) == OK {
      SameCommit(a', b', r);
      SameDrain(io, Commit(a', r), Commit(b', r));
    }
  }

  lemma SameStep(io: Io, a: State, b: State, e: Event)
    requires Same(a, b)
    ensures Same(Step(io, a, e), Step(io, b, e))
  {
    match e
    case Append(offset, buf) =>
      SameAppend(io, a, b, offset, buf);
    case Timeout(_) =>
    case Seal(_, _, _) =>
    case Read(_, offset, size, openStatus, readStatus) => SameRead(a, b, offset, size, openStatus, readStatus);
  }

  /**
   On every run, with the same outcomes of the store's writes, a chunk over LocalStore and one
   over MemStore have the same answers, size, phase and bytes: reads go through handles of their
   own, so the append handle stays at the end of the file.
   */
  lemma {:induction false} StoresAgree(io: Io, a: State, b: State, events: seq<Event>)
    requires Same(a, b)
    ensures Same(Run(io, a, events), Run(io, b, events))
    decreases |events|
  {
    if events != [] {
      SameStep(io, a, b, events[0]);
      StoresAgree(io, Step(io, a, events[0]), Step(io, b, events[0]), events[1..]);
    }
  }

  /**
   A read that reaches the store gets the same reply from both stores exactly when its range does
   not wrap around 2^64, the file system's read succeeds and the caller's buffer was empty: a
   wrapped range passes the check, LocalStore refuses it and MemStore answers OK; and MemStore adds
   to the buffer where LocalStore replaces it. (An offset beyond off_t needs a file no file system
   holds.)
   */
  lemma ReadRepliesAgree(a: State, b: State, offset: Uint64, size: Uint64, readStatus: Status, buf: seq<Byte>)
    requires Same(a, b) && a.file.Mem? && b.file.Local?
    requires a.size == |a.file.data| < TWO_63
    requires InRange(a, offset, size)
    ensures ReadReply(a, offset, size, OK, readStatus, buf) == ReadReply(b, offset, size, OK, readStatus, buf) <==>
              offset + size < TWO_64 && readStatus == OK && buf == []
  {
    var found := Stores.Slice(a.file.data, offset, size);
    if offset + size < TWO_64 {
      assert (offset + size) % TWO_64 == offset + size;
      assert |found| == size;
      assert buf == [] ==> buf + found == found;
      assert buf != [] ==> |buf + found| != |found|;
    } else {
      assert |found| < size;
    }
  }
}
