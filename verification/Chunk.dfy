/**
 The chunk itself: its fields, the store object behind it and its critical sections, each proved to
 be a step of the model that touches nothing of the store but the chunk's own file.
 */
module ChunkObject {
  import opened Types
  import Stores
  import opened StoreObjects
  import opened Requests
  import opened ChunkModel
  import opened ChunkSafety
  import opened ChunkAnswers
  import ChunkStores

  class Chunk {
    const store: Store
    const fh: nat
    const path: string
    var phase: Phase
    var size: Uint64
    var queue: seq<Request>
    var requests: seq<Request>
    var timers: set<nat>
    var answers: map<nat, Status>
    var aborted: bool
    ghost var commits: seq<Request>

    /** The append handle is open on the chunk's file, and the file has not been removed. */
    ghost predicate Attached()
      reads this, store
    {
      fh < |store.handles| && store.handles[fh].path == path && path in store.files
    }

    ghost function View(): State
      requires Attached()
      reads this, store
    {
      State(phase, size, store.FileOf(fh), queue, requests, timers, answers, aborted, commits)
    }

    ghost predicate Valid()
      reads this, store
    {
      Attached() && Inv(View())
    }

    constructor (store: Store, fh: nat, path: string)
      requires fh < |store.handles| && store.handles[fh].path == path && path in store.files
      requires FreshFile(store.FileOf(fh))
      ensures this.store == store && this.fh == fh && this.path == path
      ensures Valid() && View() == Init(store.FileOf(fh))
    {
      this.store, this.fh, this.path := store, fh, path;
      phase, size, queue := Open, 0, [];
      requests, timers, answers, aborted := [], {}, map[], false;
      commits := [];
    }

    /**
     `Chunk::create`: it opens the file exclusively, so it succeeds exactly when there was none, and
     then the chunk is empty and open; otherwise there is no chunk and the store is as before.
     `path` is the generated UUID, `fault` a failure of the open for a reason of its own.
     */
    static method Create(chunkIsNull: bool, store: Store?, path: string, fault: Status)
      returns (status: Status, chunk: Chunk?)
      modifies store
      ensures status == OK <==> !chunkIsNull && store != null && fault == OK && path !in old(store.files)
      ensures status != OK ==>
                status == if chunkIsNull || store == null then Error(EINVAL) else if fault != OK then fault else Error(EEXIST)
      ensures status == OK <==> chunk != null
      ensures chunk != null ==>
                && fresh(chunk) && chunk.store == store && chunk.path == path && chunk.Valid()
                && chunk.View() == Init(chunk.View().file) && FreshFile(chunk.View().file)
      ensures status != OK && store != null ==> store.files == old(store.files) && store.handles == old(store.handles)
      ensures store != null ==>
                OnlyTouches(path, old(store.files), old(store.handles), store.files, store.handles)
    {
      if chunkIsNull {
        return Error(EINVAL), null;
      }
      if store == null {
        return Error(EINVAL), null;
      }
      var fh: nat;
      status, fh := store.Open(path, Flags(true, true, false), fault);
      if status != OK {
        return status, null;
      }
      chunk := new Chunk(store, fh, path);
    }

    /** Sets the promise of a request. */
    method SetValue(id: nat, status: Status)
      requires Attached()
      modifies this`answers, this`aborted
      ensures Attached() && View() == Answer(old(View()), id, status)
    {
      if id in answers {
        aborted := true;
      } else {
        answers := answers[id := status];
      }
    }

    /** A store append; on success `_size` moves. */
    method Write(io: Io, r: Request) returns (status: Status)
      requires Attached()
      modifies this`size, this`commits, store
      ensures Attached() && status == WriteStatus(io, old(View()).file, r)
      ensures View() == if status == OK then Commit(old(View()), r) else old(View())
      ensures OnlyTouches(path, old(store.files), old(store.handles), store.files, store.handles)
    {
      ghost var file := store.FileOf(fh);
      var length := store.Length(fh);
      status := io(r.id);
      if status == OK && length + |r.buf| >= TWO_64 {
        status := Error(EFBIG);
      }
      var outcome := if status == OK then Complete else Refused(status);
      NothingWritten(file);
      var _, _ := store.Append(fh, r.buf, outcome);
      if status == OK {
        size := (size + |r.buf|) % TWO_64;
        commits := commits + [r];
      }
    }

    method DrainQueue(io: Io)
      requires Attached()
      modifies this, store
      ensures Attached() && View() == Drain(io, old(View()))
      ensures OnlyTouches(path, old(store.files), old(store.handles), store.files, store.handles)
    {
      ghost var start := View();
      while queue != []
        invariant Attached() && Drain(io, View()) == Drain(io, start)
        invariant OnlyTouches(path, old(store.files), old(store.handles), store.files, store.handles)
        decreases |queue|
      {
        if queue[0].offset > size {
          break;
        }
        ghost var files, handles := store.files, store.handles;
        DrainFirst(io);
        OnlyTouchesTwice(path, old(store.files), old(store.handles), files, handles, store.files, store.handles);
      }
    }

    /** One turn of the loop, on a first request that is not beyond the size. */
    method DrainFirst(io: Io)
      requires Attached() && queue != [] && queue[0].offset <= size
      modifies this, store
      ensures Attached() && View() == DrainOne(io, old(View())) && |queue| < |old(queue)|
      ensures OnlyTouches(path, old(store.files), old(store.handles), store.files, store.handles)
    {
      var r := queue[0];
      var status := Error(EINVAL);
      if r.offset == size {
        status := Write(io, r);
      }
      queue := queue[1..];
      if r.id !in answers {
        SetValue(r.id, status);
      }
    }

    /** The critical section of `append`; no status means the caller waits on the promise of request `id`. */
    method Append(io: Io, offset: Uint64, buf: seq<Byte>) returns (id: nat, status: Option<Status>)
      requires Valid()
      modifies this, store
      ensures Valid() && View() == AppendStep(io, old(View()), offset, buf)
      ensures Extends(old(View()), View())
      ensures id == |old(requests)|
      ensures status == if id in answers then Some(answers[id]) else None
      ensures old(phase) == Sealed ==> status == Some(Error(EPERM))
      ensures old(phase) == Open && offset < old(size) ==> status == Some(Error(EINVAL))
      ensures status == None <==> old(phase) == Open && offset > old(size)
      ensures old(phase) == Open && offset == old(size) && io(id) != OK ==> status == Some(io(id))
      ensures old(phase) == Open && offset == old(size) && io(id) == OK && offset + |buf| < TWO_64 ==>
                status == Some(OK) && old(store.FileOf(fh).data) + buf <= store.FileOf(fh).data
      ensures status != Some(OK) ==> store.FileOf(fh) == old(store.FileOf(fh)) && size == old(size)
      ensures OnlyTouches(path, old(store.files), old(store.handles), store.files, store.handles)
    {
      ghost var before := View();
      id, status := EnterAppend(io, offset, buf);
      AppendKeeps(io, before, offset, buf);
      AppendAnswers(io, before, offset, buf);
    }

    method EnterAppend(io: Io, offset: Uint64, buf: seq<Byte>) returns (id: nat, status: Option<Status>)
      requires Attached()
      modifies this, store
      ensures Attached() && View() == AppendStep(io, old(View()), offset, buf)
      ensures id == |old(requests)|
      ensures status.None? <==> old(phase) == Open && offset > old(size)
      ensures status.Some? ==> id in answers && (!aborted ==> answers[id] == status.value)
      ensures OnlyTouches(path, old(store.files), old(store.handles), store.files, store.handles)
    {
      var r := Request(|requests|, offset, buf);
      id := r.id;
      requests := requests + [r];
      if phase == Sealed {
        SetValue(r.id, Error(EPERM));
        return r.id, Some(Error(EPERM));
      }
      if offset < size {
        SetValue(r.id, Error(EINVAL));
        return r.id, Some(Error(EINVAL));
      }
      if offset != size {
        timers := timers + {r.id};
        queue := Insert(queue, r);
        return r.id, None;
      }
      var written := WriteAndDrain(io, r);
      SetValue(r.id, written);
      status := Some(written);
    }

    method WriteAndDrain(io: Io, r: Request) returns (status: Status)
      requires Attached()
      modifies this, store
      ensures Attached() && status == WriteStatus(io, old(View()).file, r)
      ensures View() == if status == OK then Drain(io, Commit(old(View()), r)) else old(View())
      ensures OnlyTouches(path, old(store.files), old(store.handles), store.files, store.handles)
    {
      status := Write(io, r);
      if status != OK {
        return;
      }
      ghost var files, handles := store.files, store.handles;
      DrainQueue(io);
      OnlyTouchesTwice(path, old(store.files), old(store.handles), files, handles, store.files, store.handles);
    }

    /** The timer callback of a parked request. */
    method Fire(id: nat)
      requires Valid() && id in timers
      modifies this
      ensures Valid() && View() == TimeoutStep(old(View()), id)
      ensures Extends(old(View()), View())
      ensures id in answers && id !in timers
      ensures answers[id] == if id in old(answers) then old(answers)[id] else Error(EINVAL)
      ensures forall q :: q in queue <==> q in old(queue) && (q.id == id ==> id in old(answers))
    {
      TimeoutKeeps(View(), id);
      TimeoutAnswers(View(), id);
      timers := timers - {id};
      if id in answers {
        return;
      }
      queue := Unlink(queue, id);
      SetValue(id, Error(EINVAL));
    }

    /** `sealStatus` and `sizeStatus` are what the store's seal and size return. */
    method QueryAndSeal(lengthIsNull: bool, sealStatus: Status, sizeStatus: Status)
      returns (status: Status, length: Option<nat>)
      requires Valid()
      modifies this`phase, store
      ensures Valid() && View() == SealStep(old(View()), lengthIsNull, sealStatus, sizeStatus)
      ensures Extends(old(View()), View())
      ensures status == OK ==> phase == Sealed && length == Some(|View().file.data|) == Some(size)
      ensures status == if lengthIsNull then Error(EINVAL) else if sealStatus != OK then sealStatus else sizeStatus
      ensures status != OK ==> phase == old(phase)
      ensures OnlyTouches(path, old(store.files), old(store.handles), store.files, store.handles)
    {
      SameBookkeeping(View(), SealStep(View(), lengthIsNull, sealStatus, sizeStatus));
      if lengthIsNull {
        return Error(EINVAL), None;
      }
      if sealStatus != OK {
        return sealStatus, None;
      }
      var stored: nat;
      status, stored := store.Size(fh, sizeStatus);
      if status != OK {
        return status, None;
      }
      phase := Sealed;
      return OK, Some(stored);
    }

    /** `openStatus` and `readStatus` are failures of the file system; the file itself is there. */
    method Read(bufIsNull: bool, offset: Uint64, length: Uint64, openStatus: Status, readStatus: Status, buf: seq<Byte>)
      returns (reply: Stores.Reply)
      requires Valid()
      modifies store
      ensures Valid() && View() == ReadStep(old(View()), bufIsNull, offset, length, openStatus, readStatus)
      ensures Extends(old(View()), View()) && View().file.data == old(View()).file.data
      ensures bufIsNull ==> reply == Stores.Reply(Error(EINVAL), buf)
      ensures !bufIsNull && size < offset + length < TWO_64 ==> reply == Stores.Reply(Error(EINVAL), buf)
      ensures !bufIsNull && offset + length <= size && openStatus != OK ==> reply == Stores.Reply(openStatus, buf)
      ensures !bufIsNull && offset + length <= size && openStatus == OK ==>
                reply ==
                  if store.kind == Memory then Stores.Reply(OK, buf + View().file.data[offset..offset + length])
                  else if offset >= TWO_63 then Stores.Reply(Error(EINVAL), buf)
                  else if readStatus != OK then Stores.Reply(readStatus, buf)
                  else Stores.Reply(OK, View().file.data[offset..offset + length])
      ensures !bufIsNull ==> reply == ReadReply(old(View()), offset, length, openStatus, readStatus, buf)
      ensures OnlyTouches(path, old(store.files), old(store.handles), store.files, store.handles)
    {
      ReadKeeps(View(), bufIsNull, offset, length, openStatus, readStatus);
      ReadAnswers(View(), offset, length, openStatus, readStatus, buf);
      if bufIsNull {
        return Stores.Reply(Error(EINVAL), buf);
      }
      if (offset + length) % TWO_64 > size {
        return Stores.Reply(Error(EINVAL), buf);
      }
      reply := ReadThroughNewHandle(offset, length, openStatus, readStatus, buf);
    }

    method ReadThroughNewHandle(offset: Uint64, length: Uint64, openStatus: Status, readStatus: Status, buf: seq<Byte>)
      returns (reply: Stores.Reply)
      requires Attached()
      modifies store
      ensures Attached()
      ensures store.FileOf(fh) ==
                if openStatus != OK then old(store.FileOf(fh))
                else var (file, handle) := Stores.OpenReader(old(store.FileOf(fh)));
                     Stores.ReadEffect(file, handle, offset, length, readStatus)
      ensures reply ==
                if openStatus != OK then Stores.Reply(openStatus, buf)
                else Stores.ReadReply(Stores.OpenReader(old(store.FileOf(fh))).0, offset, length, readStatus, buf)
      ensures OnlyTouches(path, old(store.files), old(store.handles), store.files, store.handles)
    {
      ghost var handles := store.handles;
      var status, reader := store.Open(path, Flags(false, false, false), openStatus);
      if status != OK {
        return Stores.Reply(status, buf);
      }
      reply := store.Read(reader, offset, length, readStatus, buf);
      ghost var after := store.handles[reader];
      assert store.handles == handles + [after];
      ReadView(store.kind, store.files, handles, fh, after, offset, length, readStatus);
    }

    /** One event of a run, as the calls and callbacks that make it. */
    method Perform(io: Io, e: Event)
      requires Valid()
      modifies this, store
      ensures Valid() && View() == Step(io, old(View()), e)
      ensures OnlyTouches(path, old(store.files), old(store.handles), store.files, store.handles)
    {
      match e {
        case Append(offset, buf) =>
          var _, _ := Append(io, offset, buf);
        case Timeout(id) =>
          if id in timers {
            Fire(id);
          }
        case Seal(lengthIsNull, sealStatus, sizeStatus) =>
          var _, _ := QueryAndSeal(lengthIsNull, sealStatus, sizeStatus);
        case Read(bufIsNull, offset, length, openStatus, readStatus) =>
          var _ := Read(bufIsNull, offset, length, openStatus, readStatus, []);
      }
    }
  }

  /** A run of a chunk object is a run of the model. */
  method PerformAll(chunk: Chunk, io: Io, events: seq<Event>)
    requires chunk.Valid()
    modifies chunk, chunk.store
    ensures chunk.Valid() && chunk.View() == Run(io, old(chunk.View()), events)
    ensures OnlyTouches(chunk.path, old(chunk.store.files), old(chunk.store.handles),
                        chunk.store.files, chunk.store.handles)
  {
    ghost var start := chunk.View();
    assert events[0..] == events;
    for i := 0 to |events|
      invariant chunk.Valid() && Run(io, chunk.View(), events[i..]) == Run(io, start, events)
      invariant OnlyTouches(chunk.path, old(chunk.store.files), old(chunk.store.handles),
                            chunk.store.files, chunk.store.handles)
    {
      ghost var files, handles := chunk.store.files, chunk.store.handles;
      assert events[i..][1..] == events[i + 1..];
      chunk.Perform(io, events[i]);
      OnlyTouchesTwice(chunk.path, old(chunk.store.files), old(chunk.store.handles), files, handles,
                       chunk.store.files, chunk.store.handles);
    }
  }

  /**
   Two chunk objects over two store objects, whatever their kinds, that start alike and see the same
   events with the same outcomes of their writes: they end with the same answers, size, phase and
   bytes, and every other file of either store is as it was.
   */
  method PerformOnBoth(a: Chunk, b: Chunk, io: Io, events: seq<Event>)
    requires a != b && a.store != b.store && a.Valid() && b.Valid()
    requires ChunkStores.Same(a.View(), b.View())
    modifies a, a.store, b, b.store
    ensures a.Valid() && b.Valid() && ChunkStores.Same(a.View(), b.View())
    ensures a.answers == b.answers && a.size == b.size && a.phase == b.phase
    ensures a.store.files[a.path] == b.store.files[b.path]
    ensures OnlyTouches(a.path, old(a.store.files), old(a.store.handles), a.store.files, a.store.handles)
    ensures OnlyTouches(b.path, old(b.store.files), old(b.store.handles), b.store.files, b.store.handles)
  {
    ChunkStores.StoresAgree(io, a.View(), b.View(), events);
    PerformAll(a, io, events);
    PerformAll(b, io, events);
    assert a.View().file.data == b.View().file.data;
  }
}
