/**
 The stores as objects: named files and the handles opened on them. MemStore and LocalStore are one
 class with a kind, standing for the virtual calls; `FileView` is the file of one handle as the
 chunk model sees it, with every other descriptor of that file as a reader.
 */
module StoreObjects {
  import opened Types
  import Stores

  /** Chosen by the scheme of the store's uri: memory:// or local://. */
  datatype Kind = Memory | LocalDisk

  type Files = map<string, seq<Byte>>

  /** A handle: the path it was opened for and, for a file descriptor, its position. */
  datatype Descriptor = Descriptor(path: string, pos: nat)

  datatype Flags = Flags(creat: bool, excl: bool, trunc: bool)

  /** What a write(2) may do; a short one writes some bytes and then runs into an assertion. */
  datatype Written = Complete | Refused(status: Status) | Short(count: nat)

  function DataAt(files: Files, path: string): seq<Byte> {
    if path in files then files[path] else []
  }

  /** Looking a path up in MemStore's map with `[]` puts an empty file there if it has none. */
  function Looked(kind: Kind, files: Files, path: string): Files {
    if kind == Memory && path !in files then files[path := []] else files
  }

  /** The positions of every descriptor of a path but one, in the order they were opened. */
  function Readers(handles: seq<Descriptor>, but: nat, path: string): seq<nat> {
    if handles == [] then
      []
    else
      var n := |handles| - 1;
      Readers(handles[..n], but, path) + if n != but && handles[n].path == path then [handles[n].pos] else []
  }

  /** The file behind a handle, as the chunk model sees it. */
  function FileView(kind: Kind, files: Files, handles: seq<Descriptor>, h: nat): Stores.File
    requires h < |handles|
  {
    var d := handles[h];
    if kind == Memory then Stores.Mem(DataAt(files, d.path))
    else Stores.Local(DataAt(files, d.path), d.pos, Readers(handles, h, d.path))
  }

  lemma {:induction false} ReadersSame(a: seq<Descriptor>, b: seq<Descriptor>, but: nat, path: string)
    requires |a| == |b|
    requires forall i :: 0 <= i < |a| ==> a[i].path == b[i].path
    requires forall i :: 0 <= i < |a| && i != but && a[i].path == path ==> a[i].pos == b[i].pos
    ensures Readers(a, but, path) == Readers(b, but, path)
    decreases |a|
  {
    if a != [] {
      ReadersSame(a[..|a| - 1], b[..|a| - 1], but, path);
    }
  }

  lemma ReadersOpened(handles: seq<Descriptor>, but: nat, path: string, d: Descriptor)
    requires but < |handles|
    ensures Readers(handles + [d], but, path) == Readers(handles, but, path) + if d.path == path then [d.pos] else []
  {
    assert (handles + [d])[..|handles|] == handles;
  }

  // ----- what an operation on one path leaves alone -----

  ghost predicate SameFile(a: Files, b: Files, path: string) {
    (path in a <==> path in b) && (path in a ==> a[path] == b[path])
  }

  /** Only this path's file, its descriptors and new descriptors of it differ. */
  ghost predicate OnlyTouches(path: string, files: Files, handles: seq<Descriptor>, files': Files,
                              handles': seq<Descriptor>)
  {
    && |handles| <= |handles'|
    && (forall i :: 0 <= i < |handles| ==> handles'[i].path == handles[i].path)
    && (forall i :: 0 <= i < |handles| && handles[i].path != path ==> handles'[i] == handles[i])
    && (forall i :: |handles| <= i < |handles'| ==> handles'[i].path == path)
    && (forall p :: p != path ==> SameFile(files', files, p))
  }

  lemma {:induction false} ReadersElsewhere(path: string, handles: seq<Descriptor>, handles': seq<Descriptor>, but: nat,
                                            other: string)
    requires other != path && |handles| <= |handles'|
    requires forall i :: 0 <= i < |handles| ==> handles'[i].path == handles[i].path
    requires forall i :: 0 <= i < |handles| && handles[i].path != path ==> handles'[i] == handles[i]
    requires forall i :: |handles| <= i < |handles'| ==> handles'[i].path == path
    ensures Readers(handles', but, other) == Readers(handles, but, other)
    decreases |handles'|
  {
    if |handles| < |handles'| {
      ReadersElsewhere(path, handles, handles'[..|handles'| - 1], but, other);
    } else {
      ReadersSame(handles, handles', but, other);
    }
  }

  /** A chunk's file does not change through what another chunk of the store does. */
  lemma OthersKeepTheirFile(kind: Kind, path: string, files: Files, handles: seq<Descriptor>, files': Files,
                            handles': seq<Descriptor>, h: nat)
    requires OnlyTouches(path, files, handles, files', handles')
    requires h < |handles| && handles[h].path != path
    ensures FileView(kind, files', handles', h) == FileView(kind, files, handles, h)
  {
    assert SameFile(files', files, handles[h].path);
    ReadersElsewhere(path, handles, handles', h, handles[h].path);
  }

  lemma OnlyTouchesTwice(path: string, f1: Files, h1: seq<Descriptor>, f2: Files, h2: seq<Descriptor>, f3: Files,
                         h3: seq<Descriptor>)
    requires OnlyTouches(path, f1, h1, f2, h2) && OnlyTouches(path, f2, h2, f3, h3)
    ensures OnlyTouches(path, f1, h1, f3, h3)
  {
    forall p | p != path
      ensures SameFile(f3, f1, p)
    {
      assert SameFile(f2, f1, p) && SameFile(f3, f2, p);
    }
  }

  // ----- how each call changes the file of a chunk -----

  /** A read through a handle just opened is, to the chunk's file, a read through its newest reader. */
  lemma ReadView(kind: Kind, files: Files, handles: seq<Descriptor>, h: nat, after: Descriptor, offset: Uint64,
                 size: Uint64, readStatus: Status)
    requires h < |handles| && after.path == handles[h].path
    requires FileView(kind, files, handles + [after], |handles|) ==
               Stores.ReadEffect(FileView(kind, files, handles + [Descriptor(after.path, 0)], |handles|),
                                 Stores.AppendHandle, offset, size, readStatus)
    ensures var (file, reader) := Stores.OpenReader(FileView(kind, files, handles, h));
      FileView(kind, files, handles + [after], h) == Stores.ReadEffect(file, reader, offset, size, readStatus)
  {
    ReadersOpened(handles, h, after.path, after);
    ReadersOpened(handles, h, after.path, Descriptor(after.path, 0));
  }

  /** The bytes of a buffer that reach the file. */
  function Landed(written: Written, buf: seq<Byte>): (landed: seq<Byte>)
    ensures landed <= buf
    ensures written.Short? && written.count <= |buf| ==> |landed| == written.count
  {
    match written
    case Complete => buf
    case Refused(_) => []
    case Short(n) => if n < |buf| then buf[..n] else buf
  }

  lemma NothingWritten(f: Stores.File)
    ensures Stores.Append(f, []) == f
  {
    assert f.data + [] == f.data;
  }

  /** A write through a handle is an append to its file as the chunk model has it. */
  lemma WrittenView(kind: Kind, files: Files, handles: seq<Descriptor>, h: nat, buf: seq<Byte>)
    requires h < |handles|
    ensures var d := handles[h];
      var after := Stores.Append(FileView(kind, files, handles, h), buf);
      if kind == Memory then FileView(kind, files[d.path := DataAt(files, d.path) + buf], handles, h) == after
      else FileView(kind, files[d.path := Stores.WriteAt(DataAt(files, d.path), d.pos, buf)],
                    handles[h := Descriptor(d.path, d.pos + |buf|)], h) == after
  {
    var d := handles[h];
    ReadersSame(handles, handles[h := Descriptor(d.path, d.pos + |buf|)], h, d.path);
  }

  /** Which flags each store accepts: for MemStore O_EXCL counts with or without O_CREAT. */
  predicate Accepts(kind: Kind, present: bool, flags: Flags) {
    if present then !flags.excl || (kind == LocalDisk && !flags.creat) else flags.creat
  }

  /** The stores open alike exactly when O_EXCL is not given without O_CREAT for an existing file. */
  lemma OpensAgree(present: bool, flags: Flags)
    ensures (Accepts(Memory, present, flags) <==> Accepts(LocalDisk, present, flags)) <==>
              !(flags.excl && !flags.creat && present)
  {
  }

  class Store {
    const kind: Kind
    var files: Files
    var handles: seq<Descriptor>

    ghost function FileOf(h: nat): Stores.File
      requires h < |handles|
      reads this
    {
      FileView(kind, files, handles, h)
    }

    constructor (kind: Kind)
      ensures this.kind == kind && files == map[] && handles == []
    {
      this.kind := kind;
      files, handles := map[], [];
    }

    /**
     Opens exactly what the flags allow. A new or truncated file is empty, an existing one keeps its
     bytes, and no other file changes; the handle is new and starts at position zero. `fault` is a
     failure of open(2) for a reason of its own.
     */
    method Open(path: string, flags: Flags, fault: Status) returns (status: Status, h: nat)
      modifies this
      ensures status == OK <==> fault == OK && Accepts(kind, path in old(files), flags)
      ensures fault == OK && !flags.excl ==> (status == OK <==> path in old(files) || flags.creat)
      ensures fault == OK && flags.creat && flags.excl ==> (status == OK <==> path !in old(files))
      ensures fault == OK && flags.excl && !flags.creat ==> (status == OK <==> path in old(files) && kind == LocalDisk)
      ensures status != OK ==>
                && status == (if fault != OK then fault else if path in old(files) then Error(EEXIST) else Error(ENOENT))
                && files == old(files) && handles == old(handles)
      ensures status == OK ==>
                && h == |old(handles)| && handles == old(handles) + [Descriptor(path, 0)]
                && path in files && files[path] == (if flags.trunc then [] else DataAt(old(files), path))
      ensures OnlyTouches(path, old(files), old(handles), files, handles)
    {
      h := |handles|;
      if fault != OK {
        return fault, h;
      }
      if path in files {
        if flags.excl && (kind == Memory || flags.creat) {
          return Error(EEXIST), h;
        }
        if flags.trunc {
          files := files[path := []];
        }
      } else {
        if !flags.creat {
          return Error(ENOENT), h;
        }
        files := files[path := []];
      }
      handles := handles + [Descriptor(path, 0)];
      return OK, h;
    }

    /**
     A logical append in memory, a write at the descriptor's position on disk; the offset the caller
     names plays no part. A refused write changes nothing; a short one aborts after its bytes.
     */
    method Append(h: nat, buf: seq<Byte>, written: Written) returns (status: Status, aborted: bool)
      requires h < |handles| && (written.Short? ==> kind == LocalDisk && written.count < |buf|)
      modifies this
      ensures |handles| == |old(handles)| && handles[h].path == old(handles)[h].path
      ensures aborted <==> written.Short?
      ensures status == if written.Refused? then written.status else OK
      ensures FileOf(h) == Stores.Append(old(FileOf(h)), Landed(written, buf))
      ensures written.Complete? || handles[h].path in old(files) ==> handles[h].path in files
      ensures OnlyTouches(old(handles)[h].path, old(files), old(handles), files, handles)
    {
      var d := handles[h];
      aborted := written.Short?;
      status := if written.Refused? then written.status else OK;
      var done := Landed(written, buf);
      if written.Refused? {
        NothingWritten(FileOf(h));
        return;
      }
      WrittenView(kind, files, handles, h, done);
      if kind == Memory {
        files := files[d.path := DataAt(files, d.path) + done];
      } else {
        files := files[d.path := Stores.WriteAt(DataAt(files, d.path), d.pos, done)];
        handles := handles[h := Descriptor(d.path, d.pos + |done|)];
      }
    }

    /** Changes no byte and moves no descriptor but its own; MemStore makes an empty file of a path it does not have. */
    method Read(h: nat, offset: Uint64, size: Uint64, readStatus: Status, buf: seq<Byte>) returns (reply: Stores.Reply)
      requires h < |handles|
      modifies this
      ensures files == Looked(kind, old(files), old(handles)[h].path)
      ensures reply == Stores.ReadReply(old(FileOf(h)), offset, size, readStatus, buf)
      ensures |handles| == |old(handles)| && handles[h].path == old(handles)[h].path
      ensures FileOf(h) == Stores.ReadEffect(old(FileOf(h)), Stores.AppendHandle, offset, size, readStatus)
      ensures forall other :: 0 <= other < |handles| && other != h ==> handles[other] == old(handles)[other]
    {
      var d := handles[h];
      var found := Stores.Slice(DataAt(files, d.path), offset, size);
      if kind == Memory {
        files := Looked(kind, files, d.path);
        return Stores.Reply(OK, buf + found);
      }
      if offset >= TWO_63 {
        return Stores.Reply(Error(EINVAL), buf);
      }
      var landed := offset + if readStatus == OK then |found| else 0;
      ReadersSame(handles, handles[h := Descriptor(d.path, landed)], h, d.path);
      handles := handles[h := Descriptor(d.path, landed)];
      if readStatus != OK {
        return Stores.Reply(readStatus, buf);
      }
      if |found| != size {
        return Stores.Reply(Error(EINVAL), buf);
      }
      return Stores.Reply(OK, found);
    }

    function Length(h: nat): nat
      requires h < |handles|
      reads this
    {
      |DataAt(files, handles[h].path)|
    }

    /** The length of the file behind a handle; `fault` is a failure of fstat(2). */
    method Size(h: nat, fault: Status) returns (status: Status, length: nat)
      requires h < |handles|
      modifies this`files
      ensures status == fault && (status == OK ==> length == |old(FileOf(h)).data|)
      ensures FileOf(h) == old(FileOf(h)) && files == Looked(kind, old(files), handles[h].path)
    {
      status, length := fault, Length(h);
      files := Looked(kind, files, handles[h].path);
    }

    /**
     On success the name is gone, and opening it again needs O_CREAT and gives an empty file; every
     other file is as it was. `fault` is a failure of unlink(2) for a reason of its own.
     */
    method Remove(path: string, fault: Status) returns (status: Status)
      modifies this`files
      ensures status == OK <==> fault == OK && (kind == Memory || path in old(files))
      ensures status != OK ==> files == old(files) && (fault == OK ==> status == Error(ENOENT))
      ensures status == OK ==>
                && path !in files && DataAt(files, path) == []
                && forall flags :: Accepts(kind, path in files, flags) <==> flags.creat
      ensures forall p :: p != path ==> SameFile(files, old(files), p)
    {
      if fault != OK {
        return fault;
      }
      status := if kind == Memory || path in files then OK else Error(ENOENT);
      files := files - {path};
    }
  }
}
