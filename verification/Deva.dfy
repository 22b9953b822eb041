/** The metadata state machine: the namespace and the file-info table under the replicated operations. */
module Deva {
  import opened Types
  import Paths
  import opened Namespace

  datatype Attributes = Attributes(atime: Uint64, mtime: Uint64, ctime: Uint64, mode: nat, uid: nat, gid: nat)

  datatype Request =
    | CreateFile(path: string, id: UUID, attributes: Attributes)
    | CreateDir(path: string, id: UUID, attributes: Attributes)
    | RemoveFile
    | SealFile
    | CreateChunk
    | CheckInChunk
    | SealChunk
    | SealAndNewChunk

  datatype FileInfo = FileInfo(id: UUID, kind: FileType, size: nat, attributes: Attributes)

  datatype State = State(tree: Tree, infos: map<UUID, FileInfo>)

  datatype Created = Created(status: Status, tree: Tree)

  datatype Processed = Processed(state: State, status: Status, response: Option<FileInfo>)

  /** `Deva::create`: look up the parent path, then link the file name there. */
  function CreatePath(t: Tree, path: string, id: UUID, kind: FileType): Created {
    var dir := Paths.ParentPath(path);
    var parent := Lookup(t, dir);
    if parent.None? then
      Created(if Paths.Absolute(dir) then Error(ENOENT) else Error(EINVAL), t)
    else if parent.value.kind != Directory then
      Created(Error(EINVAL), t)
    else if parent.value.inode !in t then
      Created(Error(ENOENT), t)
    else
      Created(OK, Create(t, parent.value.inode, Paths.FileName(path), kind, id))
  }

  function CreateNode(s: State, path: string, id: UUID, attributes: Attributes, kind: FileType): Processed {
    var created := CreatePath(s.tree, path, id, kind);
    if created.status != OK then
      Processed(s, created.status, None)
    else
      var info := FileInfo(id, kind, 0, attributes);
      Processed(State(created.tree, s.infos[id := info]), OK, Some(info))
  }

  /** What applying one operation does; the operations not written yet succeed and change nothing. */
  function Process(s: State, request: Request): (p: Processed)
    ensures p.status != OK ==> p.state == s && p.response == None
    ensures !request.CreateFile? && !request.CreateDir? ==> p == Processed(s, OK, None)
    ensures p.response.Some? ==>
              var info := p.response.value; info.id in p.state.infos && p.state.infos[info.id] == info
  {
    match request
    case CreateFile(path, id, attributes) => CreateNode(s, path, id, attributes, File)
    case CreateDir(path, id, attributes) => CreateNode(s, path, id, attributes, Directory)
    case _ => Processed(s, OK, None)
  }

  function Run(s: State, requests: seq<Request>): State
    decreases |requests|
  {
    if requests == [] then s else Run(Process(s, requests[0]).state, requests[1..])
  }

  const INITIAL := State(EMPTY, map[])

  /** Entries and file infos describe the same set of files and directories. */
  ghost predicate DevaInv(s: State) {
    && Namespace.Inv(s.tree)
    && (forall p, e :: IsEntry(s.tree, p, e) ==> e.inode in s.infos && s.infos[e.inode].kind == e.kind)
    && (forall id :: id in s.infos ==> Targeted(s.tree, id) && s.infos[id].id == id)
    && (forall p :: p in s.tree ==> p == ROOT || Targeted(s.tree, p))
  }

  ghost predicate FreshId(s: State, request: Request) {
    request.CreateFile? || request.CreateDir? ==> request.id != ROOT && request.id !in s.infos
  }

  ghost predicate FreshIds(s: State, requests: seq<Request>)
    decreases |requests|
  {
    requests == [] || (FreshId(s, requests[0]) && FreshIds(Process(s, requests[0]).state, requests[1..]))
  }

  lemma UnusedIsFresh(s: State, id: UUID)
    requires DevaInv(s) && id != ROOT && id !in s.infos
    ensures Fresh(s.tree, id)
  {
  }

  /** Once the lookup of the parent returned a directory, linking the name cannot fail. */
  lemma ParentCanTakeEntry(t: Tree, path: string)
    requires Namespace.Inv(t)
    ensures var parent := Lookup(t, Paths.ParentPath(path));
      parent.Some? && parent.value.kind == Directory ==> parent.value.inode in t
  {
    var dir := Paths.ParentPath(path);
    var parent := Lookup(t, dir);
    if parent.Some? && parent.value.kind == Directory {
      WalkToDirectory(t, Paths.Components(dir));
    }
  }

  lemma CreateNodeKeeps(s: State, path: string, id: UUID, attributes: Attributes, kind: FileType)
    requires DevaInv(s) && id != ROOT && id !in s.infos
    ensures DevaInv(CreateNode(s, path, id, attributes, kind).state)
  {
    var created := CreatePath(s.tree, path, id, kind);
    if created.status == OK {
      var t := CreateNode(s, path, id, attributes, kind).state;
      var parent := Lookup(s.tree, Paths.ParentPath(path)).value.inode;
      var name := Paths.FileName(path);
      UnusedIsFresh(s, id);
      CreateKeepsInv(s.tree, parent, name, kind, id);
      LinkedEntries(s.tree, parent, name, kind, id);
      forall other | other in t.infos
        ensures Targeted(t.tree, other) && t.infos[other].id == other
      {
        if other != id {
          assert Targeted(s.tree, other);
        }
      }
    }
  }

  lemma LinkedEntries(t: Tree, parent: UUID, name: string, kind: FileType, id: UUID)
    requires parent in t && Fresh(t, id)
    ensures var u := Create(t, parent, name, kind, id);
      && (forall p, e :: IsEntry(u, p, e) <==> IsEntry(t, p, e) || (p == parent && e == DirEntry(id, name, kind)))
      && (forall x :: Targeted(u, x) <==> Targeted(t, x) || x == id)
  {
    var u := Create(t, parent, name, kind, id);
    forall p, e
      ensures IsEntry(u, p, e) <==> IsEntry(t, p, e) || (p == parent && e == DirEntry(id, name, kind))
    {
    }
    assert IsEntry(u, parent, DirEntry(id, name, kind));
    forall x | Targeted(t, x)
      ensures Targeted(u, x)
    {
      var p, e :| IsEntry(t, p, e) && e.inode == x;
      assert IsEntry(u, p, e);
    }
  }

  lemma ProcessKeeps(s: State, request: Request)
    requires DevaInv(s) && FreshId(s, request)
    ensures DevaInv(Process(s, request).state)
  {
    match request
    case CreateFile(path, id, attributes) => CreateNodeKeeps(s, path, id, attributes, File);
    case CreateDir(path, id, attributes) => CreateNodeKeeps(s, path, id, attributes, Directory);
    case _ =>
  }

  /** Over every run with fresh ids, the file-info table has exactly the inodes of the namespace's entries. */
  lemma {:induction false} RunKeeps(s: State, requests: seq<Request>)
    requires DevaInv(s) && FreshIds(s, requests)
    ensures DevaInv(Run(s, requests))
    decreases |requests|
  {
    if requests != [] {
      ProcessKeeps(s, requests[0]);
      RunKeeps(Process(s, requests[0]).state, requests[1..]);
    }
  }

  lemma InitialInv()
    ensures DevaInv(INITIAL)
  {
    EmptyInv();
  }

  lemma {:induction false} AllSlashes(path: string)
    requires path != "" && Paths.StripSlashes(path) == ""
    ensures path[0] == '/'
    decreases |path|
  {
    if |path| > 1 {
      AllSlashes(path[..|path| - 1]);
    }
  }

  /** Only an absolute path has an absolute parent. */
  lemma AbsoluteParent(path: string)
    ensures Paths.Absolute(Paths.ParentPath(path)) <==> Paths.Absolute(path)
  {
    var start := Paths.FileNameStart(path);
    if Paths.Absolute(path) {
      Paths.ParentAndFileName(path);
    } else if start != 0 {
      var dir := path[..start];
      Paths.StripKeepsComponents(dir);
      if Paths.StripSlashes(dir) == "" {
        AllSlashes(dir);
      }
      assert dir[0] == path[0];
    }
  }

  /**
   A created path looks up to its own id exactly when it does not end in a slash and led nowhere
   before. With a trailing slash the entry gets the empty name, which no path reaches; and an
   existing entry of the same name stays the one that is found.
   */
  lemma CreatedPathFindsItself(t: Tree, path: string, id: UUID, kind: FileType)
    requires Namespace.Inv(t) && Fresh(t, id) && CreatePath(t, path, id, kind).status == OK
    ensures Lookup(CreatePath(t, path, id, kind).tree, path) == Some(Found(id, kind)) <==>
              !Paths.EndsWithSlash(path) && Lookup(t, path) == None
  {
    var names := Paths.Components(path);
    var dir := Paths.ParentPath(path);
    var parent := Lookup(t, dir).value.inode;
    AbsoluteParent(path);
    Paths.ParentAndFileName(path);
    CreateEffect(t, parent, Paths.FileName(path), kind, id, names);
    if Walk(t, names).Some? {
      ReachedIsNotFresh(t, id, names);
    }
    if !Paths.EndsWithSlash(path) {
      assert names[..|names| - 1] == Paths.Components(dir);
    } else {
      assert names == Paths.Components(dir);
    }
  }

  /** One entry at the end of one list, an empty list for a new directory, and nothing else. */
  ghost predicate Linked(t: Tree, u: Tree, parent: UUID, e: DirEntry)
    requires parent in t
  {
    && u.Keys == t.Keys + (if e.kind == Directory then {e.inode} else {})
    && (parent in u && u[parent] == t[parent] + [e])
    && (e.kind == Directory ==> e.inode in u && u[e.inode] == [])
    && (forall p :: p in t && p != parent ==> p in u && u[p] == t[p])
  }

  /**
   When a create succeeds, with which error it fails, and what it makes: a file for CreateFile and a
   directory for CreateDir, entered in the parent's list and the table under its id.
   */
  lemma CreateExactly(s: State, request: Request)
    requires Namespace.Inv(s.tree) && (request.CreateFile? || request.CreateDir?)
    ensures var p := Process(s, request);
      var parent := Lookup(s.tree, Paths.ParentPath(request.path));
      var kind := if request.CreateFile? then File else Directory;
      var info := FileInfo(request.id, kind, 0, request.attributes);
      && p.status ==
           (if !Paths.Absolute(request.path) then Error(EINVAL)
            else if parent == None then Error(ENOENT)
            else if parent.value.kind == File then Error(EINVAL)
            else OK)
      && (p.status == OK ==>
            && p.response == Some(info)
            && p.state.infos == s.infos[request.id := info]
            && parent.value.inode in s.tree
            && (Fresh(s.tree, request.id) ==>
                  Linked(s.tree, p.state.tree, parent.value.inode,
                         DirEntry(request.id, Paths.FileName(request.path), kind))))
  {
    AbsoluteParent(request.path);
    ParentCanTakeEntry(s.tree, request.path);
  }

  /** Files have no entries: below a created file nothing can be created. */
  lemma NothingBelowFile(s: State, path: string, id: UUID, attributes: Attributes, below: Request)
    requires DevaInv(s) && FreshId(s, CreateFile(path, id, attributes)) && Lookup(s.tree, path) == None
    requires Process(s, CreateFile(path, id, attributes)).status == OK && !Paths.EndsWithSlash(path)
    requires below.CreateFile? || below.CreateDir?
    requires Paths.ParentPath(below.path) == path
    ensures Process(Process(s, CreateFile(path, id, attributes)).state, below).status == Error(EINVAL)
  {
    UnusedIsFresh(s, id);
    CreatedPathFindsItself(s.tree, path, id, File);
  }
}
