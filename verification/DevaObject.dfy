/** The metadata container: a namespace object and the file-info table. */
module DevaObject {
  import opened Types
  import Paths
  import opened Namespace
  import opened NamespaceObject
  import opened Deva

  class DevaObject {
    const namespace: NamespaceObject
    var infos: map<UUID, FileInfo>

    ghost function View(): State
      reads this, namespace
    {
      State(namespace.entries, infos)
    }

    constructor ()
      ensures fresh(namespace) && View() == INITIAL && DevaInv(View())
    {
      namespace := new NamespaceObject();
      infos := map[];
      InitialInv();
    }

    method CreateAt(path: string, id: UUID, kind: FileType) returns (status: Status)
      modifies namespace
      ensures namespace.entries == CreatePath(old(namespace.entries), path, id, kind).tree
      ensures status == CreatePath(old(namespace.entries), path, id, kind).status
    {
      var dir, name := Paths.ParentPath(path), Paths.FileName(path);
      var found: Option<Found>;
      status, found := namespace.Lookup(dir);
      if status != OK {
        return;
      }
      if found.value.kind != Directory {
        return Error(EINVAL);
      }
      status := namespace.Create(found.value.inode, name, kind, id);
    }

    method CreateEntry(path: string, id: UUID, attributes: Attributes, kind: FileType)
      returns (status: Status, response: Option<FileInfo>)
      modifies this, namespace
      ensures Processed(View(), status, response) == CreateNode(old(View()), path, id, attributes, kind)
    {
      status := CreateAt(path, id, kind);
      if status != OK {
        return status, None;
      }
      var info := FileInfo(id, kind, 0, attributes);
      infos := infos[id := info];
      response := Some(info);
    }

    method ProcessRequest(request: Request) returns (status: Status, response: Option<FileInfo>)
      modifies this, namespace
      ensures Processed(View(), status, response) == Process(old(View()), request)
      ensures DevaInv(old(View())) && FreshId(old(View()), request) ==> DevaInv(View())
      ensures Namespace.Inv(old(View()).tree) && status == OK ==>
                match request
                case CreateFile(_, id, attributes) => response == Some(FileInfo(id, File, 0, attributes))
                case CreateDir(_, id, attributes) => response == Some(FileInfo(id, Directory, 0, attributes))
                case _ => response == None
    {
      ghost var before := View();
      if DevaInv(before) && FreshId(before, request) {
        ProcessKeeps(before, request);
      }
      if Namespace.Inv(before.tree) && (request.CreateFile? || request.CreateDir?) {
        CreateExactly(before, request);
      }
      match request {
        case CreateFile(path, id, attributes) => status, response := CreateEntry(path, id, attributes, File);
        case CreateDir(path, id, attributes) => status, response := CreateEntry(path, id, attributes, Directory);
        case _ => status, response := OK, None;
      }
    }
  }
}
