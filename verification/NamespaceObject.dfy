/** The namespace object: its entry lists and the operations that change and search them. */
module NamespaceObject {
  import opened Types
  import Paths
  import opened Namespace

  lemma {:induction false} LostStaysLost(t: Tree, names: seq<string>, i: nat)
    requires i <= |names| && Walk(t, names[..i]).None?
    ensures Walk(t, names).None?
    decreases |names|
  {
    if i == |names| {
      assert names[..i] == names;
    } else {
      var n := |names| - 1;
      assert names[..n][..i] == names[..i];
      LostStaysLost(t, names[..n], i);
    }
  }

  lemma WalkOneMore(t: Tree, names: seq<string>, i: nat)
    requires i < |names|
    ensures Walk(t, names[..i + 1]) == Descend(t, Walk(t, names[..i]), names[i])
  {
    assert names[..i + 1][..i] == names[..i];
  }

  class NamespaceObject {
    var entries: Tree

    constructor ()
      ensures entries == EMPTY && Inv(entries)
    {
      entries := EMPTY;
      EmptyInv();
    }

    method Create(parent: UUID, name: string, kind: FileType, inode: UUID) returns (status: Status)
      modifies this
      ensures status == if parent in old(entries) then OK else Error(ENOENT)
      ensures entries == Namespace.Create(old(entries), parent, name, kind, inode)
      ensures Inv(old(entries)) && Fresh(old(entries), inode) ==> Inv(entries)
    {
      ghost var before := entries;
      if parent !in entries {
        return Error(ENOENT);
      }
      entries := entries[parent := entries[parent] + [DirEntry(inode, name, kind)]];
      if kind == Directory {
        entries := entries[inode := []];
      }
      if Inv(before) && Fresh(before, inode) {
        CreateKeepsInv(before, parent, name, kind, inode);
      }
      status := OK;
    }

    method Remove(parent: UUID, name: string) returns (status: Status)
      modifies this
      ensures status == if parent in old(entries) then OK else Error(ENOENT)
      ensures entries == Namespace.Remove(old(entries), parent, name)
      ensures Inv(old(entries)) ==> Inv(entries)
    {
      if parent !in entries {
        return Error(ENOENT);
      }
      if Inv(entries) {
        RemoveKeepsInv(entries, parent, name);
      }
      entries := entries[parent := Without(entries[parent], name)];
      status := OK;
    }

    method Lookup(path: string) returns (status: Status, found: Option<Found>)
      ensures found == Namespace.Lookup(entries, path)
      ensures status == if found.Some? then OK else if Paths.Absolute(path) then Error(ENOENT) else Error(EINVAL)
    {
      var parsed, components := Paths.ParsePath(path, []);
      if parsed != OK {
        return parsed, None;
      }
      assert components == Paths.Components(path);
      var parent, kind := ROOT, Directory;
      for i := 0 to |components|
        invariant Walk(entries, components[..i]) == Some(Found(parent, kind))
        invariant kind == File ==> i == |components|
      {
        var entry := if parent in entries then Find(entries[parent], components[i]) else None;
        WalkOneMore(entries, components, i);
        if entry.None? {
          LostStaysLost(entries, components, i + 1);
          return Error(ENOENT), None;
        }
        if entry.value.kind == File && i + 1 != |components| {
          WalkOneMore(entries, components, i + 1);
          LostStaysLost(entries, components, i + 2);
          return Error(ENOENT), None;
        }
        parent, kind := entry.value.inode, entry.value.kind;
      }
      assert components[..|components|] == components;
      return OK, Some(Found(parent, kind));
    }
  }
}
