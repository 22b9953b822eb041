/** The directory tree of the metadata server: walks, and what create and remove do to all of them. */
module Namespace {
  import opened Types
  import Paths

  datatype UUID = UUID(high: Uint64, low: Uint64)

  datatype FileType = File | Directory

  datatype DirEntry = DirEntry(inode: UUID, name: string, kind: FileType)

  type Tree = map<UUID, seq<DirEntry>>

  const ROOT := UUID(0, 0)
  const EMPTY: Tree := map[ROOT := []]

  datatype Found = Found(inode: UUID, kind: FileType)

  /** The first entry with a name. */
  function Find(entries: seq<DirEntry>, name: string): (r: Option<DirEntry>)
    ensures r.Some? ==> r.value in entries && r.value.name == name
    ensures r.None? <==> forall e :: e in entries ==> e.name != name
  {
    if entries == [] then None
    else if entries[0].name == name then Some(entries[0])
    else Find(entries[1..], name)
  }

  /** One step of a walk from where it stands. */
  function Descend(t: Tree, at: Option<Found>, name: string): Option<Found> {
    if at.None? || at.value.kind == File || at.value.inode !in t then
      None
    else
      match Find(t[at.value.inode], name)
      case None => None
      case Some(e) => Some(Found(e.inode, e.kind))
  }

  /** Where a list of names leads from the root. */
  function Walk(t: Tree, names: seq<string>): Option<Found> {
    if names == [] then Some(Found(ROOT, Directory))
    else var n := |names| - 1; Descend(t, Walk(t, names[..n]), names[n])
  }

  function Lookup(t: Tree, path: string): Option<Found> {
    if Paths.Absolute(path) then Walk(t, Paths.Components(path)) else None
  }

  function Create(t: Tree, parent: UUID, name: string, kind: FileType, inode: UUID): Tree {
    if parent !in t then
      t
    else
      var linked := t[parent := t[parent] + [DirEntry(inode, name, kind)]];
      if kind == Directory then linked[inode := []] else linked
  }

  function Without(entries: seq<DirEntry>, name: string): seq<DirEntry> {
    if entries == [] then []
    else if entries[0].name == name then Without(entries[1..], name)
    else [entries[0]] + Without(entries[1..], name)
  }

  function Remove(t: Tree, parent: UUID, name: string): Tree {
    if parent !in t then t else t[parent := Without(t[parent], name)]
  }

  // ----- what every run keeps -----

  ghost predicate IsEntry(t: Tree, parent: UUID, e: DirEntry) {
    parent in t && e in t[parent]
  }

  ghost predicate Targeted(t: Tree, inode: UUID) {
    exists parent, e :: IsEntry(t, parent, e) && e.inode == inode
  }

  /** An inode no entry and no directory uses. */
  ghost predicate Fresh(t: Tree, inode: UUID) {
    inode !in t && !Targeted(t, inode)
  }

  ghost predicate DistinctInodes(entries: seq<DirEntry>) {
    forall i, j :: 0 <= i < j < |entries| ==> entries[i].inode != entries[j].inode
  }

  /** Each inode is the target of at most one entry, the root of none, and every directory has its list. */
  ghost predicate Inv(t: Tree) {
    && ROOT in t
    && !Targeted(t, ROOT)
    && (forall p :: p in t ==> DistinctInodes(t[p]))
    && (forall p, q, e, d :: IsEntry(t, p, e) && IsEntry(t, q, d) && e.inode == d.inode ==> p == q && e == d)
    && (forall p, e :: IsEntry(t, p, e) ==> (e.kind == Directory <==> e.inode in t))
  }

  lemma EmptyInv()
    ensures Inv(EMPTY)
  {
  }

  lemma DistinctAppend(entries: seq<DirEntry>, e: DirEntry)
    requires DistinctInodes(entries) && forall d :: d in entries ==> d.inode != e.inode
    ensures DistinctInodes(entries + [e])
  {
  }

  lemma CreateKeepsInv(t: Tree, parent: UUID, name: string, kind: FileType, inode: UUID)
    requires Inv(t) && Fresh(t, inode)
    ensures Inv(Create(t, parent, name, kind, inode))
  {
    if parent in t {
      var u := Create(t, parent, name, kind, inode);
      var added := DirEntry(inode, name, kind);
      forall p, e | IsEntry(u, p, e)
        ensures IsEntry(t, p, e) || (p == parent && e == added)
      {
      }
      assert !Targeted(u, ROOT) by {
        forall p, e | IsEntry(u, p, e)
          ensures e.inode != ROOT
        {
          assert IsEntry(t, p, e) || e == added;
        }
      }
      forall p | p in u
        ensures DistinctInodes(u[p])
      {
        if p == parent {
          assert forall e :: e in t[parent] ==> IsEntry(t, parent, e) && e.inode != inode;
          DistinctAppend(t[parent], added);
        }
      }
    }
  }

  lemma {:induction false} WithoutExact(entries: seq<DirEntry>, name: string)
    ensures forall e :: e in Without(entries, name) <==> e in entries && e.name != name
  {
    if entries != [] {
      WithoutExact(entries[1..], name);
      assert entries == [entries[0]] + entries[1..];
    }
  }

  lemma {:induction false} WithoutDistinct(entries: seq<DirEntry>, name: string)
    requires DistinctInodes(entries)
    ensures DistinctInodes(Without(entries, name))
  {
    if entries != [] {
      WithoutDistinct(entries[1..], name);
      WithoutExact(entries[1..], name);
      assert forall e :: e in entries[1..] ==> e.inode != entries[0].inode;
      var rest := Without(entries[1..], name);
      assert forall i :: 0 <= i < |rest| ==> rest[i] in rest;
    }
  }

  /** Filtering goes entry by entry: the order of what is left stays. */
  lemma {:induction false} WithoutInParts(a: seq<DirEntry>, b: seq<DirEntry>, name: string)
    ensures Without(a + b, name) == Without(a, name) + Without(b, name)
    decreases |a|
  {
    if a == [] {
      assert a + b == b;
    } else {
      assert (a + b)[1..] == a[1..] + b;
      WithoutInParts(a[1..], b, name);
    }
  }

  /** A remove takes the entries of that name out of one list, keeps every other list and every directory. */
  lemma RemoveExact(t: Tree, parent: UUID, name: string)
    ensures Remove(t, parent, name).Keys == t.Keys
    ensures forall p :: p in t && p != parent ==> Remove(t, parent, name)[p] == t[p]
    ensures forall p, e :: IsEntry(Remove(t, parent, name), p, e) <==> IsEntry(t, p, e) && (p == parent ==> e.name != name)
  {
    if parent in t {
      WithoutExact(t[parent], name);
    }
  }

  lemma RemoveKeepsInv(t: Tree, parent: UUID, name: string)
    requires Inv(t)
    ensures Inv(Remove(t, parent, name))
  {
    if parent in t {
      var u := Remove(t, parent, name);
      WithoutExact(t[parent], name);
      WithoutDistinct(t[parent], name);
      forall p, e | IsEntry(u, p, e)
        ensures IsEntry(t, p, e)
      {
      }
      assert !Targeted(u, ROOT);
    }
  }

  datatype Op =
    | CreateOp(parent: UUID, name: string, kind: FileType, inode: UUID)
    | RemoveOp(parent: UUID, name: string)

  function Apply(t: Tree, op: Op): Tree {
    match op
    case CreateOp(parent, name, kind, inode) => Create(t, parent, name, kind, inode)
    case RemoveOp(parent, name) => Remove(t, parent, name)
  }

  function Run(t: Tree, ops: seq<Op>): Tree
    decreases |ops|
  {
    if ops == [] then t else Run(Apply(t, ops[0]), ops[1..])
  }

  /** Every create of the run uses an inode that is fresh when it runs. */
  ghost predicate FreshRun(t: Tree, ops: seq<Op>)
    decreases |ops|
  {
    ops == [] || ((ops[0].CreateOp? ==> Fresh(t, ops[0].inode)) && FreshRun(Apply(t, ops[0]), ops[1..]))
  }

  lemma {:induction false} RunKeepsInv(t: Tree, ops: seq<Op>)
    requires Inv(t) && FreshRun(t, ops)
    ensures Inv(Run(t, ops))
    decreases |ops|
  {
    if ops != [] {
      match ops[0] {
        case CreateOp(parent, name, kind, inode) => CreateKeepsInv(t, parent, name, kind, inode);
        case RemoveOp(parent, name) => RemoveKeepsInv(t, parent, name);
      }
      RunKeepsInv(Apply(t, ops[0]), ops[1..]);
    }
  }

  // ----- walks -----

  /** A walk that leads somewhere below the root ends at an entry of the directory before it. */
  lemma WalkEndsAtEntry(t: Tree, names: seq<string>) returns (parent: UUID, e: DirEntry)
    requires names != [] && Walk(t, names).Some?
    ensures Walk(t, names[..|names| - 1]) == Some(Found(parent, Directory))
    ensures IsEntry(t, parent, e) && e.name == names[|names| - 1]
    ensures Walk(t, names) == Some(Found(e.inode, e.kind))
  {
    var n := |names| - 1;
    parent := Walk(t, names[..n]).value.inode;
    e := Find(t[parent], names[n]).value;
  }

  /** Lookup is injective: two different lists of names never lead to the same inode. */
  lemma {:induction false} WalkInjective(t: Tree, a: seq<string>, b: seq<string>)
    requires Inv(t) && Walk(t, a).Some? && Walk(t, b).Some?
    requires Walk(t, a).value.inode == Walk(t, b).value.inode
    ensures a == b
    decreases |a|
  {
    if a != [] && b != [] {
      SameInodeSameStep(t, a, b);
      WalkInjective(t, a[..|a| - 1], b[..|b| - 1]);
      assert a == a[..|a| - 1] + [a[|a| - 1]];
      assert b == b[..|b| - 1] + [b[|b| - 1]];
    } else {
      OnlyRootIsRoot(t, a);
      OnlyRootIsRoot(t, b);
    }
  }

  /** Walks to the same inode take the same last step, from the same directory. */
  lemma SameInodeSameStep(t: Tree, a: seq<string>, b: seq<string>)
    requires Inv(t) && a != [] && b != [] && Walk(t, a).Some? && Walk(t, b).Some?
    requires Walk(t, a).value.inode == Walk(t, b).value.inode
    ensures a[|a| - 1] == b[|b| - 1]
    ensures Walk(t, a[..|a| - 1]).Some? && Walk(t, a[..|a| - 1]) == Walk(t, b[..|b| - 1])
  {
    var p, e := WalkEndsAtEntry(t, a);
    var q, d := WalkEndsAtEntry(t, b);
    assert IsEntry(t, p, e) && IsEntry(t, q, d);
  }

  lemma OnlyRootIsRoot(t: Tree, names: seq<string>)
    requires Inv(t) && Walk(t, names).Some?
    ensures Walk(t, names).value.inode == ROOT <==> names == []
  {
    if names != [] {
      var _, e := WalkEndsAtEntry(t, names);
      assert Targeted(t, e.inode);
    }
  }

  /** A walk that ends at a directory ends at one with a list of entries. */
  lemma WalkToDirectory(t: Tree, names: seq<string>)
    requires Inv(t) && Walk(t, names).Some? && Walk(t, names).value.kind == Directory
    ensures Walk(t, names).value.inode in t
  {
    if names != [] {
      var _, _ := WalkEndsAtEntry(t, names);
    }
  }

  lemma ReachedIsNotFresh(t: Tree, inode: UUID, names: seq<string>)
    requires Inv(t) && Fresh(t, inode) && Walk(t, names).Some?
    ensures Walk(t, names).value.inode != inode
  {
    if names != [] {
      var _, e := WalkEndsAtEntry(t, names);
      assert Targeted(t, e.inode);
    }
  }

  lemma {:induction false} FindAppended(entries: seq<DirEntry>, e: DirEntry, name: string)
    ensures Find(entries + [e], name) ==
              if Find(entries, name).Some? then Find(entries, name) else if e.name == name then Some(e) else None
  {
    if entries != [] {
      assert (entries + [e])[1..] == entries[1..] + [e];
      FindAppended(entries[1..], e, name);
    } else {
      assert [] + [e] == [e];
    }
  }

  /** The walk that a create adds: the parent's path followed by the name. */
  ghost predicate LeadsToNew(t: Tree, parent: UUID, name: string, names: seq<string>) {
    names != [] && names[|names| - 1] == name && Walk(t, names[..|names| - 1]) == Some(Found(parent, Directory))
  }

  /**
   The exact effect of a create with a fresh inode on every walk: what resolved keeps its result,
   and only the parent's path followed by the name, where it led nowhere, leads to the new inode.
   */
  lemma {:induction false} CreateEffect(t: Tree, parent: UUID, name: string, kind: FileType, inode: UUID,
                                        names: seq<string>)
    requires Inv(t) && Fresh(t, inode) && parent in t
    ensures Walk(Create(t, parent, name, kind, inode), names) ==
              if Walk(t, names).Some? then Walk(t, names)
              else if LeadsToNew(t, parent, name, names) then Some(Found(inode, kind))
              else None
    decreases |names|
  {
    if names != [] {
      var n := |names| - 1;
      var u := Create(t, parent, name, kind, inode);
      CreateEffect(t, parent, name, kind, inode, names[..n]);
      DescendAfterCreate(t, parent, name, kind, inode, Found(inode, kind), names[n]);
      if Walk(t, names[..n]).Some? {
        ReachedIsNotFresh(t, inode, names[..n]);
        DescendAfterCreate(t, parent, name, kind, inode, Walk(t, names[..n]).value, names[n]);
      }
    }
  }

  /** A step from an old place after a create, and from the new one. */
  lemma DescendAfterCreate(t: Tree, parent: UUID, name: string, kind: FileType, inode: UUID, at: Found, next: string)
    requires Fresh(t, inode) && parent in t
    ensures var u := Create(t, parent, name, kind, inode);
      var before := Descend(t, Some(at), next);
      && (at.inode != inode ==>
            Descend(u, Some(at), next) ==
              if before.Some? then before
              else if at == Found(parent, Directory) && next == name then Some(Found(inode, kind))
              else None)
      && Descend(u, Some(Found(inode, kind)), next) == None
  {
    FindAppended(t[parent], DirEntry(inode, name, kind), next);
  }

  /** The walk takes the entry of that name in that directory. */
  ghost predicate Through(t: Tree, parent: UUID, name: string, names: seq<string>) {
    exists i :: 0 <= i < |names| && names[i] == name && Walk(t, names[..i]) == Some(Found(parent, Directory))
  }

  lemma {:induction false} FindWithout(entries: seq<DirEntry>, removed: string, name: string)
    ensures Find(Without(entries, removed), name) == if name == removed then None else Find(entries, name)
  {
    if entries != [] {
      FindWithout(entries[1..], removed, name);
    }
  }

  lemma ThroughPrefix(t: Tree, parent: UUID, name: string, names: seq<string>)
    requires names != []
    ensures var n := |names| - 1;
      Through(t, parent, name, names) <==>
        Through(t, parent, name, names[..n]) ||
        (names[n] == name && Walk(t, names[..n]) == Some(Found(parent, Directory)))
  {
    var n := |names| - 1;
    if Through(t, parent, name, names) {
      var i :| 0 <= i < |names| && names[i] == name && Walk(t, names[..i]) == Some(Found(parent, Directory));
      if i < n {
        assert names[..n][..i] == names[..i] && names[..n][i] == name;
      }
    }
    if Through(t, parent, name, names[..n]) {
      var i :| 0 <= i < n && names[..n][i] == name && Walk(t, names[..n][..i]) == Some(Found(parent, Directory));
      assert names[..n][..i] == names[..i] && names[i] == name;
    }
  }

  /** The exact effect of a remove on every walk: those through the removed name fail, no other changes. */
  lemma {:induction false} RemoveEffect(t: Tree, parent: UUID, name: string, names: seq<string>)
    ensures Walk(Remove(t, parent, name), names) ==
              if parent in t && Through(t, parent, name, names) then None else Walk(t, names)
    decreases |names|
  {
    if names != [] && parent in t {
      var n := |names| - 1;
      RemoveEffect(t, parent, name, names[..n]);
      ThroughPrefix(t, parent, name, names);
      FindWithout(t[parent], name, names[n]);
    }
  }
}
