/** Paths as the metadata server reads them: slash-separated names, repeated and trailing slashes ignored. */
module Paths {
  import opened Types

  predicate Absolute(path: string) {
    path != "" && path[0] == '/'
  }

  /** The number of characters before the first slash. */
  function SegmentLength(path: string): (n: nat)
    ensures n <= |path|
    ensures '/' !in path[..n]
    ensures n < |path| ==> path[n] == '/'
  {
    if path == "" || path[0] == '/' then 0 else 1 + SegmentLength(path[1..])
  }

  function Components(path: string): seq<string>
    decreases |path|
  {
    if path == "" then []
    else if path[0] == '/' then Components(path[1..])
    else [path[..SegmentLength(path)]] + Components(path[SegmentLength(path)..])
  }

  predicate Name(s: string) {
    s != "" && '/' !in s
  }

  ghost predicate Names(names: seq<string>) {
    forall i :: 0 <= i < |names| ==> Name(names[i])
  }

  function Join(names: seq<string>): string {
    if names == [] then "" else "/" + names[0] + Join(names[1..])
  }

  /** The path of a list of names; the root is a single slash. */
  function ToPath(names: seq<string>): string {
    if names == [] then "/" else Join(names)
  }

  lemma SegmentUnique(path: string, n: nat)
    requires n <= |path| && '/' !in path[..n] && (n < |path| ==> path[n] == '/')
    ensures SegmentLength(path) == n
  {
    var m := SegmentLength(path);
    assert forall i :: 0 <= i < n ==> path[i] == path[..n][i];
    assert forall i :: 0 <= i < m ==> path[i] == path[..m][i];
  }

  lemma SkipSlash(path: string, p: nat)
    requires p < |path| && path[p] == '/'
    ensures Components(path[p..]) == Components(path[p + 1..])
  {
    assert path[p..][1..] == path[p + 1..];
  }

  lemma FirstSegment(path: string, p: nat, q: nat, before: seq<string>)
    requires p < q <= |path| && '/' !in path[p..q] && (q < |path| ==> path[q] == '/')
    ensures before + Components(path[p..]) == before + [path[p..q]] + Components(path[q..])
  {
    assert path[p..][..q - p] == path[p..q] && path[p..][q - p..] == path[q..];
    assert path[p] == path[p..q][0];
    SegmentUnique(path[p..], q - p);
    assert Components(path[p..]) == [path[p..q]] + Components(path[q..]);
  }

  /** Parsing distributes over joining: what follows a slash parses on its own. */
  lemma {:induction false} ComponentsOfJoined(a: string, b: string)
    requires b == "" || Absolute(b)
    ensures Components(a + b) == Components(a) + Components(b)
    decreases |a|
  {
    if a == "" {
      assert a + b == b;
    } else if a[0] == '/' {
      assert (a + b)[1..] == a[1..] + b;
      ComponentsOfJoined(a[1..], b);
    } else {
      var n := SegmentLength(a);
      assert (a + b)[..n] == a[..n];
      SegmentUnique(a + b, n);
      assert (a + b)[n..] == a[n..] + b;
      ComponentsOfJoined(a[n..], b);
    }
  }

  lemma OneComponent(name: string)
    requires Name(name)
    ensures Components("/" + name) == [name]
  {
    assert ("/" + name)[1..] == name;
    assert name[..|name|] == name;
    SegmentUnique(name, |name|);
    assert name[|name|..] == "";
    assert name[0] in name;
    assert Components(name) == [name] + Components("");
  }

  /** Parsing undoes joining. */
  lemma {:induction false} ParseOfPath(names: seq<string>)
    requires Names(names)
    ensures Components(ToPath(names)) == names
    decreases |names|
  {
    if names == [] {
      assert "/"[1..] == "";
    } else {
      var head, rest := "/" + names[0], Join(names[1..]);
      assert ToPath(names) == head + rest;
      ComponentsOfJoined(head, rest);
      OneComponent(names[0]);
      if names[1..] == [] {
        assert rest == "";
      } else {
        ParseOfPath(names[1..]);
      }
    }
  }

  /** Parsing yields names, and joining them again gives a path that parses the same. */
  lemma {:induction false} PathOfParse(path: string)
    ensures Names(Components(path))
    ensures Components(ToPath(Components(path))) == Components(path)
    decreases |path|
  {
    if path == "" {
    } else if path[0] == '/' {
      PathOfParse(path[1..]);
    } else {
      PathOfParse(path[SegmentLength(path)..]);
    }
    ParseOfPath(Components(path));
  }

  // ----- std::filesystem::path -----

  /** Where the part after the last slash starts. */
  function FileNameStart(path: string): (i: nat)
    ensures i <= |path|
    ensures '/' !in path[i..]
    ensures i > 0 ==> path[i - 1] == '/'
  {
    if path == "" then 0
    else if path[|path| - 1] == '/' then |path|
    else FileNameStart(path[..|path| - 1])
  }

  function FileName(path: string): string {
    path[FileNameStart(path)..]
  }

  function StripSlashes(path: string): string {
    if path != "" && path[|path| - 1] == '/' then StripSlashes(path[..|path| - 1]) else path
  }

  function ParentPath(path: string): string {
    var start := FileNameStart(path);
    if start == 0 then ""
    else if StripSlashes(path[..start]) == "" then "/"
    else StripSlashes(path[..start])
  }

  predicate EndsWithSlash(path: string) {
    path != "" && path[|path| - 1] == '/'
  }

  lemma {:induction false} StripKeepsComponents(path: string)
    ensures Components(StripSlashes(path)) == Components(path)
    ensures StripSlashes(path) <= path && !EndsWithSlash(StripSlashes(path))
    ensures Absolute(path) ==> StripSlashes(path) == "" || Absolute(StripSlashes(path))
    decreases |path|
  {
    if path != "" && path[|path| - 1] == '/' {
      var front := path[..|path| - 1];
      StripKeepsComponents(front);
      assert path == front + "/";
      ComponentsOfJoined(front, "/");
      assert "/"[1..] == "";
    }
  }

  /** The parent path has the components of everything up to the last slash. */
  lemma ParentComponents(path: string)
    requires Absolute(path)
    ensures FileNameStart(path) > 0
    ensures Absolute(ParentPath(path))
    ensures ParentPath(path) <= path && (ParentPath(path) == "/" || !EndsWithSlash(ParentPath(path)))
    ensures Components(ParentPath(path)) == Components(path[..FileNameStart(path)])
  {
    var dir := path[..FileNameStart(path)];
    StripKeepsComponents(dir);
    assert "/"[1..] == "";
    assert Components("/") == Components("");
  }

  /** The parent's components, followed by the file name if there is one. */
  lemma ParentAndFileName(path: string)
    requires Absolute(path)
    ensures Absolute(ParentPath(path)) && ParentPath(path) <= path
    ensures ParentPath(path) == "/" || !EndsWithSlash(ParentPath(path))
    ensures EndsWithSlash(path) <==> FileName(path) == ""
    ensures !EndsWithSlash(path) ==> Name(FileName(path))
    ensures Components(path) == Components(ParentPath(path)) + if EndsWithSlash(path) then [] else [FileName(path)]
  {
    var start := FileNameStart(path);
    var dir, name := path[..start], FileName(path);
    ParentComponents(path);
    assert path == dir + name;
    if name == "" {
      assert path == dir;
    } else {
      assert path[|path| - 1] == name[|name| - 1];
      AddFileName(path[..start - 1], name);
      assert dir == path[..start - 1] + "/";
      assert path == path[..start - 1] + "/" + name;
    }
  }

  lemma AddFileName(front: string, name: string)
    requires Name(name)
    ensures Components(front + "/" + name) == Components(front + "/") + [name]
  {
    ComponentsOfJoined(front, "/");
    assert "/"[1..] == "";
    assert Components("/") == Components("");
    ComponentsOfJoined(front, "/" + name);
    assert front + "/" + name == front + ("/" + name);
    OneComponent(name);
  }

  /** `Namespace::parse_path`: two pointers over the string; components are added to the caller's list. */
  method ParsePath(path: string, components: seq<string>) returns (status: Status, parsed: seq<string>)
    ensures status == (if Absolute(path) then OK else Error(EINVAL))
    ensures parsed == if Absolute(path) then components + Components(path) else components
  {
    parsed := components;
    if path == "" || path[0] != '/' {
      return Error(EINVAL), parsed;
    }
    var p := 0;
    while p < |path|
      invariant p <= |path|
      invariant parsed + Components(path[p..]) == components + Components(path)
    {
      if path[p] == '/' {
        SkipSlash(path, p);
        p := p + 1;
        continue;
      }
      var q := p;
      while q < |path| && path[q] != '/'
        invariant p <= q <= |path|
        invariant '/' !in path[p..q]
      {
        assert path[p..q + 1] == path[p..q] + [path[q]];
        q := q + 1;
      }
      FirstSegment(path, p, q, parsed);
      parsed := parsed + [path[p..q]];
      p := q;
    }
    status := OK;
  }
}
