/** Append requests, the set they wait in, and the bytes a sequence of them writes. */
module Requests {
  import opened Types

  datatype Request = Request(id: nat, offset: Uint64, buf: seq<Byte>)

  /** The waiting set's order: strictly increasing offsets, so at most one request per offset. */
  ghost predicate Sorted(queue: seq<Request>) {
    forall i, j :: 0 <= i < j < |queue| ==> queue[i].offset < queue[j].offset
  }

  /** Insertion into the waiting set: a request whose offset is already waiting is not linked. */
  function Insert(queue: seq<Request>, r: Request): seq<Request> {
    if queue == [] || r.offset < queue[0].offset then [r] + queue
    else if r.offset == queue[0].offset then queue
    else [queue[0]] + Insert(queue[1..], r)
  }

  /** Removal of one request from the waiting set; no effect if it is not linked. */
  function Unlink(queue: seq<Request>, id: nat): seq<Request> {
    if queue == [] then []
    else if queue[0].id == id then Unlink(queue[1..], id)
    else [queue[0]] + Unlink(queue[1..], id)
  }

  ghost predicate HasOffset(queue: seq<Request>, offset: int) {
    exists q :: q in queue && q.offset == offset
  }

  lemma PrependSorted(r: Request, queue: seq<Request>)
    requires Sorted(queue) && forall q :: q in queue ==> r.offset < q.offset
    ensures Sorted([r] + queue)
  {
  }

  lemma {:induction false} InsertKeepsSet(queue: seq<Request>, r: Request)
    requires Sorted(queue)
    ensures Sorted(Insert(queue, r))
    ensures forall q :: q in Insert(queue, r) <==> q in queue || (q == r && !HasOffset(queue, r.offset))
  {
    if queue == [] || r.offset < queue[0].offset {
    } else if r.offset == queue[0].offset {
      assert queue[0] in queue;
    } else {
      InsertKeepsSet(queue[1..], r);
      assert queue == [queue[0]] + queue[1..];
      PrependSorted(queue[0], Insert(queue[1..], r));
    }
  }

  lemma {:induction false} UnlinkKeepsSet(queue: seq<Request>, id: nat)
    requires Sorted(queue)
    ensures Sorted(Unlink(queue, id))
    ensures forall q :: q in Unlink(queue, id) <==> q in queue && q.id != id
  {
    if queue != [] {
      UnlinkKeepsSet(queue[1..], id);
      assert queue == [queue[0]] + queue[1..];
      if queue[0].id != id {
        PrependSorted(queue[0], Unlink(queue[1..], id));
      }
    }
  }

  /** The bytes of the requests, one after the other. */
  function Concat(rs: seq<Request>): seq<Byte> {
    if rs == [] then [] else Concat(rs[..|rs| - 1]) + rs[|rs| - 1].buf
  }

  lemma ConcatSnoc(rs: seq<Request>, r: Request)
    ensures Concat(rs + [r]) == Concat(rs) + r.buf
  {
    assert (rs + [r])[..|rs|] == rs;
  }

  lemma {:induction false} ConcatPrefix(rs: seq<Request>, i: nat)
    requires i <= |rs|
    ensures Concat(rs[..i]) <= Concat(rs)
    decreases |rs|
  {
    if i == |rs| {
      assert rs[..i] == rs;
    } else {
      ConcatPrefix(rs[..|rs| - 1], i);
      assert rs[..|rs| - 1][..i] == rs[..i];
    }
  }

  /** Each request was written where the ones before it end. */
  ghost predicate BackToBack(rs: seq<Request>) {
    forall i :: 0 <= i < |rs| ==> rs[i].offset == |Concat(rs[..i])|
  }

  lemma BackToBackSnoc(rs: seq<Request>, r: Request)
    requires BackToBack(rs) && r.offset == |Concat(rs)|
    ensures BackToBack(rs + [r])
  {
    var t := rs + [r];
    forall i | 0 <= i < |t|
      ensures t[i].offset == |Concat(t[..i])|
    {
      assert t[..i] == rs[..i];
      assert i == |rs| ==> rs[..i] == rs;
    }
  }

  lemma SliceOfPrefix(head: seq<Byte>, buf: seq<Byte>, whole: seq<Byte>)
    requires head + buf <= whole
    ensures |head| + |buf| <= |whole|
    ensures whole[|head|..|head| + |buf|] == buf
  {
    assert |head + buf| <= |whole| && whole[..|head + buf|] == head + buf;
    assert whole[|head|..|head| + |buf|] == whole[..|head| + |buf|][|head|..];
  }

  /** A request written back to back sits at its own offset in the concatenation. */
  lemma BytesSit(rs: seq<Request>, i: nat)
    requires i < |rs| && rs[i].offset == |Concat(rs[..i])|
    ensures rs[i].offset + |rs[i].buf| <= |Concat(rs)|
    ensures Concat(rs)[rs[i].offset..rs[i].offset + |rs[i].buf|] == rs[i].buf
  {
    var head := Concat(rs[..i]);
    ConcatPrefix(rs, i + 1);
    assert rs[..i + 1] == rs[..i] + [rs[i]];
    ConcatSnoc(rs[..i], rs[i]);
    SliceOfPrefix(head, rs[i].buf, Concat(rs));
  }
}
