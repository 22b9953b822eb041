/**
 The two stores behind a chunk, seen through the one file the chunk owns.

 MemStore keeps a buffer per path and appends to it. LocalStore keeps a file and
 writes at the position of a descriptor, ignoring the offset it is given; a read
 seeks its own descriptor first. Nothing in LocalStore forces a write to land at
 the end of the file: that is a property of how the chunk uses its handles.
 */
module Stores {
  import opened Types

  /** `appendPos` is the position of the handle opened by `Chunk::create`, `readerPos` those opened later. */
  datatype File =
    | Mem(data: seq<Byte>)
    | Local(data: seq<Byte>, appendPos: nat, readerPos: seq<nat>)

  datatype Handle = AppendHandle | Reader(index: nat)

  datatype Reply = Reply(status: Status, buf: seq<Byte>)

  function Min(a: int, b: int): int {
    if a < b then a else b
  }

  /** write(2): overwrites what is at the position, extends the file, fills a hole with zero bytes. */
  function WriteAt(data: seq<Byte>, pos: nat, buf: seq<Byte>): (w: seq<Byte>)
    ensures buf != [] ==> |w| == if pos + |buf| < |data| then |data| else pos + |buf|
    ensures buf == [] ==> |w| == |data|
    ensures forall i :: 0 <= i < |buf| ==> w[pos + i] == buf[i]
    ensures forall i :: 0 <= i < |data| && !(pos <= i < pos + |buf|) ==> w[i] == data[i]
    ensures forall i :: |data| <= i < pos && buf != [] ==> w[i] == 0
  {
    if buf == [] then
      data
    else
      var head := if pos <= |data| then data[..pos] else data + seq(pos - |data|, _ => 0);
      head + buf + data[Min(pos + |buf|, |data|)..]
  }

  predicate ValidHandle(f: File, h: Handle) {
    h.Reader? ==> f.Local? ==> h.index < |f.readerPos|
  }

  /** `append` of either store, through the handle the chunk keeps for appending. */
  function Append(f: File, buf: seq<Byte>): File {
    match f
    case Mem(data) => Mem(data + buf)
    case Local(data, pos, readers) => Local(WriteAt(data, pos, buf), pos + |buf|, readers)
  }

  /** `open(path, O_RDONLY)`: a new descriptor starts at position zero. */
  function OpenReader(f: File): (r: (File, Handle))
    ensures ValidHandle(r.0, r.1) && r.1.Reader?
  {
    match f
    case Mem(_) => (f, Reader(0))
    case Local(data, pos, readers) => (Local(data, pos, readers + [0]), Reader(|readers|))
  }

  /** The bytes a read at `offset` of at most `size` bytes finds. */
  function Slice(data: seq<Byte>, offset: nat, size: nat): seq<Byte> {
    var lo := Min(offset, |data|);
    data[lo..Min(lo + size, |data|)]
  }

  /** The state a read leaves behind: lseek, and read unless it fails, move the descriptor they go through. */
  function ReadEffect(f: File, h: Handle, offset: Uint64, size: Uint64, readStatus: Status): File
    requires ValidHandle(f, h)
  {
    match f
    case Mem(_) => f
    case Local(data, pos, readers) =>
      if offset >= TWO_63 then
        f
      else
        var landed := offset + if readStatus == OK then |Slice(data, offset, size)| else 0;
        match h
        case AppendHandle => Local(data, landed, readers)
        case Reader(i) => Local(data, pos, readers[i := landed])
  }

  /**
   What a read answers. MemStore appends what it finds to the caller's buffer and never
   complains; LocalStore refuses an offset beyond the range of off_t, a failing read(2), whose
   outcome is `readStatus`, or a short read, and replaces the caller's buffer.
   */
  function ReadReply(f: File, offset: Uint64, size: Uint64, readStatus: Status, buf: seq<Byte>): Reply {
    match f
    case Mem(data) => Reply(OK, buf + Slice(data, offset, size))
    case Local(data, _, _) =>
      if offset >= TWO_63 then
        Reply(Error(EINVAL), buf)
      else if readStatus != OK then
        Reply(readStatus, buf)
      else if |Slice(data, offset, size)| != size then
        Reply(Error(EINVAL), buf)
      else
        Reply(OK, Slice(data, offset, size))
  }

  /** The append handle stands at the end of the file. */
  predicate AtEnd(f: File) {
    f.Local? ==> f.appendPos == |f.data|
  }

  /** A positional write is a logical append exactly when the handle stands at the end (or nothing is written). */
  lemma PositionalAppend(f: File, buf: seq<Byte>)
    ensures AtEnd(f) ==> AtEnd(Append(f, buf))
    ensures AtEnd(f) || buf == [] <==> Append(f, buf).data == f.data + buf
  {
    if f.Local? && f.appendPos < |f.data| && buf != [] {
      var w := WriteAt(f.data, f.appendPos, buf);
      assert |w| < |f.data| + |buf|;
    }
    if f.Local? && f.appendPos > |f.data| && buf != [] {
      assert |Append(f, buf).data| > |f.data| + |buf|;
    }
  }

  /** Reading through a handle of its own leaves the append handle alone; reading through the append handle does not. */
  lemma ReadKeepsAppendPosition(f: File, h: Handle, offset: Uint64, size: Uint64, readStatus: Status)
    requires ValidHandle(f, h) && AtEnd(f)
    ensures ReadEffect(f, h, offset, size, readStatus).data == f.data
    ensures AtEnd(ReadEffect(f, h, offset, size, readStatus)) <==>
              f.Mem? || h.Reader? || offset >= TWO_63 || offset == |f.data| ||
              (readStatus == OK && offset < |f.data| <= offset + size)
  {
  }
}
