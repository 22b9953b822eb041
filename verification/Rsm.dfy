/** The replicated state machine's `on_apply`, and encoding and decoding on a buffer in place. */
module Rsm {
  import opened Types
  import opened Deva
  import opened DevaObject
  import opened OpLog

  class IOBuf {
    var bytes: seq<Byte>

    constructor (bytes: seq<Byte>)
      ensures this.bytes == bytes
    {
      this.bytes := bytes;
    }

    method Append(more: seq<Byte>)
      modifies this
      ensures bytes == old(bytes) + more
    {
      bytes := bytes + more;
    }

    /** Takes up to `n` bytes off the front. */
    method CutN(n: nat) returns (taken: seq<Byte>)
      modifies this
      ensures taken == Front(old(bytes), n) && bytes == Back(old(bytes), n)
      ensures taken + bytes == old(bytes)
    {
      if n <= |bytes| {
        taken, bytes := bytes[..n], bytes[n..];
      } else {
        taken, bytes := bytes, [];
      }
    }
  }

  method EncodeOp(codec: Codec, request: Request, timestamp: Uint64, buf: IOBuf)
    modifies buf
    ensures buf.bytes == old(buf.bytes) + Encode(codec, request, timestamp)
  {
    var payload := codec.serialize(request);
    var size := |payload| % TWO_32;
    buf.Append(ToBytes(VERSION, 4) + ToBytes(TypeOf(request), 4) + ToBytes(timestamp, 8) + ToBytes(size, 4) + Zeros(44));
    buf.Append(payload);
  }

  /** No request means that decoding ran into an assertion. */
  method DecodeOp(codec: Codec, buf: IOBuf) returns (request: Option<Request>)
    modifies buf
    ensures buf.bytes == CutOp(old(buf.bytes)).rest
    ensures request == match Decode(codec, old(buf.bytes)) case None => None case Some((r, _)) => Some(r)
  {
    var taken := buf.CutN(HEADER_SIZE);
    var header := Padded(taken);
    var payload := buf.CutN(SizeField(header));
    var opType := TypeField(header);
    assert CutOp(old(buf.bytes)) == Cut(opType, payload, buf.bytes);
    request := if Dispatched(opType) then codec.parse(opType, payload) else None;
  }

  class Replica {
    const container: DevaObject

    constructor (container: DevaObject)
      ensures this.container == container
    {
      this.container := container;
    }

    /** One committed entry: through its closure's operation if there is one, else by decoding its bytes. */
    method ApplyEntry(codec: Codec, entry: LogEntry, local: bool) returns (aborted: bool, reply: Reply)
      modifies container, container.namespace
      ensures aborted <==> Applied(codec, entry, local).None?
      ensures aborted ==> container.View() == old(container.View())
      ensures !aborted ==>
                Processed(container.View(), reply.status, reply.response) ==
                  Process(old(container.View()), Applied(codec, entry, local).value)
    {
      var request := Some(entry.request);
      if !local {
        var buf := new IOBuf(Encode(codec, entry.request, entry.timestamp));
        request := DecodeOp(codec, buf);
      }
      if request.None? {
        return true, Reply(Error(EINVAL), None);
      }
      var status, response := container.ProcessRequest(request.value);
      return false, Reply(status, response);
    }

    /**
     Applies a batch of committed entries in log order. Where decoding asserts it stops, with the
     entries before that one applied and no other.
     */
    method ApplyBatch(codec: Codec, log: seq<LogEntry>, local: seq<bool>) returns (aborted: bool, replies: seq<Reply>)
      requires |local| == |log|
      modifies container, container.namespace
      ensures aborted <==> Replay(codec, old(container.View()), log, local).None?
      ensures var n := |replies|;
        && n <= |log| && (aborted <==> n < |log|)
        && Replay(codec, old(container.View()), log[..n], local[..n]) == Some(Outcome(container.View(), replies))
        && (aborted ==> Applied(codec, log[n], local[n]).None?)
    {
      ghost var start := container.View();
      replies := [];
      for i := 0 to |log|
        invariant |replies| == i
        invariant Replay(codec, start, log[..i], local[..i]) == Some(Outcome(container.View(), replies))
      {
        var stuck, reply := ApplyEntry(codec, log[i], local[i]);
        ReplayOneMore(codec, start, log, local, i);
        if stuck {
          StuckStaysStuck(codec, start, log, local, i + 1);
          return true, replies;
        }
        replies := replies + [reply];
      }
      assert log[..|log|] == log && local[..|log|] == local;
      aborted := false;
    }

    /**
     With an invertible codec, a replica does what the operations do, up to the first CreateDir it
     has to decode.
     */
    method OnApply(codec: Codec, log: seq<LogEntry>, local: seq<bool>) returns (aborted: bool, replies: seq<Reply>)
      requires |local| == |log| && Invertible(codec) && SmallPayloads(codec, log)
      modifies container, container.namespace
      ensures aborted <==> !Decodable(log, local)
      ensures var n := |replies|;
        && n <= |log| && (aborted <==> n < |log|)
        && Outcome(container.View(), replies) == Direct(old(container.View()), log[..n])
        && (aborted ==> !local[n] && log[n].request.CreateDir?)
    {
      ghost var start := container.View();
      aborted, replies := ApplyBatch(codec, log, local);
      ghost var n := |replies|;
      ReplayEqualsDirect(codec, start, log, local);
      ReplayEqualsDirect(codec, start, log[..n], local[..n]);
      if aborted {
        AppliedExact(codec, log[n], local[n]);
      }
    }
  }

  /** One request applied after an outcome. */
  ghost function Then(before: Option<Outcome>, applied: Option<Request>): Option<Outcome> {
    if before.None? || applied.None? then
      None
    else
      var p := Process(before.value.state, applied.value);
      Some(Outcome(p.state, before.value.replies + [Reply(p.status, p.response)]))
  }

  /** The outcome of what follows a first reply. */
  ghost function After(reply: Reply, later: Option<Outcome>): Option<Outcome> {
    if later.None? then None else Some(Outcome(later.value.state, [reply] + later.value.replies))
  }

  lemma AfterThen(reply: Reply, later: Option<Outcome>, applied: Option<Request>)
    ensures After(reply, Then(later, applied)) == Then(After(reply, later), applied)
  {
    if later.Some? && applied.Some? {
      var p := Process(later.value.state, applied.value);
      var last := [Reply(p.status, p.response)];
      assert [reply] + (later.value.replies + last) == [reply] + later.value.replies + last;
    }
  }

  lemma ReplayFirst(codec: Codec, s: State, log: seq<LogEntry>, local: seq<bool>)
    requires |local| == |log| && log != []
    ensures Replay(codec, s, log, local) ==
              match Applied(codec, log[0], local[0])
              case None => None
              case Some(request) =>
                var p := Process(s, request);
                After(Reply(p.status, p.response), Replay(codec, p.state, log[1..], local[1..]))
  {
  }

  /** One entry more at the end of the log. */
  lemma {:induction false} ReplaySnoc(codec: Codec, s: State, log: seq<LogEntry>, local: seq<bool>, entry: LogEntry,
                                      here: bool)
    requires |local| == |log|
    ensures Replay(codec, s, log + [entry], local + [here]) ==
              Then(Replay(codec, s, log, local), Applied(codec, entry, here))
    decreases |log|
  {
    var longer, longerLocal := log + [entry], local + [here];
    ReplayFirst(codec, s, longer, longerLocal);
    if log == [] {
      assert longer[0] == entry && longer[1..] == [] && longerLocal[0] == here && longerLocal[1..] == [];
      assert Replay(codec, s, log, local) == Some(Outcome(s, []));
      assert forall reply: Reply :: [reply] + [] == [] + [reply];
    } else {
      ReplayFirst(codec, s, log, local);
      assert longer[0] == log[0] && longerLocal[0] == local[0];
      assert longer[1..] == log[1..] + [entry] && longerLocal[1..] == local[1..] + [here];
      var applied := Applied(codec, log[0], local[0]);
      if applied.Some? {
        var p := Process(s, applied.value);
        ReplaySnoc(codec, p.state, log[1..], local[1..], entry, here);
        AfterThen(Reply(p.status, p.response), Replay(codec, p.state, log[1..], local[1..]), Applied(codec, entry, here));
      }
    }
  }

  lemma ReplayOneMore(codec: Codec, s: State, log: seq<LogEntry>, local: seq<bool>, i: nat)
    requires |local| == |log| && i < |log|
    ensures Replay(codec, s, log[..i + 1], local[..i + 1]) ==
              Then(Replay(codec, s, log[..i], local[..i]), Applied(codec, log[i], local[i]))
  {
    assert log[..i + 1] == log[..i] + [log[i]] && local[..i + 1] == local[..i] + [local[i]];
    ReplaySnoc(codec, s, log[..i], local[..i], log[i], local[i]);
  }

  lemma {:induction false} StuckStaysStuck(codec: Codec, s: State, log: seq<LogEntry>, local: seq<bool>, i: nat)
    requires |local| == |log| && i <= |log| && Replay(codec, s, log[..i], local[..i]).None?
    ensures Replay(codec, s, log, local).None?
    decreases |log|
  {
    if i == |log| {
      assert log[..i] == log && local[..i] == local;
    } else {
      var n := |log| - 1;
      assert log[..n][..i] == log[..i] && local[..n][..i] == local[..i];
      StuckStaysStuck(codec, s, log[..n], local[..n], i);
      ReplayOneMore(codec, s, log, local, n);
      assert log[..n + 1] == log && local[..n + 1] == local;
    }
  }
}
