/** Operations on the raft log: the 64-byte header, the payload, and replay. */
module OpLog {
  import opened Types
  import Namespace
  import opened Deva

  const HEADER_SIZE := 64
  const VERSION := 1

  /** The numbers of `OpType`. */
  function TypeOf(request: Request): nat {
    match request
    case CreateFile(_, _, _) => 1
    case CreateDir(_, _, _) => 2
    case RemoveFile => 3
    case SealFile => 4
    case CreateChunk => 5
    case CheckInChunk => 6
    case SealChunk => 7
    case SealAndNewChunk => 8
  }

  /** The types the decoder's switch has a branch for: `kCreateDir` is not among them. */
  predicate Dispatched(opType: nat) {
    opType == 1 || 3 <= opType <= 8
  }

  /** Protobuf: serialisation of a request, and parsing of a payload as a given type of request. */
  datatype Codec = Codec(serialize: Request -> seq<Byte>, parse: (nat, seq<Byte>) -> Option<Request>)

  ghost predicate Invertible(codec: Codec) {
    forall r :: codec.parse(TypeOf(r), codec.serialize(r)) == Some(r)
  }

  // ----- little-endian numbers -----

  function Power256(width: nat): nat {
    if width == 0 then 1 else 256 * Power256(width - 1)
  }

  function ToBytes(n: nat, width: nat): (s: seq<Byte>)
    ensures |s| == width
  {
    if width == 0 then [] else [(n % 256) as Byte] + ToBytes(n / 256, width - 1)
  }

  function FromBytes(s: seq<Byte>): nat {
    if s == [] then 0 else s[0] as nat + 256 * FromBytes(s[1..])
  }

  lemma {:induction false} BytesRoundTrip(n: nat, width: nat)
    requires n < Power256(width)
    ensures FromBytes(ToBytes(n, width)) == n
    decreases width
  {
    if width != 0 {
      assert n / 256 < Power256(width - 1);
      BytesRoundTrip(n / 256, width - 1);
      assert ToBytes(n, width)[1..] == ToBytes(n / 256, width - 1);
    }
  }

  // ----- encoding -----

  function Zeros(n: nat): (s: seq<Byte>)
    ensures |s| == n
  {
    seq(n, _ => 0)
  }

  /** `OpMeta`: version, type, timestamp, payload size (a uint32), reserved bytes and padding. */
  function Header(opType: nat, timestamp: Uint64, payloadSize: nat): (h: seq<Byte>)
    ensures |h| == HEADER_SIZE
  {
    ToBytes(VERSION, 4) + ToBytes(opType, 4) + ToBytes(timestamp, 8) + ToBytes(payloadSize % TWO_32, 4) + Zeros(44)
  }

  function Encode(codec: Codec, request: Request, timestamp: Uint64): seq<Byte> {
    var payload := codec.serialize(request);
    Header(TypeOf(request), timestamp, |payload|) + payload
  }

  /** cutn: takes up to `n` bytes off the front. */
  function Front(buf: seq<Byte>, n: nat): seq<Byte> {
    if n <= |buf| then buf[..n] else buf
  }

  function Back(buf: seq<Byte>, n: nat): seq<Byte> {
    if n <= |buf| then buf[n..] else []
  }

  datatype Cut = Cut(opType: nat, payload: seq<Byte>, rest: seq<Byte>)

  /** A header cut into a zeroed struct. */
  function Padded(taken: seq<Byte>): (header: seq<Byte>)
    requires |taken| <= HEADER_SIZE
    ensures |header| == HEADER_SIZE
  {
    taken + Zeros(HEADER_SIZE - |taken|)
  }

  function TypeField(header: seq<Byte>): nat
    requires |header| == HEADER_SIZE
  {
    FromBytes(header[4..8])
  }

  function SizeField(header: seq<Byte>): nat
    requires |header| == HEADER_SIZE
  {
    FromBytes(header[16..20])
  }

  /** The header is cut first, then the payload by the size it names. */
  function CutOp(buf: seq<Byte>): Cut {
    var header := Padded(Front(buf, HEADER_SIZE));
    var body := Back(buf, HEADER_SIZE);
    Cut(TypeField(header), Front(body, SizeField(header)), Back(body, SizeField(header)))
  }

  /** The decoded request and what is left of the buffer, or nothing when decoding asserts. */
  function Decode(codec: Codec, buf: seq<Byte>): Option<(Request, seq<Byte>)> {
    var cut := CutOp(buf);
    if !Dispatched(cut.opType) then
      None
    else
      match codec.parse(cut.opType, cut.payload)
      case None => None
      case Some(request) => Some((request, cut.rest))
  }

  lemma WidthBounds()
    ensures Power256(4) == TWO_32 && Power256(8) == TWO_64
  {
    assert Power256(2) == 65536;
    assert Power256(4) == 256 * (256 * Power256(2));
    assert Power256(6) == 256 * (256 * Power256(4));
    assert Power256(8) == 256 * (256 * Power256(6));
  }

  /** Every field of the 64-byte struct is read back from its place, and the rest is zero. */
  lemma HeaderFields(opType: nat, timestamp: Uint64, payloadSize: nat)
    requires opType < 256
    ensures var h := Header(opType, timestamp, payloadSize);
      && FromBytes(h[0..4]) == 1
      && FromBytes(h[4..8]) == opType
      && FromBytes(h[8..16]) == timestamp
      && FromBytes(h[16..20]) == payloadSize % TWO_32
      && (forall i :: 20 <= i < 64 ==> h[i] == 0)
  {
    var h := Header(opType, timestamp, payloadSize);
    assert h[0..4] == ToBytes(VERSION, 4);
    assert h[4..8] == ToBytes(opType, 4);
    assert h[8..16] == ToBytes(timestamp, 8);
    assert h[16..20] == ToBytes(payloadSize % TWO_32, 4);
    WidthBounds();
    BytesRoundTrip(VERSION, 4);
    BytesRoundTrip(opType, 4);
    BytesRoundTrip(timestamp, 8);
    BytesRoundTrip(payloadSize % TWO_32, 4);
  }

  /** The numbers of the operations on the wire. */
  lemma WireTypes(codec: Codec, request: Request, timestamp: Uint64)
    ensures |Encode(codec, request, timestamp)| == 64 + |codec.serialize(request)|
    ensures FromBytes(Encode(codec, request, timestamp)[4..8]) ==
              match request
              case CreateFile(_, _, _) => 1
              case CreateDir(_, _, _) => 2
              case RemoveFile => 3
              case SealFile => 4
              case CreateChunk => 5
              case CheckInChunk => 6
              case SealChunk => 7
              case SealAndNewChunk => 8
  {
    var size := |codec.serialize(request)|;
    assert Encode(codec, request, timestamp)[4..8] == Header(TypeOf(request), timestamp, size)[4..8];
    HeaderFields(TypeOf(request), timestamp, size);
  }

  lemma CutAfterHeader(opType: nat, timestamp: Uint64, payloadSize: nat, body: seq<Byte>)
    requires opType < 256
    ensures var size := payloadSize % TWO_32;
      CutOp(Header(opType, timestamp, payloadSize) + body) == Cut(opType, Front(body, size), Back(body, size))
  {
    var header := Header(opType, timestamp, payloadSize);
    assert (header + body)[..HEADER_SIZE] == header && (header + body)[HEADER_SIZE..] == body;
    assert header + Zeros(0) == header;
    HeaderFields(opType, timestamp, payloadSize);
  }

  /**
   Cutting what was encoded gives back the type, the payload and what followed it exactly when the
   payload is shorter than 2^32 bytes: the size field is 32 bits wide.
   */
  lemma CutOfEncoded(codec: Codec, request: Request, timestamp: Uint64, tail: seq<Byte>)
    ensures CutOp(Encode(codec, request, timestamp) + tail).opType == TypeOf(request)
    ensures CutOp(Encode(codec, request, timestamp) + tail) == Cut(TypeOf(request), codec.serialize(request), tail) <==>
              |codec.serialize(request)| < TWO_32
  {
    var payload := codec.serialize(request);
    var size := |payload| % TWO_32;
    assert Encode(codec, request, timestamp) + tail ==
           Header(TypeOf(request), timestamp, |payload|) + (payload + tail);
    CutAfterHeader(TypeOf(request), timestamp, |payload|, payload + tail);
    if |payload| < TWO_32 {
      assert (payload + tail)[..size] == payload && (payload + tail)[size..] == tail;
    } else {
      assert size < |payload|;
      assert |Front(payload + tail, size)| == size;
    }
  }

  /** Decoding an encoding restores the request and consumes exactly header and payload. */
  lemma DecodeOfEncoded(codec: Codec, request: Request, timestamp: Uint64, tail: seq<Byte>)
    requires Invertible(codec) && |codec.serialize(request)| < TWO_32
    ensures Decode(codec, Encode(codec, request, timestamp) + tail) ==
              if request.CreateDir? then None else Some((request, tail))
  {
    CutOfEncoded(codec, request, timestamp, tail);
    assert Dispatched(TypeOf(request)) <==> !request.CreateDir?;
  }

  /** Only a type some request other than CreateDir has gets through the decoder; any other number stops it. */
  lemma DecodeStops(codec: Codec, buf: seq<Byte>)
    ensures Decode(codec, buf).Some? ==>
              exists r: Request :: TypeOf(r) == CutOp(buf).opType && !r.CreateDir?
    ensures Decode(codec, buf).Some? ==>
              codec.parse(CutOp(buf).opType, CutOp(buf).payload) == Some(Decode(codec, buf).value.0)
  {
    var file := CreateFile("", Namespace.ROOT, Attributes(0, 0, 0, 0, 0, 0));
    var numbers := [TypeOf(file), TypeOf(RemoveFile), TypeOf(SealFile), TypeOf(CreateChunk), TypeOf(CheckInChunk),
                    TypeOf(SealChunk), TypeOf(SealAndNewChunk)];
    assert numbers == [1, 3, 4, 5, 6, 7, 8];
  }

  // ----- replay -----

  /** A committed log entry: the bytes every replica has, and the operation that produced them. */
  datatype LogEntry = LogEntry(request: Request, timestamp: Uint64)

  datatype Reply = Reply(status: Status, response: Option<FileInfo>)

  datatype Outcome = Outcome(state: State, replies: seq<Reply>)

  /** The operations themselves, applied in log order. */
  function Direct(s: State, log: seq<LogEntry>): Outcome
    decreases |log|
  {
    if log == [] then
      Outcome(s, [])
    else
      var p := Process(s, log[0].request);
      var later := Direct(p.state, log[1..]);
      Outcome(later.state, [Reply(p.status, p.response)] + later.replies)
  }

  /** The requests of a log. */
  function RequestsOf(log: seq<LogEntry>): (requests: seq<Request>)
    ensures |requests| == |log|
  {
    seq(|log|, i requires 0 <= i < |log| => log[i].request)
  }

  /** Applied in log order, entry `i` meets the state the entries before it left, and reply `i` is its own. */
  lemma {:induction false} DirectInOrder(s: State, log: seq<LogEntry>)
    ensures Direct(s, log).state == Run(s, RequestsOf(log))
    ensures |Direct(s, log).replies| == |log|
    ensures forall i :: 0 <= i < |log| ==>
              var p := Process(Run(s, RequestsOf(log[..i])), log[i].request);
              Direct(s, log).replies[i] == Reply(p.status, p.response)
    decreases |log|
  {
    if log != [] {
      var next := Process(s, log[0].request).state;
      DirectInOrder(next, log[1..]);
      assert RequestsOf(log)[1..] == RequestsOf(log[1..]);
      forall i | 0 < i < |log|
        ensures Run(s, RequestsOf(log[..i])) == Run(next, RequestsOf(log[1..][..i - 1]))
        ensures log[1..][i - 1] == log[i]
      {
        assert RequestsOf(log[..i])[1..] == RequestsOf(log[1..][..i - 1]);
      }
    }
  }

  /** The operation a replica applies for an entry: its own closure's, or the decoded one. */
  function Applied(codec: Codec, entry: LogEntry, local: bool): Option<Request> {
    if local then
      Some(entry.request)
    else
      match Decode(codec, Encode(codec, entry.request, entry.timestamp))
      case None => None
      case Some((request, _)) => Some(request)
  }

  /** A replica's application of the log, `local` telling which entries it proposed itself. */
  function Replay(codec: Codec, s: State, log: seq<LogEntry>, local: seq<bool>): Option<Outcome>
    requires |local| == |log|
    decreases |log|
  {
    if log == [] then
      Some(Outcome(s, []))
    else
      match Applied(codec, log[0], local[0])
      case None => None
      case Some(request) =>
        var p := Process(s, request);
        match Replay(codec, p.state, log[1..], local[1..])
        case None => None
        case Some(later) => Some(Outcome(later.state, [Reply(p.status, p.response)] + later.replies))
  }

  ghost predicate SmallPayloads(codec: Codec, log: seq<LogEntry>) {
    forall i :: 0 <= i < |log| ==> |codec.serialize(log[i].request)| < TWO_32
  }

  /** Every entry the replica has to decode is of a type its decoder knows. */
  ghost predicate Decodable(log: seq<LogEntry>, local: seq<bool>)
    requires |local| == |log|
  {
    forall i :: 0 <= i < |log| ==> local[i] || !log[i].request.CreateDir?
  }

  lemma AppliedExact(codec: Codec, entry: LogEntry, local: bool)
    requires Invertible(codec) && |codec.serialize(entry.request)| < TWO_32
    ensures Applied(codec, entry, local) == if local || !entry.request.CreateDir? then Some(entry.request) else None
  {
    var data := Encode(codec, entry.request, entry.timestamp);
    DecodeOfEncoded(codec, entry.request, entry.timestamp, []);
    assert data + [] == data;
  }

  /**
   Replay equals direct application, for every log and every start state, whichever entries are
   local; and it gets through exactly when no entry to be decoded is a CreateDir.
   */
  lemma {:induction false} ReplayEqualsDirect(codec: Codec, s: State, log: seq<LogEntry>, local: seq<bool>)
    requires |local| == |log| && Invertible(codec) && SmallPayloads(codec, log)
    ensures Replay(codec, s, log, local) == if Decodable(log, local) then Some(Direct(s, log)) else None
    decreases |log|
  {
    if log != [] {
      AppliedExact(codec, log[0], local[0]);
      var rest, restLocal := log[1..], local[1..];
      assert Decodable(log, local) <==>
             (local[0] || !log[0].request.CreateDir?) && Decodable(rest, restLocal) by {
        assert forall i :: 0 <= i < |rest| ==> rest[i] == log[i + 1] && restLocal[i] == local[i + 1];
        if (local[0] || !log[0].request.CreateDir?) && Decodable(rest, restLocal) {
          forall i | 0 <= i < |log|
            ensures local[i] || !log[i].request.CreateDir?
          {
            assert i > 0 ==> log[i] == rest[i - 1] && local[i] == restLocal[i - 1];
          }
        }
      }
      ReplayEqualsDirect(codec, Process(s, log[0].request).state, rest, restLocal);
    }
  }

  /** Two replicas that get through the same log from the same state agree on state and replies. */
  lemma {:induction false} ReplicasAgree(codec: Codec, s: State, log: seq<LogEntry>, a: seq<bool>, b: seq<bool>)
    requires |a| == |b| == |log| && Invertible(codec) && SmallPayloads(codec, log)
    requires Replay(codec, s, log, a).Some? && Replay(codec, s, log, b).Some?
    ensures Replay(codec, s, log, a) == Replay(codec, s, log, b)
  {
    ReplayEqualsDirect(codec, s, log, a);
    ReplayEqualsDirect(codec, s, log, b);
  }
}
