/** Wire frames: a fixed 16-byte header and a payload; one-shot decoding and an incremental
    decoder over an arbitrary byte stream. */
module Framing {
  import opened Wrappers

  const MAGIC: Bytes := [83, 67, 83, 84]
  const PROTOCOL_VERSION := 1
  const HEADER_SIZE := 16
  const CHUNK_PREFIX_SIZE := 4
  const MAX_TEXT_SIZE := 65536
  const MAX_VERSION_NAME_SIZE := 1024
  const MAX_PAYLOAD_SIZE := 67108864

  datatype MessageType =
    | GetVersion | VersionMetadata | ChunkData | Error | Shutdown | GetShard
    | ShardMetadata | WaitVersion | VersionAvailable | GetShards | ShardsMetadata

  datatype Frame = Frame(kind: MessageType, payload: Bytes, flags: nat)

  function CodeOf(t: MessageType): Byte {
    match t
    case GetVersion => 1
    case VersionMetadata => 2
    case ChunkData => 3
    case Error => 4
    case Shutdown => 5
    case GetShard => 6
    case ShardMetadata => 7
    case WaitVersion => 8
    case VersionAvailable => 9
    case GetShards => 10
    case ShardsMetadata => 11
  }

  function TypeOf(code: int): Option<MessageType> {
    match code
    case 1 => Some(GetVersion)
    case 2 => Some(VersionMetadata)
    case 3 => Some(ChunkData)
    case 4 => Some(Error)
    case 5 => Some(Shutdown)
    case 6 => Some(GetShard)
    case 7 => Some(ShardMetadata)
    case 8 => Some(WaitVersion)
    case 9 => Some(VersionAvailable)
    case 10 => Some(GetShards)
    case 11 => Some(ShardsMetadata)
    case _ => None
  }

  // ---------------------------------------------------------------- big-endian numbers

  function Pow256(n: nat): (r: nat)
    ensures r > 0
  {
    if n == 0 then 1 else 256 * Pow256(n - 1)
  }

  function ToBytes(value: nat, n: nat): (r: Bytes)
    ensures |r| == n
  {
    if n == 0 then [] else ToBytes(value / 256, n - 1) + [value % 256]
  }

  function FromBytes(s: Bytes): nat {
    if s == [] then 0 else 256 * FromBytes(s[..|s| - 1]) + s[|s| - 1]
  }

  lemma {:induction false} NumberRoundTrip(value: nat, n: nat)
    requires value < Pow256(n)
    ensures FromBytes(ToBytes(value, n)) == value
  {
    if n > 0 {
      NumberRoundTrip(value / 256, n - 1);
      assert ToBytes(value, n)[..n - 1] == ToBytes(value / 256, n - 1);
    }
  }

  // ---------------------------------------------------------------- codec

  /** The payload rules of each message; texts and JSON objects are judged by `wellFormed`. */
  predicate ValidMessage(f: Frame, wellFormed: (MessageType, Bytes) -> bool) {
    match f.kind
    case Shutdown => f.payload == []
    case ChunkData => |f.payload| >= CHUNK_PREFIX_SIZE
    case GetVersion => 0 < |f.payload| <= MAX_VERSION_NAME_SIZE && wellFormed(f.kind, f.payload)
    case WaitVersion => 0 < |f.payload| <= MAX_VERSION_NAME_SIZE && wellFormed(f.kind, f.payload)
    case VersionAvailable => 0 < |f.payload| <= MAX_VERSION_NAME_SIZE && wellFormed(f.kind, f.payload)
    case Error => 0 < |f.payload| <= MAX_TEXT_SIZE && wellFormed(f.kind, f.payload)
    case VersionMetadata => |f.payload| <= MAX_TEXT_SIZE && wellFormed(f.kind, f.payload)
    case _ => wellFormed(f.kind, f.payload)
  }

  function Header(version: nat, kind: MessageType, flags: nat, size: nat): (r: Bytes)
    requires version < 256
    ensures |r| == HEADER_SIZE
  {
    MAGIC + [version] + [CodeOf(kind)] + ToBytes(flags, 2) + ToBytes(size, 8)
  }

  function EncodeFrame(kind: MessageType, payload: Bytes, flags: int, version: int, maximum: nat): Option<Bytes> {
    if |payload| > maximum || !(0 <= flags <= 0xFFFF) || !(0 <= version <= 0xFF)
       || |payload| >= 0x1_0000_0000_0000_0000
    then None
    else Some(Header(version, kind, flags, |payload|) + payload)
  }

  datatype HeaderFields = HeaderFields(kind: MessageType, flags: nat, size: nat)

  function DecodeHeader(header: Bytes, maximum: nat): Option<HeaderFields> {
    if |header| != HEADER_SIZE || header[..4] != MAGIC || header[4] != PROTOCOL_VERSION then None
    else
      var kind := TypeOf(header[5]);
      var size := FromBytes(header[8..]);
      if kind.None? || size > maximum then None
      else Some(HeaderFields(kind.value, FromBytes(header[6..8]), size))
  }

  function DecodeFrame(data: Bytes, maximum: nat, wellFormed: (MessageType, Bytes) -> bool): Option<Frame> {
    if |data| < HEADER_SIZE then None
    else match DecodeHeader(data[..HEADER_SIZE], maximum)
      case None => None
      case Some(h) =>
        if |data| != HEADER_SIZE + h.size then None
        else
          var f := Frame(h.kind, data[HEADER_SIZE..], h.flags);
          if ValidMessage(f, wellFormed) then Some(f) else None
  }

  /** A frame as its sender writes it. */
  function Encoded(f: Frame): Bytes {
    Header(PROTOCOL_VERSION, f.kind, f.flags, |f.payload|) + f.payload
  }

  /** A frame that fits the header fields, the size limit and the payload rules. */
  predicate Sendable(f: Frame, maximum: nat, wellFormed: (MessageType, Bytes) -> bool) {
    && |f.payload| <= maximum && |f.payload| < 0x1_0000_0000_0000_0000
    && f.flags <= 0xFFFF && ValidMessage(f, wellFormed)
  }

  lemma {:induction false} PowersOf256()
    ensures Pow256(2) == 0x1_0000 && Pow256(8) == 0x1_0000_0000_0000_0000
  {
    assert Pow256(1) == 256 * Pow256(0) && Pow256(2) == 256 * Pow256(1) && Pow256(3) == 256 * Pow256(2);
    assert Pow256(4) == 256 * Pow256(3) && Pow256(5) == 256 * Pow256(4) && Pow256(6) == 256 * Pow256(5);
    assert Pow256(7) == 256 * Pow256(6) && Pow256(8) == 256 * Pow256(7);
  }

  lemma {:induction false} HeaderRoundTrip(kind: MessageType, flags: nat, size: nat, maximum: nat)
    requires flags <= 0xFFFF && size < 0x1_0000_0000_0000_0000
    ensures DecodeHeader(Header(PROTOCOL_VERSION, kind, flags, size), maximum)
         == if size <= maximum then Some(HeaderFields(kind, flags, size)) else None
  {
    PowersOf256();
    NumberRoundTrip(flags, 2);
    NumberRoundTrip(size, 8);
    var h := Header(PROTOCOL_VERSION, kind, flags, size);
    assert h[..4] == MAGIC && h[6..8] == ToBytes(flags, 2) && h[8..] == ToBytes(size, 8);
  }

  /** Decoding gives back what was encoded and rejects every truncation and every extension. */
  lemma {:induction false} FrameRoundTrip(f: Frame, maximum: nat, wellFormed: (MessageType, Bytes) -> bool)
    requires Sendable(f, maximum, wellFormed)
    ensures EncodeFrame(f.kind, f.payload, f.flags, PROTOCOL_VERSION, maximum) == Some(Encoded(f))
    ensures DecodeFrame(Encoded(f), maximum, wellFormed) == Some(f)
    ensures forall k :: 0 <= k < |Encoded(f)| ==> DecodeFrame(Encoded(f)[..k], maximum, wellFormed) == None
    ensures forall more: Bytes :: more != [] ==> DecodeFrame(Encoded(f) + more, maximum, wellFormed) == None
  {
    HeaderRoundTrip(f.kind, f.flags, |f.payload|, maximum);
    var h := Header(PROTOCOL_VERSION, f.kind, f.flags, |f.payload|);
    var e := Encoded(f);
    assert e[..HEADER_SIZE] == h && e[HEADER_SIZE..] == f.payload;
    forall k | 0 <= k < |e| ensures DecodeFrame(e[..k], maximum, wellFormed) == None {
      if k >= HEADER_SIZE {
        assert e[..k][..HEADER_SIZE] == h;
      }
    }
    forall more: Bytes | more != [] ensures DecodeFrame(e + more, maximum, wellFormed) == None {
      assert (e + more)[..HEADER_SIZE] == h;
    }
  }

  // ---------------------------------------------------------------- the bytes on the wire

  /** The message types in the order of their codes, which start at one. */
  const MESSAGE_TYPES: seq<MessageType> :=
    [GetVersion, VersionMetadata, ChunkData, Error, Shutdown, GetShard,
     ShardMetadata, WaitVersion, VersionAvailable, GetShards, ShardsMetadata]

  /** A number followed by one more byte. */
  function Then(high: int, low: int): int {
    256 * high + low
  }

  /** A frame in network byte order: the letters SCST, the protocol version, the type's code, two
      bytes of flags and eight of size, the highest first, and the payload. */
  ghost predicate OnTheWire(f: Frame, version: int, data: Bytes) {
    && |data| == 16 + |f.payload| && data[0] == 83 && data[1] == 67 && data[2] == 83 && data[3] == 84
    && data[4] == version && 1 <= data[5] <= 11 && MESSAGE_TYPES[data[5] - 1] == f.kind
    && Then(data[6], data[7]) == f.flags
    && Then(Then(Then(Then(Then(Then(Then(data[8], data[9]), data[10]), data[11]), data[12]), data[13]), data[14]), data[15]) == |f.payload|
    && data[16..] == f.payload
  }

  lemma {:induction false} NumberStep(s: Bytes)
    requires s != []
    ensures FromBytes(s) == 256 * FromBytes(s[..|s| - 1]) + s[|s| - 1]
  {
  }

  lemma {:induction false} PrefixStep(s: Bytes, n: nat)
    requires n < |s|
    ensures FromBytes(s[..n + 1]) == Then(FromBytes(s[..n]), s[n])
  {
    assert s[..n + 1][..n] == s[..n];
    NumberStep(s[..n + 1]);
  }

  lemma {:induction false} TwoBytes(s: Bytes)
    requires |s| == 2
    ensures FromBytes(s) == Then(s[0], s[1])
  {
    PrefixStep(s, 0);
    PrefixStep(s, 1);
    assert s[..2] == s;
  }

  lemma {:induction false} EightBytes(s: Bytes)
    requires |s| == 8
    ensures FromBytes(s) == Then(Then(Then(Then(Then(Then(Then(s[0], s[1]), s[2]), s[3]), s[4]), s[5]), s[6]), s[7])
  {
    PrefixStep(s, 0);
    PrefixStep(s, 1);
    PrefixStep(s, 2);
    PrefixStep(s, 3);
    PrefixStep(s, 4);
    PrefixStep(s, 5);
    PrefixStep(s, 6);
    PrefixStep(s, 7);
    assert s[..8] == s;
  }

  lemma {:induction false} CodesExactly(code: int, kind: MessageType)
    ensures TypeOf(code) == Some(kind) <==> 1 <= code <= 11 && MESSAGE_TYPES[code - 1] == kind
    ensures TypeOf(CodeOf(kind)) == Some(kind)
  {
  }

  /** A frame is written unless its payload, flags or version are out of range; what is written
      is the frame on the wire. */
  lemma {:induction false} WrittenExactly(kind: MessageType, payload: Bytes, flags: int, version: int, maximum: nat)
    ensures var data := EncodeFrame(kind, payload, flags, version, maximum);
      && (data.Some? <==> |payload| <= maximum && 0 <= flags < 65536 && 0 <= version < 256 && |payload| < 0x1_0000_0000_0000_0000)
      && (data.Some? ==> OnTheWire(Frame(kind, payload, flags), version, data.value))
  {
    var written := EncodeFrame(kind, payload, flags, version, maximum);
    if written.Some? {
      var data := written.value;
      PowersOf256();
      NumberRoundTrip(flags, 2);
      NumberRoundTrip(|payload|, 8);
      assert data[6..8] == ToBytes(flags, 2) && data[8..16] == ToBytes(|payload|, 8);
      TwoBytes(data[6..8]);
      EightBytes(data[8..16]);
      CodesExactly(CodeOf(kind), kind);
    }
  }

  /** What a message may carry: nothing to shut down, an index before a chunk's bytes, a name of
      at most 1024 bytes, a text or metadata of at most 65536; and what is read as text or JSON
      has to be that. */
  predicate Lawful(f: Frame, wellFormed: (MessageType, Bytes) -> bool) {
    && (f.kind == Shutdown ==> f.payload == [])
    && (f.kind == ChunkData ==> |f.payload| >= 4)
    && (f.kind == GetVersion || f.kind == WaitVersion || f.kind == VersionAvailable ==> 1 <= |f.payload| <= 1024)
    && (f.kind == Error ==> 1 <= |f.payload| <= 65536)
    && (f.kind == VersionMetadata ==> |f.payload| <= 65536)
    && (f.kind != Shutdown && f.kind != ChunkData ==> wellFormed(f.kind, f.payload))
  }

  lemma {:induction false} HeaderReadExactly(header: Bytes, maximum: nat, fields: HeaderFields)
    requires |header| == 16
    ensures DecodeHeader(header, maximum) == Some(fields) <==>
      && header[..4] == [83, 67, 83, 84] && header[4] == 1
      && 1 <= header[5] <= 11 && MESSAGE_TYPES[header[5] - 1] == fields.kind
      && fields.flags == Then(header[6], header[7])
      && fields.size == FromBytes(header[8..]) <= maximum
  {
    TwoBytes(header[6..8]);
    CodesExactly(header[5], fields.kind);
  }

  /** Bytes decode to a frame exactly if they are that frame on the wire, in protocol version
      one, within the size limit and lawful. */
  lemma {:induction false} DecodedExactly(data: Bytes, maximum: nat, wellFormed: (MessageType, Bytes) -> bool, f: Frame)
    ensures DecodeFrame(data, maximum, wellFormed) == Some(f) <==>
      OnTheWire(f, 1, data) && |f.payload| <= maximum && Lawful(f, wellFormed)
  {
    if |data| >= 16 {
      var header := data[..16];
      HeaderReadExactly(header, maximum, HeaderFields(f.kind, f.flags, |f.payload|));
      EightBytes(header[8..]);
      if DecodeHeader(header, maximum).Some? {
        HeaderReadExactly(header, maximum, DecodeHeader(header, maximum).value);
      }
    }
  }

  // ---------------------------------------------------------------- a stream of frames

  datatype Parse = Failed | Parsed(frames: seq<Frame>, rest: Bytes)

  /** What the front of the bytes amounts to: more is needed, a fault, or a frame of that size.
      A faulty payload is dropped with its header; a faulty header stays where it is. */
  datatype Front = Short | Faulty(dropped: nat) | Whole(frame: Frame, size: nat)

  function FrontOf(s: Bytes, maximum: nat, wellFormed: (MessageType, Bytes) -> bool): (r: Front)
    ensures r.Whole? ==> HEADER_SIZE <= r.size <= |s|
    ensures r.Faulty? ==> r.dropped <= |s|
    ensures r.Short? ==> |s| < HEADER_SIZE + maximum
  {
    if |s| < HEADER_SIZE then Short
    else match DecodeHeader(s[..HEADER_SIZE], maximum)
      case None => Faulty(0)
      case Some(h) =>
        var end := HEADER_SIZE + h.size;
        if |s| < end then Short
        else
          var f := Frame(h.kind, s[HEADER_SIZE..end], h.flags);
          if ValidMessage(f, wellFormed) then Whole(f, end) else Faulty(end)
  }

  /** The front is a frame exactly if the bytes begin with one that decodes; more is waited for
      exactly while the header is incomplete, or reads and announces more than is there; and of
      anything else a readable header is dropped with its payload, an unreadable one not. */
  lemma {:induction false} FrontExactly(s: Bytes, maximum: nat, wellFormed: (MessageType, Bytes) -> bool, f: Frame, size: nat)
    ensures var front := FrontOf(s, maximum, wellFormed);
      && (front == Whole(f, size) <==>
            size == 16 + |f.payload| <= |s| && DecodeFrame(s[..size], maximum, wellFormed) == Some(f))
      && (front.Short? <==>
            |s| < 16 || (DecodeHeader(s[..16], maximum).Some? && |s| < 16 + DecodeHeader(s[..16], maximum).value.size))
      && (front.Faulty? ==>
            front.dropped == if DecodeHeader(s[..16], maximum).Some? then 16 + DecodeHeader(s[..16], maximum).value.size else 0)
  {
    if 16 <= size <= |s| {
      assert s[..size][..16] == s[..16] && s[..size][16..] == s[16..size];
    }
  }

  function Before(frames: seq<Frame>, p: Parse): Parse {
    match p
    case Failed => Failed
    case Parsed(more, rest) => Parsed(frames + more, rest)
  }

  /** All the complete frames at the front of the bytes, and what is left over. */
  function ParseStream(s: Bytes, maximum: nat, wellFormed: (MessageType, Bytes) -> bool): Parse
    decreases |s|
  {
    match FrontOf(s, maximum, wellFormed)
    case Short => Parsed([], s)
    case Faulty(_) => Failed
    case Whole(f, size) => Before([f], ParseStream(s[size..], maximum, wellFormed))
  }

  /** The bytes a decoder keeps, whether it stops for want of bytes or at a fault. */
  function Kept(s: Bytes, maximum: nat, wellFormed: (MessageType, Bytes) -> bool): Bytes
    decreases |s|
  {
    match FrontOf(s, maximum, wellFormed)
    case Short => s
    case Faulty(dropped) => s[dropped..]
    case Whole(_, size) => Kept(s[size..], maximum, wellFormed)
  }

  lemma {:induction false} KeptIsLeftover(s: Bytes, maximum: nat, wellFormed: (MessageType, Bytes) -> bool)
    requires ParseStream(s, maximum, wellFormed).Parsed?
    ensures Kept(s, maximum, wellFormed) == ParseStream(s, maximum, wellFormed).rest
    decreases |s|
  {
    var front := FrontOf(s, maximum, wellFormed);
    if front.Whole? {
      KeptIsLeftover(s[front.size..], maximum, wellFormed);
    }
  }

  /** What is left over never amounts to a frame of the largest size. */
  lemma {:induction false} LeftoverBounded(s: Bytes, maximum: nat, wellFormed: (MessageType, Bytes) -> bool)
    requires ParseStream(s, maximum, wellFormed).Parsed?
    ensures |ParseStream(s, maximum, wellFormed).rest| < HEADER_SIZE + maximum
    decreases |s|
  {
    var front := FrontOf(s, maximum, wellFormed);
    if front.Whole? {
      LeftoverBounded(s[front.size..], maximum, wellFormed);
    }
  }

  /** Once the front is decided, further bytes do not change it. */
  lemma {:induction false} FrontDecided(a: Bytes, b: Bytes, maximum: nat, wellFormed: (MessageType, Bytes) -> bool)
    requires !FrontOf(a, maximum, wellFormed).Short?
    ensures FrontOf(a + b, maximum, wellFormed) == FrontOf(a, maximum, wellFormed)
  {
    assert (a + b)[..HEADER_SIZE] == a[..HEADER_SIZE];
    var h := DecodeHeader(a[..HEADER_SIZE], maximum);
    if h.Some? {
      assert (a + b)[HEADER_SIZE..HEADER_SIZE + h.value.size] == a[HEADER_SIZE..HEADER_SIZE + h.value.size];
    }
  }

  /** Parsing what is left over once more bytes have arrived. */
  function Resume(p: Parse, more: Bytes, maximum: nat, wellFormed: (MessageType, Bytes) -> bool): Parse {
    match p
    case Failed => Failed
    case Parsed(frames, rest) => Before(frames, ParseStream(rest + more, maximum, wellFormed))
  }

  /** Parsing a stream in two pieces, carrying the leftover over, is parsing it in one. */
  lemma {:induction false} ParseInTwo(a: Bytes, b: Bytes, maximum: nat, wellFormed: (MessageType, Bytes) -> bool)
    ensures Resume(ParseStream(a, maximum, wellFormed), b, maximum, wellFormed)
         == ParseStream(a + b, maximum, wellFormed)
    decreases |a|
  {
    var front := FrontOf(a, maximum, wellFormed);
    match front
    case Short =>
      BeforeNothing(ParseStream(a + b, maximum, wellFormed));
    case Faulty(_) =>
      FrontDecided(a, b, maximum, wellFormed);
    case Whole(f, size) =>
      FrontDecided(a, b, maximum, wellFormed);
      assert (a + b)[size..] == a[size..] + b;
      ParseInTwo(a[size..], b, maximum, wellFormed);
      var tail := ParseStream(a[size..], maximum, wellFormed);
      if tail.Parsed? {
        BeforeBoth([f], tail.frames, ParseStream(tail.rest + b, maximum, wellFormed));
      }
  }

  lemma {:induction false} BeforeNothing(p: Parse)
    ensures Before([], p) == p
  {
    if p.Parsed? {
      assert [] + p.frames == p.frames;
    }
  }

  lemma {:induction false} BeforeBoth(a: seq<Frame>, b: seq<Frame>, p: Parse)
    ensures Before(a, Before(b, p)) == Before(a + b, p)
  {
    if p.Parsed? {
      assert a + (b + p.frames) == (a + b) + p.frames;
    }
  }

  /** Feeding the chunks one after the other to a decoder that holds `held`. */
  function FeedAll(held: Bytes, chunks: seq<Bytes>, maximum: nat, wellFormed: (MessageType, Bytes) -> bool): Parse
    decreases |chunks|
  {
    if chunks == [] then Parsed([], held)
    else match ParseStream(held + chunks[0], maximum, wellFormed)
      case Failed => Failed
      case Parsed(frames, rest) => Before(frames, FeedAll(rest, chunks[1..], maximum, wellFormed))
  }

  function Concat(chunks: seq<Bytes>): Bytes {
    if chunks == [] then [] else chunks[0] + Concat(chunks[1..])
  }

  /** Between feeds a decoder holds bytes in which no frame is complete. */
  predicate Idle(held: Bytes, maximum: nat, wellFormed: (MessageType, Bytes) -> bool) {
    FrontOf(held, maximum, wellFormed).Short?
  }

  lemma {:induction false} RestIsIdle(s: Bytes, maximum: nat, wellFormed: (MessageType, Bytes) -> bool)
    requires ParseStream(s, maximum, wellFormed).Parsed?
    ensures Idle(ParseStream(s, maximum, wellFormed).rest, maximum, wellFormed)
    decreases |s|
  {
    var front := FrontOf(s, maximum, wellFormed);
    if front.Whole? {
      RestIsIdle(s[front.size..], maximum, wellFormed);
    }
  }

  /** However a stream is cut into chunks, the frames, the leftover and the failure are those
      of feeding it in one piece. */
  lemma {:induction false} ChunkingIrrelevant(held: Bytes, chunks: seq<Bytes>, maximum: nat, wellFormed: (MessageType, Bytes) -> bool)
    requires Idle(held, maximum, wellFormed)
    ensures FeedAll(held, chunks, maximum, wellFormed) == ParseStream(held + Concat(chunks), maximum, wellFormed)
    decreases |chunks|
  {
    if chunks == [] {
      assert held + Concat(chunks) == held;
    } else {
      var tail := Concat(chunks[1..]);
      assert held + Concat(chunks) == (held + chunks[0]) + tail;
      ParseInTwo(held + chunks[0], tail, maximum, wellFormed);
      match ParseStream(held + chunks[0], maximum, wellFormed)
      case Failed =>
      case Parsed(frames, rest) =>
        RestIsIdle(held + chunks[0], maximum, wellFormed);
        ChunkingIrrelevant(rest, chunks[1..], maximum, wellFormed);
    }
  }

  function EncodedAll(frames: seq<Frame>): Bytes {
    if frames == [] then [] else Encoded(frames[0]) + EncodedAll(frames[1..])
  }

  /** The frames sent one after the other are the frames received, with nothing left over. */
  lemma {:induction false} StreamRoundTrip(frames: seq<Frame>, maximum: nat, wellFormed: (MessageType, Bytes) -> bool)
    requires forall f :: f in frames ==> Sendable(f, maximum, wellFormed)
    ensures ParseStream(EncodedAll(frames), maximum, wellFormed) == Parsed(frames, [])
    decreases |frames|
  {
    if frames != [] {
      var f, tail := frames[0], EncodedAll(frames[1..]);
      var s := Encoded(f) + tail;
      assert f in frames;
      StreamRoundTrip(frames[1..], maximum, wellFormed);
      HeaderRoundTrip(f.kind, f.flags, |f.payload|, maximum);
      var end := HEADER_SIZE + |f.payload|;
      assert s[..HEADER_SIZE] == Header(PROTOCOL_VERSION, f.kind, f.flags, |f.payload|);
      assert s[HEADER_SIZE..end] == f.payload && s[end..] == tail;
    }
  }

  // ---------------------------------------------------------------- the decoder object

  class FrameDecoder {
    const maximum: nat
    const wellFormed: (MessageType, Bytes) -> bool
    var buffer: Bytes

    constructor (maximum: nat, wellFormed: (MessageType, Bytes) -> bool)
      ensures this.maximum == maximum && this.wellFormed == wellFormed && buffer == []
    {
      this.maximum, this.wellFormed, buffer := maximum, wellFormed, [];
    }

    /** The frames completed by the incoming bytes, or nothing if a frame is malformed. */
    method Feed(incoming: Bytes) returns (r: Option<seq<Frame>>)
      modifies this`buffer
      ensures buffer == Kept(old(buffer) + incoming, maximum, wellFormed)
      ensures match ParseStream(old(buffer) + incoming, maximum, wellFormed)
        case Failed => r == None
        case Parsed(frames, rest) => r == Some(frames) && buffer == rest
    {
      buffer := buffer + incoming;
      ghost var kept := Kept(buffer, maximum, wellFormed);
      ghost var whole := ParseStream(buffer, maximum, wellFormed);
      var frames: seq<Frame> := [];
      BeforeNothing(whole);
      while |buffer| >= HEADER_SIZE
        invariant kept == Kept(buffer, maximum, wellFormed)
        invariant whole == Before(frames, ParseStream(buffer, maximum, wellFormed))
        decreases |buffer|
      {
        var header := DecodeHeader(buffer[..HEADER_SIZE], maximum);
        if header.None? {
          return None;
        }
        var end := HEADER_SIZE + header.value.size;
        if |buffer| < end {
          break;
        }
        var f := Frame(header.value.kind, buffer[HEADER_SIZE..end], header.value.flags);
        buffer := buffer[end..];
        if !ValidMessage(f, wellFormed) {
          return None;
        }
        BeforeBoth(frames, [f], ParseStream(buffer, maximum, wellFormed));
        frames := frames + [f];
      }
      assert frames + [] == frames;
      return Some(frames);
    }
  }

  /** Decodes a complete sequence of frames; an incomplete last frame is an error. */
  method DecodeFrames(data: Bytes, maximum: nat, wellFormed: (MessageType, Bytes) -> bool)
    returns (r: Option<seq<Frame>>)
    ensures match ParseStream(data, maximum, wellFormed)
      case Failed => r == None
      case Parsed(frames, rest) => r == if rest == [] then Some(frames) else None
  {
    var decoder := new FrameDecoder(maximum, wellFormed);
    assert decoder.buffer + data == data;
    r := decoder.Feed(data);
    if r.Some? && decoder.buffer != [] {
      return None;
    }
  }

  // ---------------------------------------------------------------- chunks

  function EncodeChunk(index: int, data: Bytes): Option<Bytes> {
    if !(0 <= index <= 0xFFFF_FFFF) || |data| > MAX_PAYLOAD_SIZE - CHUNK_PREFIX_SIZE then None
    else EncodeFrame(ChunkData, ToBytes(index, 4) + data, 0, PROTOCOL_VERSION, MAX_PAYLOAD_SIZE)
  }

  function DecodeChunk(f: Frame): Option<(nat, Bytes)> {
    if f.kind != ChunkData || |f.payload| < CHUNK_PREFIX_SIZE then None
    else Some((FromBytes(f.payload[..CHUNK_PREFIX_SIZE]), f.payload[CHUNK_PREFIX_SIZE..]))
  }

  lemma {:induction false} ChunkRoundTrip(index: int, data: Bytes, wellFormed: (MessageType, Bytes) -> bool)
    requires EncodeChunk(index, data).Some?
    ensures var f := DecodeFrame(EncodeChunk(index, data).value, MAX_PAYLOAD_SIZE, wellFormed);
      f.Some? && DecodeChunk(f.value) == Some((index, data))
  {
    PowersOf256();
    assert Pow256(4) == 256 * Pow256(3) && Pow256(3) == 256 * Pow256(2);
    NumberRoundTrip(index, 4);
    var payload := ToBytes(index, 4) + data;
    FrameRoundTrip(Frame(ChunkData, payload, 0), MAX_PAYLOAD_SIZE, wellFormed);
    assert payload[..4] == ToBytes(index, 4) && payload[4..] == data;
  }
}
