/**
 The incremental frame parser `amqp_handle_input` of amqp_connection.c, and why
 the way a byte stream is cut into chunks makes no difference.
 */
module FrameParser {
  import opened Wrappers
  import opened Octets
  import opened Status
  import opened Framing
  import opened Frames

  const INT32_MAX := 0x7FFF_FFFF

  /** What a connection is tuned to. */
  datatype Tuning = Tuning(protocol: Protocol, frameMax: nat)

  // ------------------------------------------------------------------
  // The stream as a whole
  // ------------------------------------------------------------------

  /**
   Where a parser stands: still expecting the server's first 8 octets, holding
   the octets of an incomplete frame, or failed for good.
   */
  datatype Standing = Initial(pending: seq<byte>) | Between(pending: seq<byte>) | Failed(status: Status)

  datatype Parsed = Parsed(frames: seq<Frame>, end: Standing)

  function Preceded(frames: seq<Frame>, p: Parsed): Parsed {
    Parsed(frames + p.frames, p.end)
  }

  /** The size of the whole frame that starts with the 7 octets of `s`. */
  function TargetSize(t: Tuning, s: seq<byte>): (r: Result<nat, Status>)
    requires |s| >= HEADER_SIZE
    ensures r.Ok? ==> HEADER_SIZE + FOOTER_SIZE <= r.value <= t.frameMax
  {
    var frameSize := Natural(s[3..7]);
    if frameSize >= INT32_MAX then Err(BadData)
    else if t.frameMax < frameSize + HEADER_SIZE + FOOTER_SIZE then Err(BadData)
    else Ok(frameSize + HEADER_SIZE + FOOTER_SIZE)
  }

  /**
   The size is the big-endian number in octets 3 to 6; 2^31 - 1 and more, and what exceeds the tuned
   size, is refused.
   */
  lemma TargetSizeIs(t: Tuning, s: seq<byte>)
    requires |s| >= 7
    ensures var n := (s[3] as int) * 0x100_0000 + (s[4] as int) * 0x1_0000 + (s[5] as int) * 0x100 + s[6];
            TargetSize(t, s) == if n < 0x7FFF_FFFF && n + 8 <= t.frameMax then Ok(n + 8) else Err(BadData)
  {
    hide Natural;
    Pow256Values();
    assert Pow256(3) == 0x100_0000;
    var a, b, c, d := [s[3]], [s[4]], [s[5]], [s[6]];
    assert s[3..7] == a + (b + (c + d));
    NaturalConcat(a, b + (c + d));
    NaturalConcat(b, c + d);
    NaturalConcat(c, d);
  }

  /** Everything that comes out of `s`, read from a frame boundary on. */
  function Scan(t: Tuning, s: seq<byte>): Parsed
    decreases |s|
  {
    if |s| < HEADER_SIZE then Parsed([], Between(s)) else
      match TargetSize(t, s)
      case Err(e) => Parsed([], Failed(e))
      case Ok(size) =>
        if |s| < size then Parsed([], Between(s)) else
          match DecodeFrame(t.protocol, s[..size])
          case Rejected(e) => Parsed([], Failed(e))
          case Ignored => Scan(t, s[size..])
          case Complete(f) => Preceded([f], Scan(t, s[size..]))
  }

  predicate IsProtocolHeader(s: seq<byte>) {
    |s| >= 4 && s[..4] == ['A' as int, 'M' as int, 'Q' as int, 'P' as int]
  }

  /**
   The first 8 octets are a protocol header or the start of a frame. In the second
   case only 7 of them are copied, and the eighth becomes what the fresh pool
   memory holds, zero.
   */
  function ScanInitial(t: Tuning, s: seq<byte>): Parsed {
    if |s| < 8 then Parsed([], Initial(s))
    else if IsProtocolHeader(s) then
      Preceded([ProtocolHeader(0, s[4], s[5], s[6], s[7])], Scan(t, s[8..]))
    else Scan(t, s[7 := 0])
  }

  /** A server's protocol header: the letters AMQP, and four numbers. */
  lemma ProtocolHeaderIsRead(t: Tuning, s: seq<byte>, rest: seq<byte>)
    ensures IsProtocolHeader(s) <==> |s| >= 4 && s[0] == 0x41 && s[1] == 0x4D && s[2] == 0x51 && s[3] == 0x50
    ensures |s| == 8 && s[..4] == [0x41, 0x4D, 0x51, 0x50] ==>
              ScanInitial(t, s + rest)
              == Parsed([ProtocolHeader(0, s[4], s[5], s[6], s[7])] + Scan(t, rest).frames, Scan(t, rest).end)
  {
    hide Scan;
    if |s| >= 4 {
      assert s[..4] == [s[0], s[1], s[2], s[3]];
    }
    if |s| == 8 {
      assert (s + rest)[..4] == s[..4] && (s + rest)[8..] == rest;
    }
  }

  function Feed(t: Tuning, st: Standing, data: seq<byte>): Parsed {
    match st
    case Initial(pending) => ScanInitial(t, pending + data)
    case Between(pending) => Scan(t, pending + data)
    case Failed(e) => Parsed([], st)
  }

  /** A standing that a parser can be in: what is pending is not yet a frame. */
  predicate ValidStanding(t: Tuning, st: Standing) {
    match st
    case Initial(pending) => |pending| < 8
    case Between(pending) => Scan(t, pending) == Parsed([], st)
    case Failed(_) => true
  }

  lemma {:induction false} ScanEndsValid(t: Tuning, s: seq<byte>)
    ensures ValidStanding(t, Scan(t, s).end) && !Scan(t, s).end.Initial?
    decreases |s|
  {
    if |s| >= HEADER_SIZE && TargetSize(t, s).Ok? && |s| >= TargetSize(t, s).value {
      ScanEndsValid(t, s[TargetSize(t, s).value..]);
    }
  }

  /** Feeding from a valid standing ends in a valid one. */
  lemma FeedEndsValid(t: Tuning, st: Standing, data: seq<byte>)
    ensures ValidStanding(t, Feed(t, st, data).end)
  {
    match st
    case Initial(pending) =>
      var s := pending + data;
      if |s| >= 8 {
        ScanEndsValid(t, s[8..]);
        ScanEndsValid(t, s[7 := 0]);
      }
    case Between(pending) => ScanEndsValid(t, pending + data);
    case Failed(_) =>
  }

  lemma TargetSizeOfPrefix(t: Tuning, s: seq<byte>, more: seq<byte>)
    requires |s| >= HEADER_SIZE
    ensures TargetSize(t, s + more) == TargetSize(t, s)
  {
    assert (s + more)[3..7] == s[3..7];
  }

  lemma {:induction false} ScanConcat(t: Tuning, s: seq<byte>, more: seq<byte>)
    ensures Scan(t, s + more) == Preceded(Scan(t, s).frames, Feed(t, Scan(t, s).end, more))
    decreases |s|
  {
    hide TargetSize, DecodeFrame;
    if |s| >= HEADER_SIZE {
      TargetSizeOfPrefix(t, s, more);
      if TargetSize(t, s).Ok? && |s| >= TargetSize(t, s).value {
        var size := TargetSize(t, s).value;
        assert (s + more)[..size] == s[..size];
        assert (s + more)[size..] == s[size..] + more;
        ScanConcat(t, s[size..], more);
      }
    }
  }

  /**
   Chunk independence for one cut: the same frames, the same final standing and
   the same first error.
   */
  lemma FeedConcat(t: Tuning, st: Standing, a: seq<byte>, b: seq<byte>)
    requires ValidStanding(t, st)
    ensures Feed(t, st, a + b) == Preceded(Feed(t, st, a).frames, Feed(t, Feed(t, st, a).end, b))
  {
    hide Scan;
    match st
    case Initial(pending) =>
      var s := pending + a;
      assert pending + (a + b) == s + b;
      if |s| >= 8 {
        assert (s + b)[..4] == s[..4];
        assert (s + b)[8..] == s[8..] + b;
        assert (s + b)[7 := 0] == s[7 := 0] + b;
        ScanConcat(t, s[8..], b);
        ScanConcat(t, s[7 := 0], b);
      }
    case Between(pending) =>
      assert pending + (a + b) == (pending + a) + b;
      ScanConcat(t, pending + a, b);
    case Failed(_) =>
  }

  function Flatten(chunks: seq<seq<byte>>): seq<byte> {
    if chunks == [] then [] else chunks[0] + Flatten(chunks[1..])
  }

  /** Feeding chunk after chunk. */
  function FeedAll(t: Tuning, st: Standing, chunks: seq<seq<byte>>): Parsed
    decreases |chunks|
  {
    if chunks == [] then Parsed([], st) else
      var first := Feed(t, st, chunks[0]);
      Preceded(first.frames, FeedAll(t, first.end, chunks[1..]))
  }

  /** Chunk independence: however a stream is cut, it parses as if it had come in one piece. */
  lemma {:induction false} ChunkIndependence(t: Tuning, st: Standing, chunks: seq<seq<byte>>)
    requires ValidStanding(t, st)
    ensures FeedAll(t, st, chunks) == Feed(t, st, Flatten(chunks))
    decreases |chunks|
  {
    if chunks == [] {
      match st
      case Initial(pending) => assert pending + [] == pending;
      case Between(pending) => assert pending + [] == pending;
      case Failed(_) =>
    } else {
      FeedEndsValid(t, st, chunks[0]);
      ChunkIndependence(t, Feed(t, st, chunks[0]).end, chunks[1..]);
      FeedConcat(t, st, chunks[0], Flatten(chunks[1..]));
    }
  }

  /**
   The very first octets, when they are no protocol header: their eighth is read as
   zero. A stream that is refused for its size is refused either way. Otherwise, if its
   first frame is still incomplete or is one that would be accepted between frames,
   it is read exactly as sent if and only if that octet is zero or nobody looks at it,
   because it belongs to the payload of a heartbeat.
   */
  lemma FirstFrameExactly(t: Tuning, s: seq<byte>)
    requires |s| >= 8 && !IsProtocolHeader(s)
    ensures Feed(t, Initial([]), s) == Scan(t, s[7 := 0])
    ensures AcceptableSoFar(t, s) ==>
              (Feed(t, Initial([]), s) == Feed(t, Between([]), s)
               <==> s[7] == 0 || TargetSize(t, s).Err?
                    || (s[0] == FRAME_HEARTBEAT && TargetSize(t, s).value <= |s| && TargetSize(t, s).value > 8))
  {
    hide DecodeFrame, Scan, TargetSize;
    assert [] + s == s;
    var z := s[7 := 0];
    if s[7] == 0 {
      assert z == s;
    } else {
      assert z[3..7] == s[3..7] && z[7] != s[7];
      ScanFirst(t, s);
      ScanFirst(t, z);
      SameSize(t, s, z);
      if AcceptableSoFar(t, s) && TargetSize(t, s).Ok? && |s| >= TargetSize(t, s).value {
        var size := TargetSize(t, s).value;
        assert z[..size] == s[..size][7 := 0];
        assert size > 8 ==> z[size..] == s[size..];
        EighthOctetMatters(t.protocol, s[..size]);
        var f, g := DecodeFrame(t.protocol, s[..size]), DecodeFrame(t.protocol, z[..size]);
        assert g.Complete? && f != g ==> Scan(t, s).frames[0] != Scan(t, z).frames[0];
        assert g.Ignored? && size > 8 ==> |Scan(t, s).frames| != |Scan(t, z).frames|;
      }
    }
  }

  lemma SameSize(t: Tuning, s: seq<byte>, z: seq<byte>)
    requires |s| == |z| >= HEADER_SIZE && s[3..7] == z[3..7]
    ensures TargetSize(t, s) == TargetSize(t, z)
  {
  }

  /** Scanning, one frame at a time. */
  lemma ScanFirst(t: Tuning, s: seq<byte>)
    requires |s| >= HEADER_SIZE
    ensures TargetSize(t, s).Err? ==> Scan(t, s) == Parsed([], Failed(TargetSize(t, s).error))
    ensures TargetSize(t, s).Ok? ==>
              var size := TargetSize(t, s).value;
              if |s| < size then Scan(t, s) == Parsed([], Between(s))
              else match DecodeFrame(t.protocol, s[..size])
                case Rejected(e) => Scan(t, s) == Parsed([], Failed(e))
                case Ignored => Scan(t, s) == Scan(t, s[size..])
                case Complete(f) => Scan(t, s) == Parsed([f] + Scan(t, s[size..]).frames, Scan(t, s[size..]).end)
  {
    hide DecodeFrame, TargetSize;
  }

  /** The frame that starts the stream is refused for its size, is incomplete, or is accepted. */
  predicate AcceptableSoFar(t: Tuning, s: seq<byte>)
    requires |s| >= HEADER_SIZE
  {
    TargetSize(t, s).Ok? && TargetSize(t, s).value <= |s| ==>
      DecodeFrame(t.protocol, s[..TargetSize(t, s).value]).Complete?
  }

  /** The first octet behind the header decides what frame it is, unless the frame is a heartbeat with a payload. */
  lemma EighthOctetMatters(protocol: Protocol, raw: seq<byte>)
    requires |raw| >= 8 && raw[7] != 0 && DecodeFrame(protocol, raw).Complete?
    ensures DecodeFrame(protocol, raw[7 := 0]) == DecodeFrame(protocol, raw) <==> raw[0] == FRAME_HEARTBEAT && |raw| > 8
    ensures |raw| == 8 ==> DecodeFrame(protocol, raw[7 := 0]) == Rejected(BadData)
  {
    hide DecodeMethod, DecodeProperties, Natural;
    var z := raw[7 := 0];
    assert z[1..3] == raw[1..3];
    if |raw| > 8 {
      var p, q := Payload(raw), Payload(z);
      assert p[0] == raw[7] && q[0] == 0;
      if |p| >= 4 {
        DifferentNumber(p[..4], q[..4]);
        DifferentNumber(p[..2], q[..2]);
      }
    }
  }

  lemma DifferentNumber(a: seq<byte>, b: seq<byte>)
    requires |a| == |b| > 0 && a[0] != b[0]
    ensures Natural(a) != Natural(b)
  {
    hide Natural;
    BigEndianOfNatural(a);
    BigEndianOfNatural(b);
  }

  /** So a heartbeat, fine between frames, is refused as the very first frame. */
  lemma FirstHeartbeatIsRefused(t: Tuning)
    requires t.frameMax >= HEADER_SIZE + FOOTER_SIZE
    ensures Feed(t, Between([]), Envelope(FRAME_HEARTBEAT, 0, [])) == Parsed([HeartbeatFrame(0)], Between([]))
    ensures Feed(t, Initial([]), Envelope(FRAME_HEARTBEAT, 0, [])) == Parsed([], Failed(BadData))
  {
    hide BigEndian, Natural, Scan;
    var s := Envelope(FRAME_HEARTBEAT, 0, []);
    EnvelopeParts(FRAME_HEARTBEAT, 0, []);
    var z := s[7 := 0];
    assert [] + s == s && s[..8] == s && s[8..] == [] && z[3..7] == s[3..7] && z[..8] == z;
    ScanFirst(t, s);
    ScanFirst(t, z);
    NothingToScan(t);
    assert DecodeFrame(t.protocol, s) == Complete(HeartbeatFrame(0));
    assert s[..4][0] == s[0] && [HeartbeatFrame(0)] + [] == [HeartbeatFrame(0)];
  }

  lemma NothingToScan(t: Tuning)
    ensures Scan(t, []) == Parsed([], Between([]))
  {
  }

  // ------------------------------------------------------------------
  // The parser object
  // ------------------------------------------------------------------

  datatype State = INITIAL | IDLE | HEADER | BODY

  class InboundParser {
    const tuning: Tuning
    const headerBuffer: array<byte>
    var state: State
    var inboundBuffer: array<byte>
    var inboundOffset: nat
    var targetSize: nat
    /** The buffers it reads into. */
    ghost var repr: set<array<byte>>

    /** Holds between calls that returned no error. */
    ghost predicate Valid()
      reads this, repr
    {
      && headerBuffer in repr && inboundBuffer in repr
      && headerBuffer.Length == HEADER_SIZE + 1
      && inboundOffset < targetSize <= inboundBuffer.Length
      && match state
         case INITIAL => inboundBuffer == headerBuffer && targetSize == 8
         case IDLE => inboundBuffer == headerBuffer && targetSize == HEADER_SIZE && inboundOffset == 0
         case HEADER => inboundBuffer == headerBuffer && targetSize == HEADER_SIZE
         case BODY =>
           && inboundBuffer != headerBuffer && HEADER_SIZE <= inboundOffset
           && inboundBuffer.Length == targetSize
           && TargetSize(tuning, inboundBuffer[..HEADER_SIZE]) == Ok(targetSize)
    }

    ghost function Stands(): (st: Standing)
      requires Valid()
      reads this, repr
    {
      var pending := inboundBuffer[..inboundOffset];
      if state == INITIAL then Initial(pending) else Between(pending)
    }

    /** `amqp_new_connection`, as far as the parser is concerned. */
    constructor (tuning: Tuning)
      ensures Valid() && this.tuning == tuning && Stands() == Initial([])
      ensures fresh(repr)
    {
      this.tuning := tuning;
      headerBuffer := new byte[HEADER_SIZE + 1];
      inboundBuffer, repr := headerBuffer, {headerBuffer};
      state, inboundOffset, targetSize := INITIAL, 0, 8;
    }

    /** `return_to_idle` */
    method ReturnToIdle()
      requires headerBuffer in repr && headerBuffer.Length == HEADER_SIZE + 1
      modifies this
      ensures Valid() && state == IDLE && Stands() == Between([]) && repr == old(repr)
    {
      inboundBuffer := headerBuffer;
      inboundOffset := 0;
      targetSize := HEADER_SIZE;
      state := IDLE;
    }

    /** `consume_data`: as much as is available and fits. */
    method ConsumeData(data: seq<byte>) returns (consumed: nat)
      requires inboundOffset <= targetSize <= inboundBuffer.Length
      modifies this`inboundOffset, inboundBuffer
      ensures consumed <= |data| && inboundOffset == old(inboundOffset) + consumed <= targetSize
      ensures inboundOffset < targetSize ==> consumed == |data|
      ensures old(inboundOffset) < targetSize && data != [] ==> consumed > 0
      ensures inboundBuffer[..inboundOffset] == old(inboundBuffer[..inboundOffset]) + data[..consumed]
    {
      consumed := targetSize - inboundOffset;
      if |data| < consumed {
        consumed := |data|;
      }
      forall i | 0 <= i < consumed {
        inboundBuffer[inboundOffset + i] := data[i];
      }
      inboundOffset := inboundOffset + consumed;
    }

    /**
     The HEADER part of `amqp_handle_input`: the size is known, so the frame gets
     memory of its own and the 7 octets of the header are copied. Fresh pool
     memory is zero; what the pool held before matters nowhere else.
     */
    method BeginBody() returns (failure: Option<Status>)
      requires headerBuffer in repr && headerBuffer.Length == HEADER_SIZE + 1 && inboundBuffer == headerBuffer
      requires if state == INITIAL then inboundOffset == 8 else state == HEADER && inboundOffset == HEADER_SIZE
      modifies this
      ensures headerBuffer[..] == old(headerBuffer[..]) && inboundOffset == old(inboundOffset)
      ensures repr == old(repr) + {inboundBuffer} && fresh(repr - old(repr))
      ensures failure.Some? ==> TargetSize(tuning, headerBuffer[..HEADER_SIZE]) == Err(failure.value)
      ensures failure.None? ==>
                && state == BODY && fresh(inboundBuffer) && inboundBuffer.Length == targetSize >= inboundOffset
                && TargetSize(tuning, headerBuffer[..HEADER_SIZE]) == Ok(targetSize)
                && inboundBuffer[..HEADER_SIZE] == headerBuffer[..HEADER_SIZE]
                && (inboundOffset == 8 ==> inboundBuffer[7] == 0)
    {
      var size := TargetSize(tuning, headerBuffer[..HEADER_SIZE]);
      if size.Err? {
        return Some(size.error);
      }
      targetSize := size.value;
      if state == INITIAL {
        inboundBuffer := new byte[targetSize](_ => 0);
      } else {
        inboundBuffer := new byte[targetSize];
      }
      repr := repr + {inboundBuffer};
      forall i | 0 <= i < HEADER_SIZE {
        inboundBuffer[i] := headerBuffer[i];
      }
      state := BODY;
      failure := None;
    }

    /** The BODY part of `amqp_handle_input`: all octets of the frame are there. */
    method FinishFrame() returns (r: Result<Option<Frame>, Status>)
      requires headerBuffer in repr && headerBuffer.Length == HEADER_SIZE + 1 && inboundBuffer.Length == targetSize
      requires HEADER_SIZE + FOOTER_SIZE <= targetSize
      requires TargetSize(tuning, inboundBuffer[..HEADER_SIZE]) == Ok(targetSize)
      modifies this
      ensures repr == old(repr)
      ensures r.Ok? ==> Valid() && state == IDLE && Stands() == Between([])
      ensures Scan(tuning, old(inboundBuffer[..]))
           == match r case Ok(f) => Parsed(AsFrames(f), Between([])) case Err(e) => Parsed([], Failed(e))
    {
      hide TargetSize, DecodeFrame;
      var raw := inboundBuffer[..];
      TargetSizeOfPrefix(tuning, raw[..HEADER_SIZE], raw[HEADER_SIZE..]);
      assert raw[..HEADER_SIZE] == inboundBuffer[..HEADER_SIZE] && raw == raw[..HEADER_SIZE] + raw[HEADER_SIZE..];
      assert raw[..targetSize] == raw && raw[targetSize..] == [];
      match DecodeFrame(tuning.protocol, raw) {
        case Rejected(e) => return Err(e);
        case Ignored => r := Ok(None);
        case Complete(f) => r := Ok(Some(f));
      }
      ReturnToIdle();
    }

    /**
     `amqp_handle_input`: reads on, up to the end of the frame at most. The result
     is what feeding the consumed octets means for the stream as a whole.
     */
    method HandleInput(data: seq<byte>) returns (r: Result<(nat, Option<Frame>), Status>)
      requires Valid()
      modifies this, repr
      ensures fresh(repr - old(repr))
      ensures r.Ok? ==>
                && Valid()
                && r.value.0 <= |data| && (data != [] ==> r.value.0 > 0)
                && Feed(tuning, old(Stands()), data[..r.value.0]) == Parsed(AsFrames(r.value.1), Stands())
      ensures r.Err? ==> Feed(tuning, old(Stands()), data) == Parsed([], Failed(r.error))
    {
      hide Scan, TargetSize, Feed, FramedBy, Effective;
      ghost var st := Stands();
      StandsValid();
      if |data| == 0 {
        StandsStill(tuning, st);
        assert data[..0] == [];
        return Ok((0, None));
      }
      if state == IDLE {
        state := HEADER;
      }
      var consumed := ConsumeData(data);
      ghost var d := data[..consumed];
      assert inboundBuffer[..inboundOffset] == st.pending + d;
      if inboundOffset < targetSize {
        assert state == BODY ==>
                 inboundBuffer[..HEADER_SIZE] == (st.pending + d)[..HEADER_SIZE] == old(inboundBuffer[..HEADER_SIZE]);
        StandsValid();
        FeedToIncomplete(tuning, st, d, Stands());
        return Ok((consumed, None));
      }
      if state == INITIAL && IsProtocolHeader(inboundBuffer[..8]) {
        var raw := inboundBuffer[..8];
        FeedProtocolHeader(tuning, st, d);
        ReturnToIdle();
        return Ok((consumed, Some(ProtocolHeader(0, raw[4], raw[5], raw[6], raw[7]))));
      }
      NowFramed(st, d);
      if state == INITIAL || state == HEADER {
        r := ReadHeader(data, consumed, st);
      } else {
        assert inboundBuffer[..HEADER_SIZE] == (st.pending + d)[..HEADER_SIZE] == old(inboundBuffer[..HEADER_SIZE]);
        r := ReadBody(data, consumed, st);
      }
    }

    /** The HEADER case, which goes on with as much of the body as there is. */
    method ReadHeader(data: seq<byte>, consumed: nat, ghost st: Standing)
      returns (r: Result<(nat, Option<Frame>), Status>)
      requires headerBuffer in repr && headerBuffer.Length == HEADER_SIZE + 1 && inboundBuffer == headerBuffer
      requires if state == INITIAL then inboundOffset == 8 else state == HEADER && inboundOffset == HEADER_SIZE
      requires 0 < consumed <= |data| && ValidStanding(tuning, st) && FramedBy(st, data[..consumed])
      requires inboundBuffer[..inboundOffset] == st.pending + data[..consumed] && (st.Initial? <==> state == INITIAL)
      modifies this
      ensures fresh(repr - old(repr))
      ensures r.Ok? ==>
                && Valid()
                && consumed <= r.value.0 <= |data|
                && Feed(tuning, st, data[..r.value.0]) == Parsed(AsFrames(r.value.1), Stands())
      ensures r.Err? ==> Feed(tuning, st, data) == Parsed([], Failed(r.error))
    {
      hide Scan, TargetSize, Feed, FramedBy, Effective, ValidStanding;
      ghost var d := data[..consumed];
      FramedIs(tuning, st, d);
      var failure := BeginBody();
      ghost var header := Effective(st, d)[..HEADER_SIZE];
      assert header == headerBuffer[..HEADER_SIZE];
      if failure.Some? {
        HeaderRejected(tuning, Effective(st, d), failure.value);
        ErrorPersists(tuning, st, data, consumed, failure.value);
        return Err(failure.value);
      }
      assert inboundBuffer[..inboundOffset] == Effective(st, d);
      var more := ConsumeData(data[consumed..]);
      EffectiveConcat(st, d, data[consumed..][..more]);
      TakeMore(data, consumed, more);
      assert inboundBuffer[..HEADER_SIZE] == inboundBuffer[..inboundOffset][..HEADER_SIZE] == header;
      r := ReadBody(data, consumed + more, st);
    }

    /** The BODY case. */
    method ReadBody(data: seq<byte>, consumed: nat, ghost st: Standing)
      returns (r: Result<(nat, Option<Frame>), Status>)
      requires headerBuffer in repr && inboundBuffer in repr
      requires headerBuffer.Length == HEADER_SIZE + 1 && inboundBuffer != headerBuffer && state == BODY
      requires inboundBuffer.Length == targetSize && HEADER_SIZE <= inboundOffset <= targetSize
      requires HEADER_SIZE + FOOTER_SIZE <= targetSize
      requires TargetSize(tuning, inboundBuffer[..HEADER_SIZE]) == Ok(targetSize)
      requires consumed <= |data| && ValidStanding(tuning, st) && FramedBy(st, data[..consumed])
      requires inboundBuffer[..inboundOffset] == Effective(st, data[..consumed])
      modifies this
      ensures repr == old(repr)
      ensures r.Ok? ==>
                && Valid()
                && r.value.0 == consumed
                && Feed(tuning, st, data[..consumed]) == Parsed(AsFrames(r.value.1), Stands())
      ensures r.Err? ==> Feed(tuning, st, data) == Parsed([], Failed(r.error))
    {
      hide Scan, TargetSize, Feed, FramedBy, Effective;
      FramedIs(tuning, st, data[..consumed]);
      if inboundOffset < targetSize {
        StandsValid();
        return Ok((consumed, None));
      }
      assert inboundBuffer[..] == Effective(st, data[..consumed]);
      var finished := FinishFrame();
      if finished.Err? {
        ErrorPersists(tuning, st, data, consumed, finished.error);
        return Err(finished.error);
      }
      r := Ok((consumed, finished.value));
    }

    lemma StandsValid()
      requires Valid()
      ensures ValidStanding(tuning, Stands())
    {
      var pending := inboundBuffer[..inboundOffset];
      if state == BODY {
        TargetSizeOfPrefix(tuning, inboundBuffer[..HEADER_SIZE], pending[HEADER_SIZE..]);
        assert pending == inboundBuffer[..HEADER_SIZE] + pending[HEADER_SIZE..];
      }
    }
  }

  function AsFrames(f: Option<Frame>): seq<Frame> {
    if f.Some? then [f.value] else []
  }

  lemma StandsStill(t: Tuning, st: Standing)
    requires ValidStanding(t, st)
    ensures Feed(t, st, []) == Parsed([], st)
  {
    match st
    case Initial(pending) => assert pending + [] == pending;
    case Between(pending) => assert pending + [] == pending;
    case Failed(_) =>
  }

  lemma FeedToIncomplete(t: Tuning, st: Standing, d: seq<byte>, end: Standing)
    requires !st.Failed? && end == if st.Initial? then Initial(st.pending + d) else Between(st.pending + d)
    requires ValidStanding(t, end)
    ensures Feed(t, st, d) == Parsed([], end)
  {
  }

  lemma FeedProtocolHeader(t: Tuning, st: Standing, d: seq<byte>)
    requires st.Initial? && |st.pending + d| == 8 && IsProtocolHeader(st.pending + d)
    ensures var s := st.pending + d;
            Feed(t, st, d) == Parsed([ProtocolHeader(0, s[4], s[5], s[6], s[7])], Between([]))
  {
    assert (st.pending + d)[8..] == [];
  }

  /** The parser has come to where the octets it holds are known to be the start of a frame. */
  predicate FramedBy(st: Standing, d: seq<byte>) {
    st.Between? || (st.Initial? && |st.pending + d| >= 8 && !IsProtocolHeader(st.pending + d))
  }

  /** The octets the frame is decoded from. */
  function Effective(st: Standing, d: seq<byte>): (s: seq<byte>)
    requires FramedBy(st, d)
  {
    if st.Initial? then (st.pending + d)[7 := 0] else st.pending + d
  }

  lemma NowFramed(st: Standing, d: seq<byte>)
    requires !st.Failed? && (st.Initial? ==> |st.pending + d| >= 8 && !IsProtocolHeader(st.pending + d))
    ensures FramedBy(st, d)
    ensures st.Between? ==> Effective(st, d) == st.pending + d
  {
  }

  lemma FramedIs(t: Tuning, st: Standing, d: seq<byte>)
    requires FramedBy(st, d)
    ensures !st.Failed? && Feed(t, st, d) == Scan(t, Effective(st, d))
    ensures |Effective(st, d)| == |st.pending + d|
    ensures forall i :: 0 <= i < |st.pending + d| && (i != 7 || st.Between?) ==>
              Effective(st, d)[i] == (st.pending + d)[i]
    ensures st.Initial? ==> Effective(st, d)[7] == 0
  {
  }

  lemma EffectiveConcat(st: Standing, d: seq<byte>, more: seq<byte>)
    requires FramedBy(st, d)
    ensures FramedBy(st, d + more) && Effective(st, d + more) == Effective(st, d) + more
  {
    assert st.pending + (d + more) == (st.pending + d) + more;
    if st.Initial? {
      assert ((st.pending + d) + more)[..4] == (st.pending + d)[..4];
      assert ((st.pending + d) + more)[7 := 0] == (st.pending + d)[7 := 0] + more;
    }
  }

  lemma TakeMore(s: seq<byte>, n: nat, more: nat)
    requires n + more <= |s|
    ensures s[..n + more] == s[..n] + s[n..][..more]
  {
  }

  lemma HeaderRejected(t: Tuning, s: seq<byte>, e: Status)
    requires |s| >= HEADER_SIZE && TargetSize(t, s[..HEADER_SIZE]) == Err(e)
    ensures Scan(t, s) == Parsed([], Failed(e))
  {
    TargetSizeOfPrefix(t, s[..HEADER_SIZE], s[HEADER_SIZE..]);
    assert s == s[..HEADER_SIZE] + s[HEADER_SIZE..];
  }

  lemma ErrorPersists(t: Tuning, st: Standing, data: seq<byte>, consumed: nat, e: Status)
    requires ValidStanding(t, st) && consumed <= |data|
    requires Feed(t, st, data[..consumed]) == Parsed([], Failed(e))
    ensures Feed(t, st, data) == Parsed([], Failed(e))
  {
    FeedConcat(t, st, data[..consumed], data[consumed..]);
    assert data == data[..consumed] + data[consumed..];
  }
}
