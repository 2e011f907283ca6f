/** The older Connection of src/Connection.ts. It frames and deframes inline:
    its reader cuts frames out of an accumulated buffer and hands each body to
    packetReceived before cutting the next, so a packet that sets the
    compression threshold changes how the following frames of the same chunk
    are read; its splitter frames each outgoing body.

    The socket is a `writable` flag and the output list of frames pushed to
    it; onPacket and the nextPacket promise are the list of delivered packet
    bodies, onLogin the list of its calls. zlib is given as two functions. */
module LegacyConnection {
  import opened Buffers
  import opened VarInt
  import opened Packet
  import Transforms
  import C = Connection

  /** What a call ends with: normally, with a range or VarInt error thrown by a
      read, or with the error inflate reports. */
  datatype Outcome = Done | Threw(error: Error) | InflateFailed

  /** One call of onLogin(uuid, username). */
  datatype LoginEvent = LoggedIn(uuid: seq<byte>, username: seq<byte>)

  /** What is fixed when the connection is made, and the socket's writable flag. */
  datatype Setup = Setup(isServer: bool, keepAlive: bool, writable: bool,
    deflate: Transforms.Codec, inflate: Transforms.Codec)

  /** The fields the connection updates. `halted` is set once a write of the
      reader has thrown: its callback is never called, so no later chunk reaches it. */
  datatype Legacy = Legacy(state: int, threshold: int, buffer: seq<byte>,
    delivered: seq<seq<byte>>, logins: seq<LoginEvent>, output: seq<seq<byte>>, halted: bool)

  // ---------------------------------------------------------------------------
  // The splitter

  /** The splitter as written: above the threshold, the inner length field
      holds the length of the deflated bytes. */
  function SplitAsWritten(threshold: int, deflate: Transforms.Codec, chunk: seq<byte>): Option<seq<byte>>
  {
    if threshold == -1 then Some(VarIntBytes(|chunk|) + chunk)
    else if |chunk| < threshold then Some(VarIntBytes(|chunk| + 1) + VarIntBytes(0) + chunk)
    else match deflate(chunk)
      case None => None
      case Some(z) =>
        var body := VarIntBytes(|z|) + z;
        Some(VarIntBytes(|body|) + body)
  }

  /** The inner "data length" field of a compressed frame: its second VarInt. */
  function DataLength(frame: seq<byte>): Result<int>
  {
    match VarIntAt(frame, 0)
    case Err(e) => Err(e)
    case Ok((_, off)) =>
      match VarIntAt(frame, off)
      case Err(e) => Err(e)
      case Ok((n, _)) => Ok(n)
  }

  /** A frame with a VarInt header holding |h| + |body| bytes' worth, read back. */
  lemma DataLengthOf(n: int, z: seq<byte>)
    requires 0 <= n < 0x8000_0000 && |VarIntBytes(n)| + |z| < 0x8000_0000
    ensures var body := VarIntBytes(n) + z;
      DataLength(VarIntBytes(|body|) + body) == Ok(n)
  {
    var body := VarIntBytes(n) + z;
    var h := VarIntBytes(|body|);
    VarIntRoundTripInRange(|body|, body);
    VarIntRoundTripInRange(n, z);
    VarIntAtShift(h, body, 0);
  }

  /** As written, the data length of a deflated frame is the deflated size. */
  lemma AsWrittenDataLength(threshold: int, deflate: Transforms.Codec, chunk: seq<byte>)
    requires threshold != -1 && |chunk| >= threshold && deflate(chunk).Some?
    requires |deflate(chunk).value| < 0x4000_0000
    ensures SplitAsWritten(threshold, deflate, chunk).Some?
    ensures DataLength(SplitAsWritten(threshold, deflate, chunk).value) == Ok(|deflate(chunk).value|)
  {
    var z := deflate(chunk).value;
    VarIntLength(|z|);
    DataLengthOf(|z|, z);
  }

  /** The frame the protocol expects, which src/transforms.ts builds and this
      model's splitter uses: the data length is the size of the body before
      deflation, so the two differ whenever deflate changes the length. */
  lemma CorrectedDataLength(threshold: int, deflate: Transforms.Codec, chunk: seq<byte>)
    requires threshold != -1 && |chunk| >= threshold && deflate(chunk).Some?
    requires |chunk| < 0x4000_0000 && |deflate(chunk).value| < 0x4000_0000
    ensures Transforms.FrameBytes(threshold, deflate, chunk).Some?
    ensures DataLength(Transforms.FrameBytes(threshold, deflate, chunk).value) == Ok(|chunk|)
    ensures |deflate(chunk).value| != |chunk| ==>
      DataLength(SplitAsWritten(threshold, deflate, chunk).value) != DataLength(Transforms.FrameBytes(threshold, deflate, chunk).value)
  {
    var z := deflate(chunk).value;
    VarIntLength(|chunk|);
    DataLengthOf(|chunk|, z);
    DeflatedFrame(threshold, deflate, chunk);
    AsWrittenDataLength(threshold, deflate, chunk);
  }

  lemma DeflatedFrame(threshold: int, deflate: Transforms.Codec, chunk: seq<byte>)
    requires threshold != -1 && |chunk| >= threshold && deflate(chunk).Some?
    ensures var z, len := deflate(chunk).value, VarIntBytes(|chunk|);
      Transforms.FrameBytes(threshold, deflate, chunk) == Some(VarIntBytes(|len + z|) + (len + z))
  {
    var z, len := deflate(chunk).value, VarIntBytes(|chunk|);
    AppendAssoc(VarIntBytes(|len + z|), len, z);
  }

  /** splitter.write(chunk): the frame at the current threshold goes to the
      socket; nothing does when deflate fails. */
  function Pushed(c: Legacy, s: Setup, chunk: seq<byte>): Legacy
  {
    match Transforms.FrameBytes(c.threshold, s.deflate, chunk)
    case None => c
    case Some(f) => c.(output := c.output + [f])
  }

  // ---------------------------------------------------------------------------
  // The reader: one turn of its loop

  /** What one turn of the reading loop does with the buffer. */
  datatype Cut =
    | NoFrame                                   // no complete frame: return cb()
    | Frame(packet: seq<byte>, rest: seq<byte>) // packetReceived(packet), then the buffer is rest
    | Broken(failure: Outcome)                  // the turn throws

  /** One turn as written: the outer header read at 0 (a failure just ends
      the write), then the frame and the rest sliced with Buffer.slice. A
      negative length passes the bounds check and is given to slice as it is. */
  function CutFrame(buf: seq<byte>, threshold: int, inflate: Transforms.Codec): (r: Cut)
    ensures r.Frame? ==> |r.rest| <= |buf| && r.rest == buf[|buf| - |r.rest|..]
    ensures r.Frame? && |r.rest| == |buf| ==> r.packet == []
    ensures r.Broken? ==> r.failure != Done
  {
    match VarIntAt(buf, 0)
    case Err(_) => NoFrame
    case Ok((len, off)) =>
      if off + len > |buf| then NoFrame
      else FrameCut(Slice(buf, off, off + len), Slice(buf, off + len, |buf|), threshold, inflate)
  }

  /** The rest of the turn, given the frame and what follows it: with
      compression on, the inner header is read from the frame alone. */
  function FrameCut(frame: seq<byte>, rest: seq<byte>, threshold: int, inflate: Transforms.Codec): (r: Cut)
    ensures r.Frame? ==> r.rest == rest && (frame == [] ==> r.packet == [])
    ensures !r.NoFrame? && (r.Broken? ==> r.failure != Done)
  {
    if threshold == -1 then Frame(frame, rest)
    else match VarIntAt(frame, 0)
      case Err(e) => Broken(Threw(e))
      case Ok((dataLength, start)) =>
        var body := Slice(frame, start, |frame|);
        if dataLength == 0 then Frame(body, rest)
        else match inflate(body)
          case None => Broken(InflateFailed)
          case Some(p) => Frame(p, rest)
  }

  /** With compression on, the inner header of the frame ends inside it. */
  predicate InnerFits(buf: seq<byte>, threshold: int)
  {
    threshold != -1 && VarIntAt(buf, 0).Ok? ==>
      var (len, off) := VarIntAt(buf, 0).value;
      0 <= len && off + len <= |buf| ==> VarIntAt(buf[off..off + len], 0) != Err(OutOfRange)
  }

  /** A turn of this loop and a turn of the Reader of src/transforms.ts alike. */
  predicate Agree(cut: Cut, t: Transforms.Turn, buf: seq<byte>)
  {
    match cut
    case NoFrame => t.Incomplete?
    case Broken(_) => t.Fatal?
    case Frame(p, rest) => t.Packet? && t.payload == p && 0 <= t.next <= |buf| && rest == buf[t.next..]
  }

  /** The inner header read from the frame is the one read from the buffer,
      moved by the frame's start, unless it runs past the frame's end. */
  lemma InnerHeader(buf: seq<byte>, off: nat, len: nat)
    requires off + len <= |buf|
    requires VarIntAt(buf[off..off + len], 0) != Err(OutOfRange)
    ensures var r, s := VarIntAt(buf[off..off + len], 0), VarIntAt(buf, off);
      (r.Err? ==> s == r) && (r.Ok? ==> s == Ok((r.value.0, r.value.1 + off)))
  {
    var frame := buf[off..off + len];
    assert buf[off..] == frame + buf[off + len..];
    VarIntAtExtend(frame, buf[off + len..], 0);
    VarIntAtDrop(buf, off, off);
  }

  lemma InnerBody(buf: seq<byte>, off: nat, len: nat, start: nat)
    requires off + len <= |buf| && start <= len
    ensures Slice(buf[off..off + len], start, len) == Slice(buf, off + start, off + len)
  {
    SliceWithin(buf[off..off + len], start, len);
    SliceWithin(buf, off + start, off + len);
    if start < len {
      assert buf[off..off + len][start..len] == buf[off + start..off + len];
    }
  }

  /** The inline reader splits frames as the Reader of src/transforms.ts does
      and drops exactly the frame from the buffer, when lengths are not
      negative and, with compression on, each inner header lies within its frame. */
  lemma CutAgrees(buf: seq<byte>, threshold: int, inflate: Transforms.Codec)
    requires VarIntAt(buf, 0).Ok? ==> VarIntAt(buf, 0).value.0 >= 0
    requires InnerFits(buf, threshold)
    ensures Agree(CutFrame(buf, threshold, inflate), Transforms.Step(buf, 0, threshold, inflate), buf)
  {
    Transforms.StepInPlace(buf, 0, threshold, inflate);
    var h := VarIntAt(buf, 0);
    if h.Ok? {
      var (len, off) := h.value;
      VarIntAtOk(buf, 0);
      if off + len <= |buf| {
        var frame, rest := Slice(buf, off, off + len), Slice(buf, off + len, |buf|);
        CutFrameAt(buf, threshold, inflate, len, off);
        FrameCutAgrees(buf, off, len, frame, rest, threshold, inflate);
      }
    }
  }

  lemma CutFrameAt(buf: seq<byte>, threshold: int, inflate: Transforms.Codec, len: int, off: int)
    requires VarIntAt(buf, 0) == Ok((len, off)) && off + len <= |buf|
    ensures CutFrame(buf, threshold, inflate) ==
      FrameCut(Slice(buf, off, off + len), Slice(buf, off + len, |buf|), threshold, inflate)
  {
  }

  lemma FrameCutAgrees(buf: seq<byte>, off: nat, len: nat, frame: seq<byte>, rest: seq<byte>, threshold: int, inflate: Transforms.Codec)
    requires off + len <= |buf| && frame == Slice(buf, off, off + len) && rest == Slice(buf, off + len, |buf|)
    requires threshold != -1 ==> VarIntAt(buf[off..off + len], 0) != Err(OutOfRange)
    ensures Agree(FrameCut(frame, rest, threshold, inflate), Transforms.FrameTurn(buf, off, len, threshold, inflate), buf)
  {
    SliceWithin(buf, off, off + len);
    SliceWithin(buf, off + len, |buf|);
    assert frame == buf[off..off + len];
    assert rest == buf[off + len..];
    if threshold != -1 {
      InnerHeader(buf, off, len);
      var inner := VarIntAt(frame, 0);
      if inner.Ok? {
        InnerAgrees(buf, off, len, threshold, inflate);
      }
    }
  }

  lemma InnerAgrees(buf: seq<byte>, off: nat, len: nat, threshold: int, inflate: Transforms.Codec)
    requires off + len <= |buf| && threshold != -1
    requires VarIntAt(buf[off..off + len], 0).Ok?
    requires var r := VarIntAt(buf[off..off + len], 0).value; VarIntAt(buf, off) == Ok((r.0, r.1 + off))
    ensures Agree(FrameCut(buf[off..off + len], buf[off + len..], threshold, inflate),
      Transforms.FrameTurn(buf, off, len, threshold, inflate), buf)
  {
    var frame := buf[off..off + len];
    VarIntAtOk(frame, 0);
    var (dataLength, start) := VarIntAt(frame, 0).value;
    InnerBody(buf, off, len, start);
    assert Transforms.Payload(buf, off, len, threshold, inflate) ==
      (var body := Slice(buf, off + start, off + len); if dataLength == 0 then Some(body) else inflate(body));
  }

  // ---------------------------------------------------------------------------
  // send, packetReceived and the reading loop

  /** send(buffer): nothing at all when the socket is not writable; otherwise
      the splitter gets the bytes, then a reader of them is made (which throws
      on an undecodable id) and in Handshake the fourth field becomes the state. */
  function SendIn(c: Legacy, s: Setup, buffer: seq<byte>): (r: (Legacy, Outcome))
    ensures r.0.buffer == c.buffer && r.0.halted == c.halted && r.0.delivered == c.delivered
    ensures r.0.logins == c.logins && r.0.threshold == c.threshold
    ensures !s.writable ==> r == (c, Done)
    ensures s.writable ==> r.0.output == Pushed(c, s, buffer).output
    ensures r.0.state != c.state ==> c.state == C.Handshake
  {
    if !s.writable then (c, Done)
    else
      var c1 := Pushed(c, s, buffer);
      match VarIntAt(buffer, 0)
      case Err(e) => (c1, Threw(e))
      case Ok((_, off)) =>
        if c1.state != C.Handshake then (c1, Done)
        else match C.HandshakeAt(buffer, off)
          case Fields(_, next, _) => (c1.(state := next), Done)
          case NoProtocol(e) => (c1, Threw(e))
          case Partial(_, e) => (c1, Threw(e))
  }

  /** The ids of the packets the client acts on in Login and Play. */
  const Disconnect: int := 0
  const LoginSuccess: int := 2
  const SetCompression: int := 3
  const KeepAlive: int := 0x1f
  const KeepAliveReply: int := 0xb

  /** The state logic of packetReceived after the handshake reads, with the packet's
      id and its cursor at `off`. A client in Login reads the threshold (0x3)
      or logs in (0x2); the encryption request (0x1) runs asynchronously and
      is not modelled. A client in Play echoes keep-alive 0x1f as 0xb with the
      next 8 bytes. */
  function StateLogic(c: Legacy, s: Setup, buffer: seq<byte>, id: int, off: int): (r: (Legacy, Outcome))
    ensures r.0.buffer == c.buffer && r.0.halted == c.halted && r.0.delivered == c.delivered
    ensures s.isServer ==> r == (c, Done)
    ensures !s.keepAlive ==> r.0.output == c.output
  {
    if s.isServer then (c, Done)
    else if c.state == C.Login then
      if id == SetCompression then
        match VarIntAt(buffer, off)
        case Err(e) => (c, Threw(e))
        case Ok((t, _)) => (c.(threshold := t), Done)
      else if id == LoginSuccess then
        match StringAt(buffer, off)
        case Err(e) => (c, Threw(e))
        case Ok((uuid, o2)) =>
          match StringAt(buffer, o2)
          case Err(e) => (c, Threw(e))
          case Ok((username, _)) => (c.(state := C.Play, logins := c.logins + [LoggedIn(uuid, username)]), Done)
      else if id == Disconnect then
        match StringAt(buffer, off)
        case Err(e) => (c, Threw(e))
        case Ok(_) => (c, Done)
      else (c, Done)
    else if c.state == C.Play && id == KeepAlive && s.keepAlive then
      SendIn(c, s, VarIntBytes(KeepAliveReply) + Slice(buffer, off, off + 8))
    else (c, Done)
  }

  /** packetReceived(buffer). The reader made for the handlers throws on an
      undecodable id before anything is delivered; otherwise the packet
      reaches onPacket and the pending nextPacket before any state logic, and
      a packet received in Handshake sets the state to its fourth field
      (after which the Login logic may run on the same packet). */
  function PacketIn(c: Legacy, s: Setup, buffer: seq<byte>): (r: (Legacy, Outcome))
    ensures r.0.buffer == c.buffer && r.0.halted == c.halted
    ensures VarIntAt(buffer, 0).Err? ==> r == (c, Threw(VarIntAt(buffer, 0).error))
    ensures VarIntAt(buffer, 0).Ok? ==> r.0.delivered == c.delivered + [buffer]
    ensures s.isServer ==> r.0.threshold == c.threshold && r.0.output == c.output && r.0.logins == c.logins
    ensures !s.keepAlive ==> r.0.output == c.output
  {
    match VarIntAt(buffer, 0)
    case Err(e) => (c, Threw(e))
    case Ok((id, off)) => Dispatch(c.(delivered := c.delivered + [buffer]), s, buffer, id, off)
  }

  /** What packetReceived does once the packet is delivered, with its id and
      the cursor after it: in Handshake the four fields are read first. */
  function Dispatch(c: Legacy, s: Setup, buffer: seq<byte>, id: int, off: int): (r: (Legacy, Outcome))
    ensures r.0.buffer == c.buffer && r.0.halted == c.halted && r.0.delivered == c.delivered
    ensures s.isServer ==> r.0.threshold == c.threshold && r.0.output == c.output && r.0.logins == c.logins
    ensures !s.keepAlive ==> r.0.output == c.output
  {
    if c.state == C.Handshake then
      match C.HandshakeAt(buffer, off)
      case Fields(_, next, end) => StateLogic(c.(state := next), s, buffer, id, end)
      case NoProtocol(e) => (c, Threw(e))
      case Partial(_, e) => (c, Threw(e))
    else StateLogic(c, s, buffer, id, off)
  }

  /** The reading loop over the accumulated buffer: turn after turn until no
      complete frame is left or a turn or packetReceived throws, which halts
      the reader with the buffer as it was at that turn. */
  function Drain(c: Legacy, s: Setup): (r: (Legacy, Outcome))
    decreases |c.buffer|
  {
    match CutFrame(c.buffer, c.threshold, s.inflate)
    case NoFrame => (c, Done)
    case Broken(f) => (c.(halted := true), f)
    case Frame(p, rest) =>
      var (c1, o) := PacketIn(c, s, p);
      if o != Done then (c1.(halted := true), o)
      else
        EmptyPacketThrows();
        Drain(c1.(buffer := rest), s)
  }

  lemma EmptyPacketThrows()
    ensures VarIntAt([], 0).Err?
  {
  }

  /** One turn of the loop, when it delivers a packet without throwing. */
  lemma DrainStep(c: Legacy, s: Setup)
    requires CutFrame(c.buffer, c.threshold, s.inflate).Frame?
    requires var cut := CutFrame(c.buffer, c.threshold, s.inflate); PacketIn(c, s, cut.packet).1 == Done
    ensures var cut := CutFrame(c.buffer, c.threshold, s.inflate);
      |cut.rest| < |c.buffer| &&
      Drain(c, s) == Drain(PacketIn(c, s, cut.packet).0.(buffer := cut.rest), s)
  {
    EmptyPacketThrows();
  }

  /** reader.write(chunk): the chunk is appended to the buffer and the loop runs. */
  function WriteIn(c: Legacy, s: Setup, chunk: seq<byte>): (Legacy, Outcome)
  {
    if c.halted then (c, Done) else Drain(c.(buffer := c.buffer + chunk), s)
  }

  /** What the loop keeps of `buf` ends it: a suffix of the buffer, which
      holds no complete frame when the loop ended normally. */
  predicate KeepsPartial(buf: seq<byte>, r: (Legacy, Outcome), s: Setup)
  {
    |r.0.buffer| <= |buf| && r.0.buffer == buf[|buf| - |r.0.buffer|..] &&
    (r.1 == Done ==> CutFrame(r.0.buffer, r.0.threshold, s.inflate) == NoFrame)
  }

  /** When the loop ends normally, what it keeps is a suffix of the buffer that
      holds no complete frame. */
  lemma {:induction false} DrainKeepsPartial(c: Legacy, s: Setup)
    ensures KeepsPartial(c.buffer, Drain(c, s), s)
    decreases |c.buffer|
  {
    var cut := CutFrame(c.buffer, c.threshold, s.inflate);
    if cut.Frame? && PacketIn(c, s, cut.packet).1 == Done {
      DrainStep(c, s);
      var next := PacketIn(c, s, cut.packet).0.(buffer := cut.rest);
      DrainKeepsPartial(next, s);
      KeepsPartialStep(c.buffer, cut.rest, Drain(next, s), s);
    } else {
      DrainEnds(c, s);
    }
  }

  lemma DrainEnds(c: Legacy, s: Setup)
    requires var cut := CutFrame(c.buffer, c.threshold, s.inflate);
      !(cut.Frame? && PacketIn(c, s, cut.packet).1 == Done)
    ensures Drain(c, s).0.buffer == c.buffer
    ensures Drain(c, s).1 == Done ==> CutFrame(c.buffer, c.threshold, s.inflate) == NoFrame && Drain(c, s).0 == c
  {
  }

  lemma KeepsPartialStep(buf: seq<byte>, rest: seq<byte>, r: (Legacy, Outcome), s: Setup)
    requires |rest| <= |buf| && rest == buf[|buf| - |rest|..]
    requires KeepsPartial(rest, r, s)
    ensures KeepsPartial(buf, r, s)
  {
    DropDrop(buf, |buf| - |rest|, |rest| - |r.0.buffer|);
  }

  // ---------------------------------------------------------------------------
  // nextPacketWithId

  /** The packet's id decodes to `id`. */
  predicate HasId(p: seq<byte>, id: int)
  {
    VarIntAt(p, 0).Ok? && VarIntAt(p, 0).value.0 == id
  }

  /** The position of the first packet with that id, if any. */
  function FirstWithId(ps: seq<seq<byte>>, id: int): (r: Option<nat>)
    ensures r.Some? ==> (r.value < |ps| && HasId(ps[r.value], id) &&
      forall j :: 0 <= j < r.value ==> !HasId(ps[j], id))
    ensures r.None? ==> forall j :: 0 <= j < |ps| ==> !HasId(ps[j], id)
  {
    if ps == [] then None
    else if HasId(ps[0], id) then Some(0)
    else match FirstWithId(ps[1..], id)
      case None => None
      case Some(i) => Some(i + 1)
  }

  // ---------------------------------------------------------------------------
  // The connection

  class Connection {
    var state: int
    var compressionThreshold: int
    const keepAlive: bool
    const isServer: bool
    /** socket.writable */
    var writable: bool
    const deflate: Transforms.Codec
    const inflate: Transforms.Codec
    /** The reader's accumulated bytes. */
    var buffer: seq<byte>
    /** Every packet body given to onPacket and to the pending nextPacket, in order. */
    var delivered: seq<seq<byte>>
    var logins: seq<LoginEvent>
    /** The frames the splitter pushed to the socket. */
    var output: seq<seq<byte>>
    var halted: bool

    function Current(): Legacy
      reads this
    {
      Legacy(state, compressionThreshold, buffer, delivered, logins, output, halted)
    }

    function Config(): Setup
      reads this
    {
      Setup(isServer, keepAlive, writable, deflate, inflate)
    }

    /** new Connection(socket, options): Handshake, no compression, keep-alive
        on unless the options turn it off. */
    constructor (isServer: bool, keepAlive: Option<bool>, writable: bool,
                 deflate: Transforms.Codec, inflate: Transforms.Codec)
      ensures Current() == Legacy(C.Handshake, -1, [], [], [], [], false)
      ensures this.isServer == isServer && this.keepAlive == (keepAlive != Some(false))
      ensures this.writable == writable && this.deflate == deflate && this.inflate == inflate
    {
      state := C.Handshake;
      compressionThreshold := -1;
      this.keepAlive := keepAlive != Some(false);
      this.isServer := isServer;
      this.writable := writable;
      this.deflate := deflate;
      this.inflate := inflate;
      buffer := [];
      delivered := [];
      logins := [];
      output := [];
      halted := false;
    }

    /** The splitter's transform with the data length corrected to the size
        of the body before deflation. */
    method Split(chunk: seq<byte>)
      modifies this
      ensures writable == old(writable)
      ensures Current() == Pushed(old(Current()), Config(), chunk)
    {
      if compressionThreshold == -1 {
        var len := EncodeVarInt(|chunk|);
        output := output + [len + chunk];
      } else if |chunk| < compressionThreshold {
        var len := EncodeVarInt(|chunk| + 1);
        var zero := EncodeVarInt(0);
        output := output + [len + zero + chunk];
      } else {
        var compressed := deflate(chunk);
        if compressed.None? {
          return;
        }
        var dataLength := EncodeVarInt(|chunk|);
        var body := dataLength + compressed.value;
        var len := EncodeVarInt(|body|);
        assert len + body == len + dataLength + compressed.value;
        output := output + [len + body];
      }
    }

    method Send(bytes: seq<byte>) returns (o: Outcome)
      modifies this
      ensures Config() == old(Config())
      ensures var r := SendIn(old(Current()), old(Config()), bytes);
        Current() == r.0 && o == r.1
    {
      if !writable {
        return Done;
      }
      Split(bytes);
      var made := PacketReader.Open(bytes);
      if made.Err? {
        return Threw(made.error);
      }
      o := Done;
      if state == C.Handshake {
        var h := C.ReadHandshakeFields(made.value);
        if h.Fields? {
          state := h.next;
        } else {
          o := Threw(h.error);
        }
      }
    }

    /** The state logic on a packet whose reader is at `packet.offset`. */
    method Handle(packet: PacketReader) returns (o: Outcome)
      modifies this, packet
      ensures Config() == old(Config())
      ensures var r := StateLogic(old(Current()), old(Config()), packet.buffer, old(packet.id), old(packet.offset));
        Current() == r.0 && o == r.1
    {
      o := Done;
      if isServer {
        return;
      }
      if state == C.Login {
        if packet.id == SetCompression {
          var t := packet.ReadVarInt();
          if t.Err? {
            return Threw(t.error);
          }
          compressionThreshold := t.value;
        } else if packet.id == LoginSuccess {
          var uuid := packet.ReadString();
          if uuid.Err? {
            return Threw(uuid.error);
          }
          var username := packet.ReadString();
          if username.Err? {
            return Threw(username.error);
          }
          state := C.Play;
          logins := logins + [LoggedIn(uuid.value, username.value)];
        } else if packet.id == Disconnect {
          var message := packet.ReadString();
          if message.Err? {
            return Threw(message.error);
          }
        }
      } else if state == C.Play && packet.id == KeepAlive && keepAlive {
        var payload := packet.Read(8);
        var reply := new PacketWriter(KeepAliveReply);
        reply.Write(payload);
        var bytes := reply.Encode();
        o := Send(bytes);
      }
    }

    method PacketReceived(bytes: seq<byte>) returns (o: Outcome)
      modifies this
      ensures Config() == old(Config())
      ensures var r := PacketIn(old(Current()), old(Config()), bytes);
        Current() == r.0 && o == r.1
    {
      var made := PacketReader.Open(bytes);
      if made.Err? {
        return Threw(made.error);
      }
      delivered := delivered + [bytes];
      o := DispatchPacket(made.value);
    }

    /** The handshake reads, in Handshake, then the state logic. */
    method DispatchPacket(packet: PacketReader) returns (o: Outcome)
      modifies this, packet
      ensures Config() == old(Config())
      ensures var r := Dispatch(old(Current()), old(Config()), packet.buffer, old(packet.id), old(packet.offset));
        Current() == r.0 && o == r.1
    {
      if state == C.Handshake {
        var h := C.ReadHandshakeFields(packet);
        if !h.Fields? {
          return Threw(h.error);
        }
        state := h.next;
      }
      o := Handle(packet);
    }

    /** One turn's cut of the buffer, as the loop body computes it. */
    method NextCut() returns (cut: Cut)
      ensures cut == CutFrame(buffer, compressionThreshold, inflate)
    {
      var header := DecodeVarInt(buffer, 0);
      if header.Err? {
        return NoFrame;
      }
      var (len, off) := header.value;
      if off + len > |buffer| {
        return NoFrame;
      }
      var frame := Slice(buffer, off, off + len);
      var rest := Slice(buffer, off + len, |buffer|);
      cut := CutOf(frame, rest);
    }

    /** The rest of a turn, from the frame and what follows it. */
    method CutOf(frame: seq<byte>, rest: seq<byte>) returns (cut: Cut)
      ensures cut == FrameCut(frame, rest, compressionThreshold, inflate)
    {
      if compressionThreshold == -1 {
        return Frame(frame, rest);
      }
      var inner := DecodeVarInt(frame, 0);
      if inner.Err? {
        return Broken(Threw(inner.error));
      }
      var (dataLength, start) := inner.value;
      var body := Slice(frame, start, |frame|);
      if dataLength == 0 {
        return Frame(body, rest);
      }
      var inflated := inflate(body);
      if inflated.None? {
        return Broken(InflateFailed);
      }
      return Frame(inflated.value, rest);
    }

    /** The reader's write(chunk). */
    method ReaderWrite(chunk: seq<byte>) returns (o: Outcome)
      modifies this
      ensures Config() == old(Config())
      ensures var r := WriteIn(old(Current()), old(Config()), chunk);
        Current() == r.0 && o == r.1
    {
      if halted {
        return Done;
      }
      buffer := buffer + chunk;
      ghost var target := Drain(Current(), Config());
      while true
        invariant Config() == old(Config()) && !halted
        invariant Drain(Current(), Config()) == target
        decreases |buffer|
      {
        var cut := NextCut();
        match cut
        case NoFrame =>
          return Done;
        case Broken(f) =>
          halted := true;
          return f;
        case Frame(p, rest) =>
          ghost var before := Current();
          o := PacketReceived(p);
          if o != Done {
            halted := true;
            return;
          }
          DrainStep(before, Config());
          buffer := rest;
      }
    }

    /** nextPacketWithId(id) over the packets delivered since `from`: the first
        with that id; None while none has arrived yet. */
    method NextPacketWithId(id: int, from: nat) returns (r: Option<seq<byte>>)
      requires from <= |delivered|
      ensures var k := FirstWithId(delivered[from..], id);
        (k.None? ==> r.None?) && (k.Some? ==> r == Some(delivered[from + k.value]))
    {
      var i := from;
      while i < |delivered|
        invariant from <= i <= |delivered|
        invariant forall j :: from <= j < i ==> !HasId(delivered[j], id)
      {
        var made := PacketReader.Open(delivered[i]);
        if made.Ok? && made.value.id == id {
          FirstIsFirst(delivered, from, i, id);
          return Some(delivered[i]);
        }
        i := i + 1;
      }
      NoneWithId(delivered, from, id);
      return None;
    }
  }

  lemma FirstIsFirst(ps: seq<seq<byte>>, from: nat, i: nat, id: int)
    requires from <= i < |ps| && HasId(ps[i], id)
    requires forall j :: from <= j < i ==> !HasId(ps[j], id)
    ensures FirstWithId(ps[from..], id) == Some(i - from)
  {
    var qs := ps[from..];
    assert qs[i - from] == ps[i];
  }

  lemma NoneWithId(ps: seq<seq<byte>>, from: nat, id: int)
    requires from <= |ps|
    requires forall j :: from <= j < |ps| ==> !HasId(ps[j], id)
    ensures FirstWithId(ps[from..], id) == None
  {
    var qs := ps[from..];
    assert forall j :: 0 <= j < |qs| ==> qs[j] == ps[from + j];
  }

  // ---------------------------------------------------------------------------
  // What the connection does with particular frames and packets

  /** A frame the splitter makes, read back by the inline reader at the same
      threshold: the body comes out whole and what follows the frame stays. */
  lemma CutOfFrame(threshold: int, deflate: Transforms.Codec, inflate: Transforms.Codec, p: seq<byte>, rest: seq<byte>)
    requires Transforms.Recoverable(threshold, deflate, inflate, p)
    ensures Transforms.FrameBytes(threshold, deflate, p).Some?
    ensures CutFrame(Transforms.FrameBytes(threshold, deflate, p).value + rest, threshold, inflate) == Frame(p, rest)
  {
    Transforms.StepOfFrame(threshold, deflate, inflate, p, rest);
    var f := Transforms.FrameBytes(threshold, deflate, p).value;
    var buf := f + rest;
    FramePremises(threshold, deflate, inflate, p, rest);
    CutAgrees(buf, threshold, inflate);
    assert buf[|f|..] == rest;
  }

  /** A frame the splitter makes meets the conditions of CutAgrees. */
  lemma FramePremises(threshold: int, deflate: Transforms.Codec, inflate: Transforms.Codec, p: seq<byte>, rest: seq<byte>)
    requires Transforms.Recoverable(threshold, deflate, inflate, p)
    ensures Transforms.FrameBytes(threshold, deflate, p).Some?
    ensures var buf := Transforms.FrameBytes(threshold, deflate, p).value + rest;
      VarIntAt(buf, 0).Ok? && VarIntAt(buf, 0).value.0 >= 0 && InnerFits(buf, threshold)
  {
    if threshold == -1 {
      HeaderPremises(p, rest, threshold);
    } else if |p| < threshold {
      assert VarIntBytes(0) == [0];
      assert Transforms.FrameBytes(threshold, deflate, p).value == VarIntBytes(|[0] + p|) + ([0] + p);
      VarIntRoundTripInRange(0, p);
      HeaderPremises([0] + p, rest, threshold);
    } else {
      var z, len := deflate(p).value, VarIntBytes(|p|);
      DeflatedFrame(threshold, deflate, p);
      VarIntRoundTripInRange(|p|, z);
      HeaderPremises(len + z, rest, threshold);
    }
  }

  lemma HeaderPremises(inner: seq<byte>, rest: seq<byte>, threshold: int)
    requires |inner| < 0x8000_0000
    requires threshold != -1 ==> VarIntAt(inner, 0) != Err(OutOfRange)
    ensures var buf := VarIntBytes(|inner|) + inner + rest;
      VarIntAt(buf, 0).Ok? && VarIntAt(buf, 0).value.0 >= 0 && InnerFits(buf, threshold)
  {
    HeaderOf(inner, rest);
  }

  lemma HeaderOf(inner: seq<byte>, rest: seq<byte>)
    requires |inner| < 0x8000_0000
    ensures var h := VarIntBytes(|inner|);
      var buf := h + inner + rest;
      VarIntAt(buf, 0) == Ok((|inner|, |h|)) && buf[|h|..|h| + |inner|] == inner
  {
    var h := VarIntBytes(|inner|);
    assert h + inner + rest == h + (inner + rest);
    VarIntRoundTripInRange(|inner|, inner + rest);
  }

  /** A server in Handshake delivers a handshake and takes its fourth field as
      the state; nothing else changes. */
  lemma ServerHandshakeIn(c: Legacy, s: Setup, protocol: int, host: seq<byte>, port: nat, next: int)
    requires s.isServer && c.state == C.Handshake && port < 0x1_0000 && |host| < 0x8000_0000
    ensures var buffer := VarIntBytes(0) + C.HandshakeBytes(protocol, host, port, next);
      PacketIn(c, s, buffer) == (c.(delivered := c.delivered + [buffer], state := Int32(next)), Done)
  {
    var body := C.HandshakeBytes(protocol, host, port, next);
    var buffer := VarIntBytes(0) + body;
    C.VarIntBetween([], 0, body);
    assert [] + VarIntBytes(0) + body == buffer;
    assert VarIntBytes(0) + body + [] == buffer;
    C.HandshakeRoundTrip(buffer, VarIntBytes(0), protocol, host, port, next, []);
  }

  /** The client's send in Handshake pushes the frame and takes the next
      state from its own handshake. */
  lemma SendHandshakeIn(c: Legacy, s: Setup, protocol: int, host: seq<byte>, port: nat, next: int)
    requires s.writable && c.state == C.Handshake && port < 0x1_0000 && |host| < 0x8000_0000
    ensures var buffer := VarIntBytes(0) + C.HandshakeBytes(protocol, host, port, next);
      SendIn(c, s, buffer) == (Pushed(c, s, buffer).(state := Int32(next)), Done)
  {
    var body := C.HandshakeBytes(protocol, host, port, next);
    var buffer := VarIntBytes(0) + body;
    C.VarIntBetween([], 0, body);
    assert [] + VarIntBytes(0) + body == buffer;
    assert VarIntBytes(0) + body + [] == buffer;
    C.HandshakeRoundTrip(buffer, VarIntBytes(0), protocol, host, port, next, []);
  }

  /** A packet a client receives in Login, once its id is read. */
  lemma LoginPacketIn(c: Legacy, s: Setup, buffer: seq<byte>, id: int, off: int)
    requires c.state == C.Login && VarIntAt(buffer, 0) == Ok((id, off))
    ensures PacketIn(c, s, buffer) == StateLogic(c.(delivered := c.delivered + [buffer]), s, buffer, id, off)
  {
  }

  /** A client in Login takes the compression threshold from packet 0x3. */
  lemma ClientThresholdIn(c: Legacy, s: Setup, t: int, rest: seq<byte>, buffer: seq<byte>)
    requires !s.isServer && c.state == C.Login && -0x8000_0000 <= t < 0x8000_0000
    requires buffer == VarIntBytes(SetCompression) + VarIntBytes(t) + rest
    ensures PacketIn(c, s, buffer) == (c.(delivered := c.delivered + [buffer], threshold := t), Done)
  {
    var off := |VarIntBytes(SetCompression)|;
    VarIntRoundTripInRange(SetCompression, VarIntBytes(t) + rest);
    assert buffer == VarIntBytes(SetCompression) + (VarIntBytes(t) + rest);
    VarIntAfter(VarIntBytes(SetCompression), t, rest);
    LoginPacketIn(c, s, buffer, SetCompression, off);
    ThresholdLogic(c.(delivered := c.delivered + [buffer]), s, buffer, off, t, off + |VarIntBytes(t)|);
  }

  /** A 32-bit VarInt read back where it was written. */
  lemma VarIntAfter(pre: seq<byte>, x: int, post: seq<byte>)
    requires -0x8000_0000 <= x < 0x8000_0000
    ensures VarIntAt(pre + VarIntBytes(x) + post, |pre|) == Ok((x, |pre| + |VarIntBytes(x)|))
  {
    VarIntRoundTripInRange(x, post);
    VarIntAtShift(pre, VarIntBytes(x) + post, 0);
    assert pre + VarIntBytes(x) + post == pre + (VarIntBytes(x) + post);
  }

  lemma ThresholdLogic(c: Legacy, s: Setup, buffer: seq<byte>, off: int, t: int, end: int)
    requires !s.isServer && c.state == C.Login && VarIntAt(buffer, off) == Ok((t, end))
    ensures StateLogic(c, s, buffer, SetCompression, off) == (c.(threshold := t), Done)
  {
  }

  /** A client in Login moves to Play on packet 0x2 and reports the uuid and
      username it carries. */
  lemma ClientLoginIn(c: Legacy, s: Setup, uuid: seq<byte>, username: seq<byte>, rest: seq<byte>, buffer: seq<byte>)
    requires !s.isServer && c.state == C.Login && |uuid| < 0x8000_0000 && |username| < 0x8000_0000
    requires buffer == VarIntBytes(LoginSuccess) + StringBytes(uuid) + StringBytes(username) + rest
    ensures PacketIn(c, s, buffer) == (c.(delivered := c.delivered + [buffer], state := C.Play,
      logins := c.logins + [LoggedIn(uuid, username)]), Done)
  {
    var o1 := |VarIntBytes(LoginSuccess)|;
    var o2 := o1 + |StringBytes(uuid)|;
    var o3 := o2 + |StringBytes(username)|;
    LoginBytes(buffer, uuid, username, rest, o1, o2, o3);
    LoginPacket(c, s, buffer, o1, uuid, o2, username, o3);
  }

  /** A login success packet laid out by the writer: its id, then two strings
      ending at `o2` and `o3`. */
  lemma LoginBytes(buffer: seq<byte>, uuid: seq<byte>, username: seq<byte>, rest: seq<byte>, o1: int, o2: int, o3: int)
    requires |uuid| < 0x8000_0000 && |username| < 0x8000_0000
    requires buffer == VarIntBytes(LoginSuccess) + StringBytes(uuid) + StringBytes(username) + rest
    requires o1 == |VarIntBytes(LoginSuccess)| && o2 == o1 + |StringBytes(uuid)| && o3 == o2 + |StringBytes(username)|
    ensures VarIntAt(buffer, 0) == Ok((LoginSuccess, o1))
    ensures StringAt(buffer, o1) == Ok((uuid, o2))
    ensures StringAt(buffer, o2) == Ok((username, o3))
  {
    var id, u, n := VarIntBytes(LoginSuccess), StringBytes(uuid), StringBytes(username);
    AppendAssoc4(id, u, n, rest);
    IdOf(buffer, LoginSuccess, u + n + rest);
    StringFields(buffer, id, uuid, username, rest, o1, o2, o3);
  }

  lemma LoginPacket(c: Legacy, s: Setup, buffer: seq<byte>, o1: int, uuid: seq<byte>, o2: int, username: seq<byte>, o3: int)
    requires !s.isServer && c.state == C.Login
    requires VarIntAt(buffer, 0) == Ok((LoginSuccess, o1))
    requires StringAt(buffer, o1) == Ok((uuid, o2))
    requires StringAt(buffer, o2) == Ok((username, o3))
    ensures PacketIn(c, s, buffer) == (c.(delivered := c.delivered + [buffer], state := C.Play,
      logins := c.logins + [LoggedIn(uuid, username)]), Done)
  {
    LoginPacketIn(c, s, buffer, LoginSuccess, o1);
    LoginLogic(c.(delivered := c.delivered + [buffer]), s, buffer, o1, uuid, o2, username, o3);
  }

  /** The id of a packet, read back. */
  lemma IdOf(buffer: seq<byte>, id: int, tail: seq<byte>)
    requires -0x8000_0000 <= id < 0x8000_0000
    requires buffer == VarIntBytes(id) + tail
    ensures VarIntAt(buffer, 0) == Ok((id, |VarIntBytes(id)|))
  {
    VarIntRoundTripInRange(id, tail);
  }

  /** Two strings read back where they were written. */
  lemma StringFields(buf: seq<byte>, pre: seq<byte>, a: seq<byte>, b: seq<byte>, post: seq<byte>, o1: int, o2: int, o3: int)
    requires |a| < 0x8000_0000 && |b| < 0x8000_0000
    requires buf == pre + StringBytes(a) + StringBytes(b) + post
    requires o1 == |pre| && o2 == o1 + |StringBytes(a)| && o3 == o2 + |StringBytes(b)|
    ensures StringAt(buf, o1) == Ok((a, o2))
    ensures StringAt(buf, o2) == Ok((b, o3))
  {
    assert buf == pre + StringBytes(a) + (StringBytes(b) + post);
    StringRoundTrip(a, pre, StringBytes(b) + post);
    var pa := pre + StringBytes(a);
    assert |pa| == o2;
    StringRoundTrip(b, pa, post);
  }

  lemma LoginLogic(c: Legacy, s: Setup, buffer: seq<byte>, off: int, uuid: seq<byte>, o2: int, username: seq<byte>, o3: int)
    requires !s.isServer && c.state == C.Login
    requires StringAt(buffer, off) == Ok((uuid, o2)) && StringAt(buffer, o2) == Ok((username, o3))
    ensures StateLogic(c, s, buffer, LoginSuccess, off) == (c.(state := C.Play, logins := c.logins + [LoggedIn(uuid, username)]), Done)
  {
  }

  /** A client in Play with keep-alive on answers packet 0x1f with packet 0xb
      carrying the next 8 bytes, framed at the current threshold. */
  lemma KeepAliveEcho(c: Legacy, s: Setup, payload: seq<byte>)
    requires !s.isServer && s.keepAlive && s.writable && c.state == C.Play && |payload| >= 8
    ensures var buffer := VarIntBytes(KeepAlive) + payload;
      PacketIn(c, s, buffer) == (Pushed(c.(delivered := c.delivered + [buffer]), s, VarIntBytes(KeepAliveReply) + payload[..8]), Done)
  {
    var buffer := VarIntBytes(KeepAlive) + payload;
    var off := |VarIntBytes(KeepAlive)|;
    VarIntRoundTripInRange(KeepAlive, payload);
    SliceWithin(buffer, off, off + 8);
    assert buffer[off..off + 8] == payload[..8];
    VarIntRoundTripInRange(KeepAliveReply, payload[..8]);
  }

  /** Packet 0x3 and the frame after it in one chunk: the reader cuts the
      second frame at the new threshold, so a frame the server compressed
      after announcing it is read whole. */
  lemma ThresholdAppliesToNextFrame(c: Legacy, s: Setup, t: int, p: seq<byte>, rest: seq<byte>)
    requires !s.isServer && c.state == C.Login && c.threshold == -1 && -0x8000_0000 <= t < 0x8000_0000
    requires Transforms.Recoverable(t, s.deflate, s.inflate, p)
    ensures var announce := VarIntBytes(SetCompression) + VarIntBytes(t);
      Transforms.FrameBytes(t, s.deflate, p).Some? &&
      var f1, f2 := VarIntBytes(|announce|) + announce, Transforms.FrameBytes(t, s.deflate, p).value;
      Drain(c.(buffer := f1 + f2 + rest), s) ==
        Drain(c.(delivered := c.delivered + [announce], threshold := t, buffer := f2 + rest), s) &&
      CutFrame(f2 + rest, t, s.inflate) == Frame(p, rest)
  {
    var announce := VarIntBytes(SetCompression) + VarIntBytes(t);
    VarIntLength(SetCompression);
    VarIntLength(t);
    CutOfFrame(t, s.deflate, s.inflate, p, rest);
    var f1, f2 := VarIntBytes(|announce|) + announce, Transforms.FrameBytes(t, s.deflate, p).value;
    CutOfFrame(-1, s.deflate, s.inflate, announce, f2 + rest);
    AppendAssoc(f1, f2, rest);
    var cb := c.(buffer := f1 + f2 + rest);
    AppendEmpty(announce);
    ClientThresholdIn(cb, s, t, [], announce);
    DrainFirst(cb, s, announce, f2 + rest, cb.(delivered := c.delivered + [announce], threshold := t));
  }

  /** The loop's first turn, when it delivers a packet without throwing. */
  lemma DrainFirst(c: Legacy, s: Setup, packet: seq<byte>, rest: seq<byte>, c1: Legacy)
    requires CutFrame(c.buffer, c.threshold, s.inflate) == Frame(packet, rest)
    requires PacketIn(c, s, packet) == (c1, Done)
    ensures Drain(c, s) == Drain(c1.(buffer := rest), s)
  {
    DrainStep(c, s);
  }
}
