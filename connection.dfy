/** The Connection of src/connection.ts: a Handshake / Status / Login / Play
    state machine over the framing streams of src/transforms.ts and the
    handler registry of src/events.ts.

    The socket is reduced to its `writable` flag. Handlers are opaque ids;
    the wrappers onPacket, oncePacket and nextPacket register are values
    carrying their id filter, and each is a new closure, hence a serial.
    Delivering a fresh copy of the reader to a packet handler is modelled by
    recording the packet's bytes with the callbacks an emit called.

    The effect of each operation on the connection's observable state is a
    function on ConnState; each method of the class is proved to produce
    exactly the state that function describes. */
module Connection {
  import opened Buffers
  import opened VarInt
  import opened Packet
  import opened Events
  import Transforms

  // The values of the State enum. setState takes whatever number a
  // handshake packet carries, so a state is an int.
  const Handshake: int := 0
  const Status: int := 1
  const Login: int := 2
  const Play: int := 3

  datatype Event = PacketEvent | ChangeState | ErrorEvent | End

  datatype Handler =
    | Listener(id: nat)                                                   // a function given to on, onChangeState, onError or onEnd
    | PacketFilter(filter: Option<int>, id: nat, oneShot: bool, serial: nat) // the wrapper of onPacket (oneShot: of oncePacket)
    | Resolver(filter: Option<int>, serial: nat)                          // the wrapper of nextPacket

  /** `id == null || packet.id == id`. */
  predicate Accepts(filter: Option<int>, packetId: int)
  {
    filter.None? || filter.value == packetId
  }

  /** Whether the handler's own function is reached by a packet with this id. */
  predicate Receives(h: Handler, packetId: int)
  {
    h.Listener? || Accepts(h.filter, packetId)
  }

  /** Whether the wrapper disposes of itself on a packet with this id:
      oncePacket's and nextPacket's do, once their filter accepts. */
  predicate Consumes(h: Handler, packetId: int)
  {
    (h.Resolver? || (h.PacketFilter? && h.oneShot)) && Accepts(h.filter, packetId)
  }

  function ConsumedBy(packetId: int): Handler -> bool
  {
    h => Consumes(h, packetId)
  }

  /** No ChangeState handler of this connection disposes of itself. */
  function NoDisposal(): Handler -> bool
  {
    h => false
  }

  lemma ConsumesOnlyReceivers(h: Handler, packetId: int)
    ensures Consumes(h, packetId) ==> Receives(h, packetId)
    ensures h.Listener? || (h.PacketFilter? && !h.oneShot) ==> !Consumes(h, packetId)
  {
  }

  type Registry = map<Event, seq<Callback<Handler>>>

  /** One call of emit: its argument and the callbacks it called, in order. */
  datatype Emission =
    | PacketEmitted(packet: seq<byte>, called: seq<Callback<Handler>>)
    | StateEmitted(state: int, called: seq<Callback<Handler>>)

  /** An exception thrown out of an operation, or none. */
  datatype Outcome = Done | Threw(error: Error)

  // ---------------------------------------------------------------------------
  // The handshake packet

  /** What reading a handshake body gets before it stops: readVarInt for the
      protocol (stored at once), readString, readUInt16, readVarInt for the
      next state, and the offset after the last field. */
  datatype HandshakeFields =
    | NoProtocol(error: Error)
    | Partial(protocol: int, error: Error)
    | Fields(protocol: int, next: int, end: int)

  function HandshakeAt(buf: seq<byte>, off: int): HandshakeFields
  {
    match VarIntAt(buf, off)
    case Err(e) => NoProtocol(e)
    case Ok((protocol, o1)) =>
      match StringAt(buf, o1)
      case Err(e) => Partial(protocol, e)
      case Ok((_, o2)) =>
        match UIntAt(buf, o2, 2)
        case Err(e) => Partial(protocol, e)
        case Ok(_) =>
          match VarIntAt(buf, o2 + 2)
          case Err(e) => Partial(protocol, e)
          case Ok((next, end)) => Fields(protocol, next, end)
  }

  function HandshakeOutcome(h: HandshakeFields): Outcome
  {
    if h.Fields? then Done else Threw(h.error)
  }

  /** The handshake body a client builds: protocol, host, port and next state. */
  function HandshakeBytes(protocol: int, host: seq<byte>, port: nat, next: int): seq<byte>
    requires port < 0x1_0000
  {
    VarIntBytes(protocol) + StringBytes(host) + BigEndianBytes(port, 2) + VarIntBytes(next)
  }

  lemma VarIntBetween(pre: seq<byte>, x: int, post: seq<byte>)
    ensures VarIntAt(pre + VarIntBytes(x) + post, |pre|) == Ok((Int32(x), |pre| + |VarIntBytes(x)|))
  {
    var buf := pre + VarIntBytes(x) + post;
    assert buf[|pre|..|pre| + |VarIntBytes(x)|] == VarIntBytes(x);
    VarIntRoundTrip(x, buf, |pre|);
  }

  lemma Regroup(pre: seq<byte>, p: seq<byte>, s: seq<byte>, u: seq<byte>, n: seq<byte>, post: seq<byte>)
    ensures var buf := pre + (p + s + u + n) + post;
      buf == pre + p + (s + u + n + post) && buf == (pre + p) + s + (u + n + post) &&
      buf == (pre + p + s) + u + (n + post) && buf == (pre + p + s + u) + n + post
  {
  }

  lemma HandshakeAtFields(buf: seq<byte>, off: int, protocol: int, o1: int, host: seq<byte>, o2: int, port: int, next: int, o3: int)
    requires VarIntAt(buf, off) == Ok((protocol, o1)) && StringAt(buf, o1) == Ok((host, o2))
    requires UIntAt(buf, o2, 2) == Ok(port) && VarIntAt(buf, o2 + 2) == Ok((next, o3))
    ensures HandshakeAt(buf, off) == Fields(protocol, next, o3)
  {
  }

  // The four fields of a handshake body, each read where the previous one ends.

  lemma ProtocolField(buf: seq<byte>, pre: seq<byte>, protocol: int, host: seq<byte>, port: nat, next: int, post: seq<byte>, o1: int)
    requires port < 0x1_0000 && buf == pre + HandshakeBytes(protocol, host, port, next) + post
    requires o1 == |pre| + |VarIntBytes(protocol)|
    ensures VarIntAt(buf, |pre|) == Ok((Int32(protocol), o1))
  {
    var p, s, u, n := VarIntBytes(protocol), StringBytes(host), BigEndianBytes(port, 2), VarIntBytes(next);
    Regroup(pre, p, s, u, n, post);
    VarIntBetween(pre, protocol, s + u + n + post);
  }

  lemma HostField(buf: seq<byte>, pre: seq<byte>, protocol: int, host: seq<byte>, port: nat, next: int, post: seq<byte>, o1: int, o2: int)
    requires port < 0x1_0000 && buf == pre + HandshakeBytes(protocol, host, port, next) + post && |host| < 0x8000_0000
    requires o1 == |pre| + |VarIntBytes(protocol)| && o2 == o1 + |StringBytes(host)|
    ensures StringAt(buf, o1) == Ok((host, o2))
  {
    var p, s, u, n := VarIntBytes(protocol), StringBytes(host), BigEndianBytes(port, 2), VarIntBytes(next);
    Regroup(pre, p, s, u, n, post);
    var q, rest := pre + p, u + n + post;
    assert buf == q + s + rest && |q| == o1 && o2 == |q| + |s|;
    StringRoundTrip(host, q, rest);
  }

  lemma PortField(buf: seq<byte>, pre: seq<byte>, protocol: int, host: seq<byte>, port: nat, next: int, post: seq<byte>, o2: int)
    requires port < 0x1_0000 && buf == pre + HandshakeBytes(protocol, host, port, next) + post
    requires o2 == |pre| + |VarIntBytes(protocol)| + |StringBytes(host)|
    ensures UIntAt(buf, o2, 2) == Ok(port)
  {
    var p, s, u, n := VarIntBytes(protocol), StringBytes(host), BigEndianBytes(port, 2), VarIntBytes(next);
    Regroup(pre, p, s, u, n, post);
    UIntRoundTrip(port, 2, pre + p + s, n + post);
  }

  lemma NextField(buf: seq<byte>, pre: seq<byte>, protocol: int, host: seq<byte>, port: nat, next: int, post: seq<byte>, o2: int, o3: int)
    requires port < 0x1_0000 && buf == pre + HandshakeBytes(protocol, host, port, next) + post
    requires o2 == |pre| + |VarIntBytes(protocol)| + |StringBytes(host)| && o3 == o2 + 2 + |VarIntBytes(next)|
    ensures VarIntAt(buf, o2 + 2) == Ok((Int32(next), o3))
  {
    var p, s, u, n := VarIntBytes(protocol), StringBytes(host), BigEndianBytes(port, 2), VarIntBytes(next);
    Regroup(pre, p, s, u, n, post);
    VarIntBetween(pre + p + s + u, next, post);
  }

  /** A handshake body read after any prefix gives back its protocol and next
      state, as 32-bit integers, whatever follows it. */
  lemma HandshakeRoundTrip(buf: seq<byte>, pre: seq<byte>, protocol: int, host: seq<byte>, port: nat, next: int, post: seq<byte>)
    requires port < 0x1_0000 && |host| < 0x8000_0000 && buf == pre + HandshakeBytes(protocol, host, port, next) + post
    ensures HandshakeAt(buf, |pre|) == Fields(Int32(protocol), Int32(next), |pre| + |HandshakeBytes(protocol, host, port, next)|)
  {
    var o1 := |pre| + |VarIntBytes(protocol)|;
    var o2 := o1 + |StringBytes(host)|;
    var o3 := o2 + 2 + |VarIntBytes(next)|;
    ProtocolField(buf, pre, protocol, host, port, next, post, o1);
    HostField(buf, pre, protocol, host, port, next, post, o1, o2);
    PortField(buf, pre, protocol, host, port, next, post, o2);
    NextField(buf, pre, protocol, host, port, next, post, o2, o3);
    HandshakeAtFields(buf, |pre|, Int32(protocol), o1, host, o2, port, Int32(next), o3);
  }

  // ---------------------------------------------------------------------------
  // The observable state and the effect of each operation on it

  /** Everything packetReceived, send and resume read or change, except the
      socket and the two framing streams. */
  datatype ConnState = ConnState(
    state: int, protocol: int, paused: bool, backlog: seq<seq<byte>>,
    emitted: seq<Emission>, registry: Registry)

  /** setState(s): emits ChangeState exactly when s differs from the current state. */
  function SetStateIn(c: ConnState, s: int): (r: ConnState)
    ensures r.state == s && r.protocol == c.protocol && r.paused == c.paused && r.backlog == c.backlog
    ensures c.state != s <==> |r.emitted| == |c.emitted| + 1
    ensures c.state == s ==> r == c
    ensures c.state != s ==> r.emitted == c.emitted + [StateEmitted(s, SetOf(c.registry, ChangeState))]
  {
    if c.state != s then
      c.(state := s, emitted := c.emitted + [StateEmitted(s, SetOf(c.registry, ChangeState))],
         registry := Emitted(c.registry, ChangeState, NoDisposal()))
    else c
  }

  /** emit(Event.Packet, new PacketReader(buffer)): the reader's constructor
      throws when the packet id cannot be decoded, and nothing is emitted. */
  function PacketEmittedIn(c: ConnState, buffer: seq<byte>): (r: Result<ConnState>)
    ensures r.Err? <==> VarIntAt(buffer, 0).Err?
    ensures r.Ok? ==> (r.value.state == c.state && r.value.protocol == c.protocol &&
      r.value.paused == c.paused && r.value.backlog == c.backlog &&
      r.value.emitted == c.emitted + [PacketEmitted(buffer, SetOf(c.registry, PacketEvent))])
  {
    match VarIntAt(buffer, 0)
    case Err(e) => Err(e)
    case Ok((id, _)) =>
      Ok(c.(emitted := c.emitted + [PacketEmitted(buffer, SetOf(c.registry, PacketEvent))],
            registry := Emitted(c.registry, PacketEvent, ConsumedBy(id))))
  }

  /** What reading a handshake stores: the protocol as soon as it is read, the
      state only when every field was read. */
  function HandshakeIn(c: ConnState, h: HandshakeFields): ConnState
  {
    match h
    case NoProtocol(_) => c
    case Partial(p, _) => c.(protocol := p)
    case Fields(p, n, _) => SetStateIn(c.(protocol := p), n)
  }

  /** The effect of packetReceived: the new state, the exception if any, and
      the compression threshold it set on both streams if it did. */
  datatype Received = Received(after: ConnState, outcome: Outcome, threshold: Option<int>)

  function PacketReceivedIn(c: ConnState, isServer: bool, writable: bool, buffer: seq<byte>): Received
  {
    if !writable then Received(c, Done, None)
    else
      var queued := if c.paused then Ok(c.(backlog := c.backlog + [buffer])) else PacketEmittedIn(c, buffer);
      if queued.Err? then Received(c, Threw(queued.error), None)
      else
        var c1 := queued.value;
        match VarIntAt(buffer, 0)
        case Err(e) => Received(c1, Threw(e), None)
        case Ok((id, off)) =>
          if isServer then
            if c1.state == Handshake then
              var h := HandshakeAt(buffer, off);
              Received(HandshakeIn(c1, h), HandshakeOutcome(h), None)
            else Received(c1, Done, None)
          else if c1.state == Login && id == 2 then Received(SetStateIn(c1, Play), Done, None)
          else if c1.state == Login && id == 3 then
            match VarIntAt(buffer, off)
            case Err(e) => Received(c1, Threw(e), None)
            case Ok((t, _)) => Received(c1, Done, Some(t))
          else Received(c1, Done, None)
  }

  /** The effect of send: the new state, the exception if any, and whether the
      bytes reach the Writer. */
  datatype Sent = Sent(after: ConnState, outcome: Outcome, writes: bool)

  function SendIn(c: ConnState, isServer: bool, buffer: seq<byte>): Sent
  {
    if !isServer && c.state == Handshake then
      match VarIntAt(buffer, 0)
      case Err(e) => Sent(c, Threw(e), false)
      case Ok((_, off)) =>
        var h := HandshakeAt(buffer, off);
        Sent(HandshakeIn(c, h), HandshakeOutcome(h), h.Fields?)
    else Sent(c, Done, true)
  }

  /** How many of the first n writable checks of resume pass, counting from i. */
  function ChecksPassed(writableAt: nat -> bool, i: nat, n: nat): (k: nat)
    ensures i <= n ==> i <= k <= n
    ensures forall j :: i <= j < k ==> writableAt(j)
    ensures i <= k < n ==> !writableAt(k)
    decreases n - i
  {
    if i >= n || !writableAt(i) then i else ChecksPassed(writableAt, i + 1, n)
  }

  /** The emits of the first packets of a backlog, in order, stopping at the
      first packet whose reader cannot be constructed. */
  datatype Replayed = Replayed(after: ConnState, error: Option<Error>)

  function Replay(c: ConnState, ps: seq<seq<byte>>): Replayed
    decreases |ps|
  {
    if ps == [] then Replayed(c, None)
    else
      var r := Replay(c, ps[..|ps| - 1]);
      if r.error.Some? then r
      else match PacketEmittedIn(r.after, ps[|ps| - 1])
        case Err(e) => Replayed(r.after, Some(e))
        case Ok(c2) => Replayed(c2, None)
  }

  /** The one predicate on the effect of a whole resume. */
  function ResumeIn(c: ConnState, writableAt: nat -> bool): (r: (ConnState, Outcome))
  {
    var k := ChecksPassed(writableAt, 0, |c.backlog|);
    var replayed := Replay(c, c.backlog[..k]);
    if replayed.error.None? then (replayed.after.(backlog := [], paused := false), Done)
    else (replayed.after, Threw(replayed.error.value))
  }

  // ---------------------------------------------------------------------------
  // Properties of the effects

  /** A received packet is ignored entirely when the socket is not writable. */
  lemma NotWritableIgnored(c: ConnState, isServer: bool, buffer: seq<byte>)
    ensures PacketReceivedIn(c, isServer, false, buffer) == Received(c, Done, None)
  {
  }

  /** While paused a packet joins the backlog and is not emitted; the state handling still runs. */
  lemma PausedQueues(c: ConnState, isServer: bool, buffer: seq<byte>)
    requires c.paused
    ensures var r := PacketReceivedIn(c, isServer, true, buffer);
      r.after.backlog == c.backlog + [buffer] &&
      forall j :: |c.emitted| <= j < |r.after.emitted| ==> r.after.emitted[j].StateEmitted?
  {
  }

  /** Unpaused, a packet whose id decodes is emitted before anything else happens. */
  lemma UnpausedEmitsFirst(c: ConnState, isServer: bool, buffer: seq<byte>)
    requires !c.paused && VarIntAt(buffer, 0).Ok?
    ensures var r := PacketReceivedIn(c, isServer, true, buffer);
      |r.after.emitted| > |c.emitted| && r.after.emitted[..|c.emitted| + 1] == c.emitted + [PacketEmitted(buffer, SetOf(c.registry, PacketEvent))]
  {
    var c1 := PacketEmittedIn(c, buffer).value;
    var r := PacketReceivedIn(c, isServer, true, buffer);
    assert r.after.emitted[..|c1.emitted|] == c1.emitted;
  }

  /** The server takes protocol and state from the handshake body of the first
      packet it receives in Handshake. */
  lemma ServerHandshake(c: ConnState, protocol: int, host: seq<byte>, port: nat, next: int)
    requires c.state == Handshake && port < 0x1_0000 && |host| < 0x8000_0000
    ensures var buffer := VarIntBytes(0) + HandshakeBytes(protocol, host, port, next);
      var r := PacketReceivedIn(c, true, true, buffer);
      r.outcome == Done && r.after.protocol == Int32(protocol) && r.after.state == Int32(next)
  {
    var buffer := VarIntBytes(0) + HandshakeBytes(protocol, host, port, next);
    VarIntBetween([], 0, HandshakeBytes(protocol, host, port, next));
    assert [] + VarIntBytes(0) + HandshakeBytes(protocol, host, port, next) == buffer;
    assert VarIntBytes(0) + HandshakeBytes(protocol, host, port, next) + [] == buffer;
    HandshakeRoundTrip(buffer, VarIntBytes(0), protocol, host, port, next, []);
  }

  /** Once out of Handshake, nothing a server receives changes its state or protocol. */
  lemma ServerStateSettled(c: ConnState, buffer: seq<byte>)
    requires c.state != Handshake
    ensures var r := PacketReceivedIn(c, true, true, buffer);
      r.after.state == c.state && r.after.protocol == c.protocol && r.threshold.None?
  {
  }

  /** A client in Login moves to Play on packet 0x2 and takes the compression
      threshold of packet 0x3; other states ignore both. */
  lemma ClientLogin(c: ConnState, buffer: seq<byte>)
    ensures var r := PacketReceivedIn(c, false, true, buffer);
      VarIntAt(buffer, 0).Ok? ==>
        var (id, off) := VarIntAt(buffer, 0).value;
        (c.state == Login && id == 2 ==> r.after.state == Play && r.outcome == Done) &&
        (c.state == Login && id == 3 && VarIntAt(buffer, off).Ok? ==> r.threshold == Some(VarIntAt(buffer, off).value.0)) &&
        (c.state != Login ==> r.after.state == c.state && r.threshold.None?)
  {
  }

  /** The client's send in Handshake takes protocol and next state from its own
      handshake; a server's send changes nothing. */
  lemma SendHandshake(c: ConnState, protocol: int, host: seq<byte>, port: nat, next: int)
    requires c.state == Handshake && port < 0x1_0000 && |host| < 0x8000_0000
    ensures var buffer := VarIntBytes(0) + HandshakeBytes(protocol, host, port, next);
      var r := SendIn(c, false, buffer);
      r.outcome == Done && r.writes && r.after.protocol == Int32(protocol) && r.after.state == Int32(next) &&
      SendIn(c, true, buffer) == Sent(c, Done, true)
  {
    var buffer := VarIntBytes(0) + HandshakeBytes(protocol, host, port, next);
    VarIntBetween([], 0, HandshakeBytes(protocol, host, port, next));
    assert [] + VarIntBytes(0) + HandshakeBytes(protocol, host, port, next) == buffer;
    assert VarIntBytes(0) + HandshakeBytes(protocol, host, port, next) + [] == buffer;
    HandshakeRoundTrip(buffer, VarIntBytes(0), protocol, host, port, next, []);
  }

  /** What a replay of `ps` from `c` leaves in `r`: the emissions of a prefix
      of `ps`, in order, after those already made; the whole of `ps` unless it
      stopped, and then at a packet whose id cannot be decoded, with that
      packet's error; and the rest of the state as it was. */
  predicate InOrder(c: ConnState, ps: seq<seq<byte>>, r: Replayed)
  {
    var n := |r.after.emitted| - |c.emitted|;
    0 <= n <= |ps| && r.after.emitted[..|c.emitted|] == c.emitted &&
    (forall j :: 0 <= j < n ==> r.after.emitted[|c.emitted| + j] == PacketEmitted(ps[j], r.after.emitted[|c.emitted| + j].called)) &&
    (r.error.None? ==> n == |ps|) &&
    (r.error.Some? ==> n < |ps| && VarIntAt(ps[n], 0).Err? && r.error.value == VarIntAt(ps[n], 0).error) &&
    r.after.state == c.state && r.after.protocol == c.protocol && r.after.backlog == c.backlog && r.after.paused == c.paused
  }

  /** A replay emits a prefix of the backlog, in order, and stops only at a
      packet whose id cannot be decoded. */
  lemma {:induction false} ReplayInOrder(c: ConnState, ps: seq<seq<byte>>)
    ensures InOrder(c, ps, Replay(c, ps))
    decreases |ps|
  {
    if ps != [] {
      var init, last := ps[..|ps| - 1], ps[|ps| - 1];
      assert ps == init + [last];
      ReplayInOrder(c, init);
      var r := Replay(c, init);
      if r.error.Some? {
        StoppedStep(c, init, last, r);
      } else {
        match PacketEmittedIn(r.after, last)
        case Err(e) => FailedStep(c, init, last, r, e);
        case Ok(c2) => EmittedStep(c, init, last, r, c2);
      }
    }
  }

  lemma StoppedStep(c: ConnState, init: seq<seq<byte>>, last: seq<byte>, r: Replayed)
    requires InOrder(c, init, r) && r.error.Some?
    ensures InOrder(c, init + [last], r)
  {
    var ps := init + [last];
    var n := |r.after.emitted| - |c.emitted|;
    assert ps[n] == init[n];
    forall j | 0 <= j < n
      ensures r.after.emitted[|c.emitted| + j] == PacketEmitted(ps[j], r.after.emitted[|c.emitted| + j].called)
    {
      assert ps[j] == init[j];
    }
  }

  lemma FailedStep(c: ConnState, init: seq<seq<byte>>, last: seq<byte>, r: Replayed, e: Error)
    requires InOrder(c, init, r) && r.error.None? && PacketEmittedIn(r.after, last) == Err(e)
    ensures InOrder(c, init + [last], Replayed(r.after, Some(e)))
  {
    var ps := init + [last];
    var n := |r.after.emitted| - |c.emitted|;
    assert ps[n] == last;
    forall j | 0 <= j < n
      ensures r.after.emitted[|c.emitted| + j] == PacketEmitted(ps[j], r.after.emitted[|c.emitted| + j].called)
    {
      assert ps[j] == init[j];
    }
  }

  lemma EmittedStep(c: ConnState, init: seq<seq<byte>>, last: seq<byte>, r: Replayed, c2: ConnState)
    requires InOrder(c, init, r) && r.error.None? && PacketEmittedIn(r.after, last) == Ok(c2)
    ensures InOrder(c, init + [last], Replayed(c2, None))
  {
    var ps := init + [last];
    var n := |r.after.emitted| - |c.emitted|;
    var es := c2.emitted;
    assert es == r.after.emitted + [PacketEmitted(last, SetOf(r.after.registry, PacketEvent))];
    assert es[..|c.emitted|] == c.emitted by {
      assert es[..|r.after.emitted|] == r.after.emitted;
    }
    forall j | 0 <= j < n + 1
      ensures es[|c.emitted| + j] == PacketEmitted(ps[j], es[|c.emitted| + j].called)
    {
      if j < n {
        assert es[|c.emitted| + j] == r.after.emitted[|c.emitted| + j];
        assert ps[j] == init[j];
      }
    }
  }

  /** Once a replay has stopped, later packets are not emitted. */
  lemma {:induction false} ReplayStops(c: ConnState, ps: seq<seq<byte>>, k: nat)
    requires k <= |ps| && Replay(c, ps[..k]).error.Some?
    ensures Replay(c, ps) == Replay(c, ps[..k])
    decreases |ps| - k
  {
    if k < |ps| {
      assert ps[..k + 1][..k] == ps[..k];
      ReplayStops(c, ps, k + 1);
    } else {
      assert ps[..k] == ps;
    }
  }

  lemma ReplayStopsAt(c: ConnState, ps: seq<seq<byte>>, i: nat, k: nat)
    requires i < k <= |ps| && Replay(c, ps[..i + 1]).error.Some?
    ensures Replay(c, ps[..k]) == Replay(c, ps[..i + 1])
  {
    assert ps[..k][..i + 1] == ps[..i + 1];
    ReplayStops(c, ps[..k], i + 1);
  }

  lemma ReplayStep(c: ConnState, ps: seq<seq<byte>>, i: nat)
    requires i < |ps|
    ensures Replay(c, ps[..i + 1]) ==
      var r := Replay(c, ps[..i]);
      if r.error.Some? then r
      else match PacketEmittedIn(r.after, ps[i])
        case Err(e) => Replayed(r.after, Some(e))
        case Ok(c2) => Replayed(c2, None)
  {
    assert ps[..i + 1][..i] == ps[..i];
  }

  // ---------------------------------------------------------------------------
  // The connection

  /** The four reads of a handshake body from a packet's cursor, stopping at
      the first that throws; the cursor ends after the last field. */
  method ReadHandshakeFields(packet: PacketReader) returns (h: HandshakeFields)
    modifies packet
    ensures h == HandshakeAt(packet.buffer, old(packet.offset))
    ensures h.Fields? ==> packet.offset == h.end
    ensures packet.id == old(packet.id)
  {
    var p := packet.ReadVarInt();
    if p.Err? {
      return NoProtocol(p.error);
    }
    var host := packet.ReadString();
    if host.Err? {
      return Partial(p.value, host.error);
    }
    var port := packet.ReadUInt16();
    if port.Err? {
      return Partial(p.value, port.error);
    }
    var next := packet.ReadVarInt();
    if next.Err? {
      return Partial(p.value, next.error);
    }
    h := Fields(p.value, next.value, packet.offset);
  }

  class Connection {
    const isServer: bool
    /** socket.writable, as the environment sets it. */
    var writable: bool
    var state: int
    var protocol: int
    var paused: bool
    /** The backlog of packets received while paused. */
    var packets: seq<seq<byte>>
    /** The connection's own handler registry (Connection extends Emitter). */
    const events: Emitter<Event, Handler>
    const reader: Transforms.Reader
    const writer: Transforms.Writer
    /** Every emit so far, in order. */
    var emitted: seq<Emission>
    /** How many packet wrappers onPacket, oncePacket and nextPacket have made. */
    var serials: nat

    ghost predicate Valid()
      reads this, events
    {
      events.Valid()
    }

    function Current(): ConnState
      reads this, events
    {
      ConnState(state, protocol, paused, packets, emitted, events.handlers)
    }

    /** A new connection: Handshake, protocol -1, not paused, empty backlog. */
    constructor (isServer: bool, writable: bool, deflate: Transforms.Codec, inflate: Transforms.Codec)
      ensures Valid() && fresh(events) && fresh(reader) && fresh(writer)
      ensures this.isServer == isServer && this.writable == writable
      ensures Current() == ConnState(Handshake, -1, false, [], [], map[])
      ensures reader.compressionThreshold == -1 && reader.buffer == [] && reader.inflate == inflate && reader.output == []
      ensures writer.compressionThreshold == -1 && writer.deflate == deflate && writer.output == []
      ensures serials == 0
    {
      this.isServer := isServer;
      this.writable := writable;
      state := Handshake;
      protocol := -1;
      paused := false;
      packets := [];
      events := new Emitter();
      reader := new Transforms.Reader(inflate);
      writer := new Transforms.Writer(deflate);
      emitted := [];
      serials := 0;
    }

    /** setState(state). */
    method SetState(s: int)
      requires Valid()
      modifies this, events
      ensures Valid() && Current() == SetStateIn(old(Current()), s)
      ensures writable == old(writable) && serials == old(serials)
    {
      if state != s {
        var called, _ := events.Emit(ChangeState, NoDisposal());
        emitted := emitted + [StateEmitted(s, called)];
      }
      state := s;
    }

    /** emit(Event.Packet, new PacketReader(buffer, protocol)). */
    method EmitPacket(buffer: seq<byte>) returns (o: Outcome)
      requires Valid()
      modifies this, events
      ensures Valid() && writable == old(writable) && serials == old(serials)
      ensures var r := PacketEmittedIn(old(Current()), buffer);
        (r.Ok? ==> o == Done && Current() == r.value) &&
        (r.Err? ==> o == Threw(r.error) && Current() == old(Current()))
    {
      var made := PacketReader.Open(buffer);
      if made.Err? {
        return Threw(made.error);
      }
      var called, _ := events.Emit(PacketEvent, ConsumedBy(made.value.id));
      emitted := emitted + [PacketEmitted(buffer, called)];
      o := Done;
    }

    /** protocol = readVarInt(); readString(); readUInt16(); setState(readVarInt()). */
    method ReadHandshake(packet: PacketReader) returns (o: Outcome)
      requires Valid()
      modifies this, events, packet
      ensures Valid() && writable == old(writable) && serials == old(serials)
      ensures var h := HandshakeAt(packet.buffer, old(packet.offset));
        Current() == HandshakeIn(old(Current()), h) && o == HandshakeOutcome(h)
    {
      var h := ReadHandshakeFields(packet);
      match h
      case NoProtocol(e) =>
        o := Threw(e);
      case Partial(p, e) =>
        protocol := p;
        o := Threw(e);
      case Fields(p, n, _) =>
        protocol := p;
        SetState(n);
        o := Done;
    }

    /** send(packet), given the packet's bytes: a client still in Handshake
        first reads its own handshake; then the bytes go to the Writer. */
    method Send(buffer: seq<byte>) returns (o: Outcome)
      requires Valid()
      modifies this, events, writer
      ensures Valid() && writable == old(writable) && serials == old(serials)
      ensures var r := SendIn(old(Current()), isServer, buffer);
        Current() == r.after && o == r.outcome &&
        writer.compressionThreshold == old(writer.compressionThreshold) &&
        (r.writes && !old(writer.errored) ==> var f := Transforms.FrameBytes(writer.compressionThreshold, writer.deflate, buffer);
          (f.Some? ==> writer.output == old(writer.output) + [f.value] && !writer.errored) &&
          (f.None? ==> writer.output == old(writer.output) && writer.errored)) &&
        (!r.writes || old(writer.errored) ==> writer.output == old(writer.output) && writer.errored == old(writer.errored))
    {
      if !isServer && state == Handshake {
        var made := PacketReader.Open(buffer);
        if made.Err? {
          return Threw(made.error);
        }
        o := ReadHandshake(made.value);
        if o.Threw? {
          return;
        }
      }
      writer.Transform(buffer);
      o := Done;
    }

    /** setCompression(threshold): a server first sends packet 0x3 carrying the
        threshold, framed with the old threshold; then both streams switch. */
    method SetCompression(threshold: int)
      requires Valid()
      modifies this, events, reader, writer
      ensures Valid() && writable == old(writable) && serials == old(serials)
      ensures Current() == old(Current())
      ensures reader.compressionThreshold == threshold && writer.compressionThreshold == threshold
      ensures reader.buffer == old(reader.buffer) && reader.output == old(reader.output) && reader.destroyed == old(reader.destroyed)
      ensures isServer && !old(writer.errored) ==>
        var f := Transforms.FrameBytes(old(writer.compressionThreshold), writer.deflate, VarIntBytes(3) + VarIntBytes(threshold));
        (f.Some? ==> writer.output == old(writer.output) + [f.value] && !writer.errored) &&
        (f.None? ==> writer.output == old(writer.output) && writer.errored)
      ensures !isServer || old(writer.errored) ==> writer.output == old(writer.output) && writer.errored == old(writer.errored)
    {
      if isServer {
        var packet := new PacketWriter(3);
        packet.WriteVarInt(threshold);
        var bytes := packet.Encode();
        var _ := Send(bytes);
      }
      reader.compressionThreshold := threshold;
      writer.compressionThreshold := threshold;
    }

    /** packetReceived(buffer): what happens to each packet body the Reader pushes. */
    method PacketReceived(buffer: seq<byte>) returns (o: Outcome)
      requires Valid()
      modifies this, events, reader, writer
      ensures Valid() && writable == old(writable) && serials == old(serials)
      ensures var r := PacketReceivedIn(old(Current()), isServer, old(writable), buffer);
        Current() == r.after && o == r.outcome &&
        (r.threshold.Some? ==> reader.compressionThreshold == r.threshold.value && writer.compressionThreshold == r.threshold.value) &&
        (r.threshold.None? ==> (reader.compressionThreshold == old(reader.compressionThreshold) &&
          writer.compressionThreshold == old(writer.compressionThreshold)))
      ensures writer.output == old(writer.output) && writer.errored == old(writer.errored)
      ensures reader.buffer == old(reader.buffer) && reader.output == old(reader.output) && reader.destroyed == old(reader.destroyed)
    {
      if !writable {
        return Done;
      }
      if paused {
        packets := packets + [buffer];
      } else {
        o := EmitPacket(buffer);
        if o.Threw? {
          return;
        }
      }
      var made := PacketReader.Open(buffer);
      if made.Err? {
        return Threw(made.error);
      }
      var packet := made.value;
      if isServer {
        if state == Handshake {
          o := ReadHandshake(packet);
        } else {
          o := Done;
        }
        return;
      }
      o := Done;
      if state == Login {
        if packet.id == 2 {
          SetState(Play);
        } else if packet.id == 3 {
          var t := packet.ReadVarInt();
          if t.Err? {
            return Threw(t.error);
          }
          SetCompression(t.value);
        }
      }
    }

    /** pause(): packets then go to the backlog. */
    method Pause()
      modifies this
      ensures Current() == old(Current()).(paused := true)
      ensures writable == old(writable) && serials == old(serials)
    {
      paused := true;
    }

    /** resume(): emits the backlog in order, stopping at the first check that
        finds the socket no longer writable (writableAt(i) is socket.writable
        when the i-th packet is reached), then empties the backlog and unpauses.
        A packet whose reader cannot be constructed throws out of the loop and
        leaves backlog and pause as they are. */
    method Resume(writableAt: nat -> bool) returns (o: Outcome)
      requires Valid()
      modifies this, events
      ensures Valid() && writable == old(writable) && serials == old(serials)
      ensures (Current(), o) == ResumeIn(old(Current()), writableAt)
    {
      ghost var c := Current();
      ghost var k := ChecksPassed(writableAt, 0, |packets|);
      var i := 0;
      assert packets[..0] == [];
      while i < |packets|
        invariant 0 <= i <= k <= |packets| && packets == c.backlog && paused == c.paused
        invariant ChecksPassed(writableAt, i, |packets|) == k
        invariant Valid() && writable == old(writable) && serials == old(serials)
        invariant Replay(c, packets[..i]) == Replayed(Current(), None)
      {
        if !writableAt(i) {
          break;
        }
        ReplayStep(c, packets, i);
        o := EmitPacket(packets[i]);
        if o.Threw? {
          ReplayStopsAt(c, packets, i, k);
          return;
        }
        i := i + 1;
      }
      assert i == k;
      packets := [];
      paused := false;
      o := Done;
    }

    /** onPacket(id?, handler): the handler gets each packet its filter accepts. */
    method OnPacket(filter: Option<int>, handler: nat) returns (d: Disposable<Event, Handler>)
      requires Valid()
      modifies this, events
      ensures Valid() && serials == old(serials) + 1
      ensures d == Disposable(PacketEvent, Call(PacketFilter(filter, handler, false, old(serials))))
      ensures events.handlers == old(events.handlers)[PacketEvent := Add(old(events.Get(PacketEvent)), d.callback)]
      ensures Current().(registry := old(events.handlers)) == old(Current())
    {
      d := events.On(PacketEvent, PacketFilter(filter, handler, false, serials));
      serials := serials + 1;
    }

    /** oncePacket(id, handler): the wrapper disposes of itself on the first packet with that id. */
    method OncePacket(id: int, handler: nat) returns (d: Disposable<Event, Handler>)
      requires Valid()
      modifies this, events
      ensures Valid() && serials == old(serials) + 1
      ensures d == Disposable(PacketEvent, Call(PacketFilter(Some(id), handler, true, old(serials))))
      ensures events.handlers == old(events.handlers)[PacketEvent := Add(old(events.Get(PacketEvent)), d.callback)]
      ensures Current().(registry := old(events.handlers)) == old(Current())
    {
      d := events.On(PacketEvent, PacketFilter(Some(id), handler, true, serials));
      serials := serials + 1;
    }

    /** nextPacket(id?): the promise resolves with the first packet the filter accepts. */
    method NextPacket(filter: Option<int>) returns (d: Disposable<Event, Handler>)
      requires Valid()
      modifies this, events
      ensures Valid() && serials == old(serials) + 1
      ensures d == Disposable(PacketEvent, Call(Resolver(filter, old(serials))))
      ensures events.handlers == old(events.handlers)[PacketEvent := Add(old(events.Get(PacketEvent)), d.callback)]
      ensures Current().(registry := old(events.handlers)) == old(Current())
    {
      d := events.On(PacketEvent, Resolver(filter, serials));
      serials := serials + 1;
    }

    /** onChangeState, onError and onEnd: on(event, handler) for those events. */
    method OnEvent(event: Event, handler: nat) returns (d: Disposable<Event, Handler>)
      requires Valid() && event != PacketEvent
      modifies events
      ensures Valid()
      ensures d == Disposable(event, Call(Listener(handler)))
      ensures events.handlers == old(events.handlers)[event := Add(old(events.Get(event)), d.callback)]
    {
      d := events.On(event, Listener(handler));
    }
  }

  /** A wrapper of oncePacket or nextPacket that an emit reached with a packet
      its filter accepts is no longer registered afterwards, so it delivers at
      most once; any other callback stays. */
  lemma ConsumedOnce(c: ConnState, buffer: seq<byte>, cb: Callback<Handler>)
    requires PacketEmittedIn(c, buffer).Ok?
    ensures var id := VarIntAt(buffer, 0).value.0;
      var after := PacketEmittedIn(c, buffer).value;
      cb in SetOf(after.registry, PacketEvent) <==> cb in SetOf(c.registry, PacketEvent) && !Disposes(cb, ConsumedBy(id))
  {
    SurvivorsMembers(SetOf(c.registry, PacketEvent), ConsumedBy(VarIntAt(buffer, 0).value.0));
  }
}
