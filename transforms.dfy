/** The framing streams of src/transforms.ts. Writer turns each packet body
    into a length-prefixed frame, Reader cuts the incoming byte stream back
    into packet bodies and keeps the bytes of an incomplete frame for the next
    chunk. With a compression threshold other than -1 every frame carries an
    inner "data length" VarInt: 0 for a body sent as is, the inflated size for
    a zlib-deflated body.

    zlib is not modelled: deflate and inflate are functions given to the
    streams, None standing for the error their callback reports. */
module Transforms {
  import opened Buffers
  import opened VarInt

  type Codec = seq<byte> -> Option<seq<byte>>

  // ---------------------------------------------------------------------------
  // Writer

  /** The frame Writer pushes for one packet body; None when deflate fails. */
  function FrameBytes(threshold: int, deflate: Codec, chunk: seq<byte>): Option<seq<byte>>
  {
    if threshold == -1 then Some(VarIntBytes(|chunk|) + chunk)
    else if |chunk| < threshold then Some(VarIntBytes(|chunk| + 1) + VarIntBytes(0) + chunk)
    else match deflate(chunk)
      case None => None
      case Some(z) =>
        var len := VarIntBytes(|chunk|);
        Some(VarIntBytes(|len| + |z|) + len + z)
  }

  class Writer {
    var compressionThreshold: int
    const deflate: Codec
    /** The frames pushed so far. */
    var output: seq<seq<byte>>
    /** Set once the transform callback has been given an error. */
    var errored: bool

    constructor (deflate: Codec)
      ensures compressionThreshold == -1 && this.deflate == deflate
      ensures output == [] && !errored
    {
      compressionThreshold := -1;
      this.deflate := deflate;
      output := [];
      errored := false;
    }

    /** _transform(chunk): pushes the frame of the chunk, or reports the deflate
        error. A stream that reported an error is destroyed and pushes nothing more. */
    method Transform(chunk: seq<byte>)
      modifies this
      ensures compressionThreshold == old(compressionThreshold)
      ensures old(errored) ==> output == old(output) && errored
      ensures !old(errored) ==> var f := FrameBytes(compressionThreshold, deflate, chunk);
        (f.Some? ==> output == old(output) + [f.value] && !errored) &&
        (f.None? ==> output == old(output) && errored)
    {
      if errored {
        return;
      }
      if compressionThreshold == -1 {
        output := output + [VarIntBytes(|chunk|) + chunk];
      } else if |chunk| < compressionThreshold {
        output := output + [VarIntBytes(|chunk| + 1) + VarIntBytes(0) + chunk];
      } else {
        var deflated := deflate(chunk);
        if deflated.None? {
          errored := true;
          return;
        }
        var len := EncodeVarInt(|chunk|);
        var packetLen := EncodeVarInt(|len| + |deflated.value|);
        output := output + [packetLen + len + deflated.value];
      }
    }
  }

  // ---------------------------------------------------------------------------
  // Reader: one turn of the loop

  /** What one turn of the reading loop does at an offset. */
  datatype Turn =
    | Incomplete                               // break: wait for more bytes
    | Packet(payload: seq<byte>, next: int)    // push payload, continue at next
    | Fatal                                    // destroy the stream

  /** The body of a complete frame whose content starts at `start`. In
      compressed mode the inner VarInt is decoded from the whole buffer, not
      just the frame; a failure there, or of inflate, destroys the stream. */
  function Payload(buf: seq<byte>, start: int, length: int, threshold: int, inflate: Codec): Option<seq<byte>>
  {
    if threshold == -1 then Some(Slice(buf, start, start + length))
    else match VarIntAt(buf, start)
      case Err(_) => None
      case Ok((len, off)) =>
        var body := Slice(buf, off, start + length);
        if len == 0 then Some(body) else inflate(body)
  }

  /** One turn of the loop as written: a negative length is taken at face
      value, so the next offset can be at or before the frame start. */
  function TurnAsWritten(buf: seq<byte>, offset: int, threshold: int, inflate: Codec): Turn
  {
    match VarIntAt(buf, offset)
    case Err(_) => Incomplete
    case Ok((length, start)) =>
      if start + length > |buf| then Incomplete
      else match Payload(buf, start, length, threshold, inflate)
        case None => Fatal
        case Some(p) => Packet(p, start + length)
  }

  /** A frame of five bytes announcing length -5 sends the loop back to where
      it started, with an empty slice as its payload each time (a zero-length
      push, which Node's stream ignores): the loop never ends. */
  lemma NegativeLengthLoops(inflate: Codec)
    ensures TurnAsWritten([0xfb, 0xff, 0xff, 0xff, 0x0f], 0, -1, inflate) == Packet([], 0)
  {
    var buf: seq<byte> := [0xfb, 0xff, 0xff, 0xff, 0x0f];
    assert ReadGroups(buf, 4, 4, 5) == Ok((0x0f, 5));
    assert ReadGroups(buf, 1, 1, 5) == Ok((0x1ff_ffff, 5));
    assert ReadGroups(buf, 0, 0, 5) == Ok((0xffff_fffb, 5));
    assert VarIntAt(buf, 0) == Ok((-5, 5));
  }

  /** The rest of a turn once the frame header announced `length` bytes from
      `start` on, with a negative length treated as a malformed frame that
      destroys the stream. */
  function FrameTurn(buf: seq<byte>, start: int, length: int, threshold: int, inflate: Codec): (t: Turn)
    ensures t.Packet? ==> 0 <= length && t.next == start + length <= |buf|
  {
    if start + length > |buf| then Incomplete
    else if length < 0 then Fatal
    else match Payload(buf, start, length, threshold, inflate)
      case None => Fatal
      case Some(p) => Packet(p, start + length)
  }

  /** The turn at the start of `rest`, the bytes from the loop's offset on,
      with `next` counted from that offset. */
  function Head(rest: seq<byte>, threshold: int, inflate: Codec): (t: Turn)
    ensures t.Packet? ==> 0 < t.next <= |rest|
  {
    match VarIntAt(rest, 0)
    case Err(_) => Incomplete
    case Ok((length, start)) =>
      VarIntAtOk(rest, 0);
      FrameTurn(rest, start, length, threshold, inflate)
  }

  /** Turn t with its next offset counted from k bytes further back. */
  function Advance(t: Turn, k: nat): Turn
  {
    if t.Packet? then Packet(t.payload, k + t.next) else t
  }

  /** One turn of the loop, corrected, at `offset`: a turn reads only the
      bytes from its offset on (an offset past the end has no header). */
  function Step(buf: seq<byte>, offset: nat, threshold: int, inflate: Codec): (t: Turn)
    ensures t.Packet? ==> offset < t.next <= |buf|
  {
    if offset <= |buf| then Advance(Head(buf[offset..], threshold, inflate), offset) else Incomplete
  }

  /** ... which is the turn read in place, as the loop does it: the header at
      `offset`, then the frame it announces. */
  lemma StepInPlace(buf: seq<byte>, offset: nat, threshold: int, inflate: Codec)
    ensures Step(buf, offset, threshold, inflate) ==
      match VarIntAt(buf, offset)
      case Err(_) => Incomplete
      case Ok((length, start)) => FrameTurn(buf, start, length, threshold, inflate)
  {
    if offset <= |buf| {
      VarIntAtDrop(buf, offset, offset);
      var h := VarIntAt(buf, offset);
      if h.Ok? {
        VarIntAtOk(buf, offset);
        FrameTurnDrop(buf, offset, h.value.1, h.value.0, threshold, inflate);
      }
    }
  }

  /** The correction changes nothing but the negative lengths. */
  lemma StepAgreesAsWritten(buf: seq<byte>, offset: nat, threshold: int, inflate: Codec)
    requires VarIntAt(buf, offset).Ok? ==> VarIntAt(buf, offset).value.0 >= 0
    ensures Step(buf, offset, threshold, inflate) == TurnAsWritten(buf, offset, threshold, inflate)
  {
    StepInPlace(buf, offset, threshold, inflate);
  }

  // ---------------------------------------------------------------------------
  // Reader: the whole loop

  /** The outcome of the reading loop over a buffer: the payloads pushed, the
      offset it stopped at, and whether it destroyed the stream. */
  datatype Scan = Scan(payloads: seq<seq<byte>>, stop: int, failed: bool)

  /** A turn function: what one turn of the loop does at an offset of a buffer. */
  type Stepper = (seq<byte>, nat) -> Turn

  /** The reading loop over the buffer from `offset` on, turn after turn;
      `stop` is the offset it breaks at. A turn that does not move forward
      within the buffer also ends it (Step never takes one). */
  function Loop(buf: seq<byte>, offset: nat, step: Stepper): (s: Scan)
    requires offset <= |buf|
    ensures offset <= s.stop <= |buf|
    decreases |buf| - offset
  {
    var t := step(buf, offset);
    if t.Packet? && offset < t.next <= |buf| then
      var rest := Loop(buf, t.next, step);
      Scan([t.payload] + rest.payloads, rest.stop, rest.failed)
    else Scan([], offset, t.Fatal?)
  }

  function Turns(threshold: int, inflate: Codec): Stepper
  {
    (b: seq<byte>, o: nat) => Step(b, o, threshold, inflate)
  }

  /** The loop of Reader with its compression threshold and inflate. */
  function Deframe(buf: seq<byte>, offset: nat, threshold: int, inflate: Codec): Scan
    requires offset <= |buf|
  {
    Loop(buf, offset, Turns(threshold, inflate))
  }

  /** The loop as one turn and the loop from where that turn leaves off. */
  lemma DeframeStep(buf: seq<byte>, offset: nat, threshold: int, inflate: Codec)
    requires offset <= |buf|
    ensures var t, d := Step(buf, offset, threshold, inflate), Deframe(buf, offset, threshold, inflate);
      if t.Packet? then
        var rest := Deframe(buf, t.next, threshold, inflate);
        d == Scan([t.payload] + rest.payloads, rest.stop, rest.failed)
      else d == Scan([], offset, t.Fatal?)
  {
    TurnsApply(buf, offset, threshold, inflate);
  }

  /** The loop's outcome, seen from a turn that stops it. */
  lemma DeframeStops(buf: seq<byte>, offset: nat, threshold: int, inflate: Codec, target: Scan, pushed: seq<seq<byte>>)
    requires offset <= |buf| && !Step(buf, offset, threshold, inflate).Packet?
    requires var d := Deframe(buf, offset, threshold, inflate);
      target == Scan(pushed + d.payloads, d.stop, d.failed)
    ensures target == Scan(pushed, offset, Step(buf, offset, threshold, inflate).Fatal?)
  {
    DeframeStep(buf, offset, threshold, inflate);
    assert pushed + [] == pushed;
  }

  /** The loop's outcome, seen from a turn that pushes a packet and moves on. */
  lemma DeframeMoves(buf: seq<byte>, offset: nat, threshold: int, inflate: Codec, target: Scan, pushed: seq<seq<byte>>)
    requires offset <= |buf| && Step(buf, offset, threshold, inflate).Packet?
    requires var d := Deframe(buf, offset, threshold, inflate);
      target == Scan(pushed + d.payloads, d.stop, d.failed)
    ensures var t := Step(buf, offset, threshold, inflate);
      var d := Deframe(buf, t.next, threshold, inflate);
      target == Scan(pushed + [t.payload] + d.payloads, d.stop, d.failed)
  {
    var t := Step(buf, offset, threshold, inflate);
    DeframeStep(buf, offset, threshold, inflate);
    AppendAssoc(pushed, [t.payload], Deframe(buf, t.next, threshold, inflate).payloads);
  }

  /** The buffer Reader keeps after a transform: untouched when the stream was
      destroyed, otherwise the bytes from where the loop stopped. */
  function Retained(buf: seq<byte>, s: Scan): seq<byte>
    requires 0 <= s.stop <= |buf|
  {
    if s.failed then buf else buf[s.stop..]
  }

  class Reader {
    var compressionThreshold: int
    var buffer: seq<byte>
    const inflate: Codec
    /** The packet bodies pushed so far. */
    var output: seq<seq<byte>>
    var destroyed: bool

    constructor (inflate: Codec)
      ensures compressionThreshold == -1 && buffer == [] && this.inflate == inflate
      ensures output == [] && !destroyed
    {
      compressionThreshold := -1;
      buffer := [];
      this.inflate := inflate;
      output := [];
      destroyed := false;
    }

    /** One turn of the loop at `offset`: the frame header, the bounds check
        and the payload, decoded from the buffer. */
    method NextTurn(offset: nat) returns (t: Turn)
      requires offset <= |buffer|
      ensures t == Step(buffer, offset, compressionThreshold, inflate)
    {
      StepInPlace(buffer, offset, compressionThreshold, inflate);
      var header := DecodeVarInt(buffer, offset);
      if header.Err? {
        return Incomplete;
      }
      var (length, start) := header.value;
      if start + length > |buffer| {
        return Incomplete;
      }
      if length < 0 {
        return Fatal;
      }
      VarIntAtOk(buffer, offset);
      if compressionThreshold == -1 {
        return Packet(Slice(buffer, start, start + length), start + length);
      }
      var inner := DecodeVarInt(buffer, start);
      if inner.Err? {
        return Fatal;
      }
      var (len, off) := inner.value;
      var body := Slice(buffer, off, start + length);
      if len == 0 {
        return Packet(body, start + length);
      }
      var inflated := inflate(body);
      if inflated.None? {
        return Fatal;
      }
      return Packet(inflated.value, start + length);
    }

    /** _transform(chunk). A destroyed stream takes no more chunks. */
    method Transform(chunk: seq<byte>)
      modifies this
      ensures compressionThreshold == old(compressionThreshold)
      ensures old(destroyed) ==> destroyed && output == old(output) && buffer == old(buffer)
      ensures !old(destroyed) ==>
        var s := Deframe(old(buffer) + chunk, 0, compressionThreshold, inflate);
        output == old(output) + s.payloads && destroyed == s.failed &&
        buffer == Retained(old(buffer) + chunk, s)
    {
      if destroyed {
        return;
      }
      buffer := buffer + chunk;
      var offset, pushed: seq<seq<byte>>, fatal := 0, [], false;
      ghost var target := Deframe(buffer, 0, compressionThreshold, inflate);
      assert target == Deframe(old(buffer) + chunk, 0, compressionThreshold, inflate);
      while true
        invariant 0 <= offset <= |buffer|
        invariant var d := Deframe(buffer, offset, compressionThreshold, inflate);
          target == Scan(pushed + d.payloads, d.stop, d.failed)
        modifies {}
        decreases |buffer| - offset
      {
        var t := NextTurn(offset);
        if !t.Packet? {
          DeframeStops(buffer, offset, compressionThreshold, inflate, target, pushed);
          fatal := t.Fatal?;
          break;
        }
        DeframeMoves(buffer, offset, compressionThreshold, inflate, target, pushed);
        pushed := pushed + [t.payload];
        offset := t.next;
      }
      assert target == Scan(pushed, offset, fatal);
      output := output + pushed;
      if fatal {
        destroyed := true;
      } else {
        buffer := buffer[offset..];
      }
    }
  }

  // ---------------------------------------------------------------------------
  // Properties of the reading loop

  lemma PayloadDrop(buf: seq<byte>, d: nat, start: int, length: nat, threshold: int, inflate: Codec)
    requires d <= start && start + length <= |buf|
    ensures Payload(buf[d..], start - d, length, threshold, inflate) == Payload(buf, start, length, threshold, inflate)
  {
    assert start - d + length == start + length - d;
    if threshold != -1 {
      CompressedPayloadDrop(buf, d, start, length, threshold, inflate);
    } else {
      BodyDrop(buf, d, start, start + length);
    }
  }

  lemma CompressedPayloadDrop(buf: seq<byte>, d: nat, start: int, length: nat, threshold: int, inflate: Codec)
    requires d <= start && start + length <= |buf| && threshold != -1
    ensures Payload(buf[d..], start - d, length, threshold, inflate) == Payload(buf, start, length, threshold, inflate)
  {
    var tail := buf[d..];
    VarIntAtDrop(buf, d, start);
    var inner := VarIntAt(buf, start);
    if inner.Ok? {
      var (len, off) := inner.value;
      VarIntAtEnd(buf, start);
      BodyDrop(buf, d, off, start + length);
      CompressedPayload(buf, start, length, threshold, inflate, len, off);
      CompressedPayload(tail, start - d, length, threshold, inflate, len, off - d);
    }
  }

  /** A compressed frame whose inner VarInt decodes: its body after the VarInt,
      inflated unless the inner length is zero. */
  lemma CompressedPayload(buf: seq<byte>, start: int, length: int, threshold: int, inflate: Codec, len: int, off: int)
    requires threshold != -1 && VarIntAt(buf, start) == Ok((len, off))
    ensures var body := Slice(buf, off, start + length);
      Payload(buf, start, length, threshold, inflate) == if len == 0 then Some(body) else inflate(body)
  {
  }

  lemma BodyDrop(buf: seq<byte>, d: nat, from: int, end: int)
    requires d <= from <= |buf| && d <= end <= |buf|
    ensures Slice(buf[d..], from - d, end - d) == Slice(buf, from, end)
  {
    SliceDrop(buf, d, from, end);
  }

  /** A frame read from the bytes after d is the same frame, offsets counted from d. */
  lemma FrameTurnDrop(buf: seq<byte>, d: nat, start: int, length: int, threshold: int, inflate: Codec)
    requires d <= |buf| && d <= start
    ensures FrameTurn(buf, start, length, threshold, inflate) ==
      Advance(FrameTurn(buf[d..], start - d, length, threshold, inflate), d)
  {
    if start + length <= |buf| && length >= 0 {
      PayloadDrop(buf, d, start, length, threshold, inflate);
    }
  }

  /** Bytes in front of the buffer move every offset and change nothing else. */
  lemma StepShift(pre: seq<byte>, buf: seq<byte>, offset: nat, threshold: int, inflate: Codec)
    ensures Step(pre + buf, |pre| + offset, threshold, inflate) == Advance(Step(buf, offset, threshold, inflate), |pre|)
  {
    if offset <= |buf| {
      DropPrefix(pre, buf, offset);
    }
  }

  lemma PayloadExtend(buf: seq<byte>, more: seq<byte>, start: nat, length: nat, threshold: int, inflate: Codec)
    requires start + length <= |buf|
    requires Payload(buf, start, length, threshold, inflate).Some?
    ensures Payload(buf + more, start, length, threshold, inflate) == Payload(buf, start, length, threshold, inflate)
  {
    if threshold == -1 {
      SliceExtend(buf, more, start, start + length);
    } else {
      VarIntAtExtend(buf, more, start);
      VarIntAtOk(buf, start);
      SliceExtend(buf, more, VarIntAt(buf, start).value.1, start + length);
    }
  }

  lemma HeadExtend(rest: seq<byte>, more: seq<byte>, threshold: int, inflate: Codec)
    requires Head(rest, threshold, inflate).Packet?
    ensures Head(rest + more, threshold, inflate) == Head(rest, threshold, inflate)
  {
    VarIntAtExtend(rest, more, 0);
    var (length, start) := VarIntAt(rest, 0).value;
    VarIntAtOk(rest, 0);
    PayloadExtend(rest, more, start, length, threshold, inflate);
  }

  /** Bytes arriving later do not change a turn that pushed a packet. */
  lemma StepExtend(buf: seq<byte>, more: seq<byte>, offset: nat, threshold: int, inflate: Codec)
    requires Step(buf, offset, threshold, inflate).Packet?
    ensures Step(buf + more, offset, threshold, inflate) == Step(buf, offset, threshold, inflate)
  {
    DropAppend(buf, more, offset);
    HeadExtend(buf[offset..], more, threshold, inflate);
  }

  /** Every turn within `buf` is the same turn, moved, within `pre + buf`. */
  ghost predicate ShiftsBy(step: Stepper, pre: seq<byte>, buf: seq<byte>)
  {
    forall o {:trigger step(buf, o)} :: 0 <= o <= |buf| ==> step(pre + buf, |pre| + o) == Advance(step(buf, o), |pre|)
  }

  /** Every turn within `buf` that pushes a packet stays within `buf`, and
      is the same turn within `buf + more`. */
  ghost predicate KeepsPackets(step: Stepper, buf: seq<byte>, more: seq<byte>)
  {
    forall o {:trigger step(buf, o)} :: 0 <= o <= |buf| && step(buf, o).Packet? ==>
      o < step(buf, o).next <= |buf| && step(buf + more, o) == step(buf, o)
  }

  lemma TurnsApply(buf: seq<byte>, offset: nat, threshold: int, inflate: Codec)
    ensures Turns(threshold, inflate)(buf, offset) == Step(buf, offset, threshold, inflate)
  {
  }

  lemma TurnShift(pre: seq<byte>, buf: seq<byte>, offset: nat, threshold: int, inflate: Codec)
    ensures var step := Turns(threshold, inflate);
      step(pre + buf, |pre| + offset) == Advance(step(buf, offset), |pre|)
  {
    var step := Turns(threshold, inflate);
    calc {
      step(pre + buf, |pre| + offset);
      == { TurnsApply(pre + buf, |pre| + offset, threshold, inflate); }
      Step(pre + buf, |pre| + offset, threshold, inflate);
      == { StepShift(pre, buf, offset, threshold, inflate); }
      Advance(Step(buf, offset, threshold, inflate), |pre|);
      == { TurnsApply(buf, offset, threshold, inflate); }
      Advance(step(buf, offset), |pre|);
    }
  }

  lemma ShiftsByEach(step: Stepper, pre: seq<byte>, buf: seq<byte>)
    requires forall o {:trigger step(buf, o)} :: 0 <= o <= |buf| ==> step(pre + buf, |pre| + o) == Advance(step(buf, o), |pre|)
    ensures ShiftsBy(step, pre, buf)
  {
  }

  lemma TurnsShift(pre: seq<byte>, buf: seq<byte>, threshold: int, inflate: Codec)
    ensures ShiftsBy(Turns(threshold, inflate), pre, buf)
  {
    var step := Turns(threshold, inflate);
    forall o {:trigger step(buf, o)} | 0 <= o <= |buf|
      ensures step(pre + buf, |pre| + o) == Advance(step(buf, o), |pre|)
    {
      TurnShift(pre, buf, o, threshold, inflate);
    }
    ShiftsByEach(step, pre, buf);
  }

  lemma TurnsKeepPackets(buf: seq<byte>, more: seq<byte>, threshold: int, inflate: Codec)
    ensures KeepsPackets(Turns(threshold, inflate), buf, more)
  {
    var step := Turns(threshold, inflate);
    forall o | 0 <= o <= |buf| && step(buf, o).Packet?
      ensures o < step(buf, o).next <= |buf| && step(buf + more, o) == step(buf, o)
    {
      TurnsApply(buf, o, threshold, inflate);
      TurnsApply(buf + more, o, threshold, inflate);
      StepExtend(buf, more, o, threshold, inflate);
    }
  }

  lemma {:induction false} LoopShift(pre: seq<byte>, buf: seq<byte>, offset: nat, step: Stepper)
    requires offset <= |buf| && ShiftsBy(step, pre, buf)
    ensures var d := Loop(buf, offset, step);
      Loop(pre + buf, |pre| + offset, step) == Scan(d.payloads, |pre| + d.stop, d.failed)
    decreases |buf| - offset
  {
    var t := step(buf, offset);
    if t.Packet? && offset < t.next <= |buf| {
      LoopShift(pre, buf, t.next, step);
    }
  }

  /** Bytes in front of the buffer move the loop's offsets and change nothing else. */
  lemma DeframeShift(pre: seq<byte>, buf: seq<byte>, offset: nat, threshold: int, inflate: Codec)
    requires offset <= |buf|
    ensures var d := Deframe(buf, offset, threshold, inflate);
      Deframe(pre + buf, |pre| + offset, threshold, inflate) == Scan(d.payloads, |pre| + d.stop, d.failed)
  {
    TurnsShift(pre, buf, threshold, inflate);
    LoopShift(pre, buf, offset, Turns(threshold, inflate));
  }

  lemma DeframePrefix(pre: seq<byte>, buf: seq<byte>, threshold: int, inflate: Codec)
    ensures var d := Deframe(buf, 0, threshold, inflate);
      Deframe(pre + buf, |pre|, threshold, inflate) == Scan(d.payloads, |pre| + d.stop, d.failed)
  {
    DeframeShift(pre, buf, 0, threshold, inflate);
  }

  /** The loop from offset k of `buf` is the loop over the bytes from k on. */
  lemma DeframeFrom(buf: seq<byte>, k: nat, threshold: int, inflate: Codec)
    requires k <= |buf|
    ensures var d := Deframe(buf[k..], 0, threshold, inflate);
      Deframe(buf, k, threshold, inflate) == Scan(d.payloads, k + d.stop, d.failed)
  {
    SplitAt(buf, k);
    DeframePrefix(buf[..k], buf[k..], threshold, inflate);
  }

  lemma {:induction false} LoopExtend(buf: seq<byte>, more: seq<byte>, offset: nat, step: Stepper)
    requires offset <= |buf| && KeepsPackets(step, buf, more)
    requires !Loop(buf, offset, step).failed
    ensures var d := Loop(buf, offset, step);
      var e := Loop(buf + more, d.stop, step);
      Loop(buf + more, offset, step) == Scan(d.payloads + e.payloads, e.stop, e.failed)
    decreases |buf| - offset
  {
    var t := step(buf, offset);
    if t.Packet? {
      LoopExtend(buf, more, t.next, step);
      var d' := Loop(buf, t.next, step);
      var e := Loop(buf + more, d'.stop, step);
      AppendAssoc([t.payload], d'.payloads, e.payloads);
    } else {
      var e := Loop(buf + more, offset, step);
      AppendEmpty(e.payloads);
    }
  }

  /** A loop that did not destroy the stream over `buf` does the same work
      over `buf + more`, then goes on from where it stopped. */
  lemma DeframeExtend(buf: seq<byte>, more: seq<byte>, offset: nat, threshold: int, inflate: Codec)
    requires offset <= |buf|
    requires !Deframe(buf, offset, threshold, inflate).failed
    ensures var d := Deframe(buf, offset, threshold, inflate);
      var e := Deframe(buf + more, d.stop, threshold, inflate);
      Deframe(buf + more, offset, threshold, inflate) == Scan(d.payloads + e.payloads, e.stop, e.failed)
  {
    TurnsKeepPackets(buf, more, threshold, inflate);
    LoopExtend(buf, more, offset, Turns(threshold, inflate));
  }

  /** Where the loop stopped, it stops again at once. */
  lemma {:induction false} LoopAtStop(buf: seq<byte>, offset: nat, step: Stepper)
    requires offset <= |buf|
    requires !Loop(buf, offset, step).failed
    ensures var d := Loop(buf, offset, step);
      Loop(buf, d.stop, step) == Scan([], d.stop, false)
    decreases |buf| - offset
  {
    var t := step(buf, offset);
    if t.Packet? && offset < t.next <= |buf| {
      LoopAtStop(buf, t.next, step);
    }
  }

  /** What the bytes left in the buffer hold: no complete frame. */
  lemma RetainedIsIncomplete(buf: seq<byte>, threshold: int, inflate: Codec)
    requires !Deframe(buf, 0, threshold, inflate).failed
    ensures var s := Deframe(buf, 0, threshold, inflate);
      Deframe(Retained(buf, s), 0, threshold, inflate) == Scan([], 0, false)
  {
    var s := Deframe(buf, 0, threshold, inflate);
    LoopAtStop(buf, 0, Turns(threshold, inflate));
    var r := buf[s.stop..];
    SplitAt(buf, s.stop);
    DeframeShift(buf[..s.stop], r, 0, threshold, inflate);
  }

  /** Feeding the reader two chunks pushes the same packets, destroys the
      stream in the same cases and leaves the same buffer as feeding it their
      concatenation, unless the first chunk already destroyed the stream. */
  lemma ChunkingIndependent(buffer: seq<byte>, a: seq<byte>, b: seq<byte>, threshold: int, inflate: Codec)
    requires !Deframe(buffer + a, 0, threshold, inflate).failed
    ensures var s1 := Deframe(buffer + a, 0, threshold, inflate);
      var mid := Retained(buffer + a, s1);
      var s2 := Deframe(mid + b, 0, threshold, inflate);
      var s := Deframe(buffer + a + b, 0, threshold, inflate);
      s.payloads == s1.payloads + s2.payloads && s.failed == s2.failed &&
      (!s.failed ==> Retained(buffer + a + b, s) == Retained(mid + b, s2))
  {
    var x := buffer + a;
    var s1 := Deframe(x, 0, threshold, inflate);
    DeframeExtend(x, b, 0, threshold, inflate);
    var y := x + b;
    DeframeFrom(y, s1.stop, threshold, inflate);
    DropAppend(x, b, s1.stop);
    var s2 := Deframe(x[s1.stop..] + b, 0, threshold, inflate);
    assert Deframe(y[s1.stop..], 0, threshold, inflate) == s2;
    var s := Deframe(y, 0, threshold, inflate);
    assert s.stop == s1.stop + s2.stop;
    DropDrop(y, s1.stop, s2.stop);
    assert y[s.stop..] == (x[s1.stop..] + b)[s2.stop..];
  }

  /** The reader's state after a sequence of `_transform` calls. */
  datatype Fed = Fed(payloads: seq<seq<byte>>, buffer: seq<byte>, destroyed: bool)

  /** Chunks fed one by one to a reader holding `buffer`, as Reader.Transform
      takes them: a destroyed stream takes no further chunk. */
  function Feed(buffer: seq<byte>, chunks: seq<seq<byte>>, threshold: int, inflate: Codec): Fed
    decreases |chunks|
  {
    if chunks == [] then Fed([], buffer, false)
    else
      var s := Deframe(buffer + chunks[0], 0, threshold, inflate);
      if s.failed then Fed(s.payloads, buffer + chunks[0], true)
      else
        var r := Feed(Retained(buffer + chunks[0], s), chunks[1..], threshold, inflate);
        Fed(s.payloads + r.payloads, r.buffer, r.destroyed)
  }

  /** No chunk but the last destroys the stream. */
  ghost predicate Survives(buffer: seq<byte>, chunks: seq<seq<byte>>, threshold: int, inflate: Codec)
    decreases |chunks|
  {
    |chunks| <= 1 ||
    var s := Deframe(buffer + chunks[0], 0, threshold, inflate);
    !s.failed && Survives(Retained(buffer + chunks[0], s), chunks[1..], threshold, inflate)
  }

  /** However the bytes are split into chunks, the reader pushes the same
      packets, destroys the stream in the same cases and keeps the same buffer
      as when they arrive as one chunk, unless a chunk before the last already
      destroyed the stream. */
  lemma {:induction false} FeedIsConcat(buffer: seq<byte>, chunks: seq<seq<byte>>, threshold: int, inflate: Codec)
    requires chunks != [] && Survives(buffer, chunks, threshold, inflate)
    ensures var f, s := Feed(buffer, chunks, threshold, inflate), Deframe(buffer + Concat(chunks), 0, threshold, inflate);
      f.payloads == s.payloads && f.destroyed == s.failed &&
      (!s.failed ==> f.buffer == Retained(buffer + Concat(chunks), s))
    decreases |chunks|
  {
    var a, rest := chunks[0], chunks[1..];
    assert chunks == [a] + rest;
    ConcatCons(a, rest);
    var s1 := Deframe(buffer + a, 0, threshold, inflate);
    if rest == [] {
      assert Concat(chunks) == a;
      AppendEmpty(s1.payloads);
    } else {
      var mid := Retained(buffer + a, s1);
      FeedIsConcat(mid, rest, threshold, inflate);
      ChunkingIndependent(buffer, a, Concat(rest), threshold, inflate);
      AppendAssoc(buffer, a, Concat(rest));
    }
  }

  // ---------------------------------------------------------------------------
  // Writer and Reader together

  /** The conditions under which a body survives the trip: its lengths are
      non-negative 32-bit integers and, when it is deflated, it is not empty
      (an empty body would announce data length 0 and be taken as sent as is)
      and inflate undoes deflate on it. */
  predicate Recoverable(threshold: int, deflate: Codec, inflate: Codec, p: seq<byte>)
  {
    |p| + 1 < 0x8000_0000 &&
    (threshold != -1 && |p| >= threshold ==>
      |p| > 0 && deflate(p).Some? &&
      |VarIntBytes(|p|)| + |deflate(p).value| < 0x8000_0000 &&
      inflate(deflate(p).value) == Some(p))
  }

  /** A frame read without compression. */
  lemma StepPlain(buf: seq<byte>, hlen: nat, length: nat, inflate: Codec)
    requires VarIntAt(buf, 0) == Ok((length, hlen)) && hlen + length <= |buf|
    ensures Step(buf, 0, -1, inflate) == Packet(buf[hlen..hlen + length], hlen + length)
  {
    StepInPlace(buf, 0, -1, inflate);
    SliceWithin(buf, hlen, hlen + length);
  }

  /** A frame read with compression on, given its two headers. */
  lemma StepCompressed(buf: seq<byte>, threshold: int, inflate: Codec, hlen: nat, length: nat, dataLength: int, ilen: nat)
    requires threshold != -1
    requires VarIntAt(buf, 0) == Ok((length, hlen)) && hlen + length <= |buf|
    requires VarIntAt(buf, hlen) == Ok((dataLength, hlen + ilen)) && ilen <= length
    ensures var body := buf[hlen + ilen..hlen + length];
      Step(buf, 0, threshold, inflate) ==
        if dataLength == 0 then Packet(body, hlen + length)
        else if inflate(body).Some? then Packet(inflate(body).value, hlen + length)
        else Fatal
  {
    var body := buf[hlen + ilen..hlen + length];
    calc {
      Step(buf, 0, threshold, inflate);
      == { StepInPlace(buf, 0, threshold, inflate); }
      FrameTurn(buf, hlen, length, threshold, inflate);
      == { CompressedPayload(buf, hlen, length, threshold, inflate, dataLength, hlen + ilen);
           SliceWithin(buf, hlen + ilen, hlen + length);
           assert Slice(buf, hlen + ilen, hlen + length) == body; }
      if dataLength == 0 then Packet(body, hlen + length)
      else if inflate(body).Some? then Packet(inflate(body).value, hlen + length)
      else Fatal;
    }
  }

  lemma StepOfFrame(threshold: int, deflate: Codec, inflate: Codec, p: seq<byte>, rest: seq<byte>)
    requires Recoverable(threshold, deflate, inflate, p)
    ensures FrameBytes(threshold, deflate, p).Some?
    ensures var f := FrameBytes(threshold, deflate, p).value;
      Step(f + rest, 0, threshold, inflate) == Packet(p, |f|)
  {
    if threshold == -1 {
      StepOfPlainFrame(inflate, p, rest);
    } else if |p| < threshold {
      StepOfShortFrame(threshold, inflate, p, rest);
    } else {
      StepOfDeflatedFrame(threshold, deflate, inflate, p, rest);
    }
  }

  lemma StepOfPlainFrame(inflate: Codec, p: seq<byte>, rest: seq<byte>)
    requires |p| < 0x8000_0000
    ensures var f := VarIntBytes(|p|) + p;
      Step(f + rest, 0, -1, inflate) == Packet(p, |f|)
  {
    var h := VarIntBytes(|p|);
    var buf := h + p + rest;
    assert buf == h + (p + rest);
    VarIntRoundTripInRange(|p|, p + rest);
    assert buf[|h|..|h| + |p|] == p;
    StepPlain(buf, |h|, |p|, inflate);
  }

  lemma StepOfShortFrame(threshold: int, inflate: Codec, p: seq<byte>, rest: seq<byte>)
    requires threshold != -1 && |p| + 1 < 0x8000_0000
    ensures var f := VarIntBytes(|p| + 1) + VarIntBytes(0) + p;
      Step(f + rest, 0, threshold, inflate) == Packet(p, |f|)
  {
    var h := VarIntBytes(|p| + 1);
    assert VarIntBytes(0) == [0];
    var inner := [0] + p + rest;
    var buf := h + VarIntBytes(0) + p + rest;
    assert buf == h + inner;
    VarIntRoundTripInRange(|p| + 1, inner);
    VarIntRoundTripInRange(0, p + rest);
    VarIntAtShift(h, inner, 0);
    assert buf[|h| + 1..|h| + 1 + |p|] == p;
    StepCompressed(buf, threshold, inflate, |h|, |p| + 1, 0, 1);
  }

  lemma StepOfDeflatedFrame(threshold: int, deflate: Codec, inflate: Codec, p: seq<byte>, rest: seq<byte>)
    requires threshold != -1 && |p| >= threshold
    requires Recoverable(threshold, deflate, inflate, p)
    ensures var z := deflate(p).value;
      var len := VarIntBytes(|p|);
      var f := VarIntBytes(|len| + |z|) + len + z;
      Step(f + rest, 0, threshold, inflate) == Packet(p, |f|)
  {
    var z := deflate(p).value;
    var len := VarIntBytes(|p|);
    var h := VarIntBytes(|len| + |z|);
    var inner := len + (z + rest);
    var buf := h + len + z + rest;
    assert buf == h + inner;
    VarIntRoundTripInRange(|len| + |z|, inner);
    VarIntRoundTripInRange(|p|, z + rest);
    VarIntAtShift(h, inner, 0);
    assert buf[|h| + |len|..|h| + |len| + |z|] == z;
    StepCompressed(buf, threshold, inflate, |h|, |len| + |z|, |p|, |len|);
  }

  /** The bytes Writer emits for a sequence of bodies. */
  function Wire(threshold: int, deflate: Codec, ps: seq<seq<byte>>): seq<byte>
    requires forall i :: 0 <= i < |ps| ==> FrameBytes(threshold, deflate, ps[i]).Some?
  {
    if ps == [] then [] else FrameBytes(threshold, deflate, ps[0]).value + Wire(threshold, deflate, ps[1..])
  }

  /** Reader recovers exactly the bodies Writer framed, and keeps whatever
      incomplete frame follows them. */
  lemma {:induction false} RoundTrip(threshold: int, deflate: Codec, inflate: Codec, ps: seq<seq<byte>>, tail: seq<byte>)
    requires forall i :: 0 <= i < |ps| ==> Recoverable(threshold, deflate, inflate, ps[i])
    requires Deframe(tail, 0, threshold, inflate) == Scan([], 0, false)
    ensures forall i :: 0 <= i < |ps| ==> FrameBytes(threshold, deflate, ps[i]).Some?
    ensures var w := Wire(threshold, deflate, ps);
      Deframe(w + tail, 0, threshold, inflate) == Scan(ps, |w|, false)
  {
    forall i | 0 <= i < |ps| {
      StepOfFrame(threshold, deflate, inflate, ps[i], []);
    }
    if ps != [] {
      var f := FrameBytes(threshold, deflate, ps[0]).value;
      RoundTrip(threshold, deflate, inflate, ps[1..], tail);
      var w' := Wire(threshold, deflate, ps[1..]);
      var buf := f + (w' + tail);
      AppendAssoc(f, w', tail);
      assert Wire(threshold, deflate, ps) + tail == buf;
      StepOfFrame(threshold, deflate, inflate, ps[0], w' + tail);
      DeframePrefix(f, w' + tail, threshold, inflate);
      assert Deframe(buf, |f|, threshold, inflate) == Scan(ps[1..], |f| + |w'|, false);
      ConsSplit(ps);
      assert Deframe(buf, 0, threshold, inflate) == Scan(ps, |f| + |w'|, false);
      assert |Wire(threshold, deflate, ps)| == |f| + |w'|;
    } else {
      AppendEmpty(tail);
    }
  }
}
