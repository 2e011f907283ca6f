# mcproto protocol engine in Dafny

This project models the byte-level core of mcproto, a TypeScript library for
the block-game network protocol, and proves properties of that model. It covers:

- the VarInt/VarLong codec (`src/varint.ts`);
- the packet cursor `PacketReader` and the growable builder `PacketWriter`
  (`src/packet.ts`);
- the framing streams `Writer` and `Reader` with their compression threshold
  (`src/transforms.ts`);
- the insertion-ordered handler registry `Emitter` (`src/events.ts`);
- the `Connection` state machine with its pause/backlog/resume queue
  (`src/connection.ts`);
- the older `Connection` with its inline deframing loop and splitter
  (`src/Connection.ts`);
- the server-hash helpers `mcHexDigest`, `performTwosCompliment` and
  `mcPublicKeyToPem` (`src/utils.ts`, repeated in `lib/utils.ts`).

Modules, one per source file, plus a shared base:

| module | file | source |
|---|---|---|
| `Buffers` | `buffers.dfy` | the Node `Buffer` operations the source relies on: clamped `slice`, big-endian fields, two's complement |
| `VarInt` | `varint.dfy` | `src/varint.ts` |
| `Packet` | `packet.dfy` | `src/packet.ts` |
| `Transforms` | `transforms.dfy` | `src/transforms.ts` |
| `Events` | `events.dfy` | `src/events.ts` |
| `Connection` | `connection.dfy` | `src/connection.ts` |
| `LegacyConnection` | `legacy_connection.dfy` | `src/Connection.ts` |
| `ServerHash` | `utils.dfy` | `src/utils.ts` and `lib/utils.ts` |

The form follows the source:

- Code that updates state step by step is a class with `modifies` clauses:
  - `PacketReader` and `PacketWriter`, where the writer keeps its doubling `array`;
  - the `Writer` and `Reader` streams;
  - `Emitter`;
  - both `Connection` classes;
  - the in-place negation of a byte `array`.
- Loops are `while` loops, proved against a specification function.
- The specification functions of the connections (`SendIn`, `PacketReceivedIn`,
  `ResumeIn`, `PacketIn`, `Drain`, ...) describe each operation's effect on the
  observable state. Its properties are lemmas about those functions.

How JavaScript and Node semantics are written out:

- Numbers are unbounded `int`s, and a byte is an `int` in 0..255.
- `>>>`, `<<` and `|=` on 32-bit patterns are written with `% 2^32`. The
  `<<` count is taken mod 32.
- ToInt32 is the function `VarInt.Int32`.
- A read past the end of a buffer is Node's range error, modelled as
  `Err(OutOfRange)`. "Varint too big!" is `Err(VarIntTooBig)`.
- `Buffer.slice` clamps its indices and counts negative ones from the end.

`lib/utils.ts` holds the same three helper functions as `src/utils.ts`, with
the same statements in the same order (only the formatting differs). They are
modelled once, by the members of `ServerHash`; the table names the lib lines
beside the src ones. So `lib/utils.ts` computes the same results as `src/utils.ts` by
construction, not by a separate proof.

## Model

| member | source | states |
|---|---|---|
| Buffers.SliceIndex | src/packet.ts:14 | an index given to `Buffer.slice` ends up in [0, length], and an index already in range is kept |
| Buffers.SliceWithin | src/transforms.ts:57 | `slice(i, j)` with both indices in range is the bytes from i to j, or empty when i >= j |
| Buffers.BigEndianOfBytes | src/packet.ts:111-139 | the big-endian bytes of x, read back big-endian, give x |
| Buffers.Signed | src/packet.ts:29-47 | the signed reading of a width-byte pattern lies in [-2^(8w-1), 2^(8w-1)); it equals the pattern when non-negative, and is the pattern minus 256^w when negative |
| Buffers.TwosComplement | src/packet.ts:105-133 | the pattern a signed write stores is below 256^w and reads back as the same signed value |
| VarInt.Uint32 | src/varint.ts:35 | ToUint32 behind `>>>=`: a value in [0, 2^32) congruent to the input mod 2^32 |
| VarInt.Int32 | src/varint.ts:16 | ToInt32 of the accumulated `result`: a signed 32-bit value congruent to the input mod 2^32 |
| VarInt.ShiftLeft32 | src/varint.ts:16 | `value << count` keeps only 32 bits |
| VarInt.AccumulateGroup | src/varint.ts:16 | for the k-th group (k <= 4), the or-assignment of `value << 7k` into `result` adds value * 128^k mod 2^32 |
| VarInt.GroupsShape | src/varint.ts:31-40 | an encoding has at least one byte; every byte but the last has bit 0x80 set and the last has it clear |
| VarInt.GroupsLength | src/varint.ts:33-38 | the encoding is minimal: v < 128^len, and v >= 128^(len-1) when len > 1 |
| VarInt.GroupsLengthBound | src/varint.ts:33-38 | a value below 128^k needs at most k bytes |
| VarInt.VarIntLength | src/varint.ts:31-40 | encodeVarInt of any number emits 1 to 5 bytes |
| VarInt.VarLongLength | src/varint.ts:52-60 | writeVarLong of any number emits 1 to 10 bytes |
| VarInt.ReadGroupsStep | src/varint.ts:14-18 | one turn of the decode loop on a continuation byte adds its low 7 bits at weight 128^numRead and moves on |
| VarInt.ReadGroupsLast | src/varint.ts:14-19 | a byte without the continuation bit ends the loop at the offset after it |
| VarInt.ReadGroupsOfGroups | src/varint.ts:12-20 | decoding the groups of v gives v and the offset just past them |
| VarInt.VarIntRoundTrip | src/varint.ts:12-40 | decodeVarInt at off of encodeVarInt(x) gives x read as signed 32-bit, with offset off + its length, whatever surrounds it |
| VarInt.VarIntRoundTripInRange | src/varint.ts:12-40 | for x in the signed 32-bit range, decodeVarInt(encodeVarInt(x) ++ rest, 0) gives x exactly, with offset the encoding's length |
| VarInt.VarLongRoundTrip | src/varint.ts:42-60 | decodeVarLong of writeVarLong(x) gives x mod 2^64 and the offset after it |
| VarInt.VarIntAtOk | src/varint.ts:14-19 | a successful decode consumed 1 to 5 bytes: continuation bits on all but the last |
| VarInt.VarIntAtErr | src/varint.ts:15-17 | a failed decode only saw continuation bytes; it is "Varint too big!" iff five continuation bytes were read with a sixth byte present, otherwise the buffer ended first (range error) |
| VarInt.VarLongAtErr | src/varint.ts:45-47 | the same for VarLong with ten groups: too big iff ten continuation bytes precede a further byte |
| VarInt.VarIntAtShift | src/varint.ts:12-20 | decoding after a prefix gives the same value and an offset shifted by the prefix length |
| VarInt.VarIntAtDrop | src/varint.ts:12-20 | dropping bytes before the offset shifts the offset back and changes nothing else |
| VarInt.VarIntAtExtend | src/varint.ts:12-20 | a decode that did not run off the end is unchanged by more bytes after the buffer |
| VarInt.EncodeVarInt | src/varint.ts:31-40 | the do-while loop returns exactly the groups of ToUint32(x) |
| VarInt.ByteSink.WriteByte | src/varint.ts:27 | the writeByte callback appends one byte |
| VarInt.WriteVarInt | src/varint.ts:22-29 | writeByte is handed exactly the bytes of encodeVarInt(x), in order |
| VarInt.WriteVarLong | src/varint.ts:52-60 | writeByte is handed the groups of x mod 2^64, in order |
| VarInt.DecodeVarInt | src/varint.ts:12-20 | the loop returns the value and offset of VarIntAt, or its error |
| VarInt.DecodeVarLong | src/varint.ts:42-50 | the BigInt loop returns the value and offset of VarLongAt, or its error |
| VarInt.ByteSource.ReadByte | src/varint.ts:5 | readByte yields the next byte and advances, or fails at the end |
| VarInt.ReadVarInt | src/varint.ts:2-10 | reading through readByte gives the value decodeVarInt gives on the same bytes, and consumes exactly its bytes |
| Packet.UIntAt | src/packet.ts:33-51 | an unsigned big-endian read succeeds iff the field lies inside the buffer; otherwise it is a range error; the value is below 256^width |
| Packet.IntAt | src/packet.ts:29-47 | a signed read succeeds exactly when the unsigned one does, with a value in the signed range |
| Packet.IntBytes | src/packet.ts:105-133 | a signed write stores exactly width bytes |
| Packet.UIntRoundTrip | src/packet.ts:111-139 | a writeUIntNBE(x) field read with readUIntNBE anywhere in a buffer gives x (e.g. writeUInt16 then readUInt16) |
| Packet.IntRoundTrip | src/packet.ts:105-133 | a writeIntNBE(x) field read with readIntNBE gives x |
| Packet.StringRoundTrip | src/packet.ts:90-94 | writeString's length-prefixed bytes read back with readString give the same bytes and the offset after them |
| Packet.StringAtTruncates | src/packet.ts:17-19 | readString with a length past the end returns only the bytes up to the end (slice clamps) |
| Packet.PacketReader.constructor | src/packet.ts:9-11 | the id is the first VarInt and the cursor sits after it |
| Packet.PacketReader.ReadVarInt | src/packet.ts:61-65 | returns the VarInt at the cursor and moves the cursor past it; the error of decodeVarInt otherwise, cursor unchanged |
| Packet.PacketReader.Read | src/packet.ts:13-15 | returns slice [offset, offset+n) and advances the offset by exactly n |
| Packet.PacketReader.ReadString | src/packet.ts:17-19 | returns the string bytes at the cursor and moves past them |
| Packet.PacketReader.ReadUInt | src/packet.ts:33-51 | the big-endian unsigned field at the cursor; the offset advances by the width even when the read throws |
| Packet.PacketReader.ReadInt | src/packet.ts:29-47 | the big-endian signed field at the cursor; the offset advances by the width |
| Packet.PacketReader.ReadUInt8 | src/packet.ts:33-35 | one unsigned byte; the offset advances by 1 |
| Packet.PacketReader.ReadInt8 | src/packet.ts:29-31 | one signed byte; the offset advances by 1 |
| Packet.PacketReader.ReadUInt16 | src/packet.ts:41-43 | two bytes, big-endian; the offset advances by 2 |
| Packet.PacketReader.ReadInt16 | src/packet.ts:37-39 | two bytes, big-endian, signed; the offset advances by 2 |
| Packet.PacketReader.ReadUInt32 | src/packet.ts:49-51 | four bytes, big-endian; the offset advances by 4 |
| Packet.PacketReader.ReadInt32 | src/packet.ts:45-47 | four bytes, big-endian, signed; the offset advances by 4 |
| Packet.PacketReader.ReadBool | src/packet.ts:25-27 | true iff the byte at the cursor is not 0 |
| Packet.Capacity | src/packet.ts:77-81 | the doubled capacity covers what is needed, is unchanged when it already does, and stays below twice the need |
| Packet.PacketWriter.constructor | src/packet.ts:69-75 | a fresh writer holds exactly the id's VarInt |
| Packet.PacketWriter.Extend | src/packet.ts:77-81 | the loop ends with room for len more bytes, with the capacity only ever doubled and the written bytes kept |
| Packet.PacketWriter.Write | src/packet.ts:83-88 | the bytes are placed after those written, the offset advances by their length, and earlier bytes are unchanged |
| Packet.PacketWriter.WriteUInt | src/packet.ts:111-139 | a Node unsigned write: appends the big-endian bytes iff the value is in range, and otherwise throws with nothing appended |
| Packet.PacketWriter.WriteInt | src/packet.ts:105-133 | the same for signed writes |
| Packet.PacketWriter.WriteUInt8 | src/packet.ts:111-115 | appends [x] iff 0 <= x < 256 |
| Packet.PacketWriter.WriteInt8 | src/packet.ts:105-109 | appends x's byte pattern iff -128 <= x < 128 |
| Packet.PacketWriter.WriteUInt16 | src/packet.ts:123-127 | appends [x / 256, x % 256] iff 0 <= x < 65536 |
| Packet.PacketWriter.WriteInt16 | src/packet.ts:117-121 | appends the 2-byte pattern iff x is a signed 16-bit value |
| Packet.PacketWriter.WriteUInt32 | src/packet.ts:135-139 | appends the 4 big-endian bytes iff x is an unsigned 32-bit value |
| Packet.PacketWriter.WriteInt32 | src/packet.ts:129-133 | appends the 4-byte pattern iff x is a signed 32-bit value |
| Packet.PacketWriter.WriteBool | src/packet.ts:100-103 | appends 1 for true, 0 for false |
| Packet.PacketWriter.WriteVarInt | src/packet.ts:153-156 | appends encodeVarInt(x) |
| Packet.PacketWriter.WriteString | src/packet.ts:90-94 | appends the VarInt byte length, then the bytes |
| Packet.PacketWriter.Encode | src/packet.ts:158-160 | returns exactly the bytes written: the id VarInt followed by every write, in order |
| Packet.EncodeThenRead | src/packet.ts:9-11 | a reader of a writer's encoding recovers the id (as signed 32-bit), with its cursor at \|encodeVarInt(id)\| where the body starts |
| Transforms.Writer.constructor | src/transforms.ts:5-6 | a new Writer has threshold -1 and has pushed nothing |
| Transforms.Writer.Transform | src/transforms.ts:8-28 | pushes the frame of the chunk (plain; VarInt(\|P\|+1), 0, P below the threshold; outer length, \|P\|, deflate(P) at or above it), or reports the deflate error and pushes nothing; once it has reported an error the stream is destroyed and later chunks push nothing |
| Transforms.NegativeLengthLoops | src/transforms.ts:45-57 | as written, a frame announcing length -5 takes the empty slice as its payload and sends the loop back to offset 0, so the loop never ends |
| Transforms.FrameTurn | src/transforms.ts:50-78 | corrected turn: it pushes only for a non-negative length whose frame lies in the buffer, and continues at offset + length |
| Transforms.Head | src/transforms.ts:42-78 | a turn that pushes moves forward, within the bytes from its offset |
| Transforms.Step | src/transforms.ts:42-78 | every pushing turn moves the offset strictly forward and stays within the buffer |
| Transforms.StepInPlace | src/transforms.ts:42-78 | the corrected turn equals reading the header at the offset in place, as the loop does |
| Transforms.StepAgreesAsWritten | src/transforms.ts:42-78 | whenever the announced length is not negative, the corrected turn is the turn as written |
| Transforms.Loop | src/transforms.ts:41-79 | the loop stops at an offset between its start and the end of the buffer |
| Transforms.Reader.constructor | src/transforms.ts:31-33 | a new Reader has threshold -1 and an empty buffer |
| Transforms.Reader.NextTurn | src/transforms.ts:42-78 | one turn of the while loop computes Step at the current offset |
| Transforms.Reader.Transform | src/transforms.ts:35-83 | pushes the payloads of every complete frame of buffer ++ chunk, in order; keeps the bytes from where the loop stopped; an inflate or inner-header failure destroys the stream, after which nothing more is pushed; corrected: a negative frame length also destroys the stream (see ## Findings) |
| Transforms.StepShift | src/transforms.ts:42-53 | a turn after a prefix is the same turn, shifted |
| Transforms.StepExtend | src/transforms.ts:44-53 | a complete frame reads the same whatever bytes follow |
| Transforms.DeframeShift | src/transforms.ts:41-79 | the loop after a prefix pushes the same packets and stops at the shifted offset |
| Transforms.DeframeExtend | src/transforms.ts:41-79 | more bytes after the buffer only add packets after those already found |
| Transforms.RetainedIsIncomplete | src/transforms.ts:81 | the kept buffer holds no complete frame: deframing it again pushes nothing |
| Transforms.ChunkingIndependent | src/transforms.ts:35-83 | feeding a then b pushes the same packets, and keeps the same buffer, as feeding a ++ b at once |
| Transforms.FeedIsConcat | src/transforms.ts:35-83 | any split of the bytes into chunks, fed one `_transform` call each, pushes the same packets, destroys the stream in the same cases and keeps the same buffer as the whole at once, unless a chunk before the last destroyed it |
| Transforms.StepPlain | src/transforms.ts:56-57 | with threshold -1 a complete frame pushes its body |
| Transforms.StepCompressed | src/transforms.ts:59-73 | with compression, inner length 0 pushes the rest of the frame verbatim, otherwise its inflation, and an inflate failure is fatal |
| Transforms.StepOfPlainFrame | src/transforms.ts:9-10 | Reader reads VarInt(\|P\|) ++ P back as P |
| Transforms.StepOfShortFrame | src/transforms.ts:12-16 | Reader reads VarInt(\|P\|+1) ++ [0] ++ P back as P |
| Transforms.StepOfDeflatedFrame | src/transforms.ts:18-23 | a deflated frame, with outer length \|VarInt(\|P\|)\| + \|deflate(P)\| and inner length \|P\|, is read back as P when inflate inverts deflate |
| Transforms.StepOfFrame | src/transforms.ts:8-28 | every frame Writer builds is read back by Reader at the same threshold as its payload |
| Transforms.RoundTrip | src/transforms.ts:8-83 | Reader fed Writer's frames of P1..Pn pushes exactly P1..Pn in order and stops after them (empty buffer when nothing follows) |
| Events.Add | src/events.ts:13-14 | Set.add: the handler is present; the set grows by one iff it was new, at the end; order and no-duplicates are kept |
| Events.RemoveMembers | src/events.ts:32 | Set.delete: exactly that handler is removed, nothing changes when it is absent, and the size drops by one when present |
| Events.SurvivorsMembers | src/events.ts:40 | after an emit, the handlers left are those of the set that did not dispose themselves; no once-wrapper survives |
| Events.Emitter.constructor | src/events.ts:8 | no handlers |
| Events.Emitter.Register | src/events.ts:11-14 | the event's set gets the callback added, created if missing |
| Events.Emitter.On | src/events.ts:10-19 | adds the handler to the event's set and returns its disposable |
| Events.Emitter.Once | src/events.ts:21-27 | registers a new wrapper of the handler and returns that wrapper's disposable |
| Events.Emitter.Off | src/events.ts:29-33 | false when the event has no set; otherwise removes the handler and returns whether it was present |
| Events.Emitter.Dispose | src/events.ts:16-18 | removes only that callback from that event, returning true iff it was present |
| Events.Emitter.Emit | src/events.ts:37-42 | calls the snapshot of the set in order, returns true iff it was non-empty, and leaves the set without the callbacks that disposed themselves |
| Events.OnThenEmit | src/events.ts:37-42 | after on(e, h), emit(e) invokes h and returns true |
| Events.OnTwice | src/events.ts:13-14 | registering a handler twice does not duplicate it |
| Events.OnceThenEmitTwice | src/events.ts:21-27 | a once handler runs on the first emit and not on the second |
| Connection.ConsumesOnlyReceivers | src/connection.ts:112-118 | a handler disposes itself on a packet only if it receives it; plain listeners and onPacket handlers never do |
| Connection.HandshakeAtFields | src/connection.ts:173-175 | reading protocol, host, port and next state in sequence gives those fields |
| Connection.HandshakeRoundTrip | src/connection.ts:125-130 | reading a handshake built from (protocol, host, port, next) gives protocol and next (as signed 32-bit) and ends after it |
| Connection.SetStateIn | src/connection.ts:158-161 | the state is always assigned, and ChangeState is emitted iff it differs from the old one |
| Connection.PacketEmittedIn | src/connection.ts:167 | emits the packet to the current handlers in order; throws, changing nothing, iff its id cannot be decoded |
| Connection.ChecksPassed | src/connection.ts:97-101 | the writable checks passed before resume stops are the first ones, up to the first failing check |
| Connection.NotWritableIgnored | src/connection.ts:164 | when the socket is not writable a received packet changes nothing: no emit, no backlog, no state change |
| Connection.PausedQueues | src/connection.ts:166 | while paused the packet goes to the backlog and only ChangeState may be emitted |
| Connection.UnpausedEmitsFirst | src/connection.ts:167-169 | when not paused the packet is emitted before any state logic runs |
| Connection.ServerHandshake | src/connection.ts:171-177 | a server's first handshake sets the protocol and the state from its fields |
| Connection.ServerStateSettled | src/connection.ts:171-177 | outside Handshake a server's state and protocol never change |
| Connection.ClientLogin | src/connection.ts:180-183 | a client in Login moves to Play on 0x2 and takes the threshold from 0x3; outside Login nothing changes |
| Connection.SendHandshake | src/connection.ts:125-130 | a client's send in Handshake sets the protocol and state from the outgoing packet; a server's send does not |
| Connection.ReplayInOrder | src/connection.ts:97-101 | resume emits a prefix of the backlog in order, stopping only at a packet whose id cannot be decoded |
| Connection.ReplayStops | src/connection.ts:97-101 | once a replay has thrown, later packets are not emitted |
| Connection.ReplayStep | src/connection.ts:97-101 | each further packet of the backlog is emitted at its turn |
| Connection.ReadHandshakeFields | src/connection.ts:173-175 | the reader's four reads give HandshakeAt at its offset and move it past the fields |
| Connection.ConsumedOnce | src/connection.ts:69-75 | after an emit a oncePacket or nextPacket wrapper is gone iff it accepted the packet's id |
| Connection.Connection.constructor | src/connection.ts:31-43 | a new connection is in Handshake with protocol -1, not paused, with an empty backlog and both streams at threshold -1 |
| Connection.Connection.SetState | src/connection.ts:158-161 | the state changes as SetStateIn says |
| Connection.Connection.EmitPacket | src/connection.ts:167 | emits as PacketEmittedIn says |
| Connection.Connection.ReadHandshake | src/connection.ts:173-175 | stores the protocol as soon as it is read and the state only when every field was read |
| Connection.Connection.Send | src/connection.ts:120-136 | the state changes as SendIn says, and the frame of the bytes reaches the Writer unless the handshake could not be read or the Writer has already reported a deflate error |
| Connection.Connection.SetCompression | src/connection.ts:143-147 | sets the same threshold on Reader and Writer; a server first sends packet 0x3 with the threshold, which a Writer that already reported a deflate error does not push |
| Connection.Connection.PacketReceived | src/connection.ts:163-184 | does what PacketReceivedIn says, setting the threshold on both streams when a 0x3 arrives |
| Connection.Connection.Pause | src/connection.ts:89-93 | sets paused and nothing else |
| Connection.Connection.Resume | src/connection.ts:95-105 | does what ResumeIn says: emits the backlog in order up to the first failed writable check, then clears it and unpauses |
| Connection.Connection.OnPacket | src/connection.ts:59-67 | registers a filter wrapper that delivers only packets whose id matches (or every packet without an id) |
| Connection.Connection.OncePacket | src/connection.ts:69-75 | registers a one-shot filter wrapper for the id |
| Connection.Connection.NextPacket | src/connection.ts:112-118 | registers a resolver that takes the first matching packet and then disposes itself |
| Connection.Connection.OnEvent | src/connection.ts:77-87 | onChangeState, onError and onEnd add the handler to that event's set |
| LegacyConnection.AsWrittenDataLength | src/Connection.ts:72-76 | as written, the inner length field of a deflated frame holds the deflated size |
| LegacyConnection.CorrectedDataLength | src/transforms.ts:18-23 | in the corrected frame the inner length is the size before deflation, which differs from the as-written field whenever deflate changes the length |
| LegacyConnection.CutFrame | src/Connection.ts:47-58 | what a turn keeps is a suffix of the buffer; a frame that keeps all of it delivers an empty packet; a failed turn is never normal |
| LegacyConnection.FrameCut | src/Connection.ts:49-58 | the bytes after a complete frame are kept as they are |
| LegacyConnection.CutAgrees | src/Connection.ts:43-62 | with a non-negative length and the inner header within the frame, the inline turn agrees with the turn of src/transforms.ts |
| LegacyConnection.CutOfFrame | src/Connection.ts:43-62 | the inline reader reads a frame built as in src/transforms.ts back as its payload, keeping what follows |
| LegacyConnection.SendIn | src/Connection.ts:99-108 | nothing at all when not writable; otherwise the frame is pushed and only in Handshake does the state change |
| LegacyConnection.StateLogic | src/Connection.ts:120-135 | a server changes nothing here, and nothing is sent when keepAlive is off |
| LegacyConnection.PacketIn | src/Connection.ts:110-118 | a packet with a decodable id is delivered before any state logic; one without throws, changing nothing; a server never changes threshold, output or logins |
| LegacyConnection.Dispatch | src/Connection.ts:115-135 | the logic after delivery keeps the buffer and the delivered list |
| LegacyConnection.DrainStep | src/Connection.ts:46-60 | a turn that delivers a packet continues with the rest of the buffer |
| LegacyConnection.DrainKeepsPartial | src/Connection.ts:46-61 | each frame drops off + len bytes, and what is kept is a suffix of the buffer holding no complete frame when the loop ends normally |
| LegacyConnection.FirstWithId | src/Connection.ts:92-97 | the first packet with that id, every earlier one having another id; none when no packet has it |
| LegacyConnection.FirstIsFirst | src/Connection.ts:92-97 | a packet with the id after packets without it is the one found |
| LegacyConnection.NoneWithId | src/Connection.ts:92-97 | no packet with the id, none found |
| LegacyConnection.Connection.constructor | src/Connection.ts:80-90 | starts in Handshake with threshold -1 and empty buffer; keepAlive is true unless the option is false |
| LegacyConnection.Connection.Split | src/Connection.ts:64-78 | corrected: pushes the frame of the chunk at the current threshold, with the chunk's own size as the inner data length (see ## Findings) |
| LegacyConnection.Connection.Send | src/Connection.ts:99-108 | does what SendIn says |
| LegacyConnection.Connection.Handle | src/Connection.ts:120-135 | does what StateLogic says |
| LegacyConnection.Connection.PacketReceived | src/Connection.ts:110-136 | does what PacketIn says |
| LegacyConnection.Connection.DispatchPacket | src/Connection.ts:115-135 | does what Dispatch says |
| LegacyConnection.Connection.NextCut | src/Connection.ts:47-58 | computes the turn CutFrame describes |
| LegacyConnection.Connection.CutOf | src/Connection.ts:49-58 | computes the frame split FrameCut describes |
| LegacyConnection.Connection.ReaderWrite | src/Connection.ts:43-62 | appends the chunk and runs the loop as WriteIn says |
| LegacyConnection.Connection.NextPacketWithId | src/Connection.ts:92-97 | returns the first later packet with that id, skipping the others |
| LegacyConnection.ServerHandshakeIn | src/Connection.ts:116-118 | a received handshake sets the state to its next-state field |
| LegacyConnection.SendHandshakeIn | src/Connection.ts:104-107 | a handshake sent in Handshake is pushed and sets the state to its fourth field |
| LegacyConnection.LoginPacketIn | src/Connection.ts:110-120 | in Login the packet is delivered, then the Login logic runs on it |
| LegacyConnection.ClientThresholdIn | src/Connection.ts:123 | a client in Login given 0x3 sets compressionThreshold to the VarInt read |
| LegacyConnection.ClientLoginIn | src/Connection.ts:124-128 | a client in Login given 0x2 moves to Play and calls onLogin with the uuid and username strings |
| LegacyConnection.KeepAliveEcho | src/Connection.ts:131-134 | a client in Play with keepAlive on answers 0x1f with packet 0xb carrying the next 8 bytes |
| LegacyConnection.ThresholdAppliesToNextFrame | src/Connection.ts:46-60 | a 0x3 packet changes how the following frame of the same chunk is read |
| ServerHash.HexDigit | src/utils.ts:37 | the digit of a nibble is a lowercase hex digit with that value |
| ServerHash.Hex | src/utils.ts:37 | toString("hex") gives two lowercase hex digits per byte |
| ServerHash.HexValueOfHex | src/utils.ts:37 | the hex text of a buffer denotes its big-endian value |
| ServerHash.StripZeros | src/utils.ts:38 | `replace(/^0+/g, "")` keeps a suffix without a leading '0', and removes only '0's |
| ServerHash.HexValueStripZeros | src/utils.ts:38 | stripping leading zeros keeps the value |
| ServerHash.Negated | src/utils.ts:43-51 | the intended negation keeps the buffer's length |
| ServerHash.NegatedValue | lib/utils.ts:57-70 | the negation of a nonzero n-byte value v holds 256^n - v, the magnitude both copies (and src/utils.ts:43-51) print |
| ServerHash.PerformTwosComplimentAsWritten | src/utils.ts:43-51 | as written the loop throws iff the last byte is 0 (writeUInt8(0x100)), leaving the buffer unchanged; otherwise it leaves (256^n - v) mod 256^n; lib/utils.ts:57-70 has the same loop |
| ServerHash.TrailingZeroNegation | src/utils.ts:48 | the negation of [0xff, 0x00] is [0x01, 0x00], which the loop as written cannot produce |
| ServerHash.PerformTwosCompliment | src/utils.ts:43-51 | corrected: the loop, from the last byte to the first with a carry, leaves (256^n - v) mod 256^n for every buffer (the lib/utils.ts:57-70 copy alike) |
| ServerHash.FirstByteSign | src/utils.ts:35 | the first byte is 0x80 or more iff the hash read as a number has its sign bit |
| ServerHash.DigitsOf | src/utils.ts:37-38 | the stripped hex is lowercase hex digits, without a leading zero, denoting the buffer's value |
| ServerHash.NegativeHash | src/utils.ts:35-36 | a hash whose first byte is 0x80 or more is negative, and its negation holds its magnitude |
| ServerHash.NonNegativeHash | src/utils.ts:35 | a hash whose first byte is below 0x80 is its own value |
| ServerHash.DigestDenotesHash | src/utils.ts:34-41 | corrected (see ## Findings): an empty hash throws; otherwise the digest has a '-' iff the first byte is 0x80 or more, then lowercase hex without leading zeros, denoting the hash as one signed big-endian number (also lib/utils.ts:48-55) |
| ServerHash.McHexDigest | src/utils.ts:34-41 | corrected (see ## Findings): returns the digest of the original bytes, and negates the caller's buffer in place exactly when the hash is negative; lib/utils.ts:48-55 is the same code |
| ServerHash.Lines | src/utils.ts:27-30 | lines have 1 to 65 characters, and all but the last exactly 65 |
| ServerHash.LinesFlatten | src/utils.ts:27-30 | the lines concatenate to the base64 text |
| ServerHash.UnwrappedJoined | src/utils.ts:28 | removing the newlines added after each line gives the lines' concatenation |
| ServerHash.PemBodyRoundTrip | src/utils.ts:23-31 | the PEM body with its newlines removed is the base64 text |
| ServerHash.JoinedStep | lib/utils.ts:42-44 | one turn of the loop (here and at src/utils.ts:28-29) emits the first line and its newline and goes on with the rest of the text |
| ServerHash.McPublicKeyToPem | src/utils.ts:23-32 | the header line, then the text in lines of 65 characters, each with a newline, then the footer line; lib/utils.ts:39-46 is the same loop |

## Left out

- Floating point: `readFloat`, `readDouble`, `writeFloat` and `writeDouble` are not modelled.
- Text codecs: strings are raw bytes. UTF-8 conversion, `JSON.parse`/`JSON.stringify`, `readJSON`/`writeJSON` and the base64 conversion are not modelled. `McPublicKeyToPem` is given the base64 text.
- zlib: deflate and inflate are functions passed to the model, with `None` standing for the error their callback reports.
- The legacy reader calls inflate asynchronously. The model runs it synchronously, in loop order. An inflate error there, which the source throws inside the callback, is the outcome `InflateFailed`.
- Legacy splitter: when deflate fails, the source's callback dereferences the missing result. The model pushes nothing.
- LegacyConnection.Connection.Split: pushes the corrected frame, whose inner data length is the chunk's own size. src/Connection.ts:73 writes the deflated size there. `SplitAsWritten` models that line (see ## Findings), and `Pushed`, `SendIn`, `Send`, `KeepAliveEcho` and `SendHandshakeIn` all state the corrected output.
- Asynchrony: promise resolution order and the `await` points in `resume` and `Reader._transform` are not modelled. `resume`'s per-step `socket.writable` checks are a function from check number to bool.
- Streams: piping, backpressure, `setNoDelay`, `unpipe`, socket end/error events and `end()` are not modelled. In src/connection.ts the Reader's 'data' listener (:55) can run synchronously inside `push` (src/transforms.ts:57): a 0x3 packet then changes the threshold for the later frames of the same chunk, and a `packetReceived` that throws is caught at src/transforms.ts:75 and destroys the Reader. The model keeps one threshold for a whole `Transform` call and does not connect the Reader to the connection.
- Cryptography is not modelled: `setEncryption` (AES-CFB8), `onEncryptionRequest` (src/Connection.ts:138-169: RSA, SHA-1, random bytes) and the shared-secret handling.
- The HTTP session calls `joinSession`/`hasJoinedSession` (src/utils.ts:4-21) and lib's `authenticate`/`sessionJoin` with its file cache (lib/utils.ts:13-37) are network and file I/O and are not modelled.
- The legacy client's Disconnect packet (0x0) is read with `readString` but not printed: `console.log` is I/O.
- The fields `accessToken` and `profile` are stored by the legacy constructor only for the encryption request, and are not modelled.
- Events.Emitter.Emit: handlers are opaque ids, and a handler's effect is modelled only by the callbacks it disposes (itself, for once/oncePacket/nextPacket). The snapshot that src/events.ts:40 takes also covers handlers that register or remove other handlers while an emit runs; the contract states it only for callbacks that dispose themselves.
- `packet.clone()`, the two-argument `PacketReader` and calling `on(...)`'s result in src/connection.ts are modelled by their intent:
  - a handler gets a fresh reader of the same bytes, recorded as the packet's bytes;
  - dispose removes the wrapper from the registry.
- Aliasing of Node buffers (`slice` shares memory with its source) is not modelled. Sequences are values. The one in-place mutation the source relies on, `mcHexDigest` negating the caller's buffer, is modelled on an `array`.
- Both connections' `send` are given the packet's bytes. `PacketWriter.encode()` and `PacketReader.buffer` are how the source gets them. For the legacy connection this does not cover a `PacketReader` argument. There `send(p)` reads the handshake from `p` itself (src/Connection.ts:103-106): it starts at p's current offset, moves the caller's reader forward, and never builds a new reader that could throw. The model always opens a fresh reader of the bytes at offset 0.
- Packet.PacketReader.constructor: requires the id to decode. The source's constructor throws otherwise, and a constructor cannot return an error. The connections model a failed reader construction through `VarIntAt` instead (`PacketEmittedIn`, `PacketIn`).
- Integers are unbounded `int`s, not bitvectors. JavaScript's 32-bit operators are written out with `% 2^32`, which states the same wrap-around.
- The nextPacket promise of the legacy connection is modelled by the list of delivered packets. `NextPacketWithId` searches it from a given position.
- LegacyConnection.Connection.NextPacketWithId: returns the first later packet with the id. In the source, `await this.nextPacket` (src/Connection.ts:94) resumes in a microtask, after the reader's synchronous loop has resolved and replaced the promise for every packet of the chunk (:112-113). A waiter therefore sees only the first packet of each chunk. Example: one chunk holds packets with ids 1 then 2, and `nextPacketWithId(2)` is pending. The source gets packet 1 and then waits for a later chunk. The model returns packet 2.
- Connection.Connection.Resume: the wait `await new Promise(res => this.reader.flush(res))` (src/connection.ts:96) is taken to complete. Neither the Reader (src/transforms.ts:31-84) nor Node's `Transform` has a `flush` method, so as written that promise rejects and `resume` stops at its first line: it replays nothing and stays paused. The promise `pause` returns (:92) rejects the same way, after `paused` is set.
- Transforms.Reader.Transform: a negative frame length destroys the stream (corrected, see ## Findings). As written, src/transforms.ts:50-57 and :78 move the offset back. On the header [0xfb, 0xff, 0xff, 0xff, 0x0f] the slice is empty and the offset returns to 0 each turn, forever. For other negative lengths `Buffer.slice` counts a negative end from the back, so the packet can be non-empty, and a negative offset ends the loop at the next decode.
- ServerHash.McHexDigest: calls the corrected `PerformTwosCompliment` and returns a digest for every non-empty hash. The source's mcHexDigest throws for a negative hash ending in 0x00, e.g. [0xff, 0x00] (src/utils.ts:36 calls :48). `PerformTwosComplimentAsWritten` models that path (see ## Findings).
- ServerHash.DigestDenotesHash: its `Ok? <==> hash != []` is about the corrected digest. For the source as written it fails on a negative hash ending in 0x00.
- Transforms.ChunkingIndependent, Transforms.FeedIsConcat: say nothing once a chunk before the last has destroyed the stream. The inner data-length VarInt is read from the whole buffer, not from within the frame (src/transforms.ts:60). A frame whose inner VarInt runs past its end therefore fails or not depending on the bytes that follow it.
- src/client.ts and src/server.ts, the client and server built on the connection, are not part of this model.

## Findings

| source | as written | input that shows it | evidently intended | confidence | as-written member | corrected member |
|---|---|---|---|---|---|---|
| src/utils.ts:48 | with the carry set, `writeUInt8(newByte + 1, i)` writes 0x100 when the byte is 0x00, and Node's writeUInt8 throws a range error; lib/utils.ts:63-65 has the same code | a hash ending in 0x00 whose first byte is 0x80 or more, e.g. [0xff, 0x00]: mcHexDigest throws instead of returning "-100" | write (newByte + 1) & 0xff and keep the carry, giving (256^n - v) mod 256^n | not executed | ServerHash.PerformTwosComplimentAsWritten, ServerHash.TrailingZeroNegation | ServerHash.PerformTwosCompliment |
| src/transforms.ts:50-78 | a negative frame length passes the `offset + length > buffer.length` check, and `offset += length` moves the offset back | the 5-byte frame header [0xfb, 0xff, 0xff, 0xff, 0x0f] (length -5) at threshold -1: `slice(5, 0)` is empty and the offset returns to 0 each turn, so the loop never ends | treat a negative length as a malformed frame, so that every turn moves forward | not executed | Transforms.NegativeLengthLoops | Transforms.Step |
| src/Connection.ts:72-76 | above the threshold the splitter writes the deflated size as the inner "data length" field | any body at or above the threshold whose deflated size differs from its own size | the data length is the size before deflation, as src/transforms.ts:20 writes it | not executed | LegacyConnection.AsWrittenDataLength | LegacyConnection.CorrectedDataLength |
