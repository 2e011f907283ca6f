/** Packet bodies (src/packet.ts): PacketReader walks a received packet with a
    cursor, and PacketWriter builds one in a buffer that doubles as it fills.
    Both begin with the packet id as a VarInt. */
module Packet {
  import opened Buffers
  import opened VarInt

  // ---------------------------------------------------------------------------
  // The wire forms of the fields

  /** Buffer.readUIntBE(off, width): a range error unless the whole field lies
      inside the buffer. */
  function UIntAt(buf: seq<byte>, off: int, width: nat): (r: Result<int>)
    ensures r.Ok? <==> 0 <= off && off + width <= |buf|
    ensures r.Err? ==> r.error == OutOfRange
    ensures r.Ok? ==> 0 <= r.value < Pow256(width)
  {
    if 0 <= off && off + width <= |buf| then Ok(BigEndian(buf[off..off + width])) else Err(OutOfRange)
  }

  /** Buffer.readIntBE(off, width): the same field read as two's complement. */
  function IntAt(buf: seq<byte>, off: int, width: nat): (r: Result<int>)
    requires width > 0
    ensures r.Ok? <==> UIntAt(buf, off, width).Ok?
    ensures r.Ok? ==> -SignBit(width) <= r.value < SignBit(width)
  {
    match UIntAt(buf, off, width)
    case Err(e) => Err(e)
    case Ok(u) => Ok(Signed(u, width))
  }

  /** The `width` bytes Buffer.writeIntBE stores for x. */
  function IntBytes(x: int, width: nat): (r: seq<byte>)
    requires width > 0 && -SignBit(width) <= x < SignBit(width)
    ensures |r| == width
  {
    BigEndianBytes(TwosComplement(x, width), width)
  }

  /** A string field as writeString emits it: the byte length as a VarInt, then the bytes. */
  function StringBytes(s: seq<byte>): seq<byte>
  {
    VarIntBytes(|s|) + s
  }

  /** readString at off: a VarInt length, then that many bytes taken with
      Buffer.slice, which clamps to the end of the buffer instead of failing,
      and whose end index counts from the back when it is negative. */
  function StringAt(buf: seq<byte>, off: int): Result<(seq<byte>, int)>
  {
    match VarIntAt(buf, off)
    case Err(e) => Err(e)
    case Ok((len, end)) => Ok((Slice(buf, end, end + len), end + len))
  }

  lemma UIntRoundTrip(x: nat, width: nat, pre: seq<byte>, post: seq<byte>)
    requires x < Pow256(width)
    ensures UIntAt(pre + BigEndianBytes(x, width) + post, |pre|, width) == Ok(x)
  {
    var buf := pre + BigEndianBytes(x, width) + post;
    assert buf[|pre|..|pre| + width] == BigEndianBytes(x, width);
    BigEndianOfBytes(x, width);
  }

  lemma IntRoundTrip(x: int, width: nat, pre: seq<byte>, post: seq<byte>)
    requires width > 0 && -SignBit(width) <= x < SignBit(width)
    ensures IntAt(pre + IntBytes(x, width) + post, |pre|, width) == Ok(x)
  {
    UIntRoundTrip(TwosComplement(x, width), width, pre, post);
  }

  /** A string written by writeString reads back unchanged, whatever surrounds
      it, as long as its length is a non-negative 32-bit integer. */
  lemma StringRoundTrip(s: seq<byte>, pre: seq<byte>, post: seq<byte>)
    requires |s| < 0x8000_0000
    ensures StringAt(pre + StringBytes(s) + post, |pre|) == Ok((s, |pre| + |StringBytes(s)|))
  {
    var buf, v := pre + StringBytes(s) + post, VarIntBytes(|s|);
    var at := |pre| + |v|;
    assert buf[|pre|..at] == v && buf[at..at + |s|] == s;
    VarIntRoundTrip(|s|, buf, |pre|);
    Int32InRange(|s|);
    SliceWithin(buf, at, at + |s|);
    StringAtOf(buf, |pre|, |s|, at);
  }

  /** readString once its length has been read. */
  lemma StringAtOf(buf: seq<byte>, off: int, len: int, end: int)
    requires VarIntAt(buf, off) == Ok((len, end))
    ensures StringAt(buf, off) == Ok((Slice(buf, end, end + len), end + len))
  {
  }

  /** A length that runs past the end of the packet is not an error: the
      string is cut short at the end of the buffer. */
  lemma StringAtTruncates(buf: seq<byte>, off: int)
    requires StringAt(buf, off).Ok?
    requires VarIntAt(buf, off).value.0 >= 0
    ensures var end := VarIntAt(buf, off).value.1;
      var s := StringAt(buf, off).value.0;
      s == buf[end..if end + VarIntAt(buf, off).value.0 <= |buf| then end + VarIntAt(buf, off).value.0 else |buf|]
  {
    VarIntAtOk(buf, off);
  }

  // ---------------------------------------------------------------------------
  // PacketReader

  class PacketReader {
    const buffer: seq<byte>
    var offset: int
    var id: int

    /** new PacketReader(buffer): reads the packet id. The source throws when
        the id cannot be decoded; Open below models that. */
    constructor (buffer: seq<byte>)
      requires VarIntAt(buffer, 0).Ok?
      ensures this.buffer == buffer
      ensures id == VarIntAt(buffer, 0).value.0 && offset == VarIntAt(buffer, 0).value.1
    {
      this.buffer := buffer;
      offset := 0;
      id := 0;
      new;
      var r := ReadVarInt();
      id := r.value;
    }

    /** Construction that reports the exception of the constructor as an error. */
    static method Open(buffer: seq<byte>) returns (r: Result<PacketReader>)
      ensures VarIntAt(buffer, 0).Err? <==> r.Err?
      ensures r.Err? ==> r.error == VarIntAt(buffer, 0).error
      ensures r.Ok? ==> (fresh(r.value) && r.value.buffer == buffer &&
        r.value.id == VarIntAt(buffer, 0).value.0 && r.value.offset == VarIntAt(buffer, 0).value.1)
    {
      match VarIntAt(buffer, 0)
      case Err(e) =>
        r := Err(e);
      case Ok(_) =>
        var reader := new PacketReader(buffer);
        r := Ok(reader);
    }

    /** readVarInt(): the cursor moves only when the decode succeeds. */
    method ReadVarInt() returns (r: Result<int>)
      modifies this
      ensures id == old(id)
      ensures var d := VarIntAt(buffer, old(offset));
        (d.Ok? ==> r == Ok(d.value.0) && offset == d.value.1) &&
        (d.Err? ==> r == Err(d.error) && offset == old(offset))
    {
      var d := DecodeVarInt(buffer, offset);
      match d
      case Err(e) =>
        r := Err(e);
      case Ok((value, next)) =>
        offset := next;
        r := Ok(value);
    }

    /** read(length): the slice from the cursor, which always advances by length. */
    method Read(length: int) returns (r: seq<byte>)
      modifies this
      ensures id == old(id)
      ensures r == Slice(buffer, old(offset), old(offset) + length)
      ensures offset == old(offset) + length
    {
      r := Slice(buffer, offset, offset + length);
      offset := offset + length;
    }

    /** readString(), as bytes: the UTF-8 decoding of toString is not modelled. */
    method ReadString() returns (r: Result<seq<byte>>)
      modifies this
      ensures id == old(id)
      ensures var d := StringAt(buffer, old(offset));
        (d.Ok? ==> r == Ok(d.value.0) && offset == d.value.1) &&
        (d.Err? ==> r == Err(d.error) && offset == old(offset))
    {
      var length := ReadVarInt();
      match length
      case Err(e) =>
        r := Err(e);
      case Ok(n) =>
        var s := Read(n);
        r := Ok(s);
    }

    /** The fixed-width reads advance the cursor before Buffer checks the
        bounds, so the cursor moves even when the read fails. */
    method ReadUInt(width: nat) returns (r: Result<int>)
      modifies this
      ensures id == old(id)
      ensures r == UIntAt(buffer, old(offset), width) && offset == old(offset) + width
    {
      offset := offset + width;
      r := UIntAt(buffer, offset - width, width);
    }

    method ReadInt(width: nat) returns (r: Result<int>)
      requires width > 0
      modifies this
      ensures id == old(id)
      ensures r == IntAt(buffer, old(offset), width) && offset == old(offset) + width
    {
      offset := offset + width;
      r := IntAt(buffer, offset - width, width);
    }

    method ReadUInt8() returns (r: Result<int>)
      modifies this
      ensures id == old(id)
      ensures r == UIntAt(buffer, old(offset), 1) && offset == old(offset) + 1
    {
      r := ReadUInt(1);
    }

    method ReadInt8() returns (r: Result<int>)
      modifies this
      ensures id == old(id)
      ensures r == IntAt(buffer, old(offset), 1) && offset == old(offset) + 1
    {
      r := ReadInt(1);
    }

    method ReadUInt16() returns (r: Result<int>)
      modifies this
      ensures id == old(id)
      ensures r == UIntAt(buffer, old(offset), 2) && offset == old(offset) + 2
    {
      r := ReadUInt(2);
    }

    method ReadInt16() returns (r: Result<int>)
      modifies this
      ensures id == old(id)
      ensures r == IntAt(buffer, old(offset), 2) && offset == old(offset) + 2
    {
      r := ReadInt(2);
    }

    method ReadUInt32() returns (r: Result<int>)
      modifies this
      ensures id == old(id)
      ensures r == UIntAt(buffer, old(offset), 4) && offset == old(offset) + 4
    {
      r := ReadUInt(4);
    }

    method ReadInt32() returns (r: Result<int>)
      modifies this
      ensures id == old(id)
      ensures r == IntAt(buffer, old(offset), 4) && offset == old(offset) + 4
    {
      r := ReadInt(4);
    }

    /** readBool(): any non-zero byte is true. */
    method ReadBool() returns (r: Result<bool>)
      modifies this
      ensures id == old(id) && offset == old(offset) + 1
      ensures var u := UIntAt(buffer, old(offset), 1);
        (u.Ok? ==> r == Ok(u.value != 0)) && (u.Err? ==> r == Err(u.error))
    {
      var u := ReadUInt8();
      match u
      case Err(e) =>
        r := Err(e);
      case Ok(b) =>
        r := Ok(b != 0);
    }
  }

  // ---------------------------------------------------------------------------
  // PacketWriter

  /** The capacity extend(len) settles on: the buffer doubles until `needed` bytes fit. */
  function Capacity(capacity: nat, needed: nat): (r: nat)
    requires capacity >= 1
    ensures r >= capacity && r >= needed
    ensures needed <= capacity ==> r == capacity
    ensures needed > capacity ==> r < 2 * needed
    decreases needed - capacity
  {
    if needed <= capacity then capacity else Capacity(2 * capacity, needed)
  }

  /** One doubling of extend: a capacity that is too small doubles, and
      settles where it would have settled. */
  lemma Doubled(capacity: nat, needed: nat, doublings: nat)
    requires capacity == 8 * Pow2(doublings) && needed > capacity
    ensures 2 * capacity == 8 * Pow2(doublings + 1)
    ensures Capacity(2 * capacity, needed) == Capacity(capacity, needed)
  {
  }

  /** Buffer.concat([a, Buffer.alloc(a.length)]): a new buffer of twice the
      size holding a's bytes, then zeros. */
  method ConcatZeros(a: array<byte>, keep: nat) returns (b: array<byte>)
    requires keep <= a.Length
    ensures fresh(b) && b.Length == 2 * a.Length
    ensures b[..a.Length] == a[..] && b[..keep] == a[..keep]
    ensures forall i :: a.Length <= i < b.Length ==> b[i] == 0
  {
    var contents := a[..];
    b := new byte[2 * |contents|](i => if 0 <= i < |contents| then contents[i] else 0);
    assert b[..a.Length] == contents;
  }

  class PacketWriter {
    var buffer: array<byte>
    var offset: nat
    const id: int
    /** How many times extend has doubled the initial 8-byte buffer. */
    ghost var doublings: nat

    ghost predicate Valid()
      reads this
    {
      buffer.Length == 8 * Pow2(doublings) && offset <= buffer.Length
    }

    /** The packet so far, as encode() returns it. */
    ghost function Bytes(): seq<byte>
      reads this, buffer
      requires Valid()
    {
      buffer[..offset]
    }

    /** new PacketWriter(id): an 8-byte buffer holding the id as a VarInt. */
    constructor (id: int)
      ensures Valid() && this.id == id && fresh(buffer)
      ensures Bytes() == VarIntBytes(id)
    {
      buffer := new byte[8](i => 0);
      offset := 0;
      this.id := id;
      doublings := 0;
      new;
      WriteVarInt(id);
    }

    /** extend(len): doubles the buffer (Buffer.concat with a zeroed copy of
        its own size) until offset + len bytes fit. */
    method Extend(len: nat)
      requires Valid()
      modifies this
      ensures Valid() && offset == old(offset)
      ensures Bytes() == old(Bytes())
      ensures buffer.Length == Capacity(old(buffer.Length), offset + len)
      ensures buffer == old(buffer) || fresh(buffer)
    {
      ghost var needed := offset + len;
      ghost var target := Capacity(buffer.Length, needed);
      while offset + len > buffer.Length
        invariant Valid() && offset == old(offset)
        invariant buffer[..offset] == old(Bytes())
        invariant Capacity(buffer.Length, needed) == target
        invariant buffer == old(buffer) || fresh(buffer)
        decreases offset + len - buffer.Length
      {
        ghost var capacity := buffer.Length;
        Doubled(capacity, offset + len, doublings);
        var bigger := ConcatZeros(buffer, offset);
        buffer := bigger;
        doublings := doublings + 1;
        assert buffer.Length == 2 * capacity;
      }
    }

    /** write(buffer): copies the bytes in after the cursor and moves it past them. */
    method Write(bytes: seq<byte>)
      requires Valid()
      modifies this, buffer
      ensures Valid() && (buffer == old(buffer) || fresh(buffer))
      ensures Bytes() == old(Bytes()) + bytes
    {
      Extend(|bytes|);
      ghost var prefix := buffer[..offset];
      var i := 0;
      while i < |bytes|
        invariant 0 <= i <= |bytes|
        invariant offset + |bytes| <= buffer.Length
        invariant forall j :: 0 <= j < offset ==> buffer[j] == prefix[j]
        invariant forall j :: offset <= j < offset + i ==> buffer[j] == bytes[j - offset]
        modifies buffer
      {
        buffer[offset + i] := bytes[i];
        i := i + 1;
      }
      assert buffer[..offset + |bytes|] == prefix + bytes;
      offset := offset + |bytes|;
    }

    /** Buffer.writeUIntBE at the cursor, after extend(width): a value outside
        the field's range throws, having possibly grown the buffer but written nothing. */
    method WriteUInt(x: int, width: nat) returns (ok: bool)
      requires Valid()
      modifies this, buffer
      ensures Valid() && (buffer == old(buffer) || fresh(buffer))
      ensures ok <==> 0 <= x < Pow256(width)
      ensures ok ==> Bytes() == old(Bytes()) + BigEndianBytes(x, width)
      ensures !ok ==> Bytes() == old(Bytes())
    {
      Extend(width);
      if x < 0 || x >= Pow256(width) {
        return false;
      }
      Write(BigEndianBytes(x, width));
      return true;
    }

    /** Buffer.writeIntBE at the cursor, after extend(width). */
    method WriteInt(x: int, width: nat) returns (ok: bool)
      requires Valid() && width > 0
      modifies this, buffer
      ensures Valid() && (buffer == old(buffer) || fresh(buffer))
      ensures ok <==> -SignBit(width) <= x < SignBit(width)
      ensures ok ==> Bytes() == old(Bytes()) + IntBytes(x, width)
      ensures !ok ==> Bytes() == old(Bytes())
    {
      Extend(width);
      if x < -SignBit(width) || x >= SignBit(width) {
        return false;
      }
      Write(IntBytes(x, width));
      return true;
    }

    method WriteUInt8(x: int) returns (ok: bool)
      requires Valid()
      modifies this, buffer
      ensures Valid() && (buffer == old(buffer) || fresh(buffer))
      ensures ok <==> 0 <= x < 256
      ensures ok ==> Bytes() == old(Bytes()) + [x]
      ensures !ok ==> Bytes() == old(Bytes())
    {
      ok := WriteUInt(x, 1);
    }

    method WriteInt8(x: int) returns (ok: bool)
      requires Valid()
      modifies this, buffer
      ensures Valid() && (buffer == old(buffer) || fresh(buffer))
      ensures ok <==> -128 <= x < 128
      ensures ok ==> Bytes() == old(Bytes()) + [if x < 0 then x + 256 else x]
      ensures !ok ==> Bytes() == old(Bytes())
    {
      ok := WriteInt(x, 1);
    }

    method WriteUInt16(x: int) returns (ok: bool)
      requires Valid()
      modifies this, buffer
      ensures Valid() && (buffer == old(buffer) || fresh(buffer))
      ensures ok <==> 0 <= x < 0x1_0000
      ensures ok ==> Bytes() == old(Bytes()) + [x / 256, x % 256]
      ensures !ok ==> Bytes() == old(Bytes())
    {
      ok := WriteUInt(x, 2);
    }

    method WriteInt16(x: int) returns (ok: bool)
      requires Valid()
      modifies this, buffer
      ensures Valid() && (buffer == old(buffer) || fresh(buffer))
      ensures ok <==> -0x8000 <= x < 0x8000
      ensures ok ==> Bytes() == old(Bytes()) + IntBytes(x, 2)
      ensures !ok ==> Bytes() == old(Bytes())
    {
      ok := WriteInt(x, 2);
    }

    method WriteUInt32(x: int) returns (ok: bool)
      requires Valid()
      modifies this, buffer
      ensures Valid() && (buffer == old(buffer) || fresh(buffer))
      ensures ok <==> 0 <= x < 0x1_0000_0000
      ensures ok ==> Bytes() == old(Bytes()) + BigEndianBytes(x, 4)
      ensures !ok ==> Bytes() == old(Bytes())
    {
      ok := WriteUInt(x, 4);
    }

    method WriteInt32(x: int) returns (ok: bool)
      requires Valid()
      modifies this, buffer
      ensures Valid() && (buffer == old(buffer) || fresh(buffer))
      ensures ok <==> -0x8000_0000 <= x < 0x8000_0000
      ensures ok ==> Bytes() == old(Bytes()) + IntBytes(x, 4)
      ensures !ok ==> Bytes() == old(Bytes())
    {
      ok := WriteInt(x, 4);
    }

    /** writeBool(bool): one byte, 1 or 0. */
    method WriteBool(b: bool)
      requires Valid()
      modifies this, buffer
      ensures Valid() && (buffer == old(buffer) || fresh(buffer))
      ensures Bytes() == old(Bytes()) + [if b then 1 else 0]
    {
      var _ := WriteUInt8(if b then 1 else 0);
    }

    /** writeVarInt(x): the loop of writeVarInt in src/varint.ts with writeByte
        bound to this writer's writeUInt8, which never fails on its bytes. */
    method WriteVarInt(x: int)
      requires Valid()
      modifies this, buffer
      ensures Valid() && (buffer == old(buffer) || fresh(buffer))
      ensures Bytes() == old(Bytes()) + VarIntBytes(x)
    {
      var value: nat := Uint32(x);
      while true
        invariant Valid() && (buffer == old(buffer) || fresh(buffer))
        invariant Bytes() + Groups(value) == old(Bytes()) + VarIntBytes(x)
        decreases value
      {
        ghost var v, before := value, Bytes();
        var temp := value % 128;
        value := value / 128;
        if value != 0 {
          temp := temp + 128;
        }
        GroupsStep(v, temp, value);
        var _ := WriteUInt8(temp);
        if value == 0 {
          break;
        }
        AppendAssoc(before, [temp], Groups(value));
      }
    }

    /** writeString(string), given the string's UTF-8 bytes. */
    method WriteString(s: seq<byte>)
      requires Valid()
      modifies this, buffer
      ensures Valid() && (buffer == old(buffer) || fresh(buffer))
      ensures Bytes() == old(Bytes()) + StringBytes(s)
    {
      WriteVarInt(|s|);
      Write(s);
    }

    /** encode(): the bytes written so far. */
    method Encode() returns (r: seq<byte>)
      requires Valid()
      ensures r == Bytes()
      ensures |r| <= buffer.Length
    {
      r := buffer[..offset];
    }
  }

  /** new PacketReader(new PacketWriter(id).write(body).encode()): the reader
      gets the id back (as a signed 32-bit number) and its cursor sits just
      after the id's VarInt, at the start of the body. */
  method EncodeThenRead(id: int, body: seq<byte>) returns (readId: int, offset: int, rest: seq<byte>)
    ensures readId == Int32(id) && offset == |VarIntBytes(id)|
    ensures rest == body
  {
    var w := new PacketWriter(id);
    w.Write(body);
    var bytes := w.Encode();
    assert bytes == VarIntBytes(id) + body;
    assert bytes[0..|VarIntBytes(id)|] == VarIntBytes(id);
    VarIntRoundTrip(id, bytes, 0);
    var r := new PacketReader(bytes);
    readId, offset := r.id, r.offset;
    rest := r.buffer[offset..];
  }
}
