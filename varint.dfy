/** The VarInt/VarLong codec of src/varint.ts: 7-bit groups, least significant
    first, bit 0x80 set on every byte but the last.

    JavaScript semantics, written out on integers:
    - `value & 0x7f` and `value >>>= 7` work on the unsigned 32-bit pattern of
      `value` (ToUint32), which is `value % 2^32`; `& 0x7f` is `% 128`, `>>> 7` is `/ 128`.
    - `temp |= 0x80` on `temp < 128` is `temp + 128`.
    - `result |= value << (7 * numRead)`: `<<` takes its count modulo 32 and
      keeps the low 32 bits; the group occupies bits the accumulator has not
      used yet, so the `|` is an addition, and the final `result` is read as a
      signed 32-bit integer (ToInt32).
    - decodeVarLong works on BigInt: nothing is truncated there. */
module VarInt {
  import opened Buffers

  const Two32: int := 0x1_0000_0000
  const Two64: int := 0x1_0000_0000_0000_0000

  function Pow2(n: nat): (r: nat)
    ensures r >= 1
  {
    if n == 0 then 1 else 2 * Pow2(n - 1)
  }

  /** The weight of the group read as the n-th: 2^(7n). */
  function Pow128(n: nat): (r: nat)
    ensures r >= 1
  {
    if n == 0 then 1 else 128 * Pow128(n - 1)
  }

  /** ToUint32 of an integral number. */
  function Uint32(x: int): (r: nat)
    ensures r < Two32 && (x - r) % Two32 == 0
  {
    x % Two32
  }

  /** ToInt32 of an integral number: the signed reading of its low 32 bits. */
  function Int32(x: int): (r: int)
    ensures -0x8000_0000 <= r < 0x8000_0000
    ensures (x - r) % Two32 == 0
  {
    var u := x % Two32;
    if u < 0x8000_0000 then u else u - Two32
  }

  /** `value << count` on the 32-bit pattern `value`: the count is taken modulo 32
      and the bits above bit 31 are lost. */
  function ShiftLeft32(value: nat, count: nat): (r: nat)
    ensures r < Two32
  {
    value * Pow2(count % 32) % Two32
  }

  /** The bytes the do-while loops of encodeVarInt, writeVarInt and writeVarLong
      emit for the non-negative value v. */
  function Groups(v: nat): (bytes: seq<byte>)
    decreases v
  {
    var temp := v % 128;
    var rest := v / 128;
    if rest == 0 then [temp] else [temp + 128] + Groups(rest)
  }

  /** One pass of the do-while loop: the group it emits and the value left. */
  lemma GroupsStep(v: nat, temp: int, rest: nat)
    requires rest == v / 128 && temp == if rest != 0 then v % 128 + 128 else v % 128
    ensures 0 <= temp < 256
    ensures rest == 0 ==> Groups(v) == [temp]
    ensures rest != 0 ==> Groups(v) == [temp] + Groups(rest) && rest < v
  {
  }

  /** encodeVarInt(x): the groups of ToUint32(x). */
  function VarIntBytes(x: int): seq<byte>
  {
    Groups(Uint32(x))
  }

  /** writeVarLong(x): the groups of BigInt.asUintN(64, x). */
  function VarLongBytes(x: int): seq<byte>
  {
    Groups(x % Two64)
  }

  /** The rest of the do-while loop of decodeVarInt/decodeVarLong from the
      byte at `off` on, `numRead` of at most `maxRead` groups having been read:
      the value of the groups still to come, the first of them least
      significant, and the offset just after the last byte read. */
  function ReadGroups(buf: seq<byte>, off: int, numRead: nat, maxRead: nat): Result<(int, int)>
    requires numRead <= maxRead
    decreases maxRead - numRead
  {
    if off < 0 || off >= |buf| then Err(OutOfRange)
    else if numRead + 1 > maxRead then Err(VarIntTooBig)
    else if buf[off] < 128 then Ok((buf[off], off + 1))
    else match ReadGroups(buf, off + 1, numRead + 1, maxRead)
      case Err(e) => Err(e)
      case Ok((v, end)) => Ok((buf[off] - 128 + 128 * v, end))
  }

  /** The outcome of the loop when `acc` holds the groups read so far and
      the groups still to come weigh from the numRead-th group on. */
  function Accumulated(acc: int, numRead: nat, r: Result<(int, int)>): Result<(int, int)>
  {
    match r
    case Err(e) => Err(e)
    case Ok((v, end)) => Ok((acc + Pow128(numRead) * v, end))
  }

  /** decodeVarInt(buf, off): the signed 32-bit value and the offset after it. */
  function VarIntAt(buf: seq<byte>, off: int): Result<(int, int)>
  {
    match ReadGroups(buf, off, 0, 5)
    case Err(e) => Err(e)
    case Ok((v, end)) => Ok((Int32(v), end))
  }

  /** decodeVarLong(buf, off): the BigInt value and the offset after it. */
  function VarLongAt(buf: seq<byte>, off: int): Result<(int, int)>
  {
    ReadGroups(buf, off, 0, 10)
  }

  // ---------------------------------------------------------------------------
  // Encoding: shape, length, minimality

  lemma {:induction false} GroupsShape(v: nat)
    ensures |Groups(v)| >= 1
    ensures Groups(v)[|Groups(v)| - 1] < 128
    ensures forall i :: 0 <= i < |Groups(v)| - 1 ==> Groups(v)[i] >= 128
  {
    if v / 128 != 0 {
      GroupsShape(v / 128);
    }
  }

  /** The encoding uses the least number of groups that holds the value. */
  lemma {:induction false} GroupsLength(v: nat)
    ensures v < Pow128(|Groups(v)|)
    ensures |Groups(v)| > 1 ==> v >= Pow128(|Groups(v)| - 1)
  {
    if v / 128 != 0 {
      GroupsLength(v / 128);
    }
  }

  lemma GroupsLengthBound(v: nat, k: nat)
    requires k >= 1 && v < Pow128(k)
    ensures |Groups(v)| <= k
  {
    GroupsLength(v);
    if |Groups(v)| > 1 {
      PowOrder(|Groups(v)| - 1, k);
    }
  }

  lemma PowOrder(a: nat, b: nat)
    ensures Pow128(a) < Pow128(b) ==> a < b
  {
    if a >= b {
      PowMonotone(b, a);
    }
  }

  lemma {:induction false} PowMonotone(a: nat, b: nat)
    requires a <= b
    ensures Pow128(a) <= Pow128(b)
  {
    if a < b {
      PowMonotone(a, b - 1);
    }
  }

  /** Every 32-bit input encodes in one to five bytes. */
  lemma VarIntLength(x: int)
    ensures 1 <= |VarIntBytes(x)| <= 5
  {
    GroupsShape(Uint32(x));
    assert Pow128(5) == 0x8_0000_0000;
    GroupsLengthBound(Uint32(x), 5);
  }

  /** writeVarLong emits one to ten bytes. */
  lemma VarLongLength(x: int)
    ensures 1 <= |VarLongBytes(x)| <= 10
  {
    GroupsShape(x % Two64);
    assert Pow128(10) == 0x40_0000_0000_0000_0000;
    GroupsLengthBound(x % Two64, 10);
  }

  // ---------------------------------------------------------------------------
  // Decoding: round trips

  /** One turn of the decoding loop on a continuation byte. */
  lemma ReadGroupsStep(buf: seq<byte>, off: int, numRead: nat, maxRead: nat, acc: int)
    requires 0 <= off < |buf| && numRead + 1 <= maxRead && buf[off] >= 128
    ensures Accumulated(acc, numRead, ReadGroups(buf, off, numRead, maxRead))
      == Accumulated(acc + buf[off] % 128 * Pow128(numRead), numRead + 1, ReadGroups(buf, off + 1, numRead + 1, maxRead))
  {
    var r := ReadGroups(buf, off + 1, numRead + 1, maxRead);
    if r.Ok? {
      var v, p := r.value.0, Pow128(numRead);
      assert buf[off] % 128 == buf[off] - 128;
      calc {
        p * (buf[off] - 128 + 128 * v);
        (buf[off] - 128) * p + (128 * p) * v;
        { assert Pow128(numRead + 1) == 128 * p; }
        buf[off] % 128 * p + Pow128(numRead + 1) * v;
      }
    }
  }

  /** The turn of the decoding loop that reads the last byte. */
  lemma ReadGroupsLast(buf: seq<byte>, off: int, numRead: nat, maxRead: nat, acc: int)
    requires 0 <= off < |buf| && numRead + 1 <= maxRead && buf[off] < 128
    ensures Accumulated(acc, numRead, ReadGroups(buf, off, numRead, maxRead))
      == Ok((acc + buf[off] % 128 * Pow128(numRead), off + 1))
  {
  }

  /** Nothing read yet: the loop's outcome is that of its groups. */
  lemma AccumulatedStart(r: Result<(int, int)>)
    ensures Accumulated(0, 0, r) == r
  {
  }

  /** Decoding the groups of v reads v back, and exactly those bytes. */
  lemma {:induction false} ReadGroupsOfGroups(v: nat, buf: seq<byte>, off: nat, k: nat, maxRead: nat)
    requires off + |Groups(v)| <= |buf| && buf[off..off + |Groups(v)|] == Groups(v)
    requires k + |Groups(v)| <= maxRead
    ensures ReadGroups(buf, off, k, maxRead) == Ok((v, off + |Groups(v)|))
    decreases v
  {
    var g := Groups(v);
    assert buf[off] == g[0];
    if v / 128 != 0 {
      var rest := Groups(v / 128);
      assert g == [v % 128 + 128] + rest;
      assert buf[off + 1..off + 1 + |rest|] == rest by {
        assert buf[off + 1..off + 1 + |rest|] == buf[off..off + |g|][1..];
      }
      ReadGroupsOfGroups(v / 128, buf, off + 1, k + 1, maxRead);
    } else {
      assert g == [v % 128];
    }
  }

  /** decodeVarInt inverts encodeVarInt: it returns x read as a signed 32-bit
      integer, and the offset just past the encoding, whatever follows it. */
  lemma VarIntRoundTrip(x: int, buf: seq<byte>, off: nat)
    requires off + |VarIntBytes(x)| <= |buf| && buf[off..off + |VarIntBytes(x)|] == VarIntBytes(x)
    ensures VarIntAt(buf, off) == Ok((Int32(x), off + |VarIntBytes(x)|))
  {
    VarIntLength(x);
    ReadGroupsOfGroups(Uint32(x), buf, off, 0, 5);
    Int32OfUint32(x);
  }

  /** The same for a value that fits: the round trip returns x itself. */
  lemma VarIntRoundTripInRange(x: int, rest: seq<byte>)
    requires -0x8000_0000 <= x < 0x8000_0000
    ensures VarIntAt(VarIntBytes(x) + rest, 0) == Ok((x, |VarIntBytes(x)|))
  {
    var buf := VarIntBytes(x) + rest;
    assert buf[0..|VarIntBytes(x)|] == VarIntBytes(x);
    VarIntRoundTrip(x, buf, 0);
    Int32InRange(x);
  }

  /** A value that fits in 32 signed bits is its own Int32. */
  lemma Int32InRange(x: int)
    requires -0x8000_0000 <= x < 0x8000_0000
    ensures Int32(x) == x
  {
    if x >= 0 {
      assert x % Two32 == x;
    } else {
      assert x % Two32 == x + Two32;
    }
  }

  /** decodeVarLong inverts writeVarLong, which first reduces x modulo 2^64. */
  lemma VarLongRoundTrip(x: int, buf: seq<byte>, off: nat)
    requires off + |VarLongBytes(x)| <= |buf| && buf[off..off + |VarLongBytes(x)|] == VarLongBytes(x)
    ensures VarLongAt(buf, off) == Ok((x % Two64, off + |VarLongBytes(x)|))
  {
    VarLongLength(x);
    ReadGroupsOfGroups(x % Two64, buf, off, 0, 10);
  }

  // ---------------------------------------------------------------------------
  // Decoding: what succeeds and how it fails

  /** A successful decode consumed bytes that all carry the continuation bit,
      except the last, which does not; at most maxRead - numRead of them. */
  lemma {:induction false} ReadGroupsOk(buf: seq<byte>, off: int, numRead: nat, maxRead: nat)
    requires numRead <= maxRead
    requires ReadGroups(buf, off, numRead, maxRead).Ok?
    ensures var end := ReadGroups(buf, off, numRead, maxRead).value.1;
      0 <= off < end <= off + (maxRead - numRead) && end <= |buf| && buf[end - 1] < 128 &&
      forall j :: off <= j < end - 1 ==> buf[j] >= 128
    decreases maxRead - numRead
  {
    if buf[off] >= 128 {
      ReadGroupsOk(buf, off + 1, numRead + 1, maxRead);
    }
  }

  /** A failed decode met only continuation bytes within its window of
      maxRead - numRead bytes. The failure is VarIntTooBig exactly when the
      whole window and one more byte are present, and OutOfRange otherwise. */
  lemma {:induction false} ReadGroupsErr(buf: seq<byte>, off: int, numRead: nat, maxRead: nat)
    requires 0 <= off && numRead <= maxRead
    requires ReadGroups(buf, off, numRead, maxRead).Err?
    ensures forall j :: off <= j < off + (maxRead - numRead) && j < |buf| ==> buf[j] >= 128
    ensures ReadGroups(buf, off, numRead, maxRead).error == VarIntTooBig
      <==> off + (maxRead - numRead) < |buf|
    decreases maxRead - numRead
  {
    if off < |buf| && numRead + 1 <= maxRead {
      ReadGroupsErr(buf, off + 1, numRead + 1, maxRead);
    }
  }

  /** decodeVarInt succeeds exactly when one of the first five bytes at off
      ends the number; the offset it returns is one past that byte. */
  lemma VarIntAtOk(buf: seq<byte>, off: int)
    requires VarIntAt(buf, off).Ok?
    ensures var end := VarIntAt(buf, off).value.1;
      0 <= off < end <= off + 5 && end <= |buf| && buf[end - 1] < 128 &&
      forall j :: off <= j < end - 1 ==> buf[j] >= 128
  {
    ReadGroupsOk(buf, off, 0, 5);
  }

  /** The bounds alone of a successful decode. */
  lemma VarIntAtEnd(buf: seq<byte>, off: int)
    requires VarIntAt(buf, off).Ok?
    ensures 0 <= off < VarIntAt(buf, off).value.1 <= |buf|
  {
    VarIntAtOk(buf, off);
  }

  /** "Varint too big!" when five continuation bytes are followed by a sixth;
      a range error when the buffer ends before a byte without the bit. */
  lemma VarIntAtErr(buf: seq<byte>, off: nat)
    requires VarIntAt(buf, off).Err?
    ensures forall j :: off <= j < off + 5 && j < |buf| ==> buf[j] >= 128
    ensures VarIntAt(buf, off).error == VarIntTooBig <==> off + 5 < |buf|
    ensures VarIntAt(buf, off).error == OutOfRange <==> |buf| <= off + 5
  {
    ReadGroupsErr(buf, off, 0, 5);
  }

  /** decodeVarLong rejects an eleventh byte after ten continuation bytes. */
  lemma VarLongAtErr(buf: seq<byte>, off: nat)
    requires VarLongAt(buf, off).Err?
    ensures forall j :: off <= j < off + 10 && j < |buf| ==> buf[j] >= 128
    ensures VarLongAt(buf, off).error == VarIntTooBig <==> off + 10 < |buf|
  {
    ReadGroupsErr(buf, off, 0, 10);
  }

  /** A decode reads only the bytes from off on: putting bytes in front moves
      the offsets and nothing else. */
  lemma {:induction false} ReadGroupsShift(pre: seq<byte>, buf: seq<byte>, off: nat, numRead: nat, maxRead: nat)
    requires numRead <= maxRead
    ensures var r, s := ReadGroups(buf, off, numRead, maxRead), ReadGroups(pre + buf, |pre| + off, numRead, maxRead);
      (r.Err? ==> s == r) && (r.Ok? ==> s == Ok((r.value.0, r.value.1 + |pre|)))
    decreases maxRead - numRead
  {
    if off < |buf| && numRead + 1 <= maxRead {
      assert (pre + buf)[|pre| + off] == buf[off];
      ReadGroupsShift(pre, buf, off + 1, numRead + 1, maxRead);
    }
  }

  /** ... and bytes after the number do not change a decode that succeeded or
      that found the number too big. */
  lemma {:induction false} ReadGroupsExtend(buf: seq<byte>, more: seq<byte>, off: int, numRead: nat, maxRead: nat)
    requires numRead <= maxRead
    requires ReadGroups(buf, off, numRead, maxRead) != Err(OutOfRange)
    ensures ReadGroups(buf + more, off, numRead, maxRead) == ReadGroups(buf, off, numRead, maxRead)
    decreases maxRead - numRead
  {
    if 0 <= off < |buf| && numRead + 1 <= maxRead && buf[off] >= 128 {
      ReadGroupsExtend(buf, more, off + 1, numRead + 1, maxRead);
    }
  }

  /** ... and dropping bytes in front of off moves the offsets back. */
  lemma {:induction false} ReadGroupsDrop(buf: seq<byte>, d: nat, off: int, numRead: nat, maxRead: nat)
    requires d <= |buf| && d <= off && numRead <= maxRead
    ensures var r, s := ReadGroups(buf, off, numRead, maxRead), ReadGroups(buf[d..], off - d, numRead, maxRead);
      (r.Err? ==> s == r) && (r.Ok? ==> s == Ok((r.value.0, r.value.1 - d)))
    decreases maxRead - numRead
  {
    if off < |buf| && numRead + 1 <= maxRead {
      assert buf[d..][off - d] == buf[off];
      ReadGroupsDrop(buf, d, off + 1, numRead + 1, maxRead);
    }
  }

  lemma VarIntAtShift(pre: seq<byte>, buf: seq<byte>, off: nat)
    ensures var r, s := VarIntAt(buf, off), VarIntAt(pre + buf, |pre| + off);
      (r.Err? ==> s == r) && (r.Ok? ==> s == Ok((r.value.0, r.value.1 + |pre|)))
  {
    ReadGroupsShift(pre, buf, off, 0, 5);
  }

  lemma VarIntAtDrop(buf: seq<byte>, d: nat, off: int)
    requires d <= |buf| && d <= off
    ensures var r, s := VarIntAt(buf, off), VarIntAt(buf[d..], off - d);
      (r.Err? ==> s == r) && (r.Ok? ==> s == Ok((r.value.0, r.value.1 - d)))
  {
    ReadGroupsDrop(buf, d, off, 0, 5);
  }

  lemma VarIntAtExtend(buf: seq<byte>, more: seq<byte>, off: int)
    requires VarIntAt(buf, off) != Err(OutOfRange)
    ensures VarIntAt(buf + more, off) == VarIntAt(buf, off)
  {
    ReadGroupsExtend(buf, more, off, 0, 5);
  }

  // ---------------------------------------------------------------------------
  // The loops of src/varint.ts

  lemma GroupShift(k: nat)
    requires k <= 4
    ensures Pow2(7 * k % 32) == Pow128(k)
  {
    assert 7 * k % 32 == 7 * k;
    SevenBitShift(k);
  }

  /** encodeVarInt(value): pushes the groups of ToUint32(value). */
  method EncodeVarInt(x: int) returns (bytes: seq<byte>)
    ensures bytes == VarIntBytes(x)
  {
    var value: nat := Uint32(x);
    bytes := [];
    while true
      invariant bytes + Groups(value) == VarIntBytes(x)
      decreases value
    {
      ghost var v, before := value, bytes;
      var temp := value % 128;
      value := value / 128;
      if value != 0 {
        temp := temp + 128;
      }
      GroupsStep(v, temp, value);
      bytes := bytes + [temp];
      if value == 0 {
        break;
      }
      AppendAssoc(before, [temp], Groups(value));
    }
  }

  /** The writeByte callback of writeVarInt and writeVarLong, as the sequence
      of bytes it has been handed. */
  class ByteSink {
    var written: seq<byte>

    constructor ()
      ensures written == []
    {
      written := [];
    }

    method WriteByte(b: byte)
      modifies this
      ensures written == old(written) + [b]
    {
      written := written + [b];
    }
  }

  /** writeVarInt(value, writeByte): hands writeByte the bytes of encodeVarInt(value), in order. */
  method WriteVarInt(x: int, sink: ByteSink)
    modifies sink
    ensures sink.written == old(sink.written) + VarIntBytes(x)
  {
    var value: nat := Uint32(x);
    while true
      invariant sink.written + Groups(value) == old(sink.written) + VarIntBytes(x)
      decreases value
    {
      ghost var v, before := value, sink.written;
      var temp := value % 128;
      value := value / 128;
      if value != 0 {
        temp := temp + 128;
      }
      GroupsStep(v, temp, value);
      sink.WriteByte(temp);
      if value == 0 {
        break;
      }
      AppendAssoc(before, [temp], Groups(value));
    }
  }

  /** writeVarLong(value, writeByte): BigInt.asUintN(64, value), then the same loop. */
  method WriteVarLong(x: int, sink: ByteSink)
    modifies sink
    ensures sink.written == old(sink.written) + VarLongBytes(x)
  {
    var value: nat := x % Two64;
    while true
      invariant sink.written + Groups(value) == old(sink.written) + VarLongBytes(x)
      decreases value
    {
      ghost var v, before := value, sink.written;
      var temp := value % 128;
      value := value / 128;
      if value != 0 {
        temp := temp + 128;
      }
      GroupsStep(v, temp, value);
      sink.WriteByte(temp);
      if value == 0 {
        break;
      }
      AppendAssoc(before, [temp], Groups(value));
    }
  }

  lemma ModuloSum(a: int, b: int)
    ensures (a % Two32 + b % Two32) % Two32 == (a + b) % Two32
  {
    var qa, qb := a / Two32, b / Two32;
    assert a + b == (a % Two32 + b % Two32) + (qa + qb) * Two32;
  }

  /** `result |= value << (7 * numRead)` keeps the truncated accumulator in
      step with the exact one, for the first five groups. */
  lemma AccumulateGroup(result: nat, acc: nat, value: nat, k: nat)
    requires k <= 4 && result == acc % Two32
    ensures (result + ShiftLeft32(value, 7 * k)) % Two32 == (acc + value * Pow128(k)) % Two32
    ensures value * Pow128(k) >= 0
  {
    GroupShift(k);
    ModuloSum(acc, value * Pow128(k));
  }

  lemma Int32OfUint32(x: int)
    ensures Int32(x % Two32) == Int32(x)
  {
  }

  /** decodeVarInt(buf, off). */
  method DecodeVarInt(buf: seq<byte>, start: int) returns (r: Result<(int, int)>)
    ensures r == VarIntAt(buf, start)
  {
    var numRead: nat, result: nat, off := 0, 0, start;
    ghost var acc: nat := 0;
    ghost var target := ReadGroups(buf, start, 0, 5);
    AccumulatedStart(target);
    while true
      invariant numRead <= 5
      invariant result == acc % Two32
      invariant Accumulated(acc, numRead, ReadGroups(buf, off, numRead, 5)) == target
      decreases 5 - numRead
    {
      if off < 0 || off >= |buf| {
        assert target == Err(OutOfRange);
        return Err(OutOfRange);
      }
      var b := buf[off];
      if numRead == 5 {
        // the sixth group is read and accumulated before the count check fails
        assert target == Err(VarIntTooBig);
        return Err(VarIntTooBig);
      }
      var value := b % 128;
      AccumulateGroup(result, acc, value, numRead);
      if b < 128 {
        ReadGroupsLast(buf, off, numRead, 5, acc);
      } else {
        ReadGroupsStep(buf, off, numRead, 5, acc);
      }
      ghost var next := acc + buf[off] % 128 * Pow128(numRead);
      off := off + 1;
      result := (result + ShiftLeft32(value, 7 * numRead)) % Two32;
      acc := acc + value * Pow128(numRead);
      assert acc == next;
      numRead := numRead + 1;
      if b < 128 {
        break;
      }
    }
    assert target == Ok((acc, off));
    Int32OfUint32(acc);
    return Ok((Int32(result), off));
  }

  /** A group shifted into place on BigInt: nothing is cut off. */
  lemma LongGroup(value: nat, k: nat)
    ensures value * Pow2(7 * k) == value * Pow128(k) >= 0
  {
    SevenBitShift(k);
  }

  /** decodeVarLong(buf, off): the same loop on BigInt, with ten groups allowed. */
  method DecodeVarLong(buf: seq<byte>, start: int) returns (r: Result<(int, int)>)
    ensures r == VarLongAt(buf, start)
  {
    var numRead: nat, result: nat, off := 0, 0, start;
    ghost var target := ReadGroups(buf, start, 0, 10);
    AccumulatedStart(target);
    while true
      invariant numRead <= 10
      invariant Accumulated(result, numRead, ReadGroups(buf, off, numRead, 10)) == target
      decreases 10 - numRead
    {
      if off < 0 || off >= |buf| {
        assert target == Err(OutOfRange);
        return Err(OutOfRange);
      }
      var b := buf[off];
      if numRead == 10 {
        // the eleventh group is read and accumulated before the count check fails
        assert target == Err(VarIntTooBig);
        return Err(VarIntTooBig);
      }
      var value := b % 128;
      LongGroup(value, numRead);
      if b < 128 {
        ReadGroupsLast(buf, off, numRead, 10, result);
      } else {
        ReadGroupsStep(buf, off, numRead, 10, result);
      }
      ghost var next := result + buf[off] % 128 * Pow128(numRead);
      off := off + 1;
      result := result + value * Pow2(7 * numRead);
      assert result == next;
      numRead := numRead + 1;
      if b < 128 {
        break;
      }
    }
    return Ok((result, off));
  }

  lemma {:induction false} SevenBitShift(k: nat)
    ensures Pow2(7 * k) == Pow128(k)
  {
    if k > 0 {
      SevenBitShift(k - 1);
      assert Pow2(7 * k) == 128 * Pow2(7 * (k - 1)) by {
        PowTwoAdd(7 * (k - 1), 7);
        assert Pow2(7) == 128;
      }
    }
  }

  lemma {:induction false} PowTwoAdd(a: nat, b: nat)
    ensures Pow2(a + b) == Pow2(a) * Pow2(b)
  {
    if b > 0 {
      PowTwoAdd(a, b - 1);
    }
  }

  /** The readByte callback of readVarInt: a byte source read one byte at a
      time, which fails once it is exhausted. */
  class ByteSource {
    const bytes: seq<byte>
    var position: nat

    constructor (bytes: seq<byte>)
      ensures this.bytes == bytes && position == 0
    {
      this.bytes := bytes;
      position := 0;
    }

    method ReadByte() returns (r: Result<byte>)
      modifies this
      ensures old(position) < |bytes| ==> r == Ok(bytes[old(position)]) && position == old(position) + 1
      ensures old(position) >= |bytes| ==> r == Err(OutOfRange) && position == old(position)
    {
      if position < |bytes| {
        r := Ok(bytes[position]);
        position := position + 1;
      } else {
        r := Err(OutOfRange);
      }
    }
  }

  /** readVarInt(readByte): the value decodeVarInt finds in the same bytes, and
      the source is left just after them. */
  method ReadVarInt(source: ByteSource) returns (r: Result<int>)
    modifies source
    ensures var d := VarIntAt(source.bytes, old(source.position));
      (d.Ok? ==> r == Ok(d.value.0) && source.position == d.value.1) &&
      (d.Err? ==> r == Err(d.error))
  {
    var numRead: nat, result: nat := 0, 0;
    ghost var acc: nat := 0;
    ghost var target := ReadGroups(source.bytes, source.position, 0, 5);
    AccumulatedStart(target);
    while true
      invariant numRead <= 5
      invariant result == acc % Two32
      invariant Accumulated(acc, numRead, ReadGroups(source.bytes, source.position, numRead, 5)) == target
      decreases 5 - numRead
    {
      ghost var at := source.position;
      var next := source.ReadByte();
      if next.Err? {
        assert ReadGroups(source.bytes, at, numRead, 5) == Err(OutOfRange);
        return Err(next.error);
      }
      var b := next.value;
      assert at < |source.bytes| && b == source.bytes[at] && source.position == at + 1;
      if numRead == 5 {
        assert target == Err(VarIntTooBig);
        return Err(VarIntTooBig);
      }
      var value := b % 128;
      AccumulateGroup(result, acc, value, numRead);
      if b < 128 {
        ReadGroupsLast(source.bytes, at, numRead, 5, acc);
      } else {
        ReadGroupsStep(source.bytes, at, numRead, 5, acc);
      }
      ghost var grown := acc + source.bytes[at] % 128 * Pow128(numRead);
      result := (result + ShiftLeft32(value, 7 * numRead)) % Two32;
      acc := acc + value * Pow128(numRead);
      assert acc == grown;
      numRead := numRead + 1;
      if b < 128 {
        break;
      }
    }
    Int32OfUint32(acc);
    return Ok(Int32(result));
  }
}
