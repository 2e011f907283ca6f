/** Byte buffers as Node's Buffer presents them to the protocol engine: bytes,
    the range errors its accessors throw, slicing, and big-endian integers. */
module Buffers {

  /** One byte of a Buffer. */
  type byte = x: int | 0 <= x < 256

  /** The exceptions of the byte layer, turned into values: Node's range error
      (an accessor reading outside the buffer, or a value too large for a
      field) and the "Varint too big!" error of the VarInt decoder. */
  datatype Error = OutOfRange | VarIntTooBig

  datatype Result<T> = Ok(value: T) | Err(error: Error)

  datatype Option<T> = None | Some(value: T)

  /** How Buffer.slice reads one of its indices: a negative index counts from
      the end, and the result is clamped to [0, len]. */
  function SliceIndex(i: int, len: nat): (r: nat)
    ensures r <= len
    ensures 0 <= i <= len ==> r == i
  {
    if i < 0 then (if len + i < 0 then 0 else len + i)
    else if i > len then len
    else i
  }

  /** Buffer.slice(start, end); empty when the clamped start is not before the clamped end. */
  function Slice(buf: seq<byte>, start: int, end: int): (r: seq<byte>)
  {
    var s, e := SliceIndex(start, |buf|), SliceIndex(end, |buf|);
    if s < e then buf[s..e] else []
  }

  /** Within the buffer's bounds, Buffer.slice is a plain subsequence. */
  lemma SliceWithin(buf: seq<byte>, i: int, j: int)
    requires 0 <= i <= |buf| && 0 <= j <= |buf|
    ensures Slice(buf, i, j) == if i < j then buf[i..j] else []
  {
  }

  /** A slice within `buf` is the same slice of `pre + buf`, moved by |pre|. */
  lemma SliceShift(pre: seq<byte>, buf: seq<byte>, i: nat, j: nat)
    requires i <= |buf| && j <= |buf|
    ensures Slice(pre + buf, |pre| + i, |pre| + j) == Slice(buf, i, j)
  {
    SliceWithin(buf, i, j);
    SliceWithin(pre + buf, |pre| + i, |pre| + j);
    if i < j {
      assert (pre + buf)[|pre| + i..|pre| + j] == buf[i..j];
    }
  }

  /** ... and the same slice of `buf + more`. */
  lemma SliceExtend(buf: seq<byte>, more: seq<byte>, i: nat, j: nat)
    requires i <= |buf| && j <= |buf|
    ensures Slice(buf + more, i, j) == Slice(buf, i, j)
  {
    SliceWithin(buf, i, j);
    SliceWithin(buf + more, i, j);
    if i < j {
      assert (buf + more)[i..j] == buf[i..j];
    }
  }

  /** ... and the same slice of `buf[d..]`, moved back by d. */
  lemma SliceDrop(buf: seq<byte>, d: nat, i: int, j: int)
    requires d <= i <= |buf| && d <= j <= |buf|
    ensures Slice(buf[d..], i - d, j - d) == Slice(buf, i, j)
  {
    SliceWithin(buf, i, j);
    SliceWithin(buf[d..], i - d, j - d);
    if i < j {
      assert buf[d..][i - d..j - d] == buf[i..j];
    }
  }

  function Pow256(n: nat): (r: nat)
    ensures r >= 1
  {
    if n == 0 then 1 else 256 * Pow256(n - 1)
  }

  /** The unsigned value of bytes read most significant first. */
  function BigEndian(s: seq<byte>): (r: nat)
    ensures r < Pow256(|s|)
  {
    if s == [] then 0 else BigEndian(s[..|s| - 1]) * 256 + s[|s| - 1]
  }

  /** The `width` bytes of x, most significant first, as Buffer.writeUIntXBE stores them. */
  function BigEndianBytes(x: nat, width: nat): (r: seq<byte>)
    requires x < Pow256(width)
    ensures |r| == width
  {
    if width == 0 then [] else BigEndianBytes(x / 256, width - 1) + [x % 256]
  }

  lemma {:induction false} BigEndianOfBytes(x: nat, width: nat)
    requires x < Pow256(width)
    ensures BigEndian(BigEndianBytes(x, width)) == x
  {
    if width > 0 {
      var s := BigEndianBytes(x, width);
      assert s[..|s| - 1] == BigEndianBytes(x / 256, width - 1);
      BigEndianOfBytes(x / 256, width - 1);
    }
  }

  /** Half the range of a `width`-byte field: the first pattern whose sign bit is set. */
  function SignBit(width: nat): (r: int)
    requires width > 0
    ensures r >= 128 && Pow256(width) == 2 * r
  {
    if width == 1 then 128 else 256 * SignBit(width - 1)
  }

  /** The value of a `width`-byte field read as a two's complement signed integer. */
  function Signed(u: nat, width: nat): (r: int)
    requires width > 0 && u < Pow256(width)
    ensures -SignBit(width) <= r < SignBit(width)
    ensures r >= 0 ==> r == u
    ensures r < 0 ==> r + Pow256(width) == u
  {
    if u < SignBit(width) then u else u - Pow256(width)
  }

  /** The `width`-byte pattern Buffer.writeIntXBE stores for the signed value x. */
  function TwosComplement(x: int, width: nat): (r: nat)
    requires width > 0 && -SignBit(width) <= x < SignBit(width)
    ensures r < Pow256(width)
    ensures Signed(r, width) == x
  {
    if x < 0 then x + Pow256(width) else x
  }

  /** The concatenation of a sequence of buffers, as Buffer.concat returns it. */
  function Concat(parts: seq<seq<byte>>): (r: seq<byte>)
  {
    if parts == [] then [] else Concat(parts[..|parts| - 1]) + parts[|parts| - 1]
  }

  lemma ConcatAppend(parts: seq<seq<byte>>, last: seq<byte>)
    ensures Concat(parts + [last]) == Concat(parts) + last
  {
    assert (parts + [last])[..|parts|] == parts;
  }

  lemma {:induction false} ConcatCons(first: seq<byte>, rest: seq<seq<byte>>)
    ensures Concat([first] + rest) == first + Concat(rest)
    decreases |rest|
  {
    if rest == [] {
      assert [first] + rest == [] + [first];
      ConcatAppend([], first);
    } else {
      var init, last := rest[..|rest| - 1], rest[|rest| - 1];
      assert rest == init + [last];
      assert [first] + rest == ([first] + init) + [last];
      ConcatAppend([first] + init, last);
      ConcatCons(first, init);
      ConcatAppend(init, last);
      AppendAssoc(first, Concat(init), last);
    }
  }
  // Sequence identities, each proved on its own so that callers need not
  // reason about extensionality in a large context.

  lemma AppendAssoc<T>(x: seq<T>, y: seq<T>, z: seq<T>)
    ensures x + (y + z) == (x + y) + z
  {
  }

  lemma AppendAssoc4<T>(w: seq<T>, x: seq<T>, y: seq<T>, z: seq<T>)
    ensures w + x + y + z == w + (x + y + z)
  {
  }

  lemma AppendEmpty<T>(x: seq<T>)
    ensures [] + x == x && x + [] == x
  {
  }

  lemma SplitAt<T>(s: seq<T>, i: nat)
    requires i <= |s|
    ensures s[..i] + s[i..] == s
  {
  }

  lemma ConsSplit<T>(s: seq<T>)
    requires |s| > 0
    ensures [s[0]] + s[1..] == s
  {
  }

  lemma DropAppend<T>(s: seq<T>, more: seq<T>, i: nat)
    requires i <= |s|
    ensures (s + more)[i..] == s[i..] + more
  {
  }

  lemma DropDrop<T>(s: seq<T>, i: nat, j: nat)
    requires i + j <= |s|
    ensures s[i..][j..] == s[i + j..]
  {
  }

  lemma DropPrefix<T>(pre: seq<T>, rest: seq<T>, k: nat)
    requires k <= |rest|
    ensures (pre + rest)[|pre| + k..] == rest[k..]
  {
  }
}
