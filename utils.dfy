/** The helpers of src/utils.ts that the login handshake uses: the signed
    hexadecimal form of a SHA-1 server hash that the session server expects,
    the in-place two's complement it relies on, and the PEM wrapping of a
    public key. Base64 is not modelled: the PEM writer is given the base64
    text of the key. */
module ServerHash {
  import opened Buffers

  // ---------------------------------------------------------------------------
  // Hexadecimal digits

  predicate IsHexDigit(c: char)
  {
    '0' <= c <= '9' || 'a' <= c <= 'f'
  }

  /** The value of a lowercase hexadecimal digit. */
  function DigitValue(c: char): nat
  {
    if '0' <= c <= '9' then c as int - '0' as int
    else if 'a' <= c <= 'f' then c as int - 'a' as int + 10
    else 0
  }

  /** The lowercase digit of a nibble. */
  function HexDigit(d: nat): (c: char)
    requires d < 16
    ensures IsHexDigit(c) && DigitValue(c) == d
  {
    if d < 10 then ('0' as int + d) as char else ('a' as int + d - 10) as char
  }

  /** Buffer.toString("hex"): two lowercase digits per byte, high nibble first. */
  function Hex(b: seq<byte>): (s: seq<char>)
    ensures |s| == 2 * |b|
    ensures forall i :: 0 <= i < |s| ==> IsHexDigit(s[i])
  {
    if b == [] then [] else
      var last := b[|b| - 1];
      Hex(b[..|b| - 1]) + [HexDigit(last / 16), HexDigit(last % 16)]
  }

  /** The number a string of hexadecimal digits denotes. */
  function HexValue(s: seq<char>): nat
  {
    if s == [] then 0 else HexValue(s[..|s| - 1]) * 16 + DigitValue(s[|s| - 1])
  }

  /** The hexadecimal text of a buffer denotes its big-endian value. */
  lemma {:induction false} HexValueOfHex(b: seq<byte>)
    ensures HexValue(Hex(b)) == BigEndian(b)
  {
    if b != [] {
      var init, last := b[..|b| - 1], b[|b| - 1];
      var h, hi, lo := Hex(init), HexDigit(last / 16), HexDigit(last % 16);
      HexValueOfHex(init);
      var s := Hex(b);
      assert s == h + [hi] + [lo];
      assert s[..|s| - 1] == h + [hi];
      assert (h + [hi])[..|h|] == h;
      assert HexValue(s) == (HexValue(h) * 16 + last / 16) * 16 + last % 16;
    }
  }

  /** digest.replace(/^0+/g, ""): the text without its leading zeros. */
  function StripZeros(s: seq<char>): (r: seq<char>)
    ensures |r| <= |s| && r == s[|s| - |r|..]
    ensures r == [] || r[0] != '0'
    ensures forall i :: 0 <= i < |s| - |r| ==> s[i] == '0'
  {
    if s != [] && s[0] == '0' then StripZeros(s[1..]) else s
  }

  /** A leading zero adds nothing to the value. */
  lemma {:induction false} HexValueDropZero(s: seq<char>)
    requires s != [] && s[0] == '0'
    ensures HexValue(s) == HexValue(s[1..])
    decreases |s|
  {
    if |s| > 1 {
      var init := s[..|s| - 1];
      HexValueDropZero(init);
      assert init[1..] == s[1..][..|s| - 2];
    } else {
      assert s[..0] == [];
    }
  }

  lemma {:induction false} HexValueStripZeros(s: seq<char>)
    ensures HexValue(StripZeros(s)) == HexValue(s)
    decreases |s|
  {
    if s != [] && s[0] == '0' {
      HexValueDropZero(s);
      HexValueStripZeros(s[1..]);
    }
  }

  // ---------------------------------------------------------------------------
  // The two's complement of a buffer

  /** What the negation is meant to leave in an n-byte buffer holding v: the
      n-byte pattern of -v, that is (256^n - v) mod 256^n. */
  function Negated(v: seq<byte>): (r: seq<byte>)
    ensures |r| == |v|
  {
    BigEndianBytes((Pow256(|v|) - BigEndian(v)) % Pow256(|v|), |v|)
  }

  lemma MulFacts(b: int, p: int)
    requires 0 <= b <= 255 && p >= 1
    ensures (256 - b) * p + b * p == 256 * p && (255 - b) * p + b * p == 255 * p
    ensures 0 <= b * p && (b > 0 ==> b * p >= p)
  {
  }

  lemma MulLe(a: int, c: int, p: int)
    requires a <= c && p >= 0
    ensures a * p <= c * p
  {
  }

  lemma {:induction false} BigEndianCons(b: byte, s: seq<byte>)
    ensures BigEndian([b] + s) == b * Pow256(|s|) + BigEndian(s)
    decreases |s|
  {
    var t := [b] + s;
    if s == [] {
      assert t[..0] == [];
    } else {
      var init, last := s[..|s| - 1], s[|s| - 1];
      assert t[..|t| - 1] == [b] + init;
      BigEndianCons(b, init);
      var p, x := Pow256(|init|), BigEndian(init);
      assert BigEndian(t) == (b * p + x) * 256 + last;
      assert Pow256(|s|) == 256 * p;
      assert BigEndian(s) == x * 256 + last;
      CarryOut(b, p, x, last);
    }
  }

  lemma CarryOut(b: int, p: int, x: int, last: int)
    ensures (b * p + x) * 256 + last == b * (256 * p) + (x * 256 + last)
  {
  }

  /** Bytes read and written back big-endian are the same bytes. */
  lemma {:induction false} BytesOfBigEndian(s: seq<byte>)
    ensures BigEndianBytes(BigEndian(s), |s|) == s
  {
    if s != [] {
      var init := s[..|s| - 1];
      BytesOfBigEndian(init);
      var x := BigEndian(s);
      assert x == BigEndian(init) * 256 + s[|s| - 1];
      assert x / 256 == BigEndian(init) && x % 256 == s[|s| - 1];
    }
  }

  /** What the loop keeps between the bytes already negated, worth r, and the
      original bytes they replace, worth v, in a width worth p: while the
      carry is set both are zero, after it they add up to p. */
  predicate Negates(r: nat, v: nat, p: nat, carry: bool)
  {
    if carry then r == 0 && v == 0 else r + v == p && v > 0
  }

  /** One byte of the loop, from the end. */
  lemma NegateStep(b: byte, w: byte, r: nat, v: nat, p: nat, carry: bool)
    requires p >= 1 && Negates(r, v, p, carry)
    requires w == if carry then (255 - b + 1) % 256 else 255 - b
    ensures Negates(w * p + r, b * p + v, 256 * p, carry && b == 0)
  {
    MulFacts(b, p);
    if carry && b == 0 {
      assert (255 - b + 1) % 256 == 0;
    } else if carry {
      assert (255 - b + 1) % 256 == 256 - b;
    }
  }

  lemma ModSmall(a: int, m: int)
    requires 0 <= a < m
    ensures a % m == a
  {
  }

  lemma ModSelf(m: int)
    requires m > 0
    ensures m % m == 0
  {
  }

  /** When the loop has gone over every byte, the buffer holds the negation. */
  lemma NegatedOf(buf: seq<byte>, v: seq<byte>, carry: bool)
    requires |buf| == |v| && Negates(BigEndian(buf), BigEndian(v), Pow256(|v|), carry)
    ensures buf == Negated(v)
  {
    var p, x := Pow256(|v|), BigEndian(v);
    ModSmall(if carry then 0 else p - x, p);
    if carry {
      ModSelf(p);
    }
    BytesOfBigEndian(buf);
  }

  /** performTwosCompliment as written: with the carry still set, it writes
      (~value & 0xff) + 1, which is 0x100 when the byte is 0x00, and
      Buffer.writeUInt8 throws a range error for it. The carry is only set at
      the last byte, so the call throws before writing anything exactly when
      the buffer ends in a zero byte; otherwise it negates. */
  method PerformTwosComplimentAsWritten(buffer: array<byte>) returns (r: Result<()>)
    modifies buffer
    ensures r.Err? <==> buffer.Length > 0 && old(buffer[buffer.Length - 1]) == 0
    ensures r.Err? ==> r.error == OutOfRange && buffer[..] == old(buffer[..])
    ensures r.Ok? ==> buffer[..] == Negated(old(buffer[..]))
  {
    ghost var v := buffer[..];
    var n := buffer.Length;
    var carry := true;
    var i := n;
    while i > 0
      invariant 0 <= i <= n && buffer.Length == n
      invariant buffer[..i] == v[..i]
      invariant i < n ==> !carry && v[n - 1] != 0
      invariant Negates(BigEndian(buffer[i..]), BigEndian(v[i..]), Pow256(n - i), carry)
    {
      i := i - 1;
      var value := buffer[i];
      var newByte: int := 255 - value;
      ghost var before, wasCarry := buffer[..], carry;
      assert value == v[i];
      if carry {
        carry := newByte == 0xff;
        if newByte + 1 > 0xff {
          assert buffer[..] == buffer[..i + 1];
          return Err(OutOfRange);
        }
        buffer[i] := newByte + 1;
      } else {
        buffer[i] := newByte;
      }
      NegateAt(before, buffer[..], v, i, wasCarry);
      assert carry == (wasCarry && v[i] == 0);
    }
    assert buffer[..] == buffer[0..] && v == v[0..];
    NegatedOf(buffer[..], v, carry);
    return Ok(());
  }

  /** The suffixes after one more byte, in the terms NegateStep uses. */
  lemma NegatedByte(buf: seq<byte>, v: seq<byte>, i: nat, done: seq<byte>)
    requires i < |buf| == |v| && done == buf[i + 1..]
    ensures BigEndian(buf[i..]) == buf[i] * Pow256(|v| - i - 1) + BigEndian(done)
    ensures BigEndian(v[i..]) == v[i] * Pow256(|v| - i - 1) + BigEndian(v[i + 1..])
    ensures Pow256(|v| - i) == 256 * Pow256(|v| - i - 1)
  {
    assert buf[i..] == [buf[i]] + done;
    assert v[i..] == [v[i]] + v[i + 1..];
    BigEndianCons(buf[i], done);
    BigEndianCons(v[i], v[i + 1..]);
  }

  /** Writing byte i leaves the bytes on either side of it as they were. */
  lemma WroteAt(before: seq<byte>, buf: seq<byte>, v: seq<byte>, i: nat)
    requires i < |before| == |buf| == |v| && buf == before[i := buf[i]]
    requires before[..i + 1] == v[..i + 1]
    ensures buf[i + 1..] == before[i + 1..] && buf[..i] == v[..i]
  {
    assert buf[..i] == before[..i];
  }

  /** The byte the loop writes, in the form NegateStep takes. */
  lemma NegatedDigit(b: byte, w: byte, carry: bool)
    requires w == if !carry then 255 - b else if b == 0 then 0 else 256 - b
    ensures w == if carry then (255 - b + 1) % 256 else 255 - b
  {
    if carry && b == 0 {
      ModSelf(256);
    } else if carry {
      ModSmall(256 - b, 256);
    }
  }

  /** The loop invariant one byte further on, once byte i has been written. */
  lemma NegateAt(before: seq<byte>, buf: seq<byte>, v: seq<byte>, i: nat, carry: bool)
    requires i < |before| == |buf| == |v| && buf == before[i := buf[i]]
    requires before[..i + 1] == v[..i + 1]
    requires Negates(BigEndian(before[i + 1..]), BigEndian(v[i + 1..]), Pow256(|v| - i - 1), carry)
    requires buf[i] == if !carry then 255 - v[i] else if v[i] == 0 then 0 else 256 - v[i]
    ensures Negates(BigEndian(buf[i..]), BigEndian(v[i..]), Pow256(|v| - i), carry && v[i] == 0)
    ensures buf[..i] == v[..i]
  {
    WroteAt(before, buf, v, i);
    NegatedDigit(v[i], buf[i], carry);
    NegatedByte(buf, v, i, before[i + 1..]);
    NegateStep(v[i], buf[i], BigEndian(before[i + 1..]), BigEndian(v[i + 1..]), Pow256(|v| - i - 1), carry);
  }

  /** An input the written loop throws on: a two-byte buffer holding 0xff00,
      -256 as a signed 16-bit number, ends in zero; its negation is 0x0100. */
  lemma TrailingZeroNegation()
    ensures Negated([0xff, 0x00]) == [0x01, 0x00]
  {
    var v: seq<byte> := [0xff, 0x00];
    assert v[..1] == [0xff] && [0xff][..0] == [];
    assert BigEndian(v) == 0xff00;
    assert Pow256(2) == 0x1_0000;
    assert Negated(v) == BigEndianBytes(0x100, 2);
  }

  /** performTwosCompliment with the write it evidently intends: the
      incremented byte is taken modulo 256, so 0xff + 1 writes 0x00 and the
      carry moves on. The buffer then holds -v in its own width. */
  method PerformTwosCompliment(buffer: array<byte>)
    modifies buffer
    ensures buffer[..] == Negated(old(buffer[..]))
  {
    ghost var v := buffer[..];
    var n := buffer.Length;
    var carry := true;
    var i := n;
    while i > 0
      invariant 0 <= i <= n && buffer.Length == n
      invariant buffer[..i] == v[..i]
      invariant Negates(BigEndian(buffer[i..]), BigEndian(v[i..]), Pow256(n - i), carry)
    {
      i := i - 1;
      var value := buffer[i];
      var newByte: int := 255 - value;
      ghost var before, wasCarry := buffer[..], carry;
      assert value == v[i];
      if carry {
        carry := newByte == 0xff;
        buffer[i] := (newByte + 1) % 256;
      } else {
        buffer[i] := newByte;
      }
      NegateAt(before, buffer[..], v, i, wasCarry);
    }
    assert buffer[..] == buffer[0..] && v == v[0..];
    NegatedOf(buffer[..], v, carry);
  }

  // ---------------------------------------------------------------------------
  // mcHexDigest

  /** mcHexDigest(hash): readInt8(0) throws on an empty buffer; a hash whose
      first byte reads as negative is negated and gets a minus sign; the hex
      text loses its leading zeros. */
  function Digest(hash: seq<byte>): Result<seq<char>>
  {
    if hash == [] then Err(OutOfRange)
    else
      var negative := Signed(hash[0], 1) < 0;
      var digits := StripZeros(Hex(if negative then Negated(hash) else hash));
      Ok(if negative then "-" + digits else digits)
  }

  /** The number a digest denotes: a hexadecimal value, negative after a minus sign. */
  function SignedValue(s: seq<char>): int
  {
    if s != [] && s[0] == '-' then -(HexValue(s[1..]) as int) else HexValue(s)
  }

  lemma {:induction false} SignBitPow(n: nat)
    requires n > 0
    ensures SignBit(n) == 128 * Pow256(n - 1)
  {
    if n > 1 {
      SignBitPow(n - 1);
    }
  }

  /** The sign of a hash is its first byte's top bit. */
  lemma FirstByteSign(hash: seq<byte>)
    requires hash != []
    ensures hash[0] >= 0x80 <==> BigEndian(hash) >= SignBit(|hash|)
  {
    var rest := hash[1..];
    assert hash == [hash[0]] + rest;
    BigEndianCons(hash[0], rest);
    SignBitPow(|hash|);
    if hash[0] >= 0x80 {
      MulLe(128, hash[0], Pow256(|rest|));
    } else {
      MulLe(hash[0], 127, Pow256(|rest|));
    }
  }

  /** The hex text of a buffer without its leading zeros: lowercase digits,
      no leading zero, denoting the buffer's big-endian value. */
  lemma DigitsOf(bytes: seq<byte>)
    ensures var digits := StripZeros(Hex(bytes));
      (forall i :: 0 <= i < |digits| ==> IsHexDigit(digits[i])) &&
      (digits == [] || digits[0] != '0') &&
      HexValue(digits) == BigEndian(bytes)
  {
    var h := Hex(bytes);
    var digits := StripZeros(h);
    HexValueStripZeros(h);
    HexValueOfHex(bytes);
    SuffixDigits(h, digits);
  }

  /** A suffix of hexadecimal text is hexadecimal text. */
  lemma SuffixDigits(h: seq<char>, digits: seq<char>)
    requires forall i :: 0 <= i < |h| ==> IsHexDigit(h[i])
    requires |digits| <= |h| && digits == h[|h| - |digits|..]
    ensures forall i :: 0 <= i < |digits| ==> IsHexDigit(digits[i])
  {
    forall i | 0 <= i < |digits|
      ensures IsHexDigit(digits[i])
    {
      assert digits[i] == h[|h| - |digits| + i];
    }
  }

  /** A hash whose first byte is 0x80 or more is negative, and its negation
      holds its magnitude. */
  lemma NegativeHash(hash: seq<byte>)
    requires hash != [] && hash[0] >= 0x80
    ensures Signed(BigEndian(hash), |hash|) == -(BigEndian(Negated(hash)) as int)
  {
    FirstByteSign(hash);
    NegatedValue(hash);
  }

  /** The negation of a nonzero buffer holds 256^n minus its value. */
  lemma NegatedValue(v: seq<byte>)
    requires BigEndian(v) > 0
    ensures BigEndian(Negated(v)) == Pow256(|v|) - BigEndian(v)
  {
    var p := Pow256(|v|);
    var m := p - BigEndian(v);
    ModSmall(m, p);
    BigEndianOfBytes(m, |v|);
  }

  /** A hash whose first byte is below 0x80 is its own value. */
  lemma NonNegativeHash(hash: seq<byte>)
    requires hash != [] && hash[0] < 0x80
    ensures Signed(BigEndian(hash), |hash|) == BigEndian(hash)
  {
    FirstByteSign(hash);
  }

  /** The digest is the hash read as one signed big-endian number, written in
      lowercase hexadecimal without leading zeros, with a minus sign exactly
      when the first byte is 0x80 or more; an empty hash throws. */
  lemma DigestDenotesHash(hash: seq<byte>)
    ensures Digest(hash).Ok? <==> hash != []
    ensures hash != [] ==>
      var r := Digest(hash).value;
      var negative := r != [] && r[0] == '-';
      var digits := if negative then r[1..] else r;
      (negative <==> hash[0] >= 0x80) &&
      (forall i :: 0 <= i < |digits| ==> IsHexDigit(digits[i])) &&
      (digits == [] || digits[0] != '0') &&
      SignedValue(r) == Signed(BigEndian(hash), |hash|)
  {
    if hash != [] {
      var negative := hash[0] >= 0x80;
      assert negative <==> Signed(hash[0], 1) < 0;
      var bytes := if negative then Negated(hash) else hash;
      var digits := StripZeros(Hex(bytes));
      DigitsOf(bytes);
      var r := Digest(hash).value;
      if negative {
        assert r == "-" + digits && r[1..] == digits;
        NegativeHash(hash);
        assert SignedValue(r) == -(HexValue(digits) as int);
      } else {
        assert r == digits;
        NonNegativeHash(hash);
        if digits != [] {
          assert IsHexDigit(r[0]);
        }
        assert SignedValue(r) == HexValue(digits);
      }
    }
  }

  /** mcHexDigest on a buffer: the hash is negated in place when it is
      negative, and the digest is that of the original bytes. */
  method McHexDigest(hash: array<byte>) returns (r: Result<seq<char>>)
    modifies hash
    ensures r == Digest(old(hash[..]))
    ensures hash[..] == if hash.Length > 0 && old(hash[0]) >= 0x80 then Negated(old(hash[..])) else old(hash[..])
  {
    if hash.Length == 0 {
      return Err(OutOfRange);
    }
    var negative := Signed(hash[0], 1) < 0;
    if negative {
      PerformTwosCompliment(hash);
    }
    var digest := Hex(hash[..]);
    digest := StripZeros(digest);
    if negative {
      digest := "-" + digest;
    }
    return Ok(digest);
  }

  // ---------------------------------------------------------------------------
  // mcPublicKeyToPem

  const PemHeader: string := "-----BEGIN PUBLIC KEY-----\n"
  const PemFooter: string := "-----END PUBLIC KEY-----\n"
  const MaxLineLength: nat := 65

  /** The base64 text cut into lines: every line but the last has 65
      characters, and none is empty or longer. */
  function Lines(b: string): (ls: seq<string>)
    ensures forall i :: 0 <= i < |ls| ==> 0 < |ls[i]| <= MaxLineLength
    ensures forall i :: 0 <= i < |ls| - 1 ==> |ls[i]| == MaxLineLength
    decreases |b|
  {
    if b == [] then []
    else
      var n := if |b| < MaxLineLength then |b| else MaxLineLength;
      [b[..n]] + Lines(b[n..])
  }

  function Flatten(ls: seq<string>): string
  {
    if ls == [] then [] else ls[0] + Flatten(ls[1..])
  }

  /** Each line followed by a newline. */
  function Joined(ls: seq<string>): string
  {
    if ls == [] then [] else ls[0] + "\n" + Joined(ls[1..])
  }

  /** The lines together are the base64 text, in order. */
  lemma {:induction false} LinesFlatten(b: string)
    ensures Flatten(Lines(b)) == b
    decreases |b|
  {
    if b != [] {
      var n := if |b| < MaxLineLength then |b| else MaxLineLength;
      LinesFlatten(b[n..]);
      var ls := Lines(b);
      assert ls[0] == b[..n] && ls[1..] == Lines(b[n..]);
    }
  }

  /** Removing the newlines of the PEM body gives the base64 text back. */
  function Unwrapped(s: string): string
  {
    if s == [] then [] else (if s[0] == '\n' then [] else [s[0]]) + Unwrapped(s[1..])
  }

  lemma {:induction false} UnwrappedAppend(a: string, b: string)
    ensures Unwrapped(a + b) == Unwrapped(a) + Unwrapped(b)
    decreases |a|
  {
    if a != [] {
      assert (a + b)[1..] == a[1..] + b;
      UnwrappedAppend(a[1..], b);
    } else {
      assert a + b == b;
    }
  }

  lemma {:induction false} UnwrappedPlain(s: string)
    requires forall i :: 0 <= i < |s| ==> s[i] != '\n'
    ensures Unwrapped(s) == s
    decreases |s|
  {
    if s != [] {
      UnwrappedPlain(s[1..]);
    }
  }

  lemma {:induction false} UnwrappedJoined(ls: seq<string>)
    requires forall i, j :: 0 <= i < |ls| && 0 <= j < |ls[i]| ==> ls[i][j] != '\n'
    ensures Unwrapped(Joined(ls)) == Flatten(ls)
    decreases |ls|
  {
    if ls != [] {
      var head, tail := ls[0], ls[1..];
      forall i, j | 0 <= i < |tail| && 0 <= j < |tail[i]|
        ensures tail[i][j] != '\n'
      {
        assert tail[i] == ls[i + 1];
      }
      assert forall j :: 0 <= j < |head| ==> head[j] != '\n';
      UnwrappedJoined(tail);
      UnwrappedLine(head, Joined(tail));
    }
  }

  /** A line without newlines, its newline and the rest, unwrapped. */
  lemma UnwrappedLine(line: string, rest: string)
    requires forall j :: 0 <= j < |line| ==> line[j] != '\n'
    ensures Unwrapped(line + "\n" + rest) == line + Unwrapped(rest)
  {
    var nl := "\n";
    calc {
      Unwrapped(line + nl + rest);
      == { UnwrappedAppend(line + nl, rest); }
      Unwrapped(line + nl) + Unwrapped(rest);
      == { UnwrappedAppend(line, nl); UnwrappedNewline(); UnwrappedPlain(line); }
      line + [] + Unwrapped(rest);
      == { assert line + [] == line; }
      line + Unwrapped(rest);
    }
  }

  lemma UnwrappedNewline()
    ensures Unwrapped("\n") == []
  {
    assert "\n"[1..] == [];
  }

  /** A PEM body read back: for base64 text (which has no newline) the lines
      between the header and footer, with their newlines removed, are the text. */
  lemma PemBodyRoundTrip(b: string)
    requires forall i :: 0 <= i < |b| ==> b[i] != '\n'
    ensures Unwrapped(Joined(Lines(b))) == b
  {
    var ls := Lines(b);
    LinesFlatten(b);
    forall i, j | 0 <= i < |ls| && 0 <= j < |ls[i]|
      ensures ls[i][j] != '\n'
    {
      LineWithin(b, i, j);
    }
    UnwrappedJoined(ls);
  }

  /** Every character of a line is a character of the text. */
  lemma {:induction false} LineWithin(b: string, i: nat, j: nat)
    requires i < |Lines(b)| && j < |Lines(b)[i]|
    ensures exists k :: 0 <= k < |b| && Lines(b)[i][j] == b[k]
    decreases |b|
  {
    var n := if |b| < MaxLineLength then |b| else MaxLineLength;
    if i == 0 {
      assert Lines(b)[0] == b[..n];
      assert Lines(b)[0][j] == b[j];
    } else {
      assert Lines(b)[i] == Lines(b[n..])[i - 1];
      LineWithin(b[n..], i - 1, j);
      var k :| 0 <= k < |b[n..]| && Lines(b[n..])[i - 1][j] == b[n..][k];
      assert b[n..][k] == b[n + k];
    }
  }

  /** The first line of the text comes first in the joined lines. */
  lemma JoinedStep(b: string, n: nat)
    requires b != [] && n == if |b| < MaxLineLength then |b| else MaxLineLength
    ensures Joined(Lines(b)) == b[..n] + "\n" + Joined(Lines(b[n..]))
  {
    var ls := Lines(b);
    assert ls[0] == b[..n] && ls[1..] == Lines(b[n..]);
  }

  /** mcPublicKeyToPem, given the base64 text of the key: the header, the
      text in lines of 65 characters, each ending in a newline, then the footer. */
  method McPublicKeyToPem(base64: string) returns (pem: string)
    ensures pem == PemHeader + Joined(Lines(base64)) + PemFooter
  {
    pem := PemHeader;
    var bpk := base64;
    ghost var body := PemHeader + Joined(Lines(base64));
    while |bpk| > 0
      invariant pem + Joined(Lines(bpk)) == body
      decreases |bpk|
    {
      var n := if |bpk| < MaxLineLength then |bpk| else MaxLineLength;
      ghost var before := pem;
      JoinedStep(bpk, n);
      pem := pem + (bpk[..n] + "\n");
      AppendAssoc(before, bpk[..n] + "\n", Joined(Lines(bpk[n..])));
      bpk := bpk[n..];
    }
    return pem + PemFooter;
  }
}
