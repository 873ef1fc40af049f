/** WebSocket framing (sections 5.2 and 5.3 of RFC 6455): frame headers and masked payloads. */
module WebSocket {

  const SHORT_HEADER := 6    // with the masking key
  const MEDIUM_HEADER := 8
  const LONG_HEADER := 14

  // ----- Lengths, most significant byte first -----

  function Bytes2(n: bv64): (s: seq<bv8>)
    requires n <= 0xffff
    ensures |s| == 2
  {
    [((n >> 8) & 0xff) as bv8, (n & 0xff) as bv8]
  }

  function Bytes8(n: bv64): (s: seq<bv8>)
    ensures |s| == 8
  {
    [((n >> 56) & 0xff) as bv8, ((n >> 48) & 0xff) as bv8, ((n >> 40) & 0xff) as bv8, ((n >> 32) & 0xff) as bv8,
     ((n >> 24) & 0xff) as bv8, ((n >> 16) & 0xff) as bv8, ((n >> 8) & 0xff) as bv8, (n & 0xff) as bv8]
  }

  /** ntohs */
  function Read2(a: bv8, b: bv8): (n: bv64) { (a as bv64 << 8) | b as bv64 }

  /** be64toh */
  function Read8(a: bv8, b: bv8, c: bv8, d: bv8, e: bv8, f: bv8, g: bv8, h: bv8): (n: bv64) {
    (a as bv64 << 56) | (b as bv64 << 48) | (c as bv64 << 40) | (d as bv64 << 32)
    | (e as bv64 << 24) | (f as bv64 << 16) | (g as bv64 << 8) | h as bv64
  }

  lemma Read2Bytes2(n: bv64)
    requires n <= 0xffff
    ensures Read2(Bytes2(n)[0], Bytes2(n)[1]) == n
  {
  }

  lemma Read8Bytes8(n: bv64)
    ensures var s := Bytes8(n); Read8(s[0], s[1], s[2], s[3], s[4], s[5], s[6], s[7]) == n
  {
  }

  /** The number that bytes stand for, the most significant first. */
  function BigEndian(s: seq<bv8>): (n: nat) {
    if s == [] then 0 else 256 * BigEndian(s[..|s| - 1]) + s[|s| - 1] as nat
  }

  /** One more byte behind a number. */
  function Shifted(x: bv64, b: bv8): (y: bv64) { (x << 8) | b as bv64 }

  lemma ShiftedIs(x: bv64, b: bv8)
    requires x < 0x100_0000_0000_0000
    ensures ((x << 8) | b as bv64) as nat == 256 * x as nat + b as nat
  {
  }

  lemma BigEndianNext(s: seq<bv8>, x: bv64, b: bv8)
    requires x < 0x100_0000_0000_0000 && BigEndian(s) == x as nat
    ensures BigEndian(s + [b]) == Shifted(x, b) as nat
  {
    ShiftedIs(x, b);
    assert (s + [b])[..|s|] == s;
  }

  lemma BigEndianOne(a: bv8)
    ensures BigEndian([a]) == (a as bv64) as nat
  {
    assert [a][..0] == [];
  }

  lemma Read2IsBigEndian(a: bv8, b: bv8)
    ensures BigEndian([a, b]) == Read2(a, b) as nat
  {
    BigEndianOne(a);
    BigEndianNext([a], a as bv64, b);
    assert [a] + [b] == [a, b];
  }

  lemma Read8Shifts(a: bv8, b: bv8, c: bv8, d: bv8, e: bv8, f: bv8, g: bv8, h: bv8)
    ensures var x := Shifted(Shifted(a as bv64, b), c);
            var y := Shifted(Shifted(x, d), e);
            var z := Shifted(Shifted(y, f), g);
            && Shifted(a as bv64, b) < 0x1_0000 && x < 0x100_0000 && Shifted(x, d) < 0x1_0000_0000 && y < 0x100_0000_0000
            && Shifted(y, f) < 0x1_0000_0000_0000 && z < 0x100_0000_0000_0000 && Read8(a, b, c, d, e, f, g, h) == Shifted(z, h)
  {
  }

  lemma Read8IsBigEndian(a: bv8, b: bv8, c: bv8, d: bv8, e: bv8, f: bv8, g: bv8, h: bv8)
    ensures BigEndian([a, b, c, d, e, f, g, h]) == Read8(a, b, c, d, e, f, g, h) as nat
  {
    BigEndianOne(a);
    Read8Shifts(a, b, c, d, e, f, g, h);
    hide *;
    var x := Shifted(Shifted(a as bv64, b), c);
    var y := Shifted(Shifted(x, d), e);
    BigEndianNext([a], a as bv64, b);
    BigEndianNext([a] + [b], Shifted(a as bv64, b), c);
    BigEndianNext([a] + [b] + [c], x, d);
    BigEndianNext([a] + [b] + [c] + [d], Shifted(x, d), e);
    BigEndianNext([a] + [b] + [c] + [d] + [e], y, f);
    BigEndianNext([a] + [b] + [c] + [d] + [e] + [f], Shifted(y, f), g);
    BigEndianNext([a] + [b] + [c] + [d] + [e] + [f] + [g], Shifted(Shifted(y, f), g), h);
    assert [a] + [b] + [c] + [d] + [e] + [f] + [g] + [h] == [a, b, c, d, e, f, g, h];
  }

  // ----- Headers -----

  /** The bytes after the first two: the extended length. */
  function LengthField(n: bv64): (b: bv8) { if n < 126 then n as bv8 else if n <= 0xffff then 126 else 127 }

  function Extended(n: bv64): (s: seq<bv8>) { if n < 126 then [] else if n <= 0xffff then Bytes2(n) else Bytes8(n) }

  /** A frame header as section 5.2 lays it out; `key` is empty for a frame that is not masked. */
  function FrameHeader(fin: bool, opcode: bv8, length: bv64, key: seq<bv8>): (s: seq<bv8>) {
    [(if fin then 0x80 else 0) | opcode, (if key == [] then 0 else 0x80) | LengthField(length)] + Extended(length) + key
  }

  /** What `parse_header` leaves behind. `answer` is the header's size or -2. */
  datatype Parsed = Parsed(answer: int, leftHeaderLen: nat, payloadLength: bv64, mask: seq<bv8>, opcode: bv8, fin: bool)

  /** `encode_header` writes the header of an unmasked final frame. */
  method EncodeHeader(length: bv64, code: bv8, header: array<bv8>) returns (size: nat)
    requires header.Length == 10 && code < 16
    modifies header
    ensures size <= 10 && header[..size] == FrameHeader(true, code, length, [])
  {
    if length < 126 {
      size := 2;
      header[1] := length as bv8;
    } else if length <= 0xffff {
      size := 4;
      header[1] := 126;
      header[2], header[3] := ((length >> 8) & 0xff) as bv8, (length & 0xff) as bv8;
    } else {
      size := 10;
      header[1] := 127;
      StoreLong(header, length);
    }
    assert header[1] == LengthField(length) && header[2..size] == Extended(length);
    hide LengthField;
    hide Extended;
    header[0] := 0x80 | code;
    NotMasked(LengthField(length));
    assert [0x80 | code, LengthField(length)] + Extended(length) + [] == [0x80 | code, LengthField(length)] + Extended(length);
    assert header[..size] == [header[0], header[1]] + header[2..size];
  }

  lemma NotMasked(b: bv8)
    ensures 0 | b == b
  {
  }

  /** htobe64 into the header. */
  method StoreLong(header: array<bv8>, length: bv64)
    requires header.Length == 10
    modifies header
    ensures header[2..] == Bytes8(length) && header[..2] == old(header[..2])
  {
    hide Bytes8;
    var bytes := Bytes8(length);
    forall k | 0 <= k < 8 {
      header[2 + k] := bytes[k];
    }
  }

  /** The 16-bit and 64-bit length fields, and the place of the key, by the 7-bit field. */
  function HeaderSize(field: bv8): (n: nat)
    ensures SHORT_HEADER <= n <= LONG_HEADER
  {
    if field <= 125 then SHORT_HEADER else if field == 126 then MEDIUM_HEADER else LONG_HEADER
  }

  function ReadLength(inp: seq<bv8>, field: bv8): (n: bv64)
    requires HeaderSize(field) - 4 <= |inp|
  {
    if field <= 125 then field as bv64
    else if field == 126 then Read2(inp[2], inp[3])
    else Read8(inp[2], inp[3], inp[4], inp[5], inp[6], inp[7], inp[8], inp[9])
  }

  predicate IsMasked(b: bv8) { (b >> 7) & 1 == 1 }

  /** How far `parse_header` reads when the second byte is `b`: to the end of the length and of the key, if any. */
  function ReadsTo(b: bv8): (n: nat) { HeaderSize(b & 0x7f) - (if IsMasked(b) then 0 else 4) }

  /**
   Whether what `parse_header` reads is in the memory it is given: nothing is read before `size` reaches the shortest
   header, and then the whole header, also where `size` says it has not been received yet.
   */
  predicate Readable(inp: seq<bv8>, size: nat) {
    size >= SHORT_HEADER ==> 2 <= |inp| && ReadsTo(inp[1]) <= |inp|
  }

  /** `parse_header` when `size` bytes of `inp` have been received. */
  function ParseHeader(inp: seq<bv8>, size: nat, before: Parsed): (r: Parsed)
    requires Readable(inp, size)
  {
    if size < SHORT_HEADER then before.(answer := -2)
    else
      var field := inp[1] & 0x7f;
      var masked := IsMasked(inp[1]);
      var n := HeaderSize(field);
      var left := if size >= n then 0 else n - size;
      Parsed(
        if left != 0 then -2 else if masked then n else n - 4,
        left,
        ReadLength(inp, field),
        if masked then inp[n - 4..n] else before.mask,
        inp[0] & 0x0f,
        (inp[0] >> 7) & 1 == 1)
  }

  // ----- Reading what was written -----

  lemma FirstByte(fin: bool, opcode: bv8)
    requires opcode < 16
    ensures var b := (if fin then 0x80 else 0) | opcode; b & 0x0f == opcode && ((b >> 7) & 1 == 1) == fin
  {
  }

  lemma SecondByte(masked: bool, length: bv64)
    ensures var b := (if masked then 0x80 else 0) | LengthField(length);
            b & 0x7f == LengthField(length) && IsMasked(b) == masked
  {
    Small(LengthField(length));
  }

  lemma Small(f: bv8)
    requires f <= 127
    ensures (0x80 | f) & 0x7f == f && (0 | f) & 0x7f == f && ((0x80 | f) >> 7) & 1 == 1 && ((0 | f) >> 7) & 1 == 0
  {
  }

  lemma LengthIsRead(inp: seq<bv8>, length: bv64)
    requires 2 + |Extended(length)| <= |inp| && inp[2..2 + |Extended(length)|] == Extended(length)
    ensures HeaderSize(LengthField(length)) == 6 + |Extended(length)|
    ensures ReadLength(inp, LengthField(length)) == length
  {
    ShortLength(length);
    var e := inp[2..2 + |Extended(length)|];
    if length < 126 {
    } else if length <= 0xffff {
      Read2Bytes2(length);
      assert e[0] == inp[2] && e[1] == inp[3];
    } else {
      Read8Bytes8(length);
      hide Read8;
      hide Bytes8;
      assert e[0] == inp[2] && e[1] == inp[3] && e[2] == inp[4] && e[3] == inp[5];
      assert e[4] == inp[6] && e[5] == inp[7] && e[6] == inp[8] && e[7] == inp[9];
    }
  }

  lemma ShortLength(n: bv64)
    ensures n < 126 ==> n as bv8 <= 125 && (n as bv8) as bv64 == n
  {
  }

  /** The length that is read: the 7-bit field, or the two or eight bytes after it as one number. */
  lemma ReadLengthIs(inp: seq<bv8>, field: bv8)
    requires HeaderSize(field) - 4 <= |inp| && field <= 127
    ensures ReadLength(inp, field) as nat ==
      if field <= 125 then field as nat else if field == 126 then BigEndian(inp[2..4]) else BigEndian(inp[2..10])
  {
    if field <= 125 {
      Widened(field);
    } else if field == 126 {
      Read2IsBigEndian(inp[2], inp[3]);
      hide *;
      assert inp[2..4] == [inp[2], inp[3]];
    } else {
      Read8IsBigEndian(inp[2], inp[3], inp[4], inp[5], inp[6], inp[7], inp[8], inp[9]);
      hide Read8;
      hide BigEndian;
      assert inp[2..10] == [inp[2], inp[3], inp[4], inp[5], inp[6], inp[7], inp[8], inp[9]];
    }
  }

  lemma Widened(b: bv8)
    ensures (b as bv64) as nat == b as nat
  {
  }

  /** A length that does not fit the 7-bit field is written out as a number of two or eight bytes. */
  lemma ExtendedIs(n: bv64)
    ensures |Extended(n)| == if n < 126 then 0 else if n <= 0xffff then 2 else 8
    ensures n >= 126 ==> BigEndian(Extended(n)) == n as nat
  {
    if n < 126 {
    } else if n <= 0xffff {
      var s := Bytes2(n);
      Read2Bytes2(n);
      Read2IsBigEndian(s[0], s[1]);
      hide *;
      assert s == [s[0], s[1]];
    } else {
      var s := Bytes8(n);
      Read8Bytes8(n);
      Read8IsBigEndian(s[0], s[1], s[2], s[3], s[4], s[5], s[6], s[7]);
      hide Read8;
      hide Bytes8;
      hide BigEndian;
      assert s == [s[0], s[1], s[2], s[3], s[4], s[5], s[6], s[7]];
    }
  }

  /** The header that `encode_header` writes is read back once its size and four more bytes are present, and not before. */
  lemma EncodeThenParse(length: bv64, code: bv8, rest: seq<bv8>, size: nat, before: Parsed)
    requires code < 16
    ensures var h := FrameHeader(true, code, length, []);
            && Readable(h + rest, size)
            && var r := ParseHeader(h + rest, size, before);
               if size < |h| + 4 then r.answer == -2 else r == Parsed(|h|, 0, length, before.mask, code, true)
  {
    UnmaskedHeaderParts(code, length, rest);
    hide FrameHeader;
    hide LengthField;
    hide ReadLength;
    hide HeaderSize;
    hide IsMasked;
  }

  /** What an unmasked header says, byte by byte. */
  lemma UnmaskedHeaderParts(code: bv8, length: bv64, rest: seq<bv8>)
    requires code < 16
    ensures var h := FrameHeader(true, code, length, []);
            var inp := h + rest;
            && |h| == HeaderSize(LengthField(length)) - 4 && inp[0] & 0x0f == code && (inp[0] >> 7) & 1 == 1
            && inp[1] & 0x7f == LengthField(length) && !IsMasked(inp[1])
            && ReadLength(inp, LengthField(length)) == length
  {
    FirstByte(true, code);
    SecondByte(false, length);
    var h := FrameHeader(true, code, length, []);
    var inp := h + rest;
    assert inp[2..2 + |Extended(length)|] == Extended(length);
    LengthIsRead(inp, length);
    hide LengthField;
    hide Extended;
    hide ReadLength;
    hide HeaderSize;
    hide IsMasked;
    assert inp[0] == h[0] && inp[1] == h[1];
  }

  /** What a masked header says, byte by byte. */
  lemma MaskedHeaderParts(fin: bool, opcode: bv8, length: bv64, key: seq<bv8>, rest: seq<bv8>)
    requires opcode < 16 && |key| == 4
    ensures var h := FrameHeader(fin, opcode, length, key);
            var inp := h + rest;
            var n := HeaderSize(LengthField(length));
            && |h| == n && inp[0] & 0x0f == opcode && ((inp[0] >> 7) & 1 == 1) == fin
            && inp[1] & 0x7f == LengthField(length) && IsMasked(inp[1])
            && ReadLength(inp, LengthField(length)) == length && inp[n - 4..n] == key
  {
    FirstByte(fin, opcode);
    SecondByte(true, length);
    var h := FrameHeader(fin, opcode, length, key);
    var inp := h + rest;
    var n := 2 + |Extended(length)|;
    assert inp[2..n] == Extended(length) && inp[n..n + 4] == key;
    LengthIsRead(inp, length);
    hide LengthField;
    hide Extended;
    hide ReadLength;
    hide HeaderSize;
    hide IsMasked;
    assert inp[0] == h[0] && inp[1] == h[1];
  }

  /** A masked frame: every proper prefix of the header asks for more bytes, the whole header is read back with its key. */
  lemma MaskedHeaderIsRead(fin: bool, opcode: bv8, length: bv64, key: seq<bv8>, rest: seq<bv8>, size: nat, before: Parsed)
    requires opcode < 16 && |key| == 4
    ensures var h := FrameHeader(fin, opcode, length, key);
            && Readable(h + rest, size)
            && var r := ParseHeader(h + rest, size, before);
               if size < |h| then r.answer == -2 else r == Parsed(|h|, 0, length, key, opcode, fin)
  {
    MaskedHeaderParts(fin, opcode, length, key, rest);
    assert SHORT_HEADER <= HeaderSize(LengthField(length));
    hide FrameHeader;
    hide LengthField;
    hide ReadLength;
    hide HeaderSize;
    hide IsMasked;
  }

  // ----- Reading past the received bytes -----

  /** The answer does not depend on what lies beyond the received bytes. */
  lemma AnswerIsSettled(received: seq<bv8>, more: seq<bv8>, more': seq<bv8>, before: Parsed)
    requires Readable(received + more, |received|) && Readable(received + more', |received|)
    ensures ParseHeader(received + more, |received|, before).answer == ParseHeader(received + more', |received|, before).answer
  {
    hide ReadLength;
    hide IsMasked;
    if |received| >= SHORT_HEADER {
      assert (received + more)[1] == received[1] == (received + more')[1];
    }
  }

  /** Nothing that `parse_header` stores depends on what lies beyond the received bytes. */
  ghost predicate FieldsSettled(received: seq<bv8>, before: Parsed) {
    forall more: seq<bv8>, more': seq<bv8> ::
      Readable(received + more, |received|) && Readable(received + more', |received|) ==>
        ParseHeader(received + more, |received|, before) == ParseHeader(received + more', |received|, before)
  }

  /** The fields are settled exactly when the bytes read are all among the received ones. */
  lemma FieldsSettledIff(received: seq<bv8>, before: Parsed)
    ensures FieldsSettled(received, before) <==> |received| < SHORT_HEADER || ReadsTo(received[1]) <= |received|
    ensures FieldsSettled(received, before) <==> Readable(received, |received|)
  {
    hide ParseHeader;
    var size := |received|;
    if Readable(received, size) {
      forall more: seq<bv8>, more': seq<bv8> | Readable(received + more, size) && Readable(received + more', size)
        ensures ParseHeader(received + more, size, before) == ParseHeader(received + more', size, before)
      {
        ReceivedDecides(received, more, before);
        ReceivedDecides(received, more', before);
      }
    } else {
      NotSettled(received, before);
    }
  }

  lemma NotSettled(received: seq<bv8>, before: Parsed)
    requires SHORT_HEADER <= |received| < ReadsTo(received[1])
    ensures !FieldsSettled(received, before)
  {
    hide ParseHeader;
    hide ReadsTo;
    var gap := ReadsTo(received[1]) - |received|;
    var zero, one := seq(gap, i => 0 as bv8), seq(gap - 1, i => 0 as bv8) + [1];
    var a, b := received + zero, received + one;
    assert a[|a| - 1] == 0 && b[|b| - 1] == 1 && a[1] == received[1] == b[1];
    LastByteMatters(a, b, |received|, before);
  }

  /** What has been received decides the fields when it holds all that is read. */
  lemma ReceivedDecides(received: seq<bv8>, more: seq<bv8>, before: Parsed)
    requires Readable(received, |received|) && Readable(received + more, |received|)
    ensures ParseHeader(received + more, |received|, before) == ParseHeader(received, |received|, before)
  {
    hide ReadLength;
    hide HeaderSize;
    hide IsMasked;
    var inp := received + more;
    if |received| >= SHORT_HEADER {
      assert inp[1] == received[1];
      hide ParseHeader;
      LengthReceived(received, more, inp[1] & 0x7f);
      if IsMasked(inp[1]) { SameSlice(received, more, HeaderSize(inp[1] & 0x7f)); }
      SameHeader(received, inp, |received|, before);
    }
  }

  lemma SameSlice(a: seq<bv8>, b: seq<bv8>, n: nat)
    requires 4 <= n <= |a|
    ensures (a + b)[n - 4..n] == a[n - 4..n]
  {
  }

  lemma SameHeader(a: seq<bv8>, b: seq<bv8>, size: nat, before: Parsed)
    requires Readable(a, size) && Readable(b, size) && size >= SHORT_HEADER && a[0] == b[0] && a[1] == b[1]
    requires var field := a[1] & 0x7f; var n := HeaderSize(field);
             ReadLength(a, field) == ReadLength(b, field) && (IsMasked(a[1]) ==> a[n - 4..n] == b[n - 4..n])
    ensures ParseHeader(a, size, before) == ParseHeader(b, size, before)
  {
    hide ReadLength;
    hide HeaderSize;
    hide IsMasked;
  }

  lemma LengthReceived(received: seq<bv8>, more: seq<bv8>, field: bv8)
    requires 4 <= HeaderSize(field) <= |received| + 4
    ensures ReadLength(received + more, field) == ReadLength(received, field)
  {
    hide Read2;
    hide Read8;
  }

  /** The last byte that is read is the end of the key, or of a 64-bit length. */
  lemma LastByteMatters(a: seq<bv8>, b: seq<bv8>, size: nat, before: Parsed)
    requires SHORT_HEADER <= size < |a| == |b| && ReadsTo(a[1]) == |a| && a[1] == b[1] && a[|a| - 1] != b[|b| - 1]
    ensures ParseHeader(a, size, before) != ParseHeader(b, size, before)
  {
    var n := HeaderSize(a[1] & 0x7f);
    if IsMasked(a[1]) {
      assert a[n - 4..n][3] != b[n - 4..n][3];
    } else {
      LastOfEight(a[2], a[3], a[4], a[5], a[6], a[7], a[8], a[9]);
      LastOfEight(b[2], b[3], b[4], b[5], b[6], b[7], b[8], b[9]);
      hide Read8;
      hide Read2;
      assert ParseHeader(a, size, before).payloadLength == Read8(a[2], a[3], a[4], a[5], a[6], a[7], a[8], a[9]);
      assert ParseHeader(b, size, before).payloadLength == Read8(b[2], b[3], b[4], b[5], b[6], b[7], b[8], b[9]);
    }
  }

  lemma LastOfEight(a: bv8, b: bv8, c: bv8, d: bv8, e: bv8, f: bv8, g: bv8, h: bv8)
    ensures (Read8(a, b, c, d, e, f, g, h) & 0xff) as bv8 == h
  {
  }

  /** Six received bytes that announce a masked 64-bit length: eight bytes past them are read. */
  lemma OverreadExample(before: Parsed)
    ensures !Readable([0x81, 0xff, 0, 0, 0, 0], 6) && !FieldsSettled([0x81, 0xff, 0, 0, 0, 0], before)
  {
    var received: seq<bv8> := [0x81, 0xff, 0, 0, 0, 0];
    assert received[1] & 0x7f == 127 && IsMasked(received[1]);
    FieldsSettledIff(received, before);
  }

  // ----- Payloads -----

  function Xor(x: bv8, k: bv8): (r: bv8) { x ^ k }

  /** Section 5.3: octet i is combined with octet i mod 4 of the key. */
  function Mask(s: seq<bv8>, key: seq<bv8>): (r: seq<bv8>)
    requires |key| == 4
    ensures |r| == |s|
  {
    seq(|s|, i requires 0 <= i < |s| => Xor(s[i], key[i % 4]))
  }

  lemma XorTwice(x: bv8, k: bv8)
    ensures Xor(Xor(x, k), k) == x
  {
  }

  /** Masking is its own inverse. */
  lemma MaskTwice(s: seq<bv8>, key: seq<bv8>)
    requires |key| == 4
    ensures Mask(Mask(s, key), key) == s
  {
    forall i | 0 <= i < |s| ensures Mask(Mask(s, key), key)[i] == s[i] {
      XorTwice(s[i], key[i % 4]);
    }
  }

  datatype FrameType =
    | IncompleteFrame | TextFrame | IncompleteTextFrame | BinaryFrame | IncompleteBinaryFrame | CloseFrame | PingFrame | PongFrame

  function TypeOf(opcode: bv8, fin: bool): (t: FrameType) {
    if opcode == 0 || opcode == 1 then (if fin then TextFrame else IncompleteTextFrame)
    else if opcode == 2 then (if fin then BinaryFrame else IncompleteBinaryFrame)
    else if opcode == 8 then CloseFrame
    else if opcode == 9 then PingFrame
    else if opcode == 10 then PongFrame
    else BinaryFrame
  }

  /** The payload is copied over the front of the output and combined with the key octet by octet. */
  method Unmask(inp: seq<bv8>, key: seq<bv8>, outbuf: seq<bv8>) returns (out: seq<bv8>)
    requires |key| == 4 && |inp| <= |outbuf|
    ensures out == Mask(inp, key) + outbuf[|inp|..]
  {
    hide Xor;
    out := inp + outbuf[|inp|..];
    var i := 0;
    while i < |inp|
      invariant 0 <= i <= |inp| && |out| == |outbuf| && out[|inp|..] == outbuf[|inp|..]
      invariant forall k :: 0 <= k < i ==> out[k] == Mask(inp, key)[k]
      invariant forall k :: i <= k < |inp| ==> out[k] == inp[k]
    {
      out := out[i := Xor(out[i], key[i % 4])];
      i := i + 1;
    }
    assert out == out[..|inp|] + out[|inp|..];
  }

  class Frame {
    var payloadLength: bv64
    var leftHeaderLen: nat
    var mask: seq<bv8>
    var opcode: bv8
    var fin: bool

    constructor ()
      ensures mask == [0, 0, 0, 0]
    {
      payloadLength, leftHeaderLen, mask, opcode, fin := 0, 0, [0, 0, 0, 0], 0, false;
    }

    function Fields(answer: int): (r: Parsed)
      reads this
    {
      Parsed(answer, leftHeaderLen, payloadLength, mask, opcode, fin)
    }

    /** `parse_header`; `inBounds` is false when it reads outside `inp`. */
    method Parse(inp: seq<bv8>, size: nat) returns (answer: int, inBounds: bool)
      requires size <= |inp|
      modifies this
      ensures inBounds <==> Readable(inp, size)
      ensures inBounds ==> Fields(answer) == ParseHeader(inp, size, old(Fields(0)))
    {
      if size < SHORT_HEADER {
        return -2, true;
      }
      opcode := inp[0] & 0x0f;
      fin := (inp[0] >> 7) & 1 == 1;
      var masked := IsMasked(inp[1]);
      answer, inBounds := 0, ReadsTo(inp[1]) <= |inp|;
      if !inBounds {
        return;
      }
      answer := ParseLength(inp, inp[1] & 0x7f, size);
      hide ReadLength;
      hide HeaderSize;
      if masked {
        mask := inp[answer - 4..answer];
      } else {
        answer := answer - 4;
      }
      answer := if leftHeaderLen == 0 then answer else -2;
    }

    /** The length, by the 7-bit field. */
    method ParseLength(inp: seq<bv8>, field: bv8, size: nat) returns (header: nat)
      requires HeaderSize(field) - 4 <= |inp| && size >= SHORT_HEADER && field <= 127
      modifies this`payloadLength, this`leftHeaderLen
      ensures header == HeaderSize(field) && payloadLength == ReadLength(inp, field)
      ensures leftHeaderLen == if size >= header then 0 else header - size
    {
      hide Read2;
      hide Read8;
      leftHeaderLen := 0;
      if field <= 125 {
        payloadLength := field as bv64;
        header := SHORT_HEADER;
      } else if field == 126 {
        payloadLength := Read2(inp[2], inp[3]);
        leftHeaderLen := if size >= MEDIUM_HEADER then 0 else MEDIUM_HEADER - size;
        header := MEDIUM_HEADER;
      } else {
        payloadLength := Read8(inp[2], inp[3], inp[4], inp[5], inp[6], inp[7], inp[8], inp[9]);
        leftHeaderLen := if size >= LONG_HEADER then 0 else LONG_HEADER - size;
        header := LONG_HEADER;
      }
    }

    /**
     `parse_payload`: with a nonzero key the payload is unmasked into the output, which grows if it is too short.
     With a zero key nothing is copied.
     */
    method ParsePayload(inp: seq<bv8>, outbuf: seq<bv8>) returns (t: FrameType, out: seq<bv8>)
      requires |mask| == 4
      ensures |inp| < payloadLength as nat ==> t == IncompleteFrame && out == outbuf
      ensures |inp| >= payloadLength as nat ==>
        t == TypeOf(opcode, fin) && Delivered(inp[..payloadLength as nat], mask, outbuf, out)
      ensures |inp| >= payloadLength as nat ==>
        && (opcode == 0 || opcode == 1 ==> t == if fin then TextFrame else IncompleteTextFrame)
        && (opcode == 2 ==> t == if fin then BinaryFrame else IncompleteBinaryFrame)
        && (opcode == 8 ==> t == CloseFrame) && (opcode == 9 ==> t == PingFrame) && (opcode == 10 ==> t == PongFrame)
        && (opcode !in {0, 1, 2, 8, 9, 10} ==> t == BinaryFrame)
    {
      hide Delivered;
      var n := payloadLength as nat;
      if n > |inp| {
        return IncompleteFrame, outbuf;
      }
      out := Deliver(inp[..n], mask, outbuf);
      t := TypeOf(opcode, fin);
    }
  }

  /** The output after a payload: unmasked in front, or only grown when the key is zero; the rest is as it was. */
  ghost predicate Delivered(payload: seq<bv8>, key: seq<bv8>, outbuf: seq<bv8>, out: seq<bv8>)
    requires |key| == 4
  {
    var n := |payload|;
    && |out| == (if n > |outbuf| then n else |outbuf|)
    && (key != [0, 0, 0, 0] ==> out[..n] == Mask(payload, key))
    && (key == [0, 0, 0, 0] ==> outbuf <= out)
    && (n <= |outbuf| ==> out[n..] == outbuf[n..])
  }

  method Deliver(payload: seq<bv8>, key: seq<bv8>, outbuf: seq<bv8>) returns (out: seq<bv8>)
    requires |key| == 4
    ensures Delivered(payload, key, outbuf, out)
  {
    hide Mask;
    out := outbuf;
    if |payload| > |out| {
      out := out + seq(|payload| - |out|, i => 0);
    }
    if key != [0, 0, 0, 0] {
      out := Unmask(payload, key, out);
    }
  }

  /** A payload masked with a nonzero key is delivered as it was before masking. */
  lemma MaskedPayloadIsRecovered(payload: seq<bv8>, key: seq<bv8>, outbuf: seq<bv8>, out: seq<bv8>)
    requires |key| == 4 && key != [0, 0, 0, 0] && Delivered(Mask(payload, key), key, outbuf, out)
    ensures |payload| <= |out| && out[..|payload|] == payload
  {
    MaskTwice(payload, key);
  }

  /**
   A whole masked frame: the header's answer is where the payload starts, its fields say how long the payload is and
   with which key it is masked, and delivering that many bytes from there gives the payload back.
   */
  lemma MaskedFrameIsRecovered(
    fin: bool, opcode: bv8, length: bv64, payload: seq<bv8>, key: seq<bv8>, rest: seq<bv8>, before: Parsed,
    outbuf: seq<bv8>, out: seq<bv8>)
    requires opcode < 16 && |key| == 4 && key != [0, 0, 0, 0] && length as nat == |payload|
    ensures var frame := FrameHeader(fin, opcode, length, key) + (Mask(payload, key) + rest);
            && Readable(frame, |frame|)
            && var r := ParseHeader(frame, |frame|, before);
               && r.opcode == opcode && r.fin == fin && r.payloadLength == length && r.mask == key
               && 0 <= r.answer <= r.answer + |payload| <= |frame|
               && (Delivered(frame[r.answer..r.answer + |payload|], r.mask, outbuf, out) ==>
                     |payload| <= |out| && out[..|payload|] == payload)
  {
    hide *;
    var h, masked := FrameHeader(fin, opcode, length, key), Mask(payload, key);
    MaskedHeaderIsRead(fin, opcode, length, key, masked + rest, |h + (masked + rest)|, before);
    Inside(h, masked, rest);
    if Delivered(masked, key, outbuf, out) {
      MaskedPayloadIsRecovered(payload, key, outbuf, out);
    }
  }

  /** A whole masked frame through the parser object: its type by the opcode of section 5.2, and its payload. */
  method ReadFrame(
    frame: Frame, inp: seq<bv8>, outbuf: seq<bv8>,
    ghost fin: bool, ghost opcode: bv8, ghost length: bv64, ghost payload: seq<bv8>, ghost key: seq<bv8>, ghost rest: seq<bv8>)
    returns (t: FrameType, out: seq<bv8>)
    requires opcode < 16 && |key| == 4 && key != [0, 0, 0, 0] && length as nat == |payload|
    requires inp == FrameHeader(fin, opcode, length, key) + (Mask(payload, key) + rest)
    modifies frame
    ensures |payload| <= |out| && out[..|payload|] == payload
    ensures opcode == 0 || opcode == 1 ==> t == if fin then TextFrame else IncompleteTextFrame
    ensures opcode == 2 ==> t == if fin then BinaryFrame else IncompleteBinaryFrame
    ensures opcode == 8 ==> t == CloseFrame
    ensures opcode == 9 ==> t == PingFrame
    ensures opcode == 10 ==> t == PongFrame
    ensures opcode !in {0, 1, 2, 8, 9, 10} ==> t == BinaryFrame
  {
    hide *;
    ghost var before := frame.Fields(0);
    var answer, inBounds := frame.Parse(inp, |inp|);
    HeaderFields(inp, before, fin, opcode, length, payload, key, rest);
    FieldsAre(frame, answer);
    t, out := frame.ParsePayload(inp[answer..], outbuf);
    PayloadRecovered(payload, key, rest, outbuf, out);
  }

  lemma PayloadRecovered(payload: seq<bv8>, key: seq<bv8>, rest: seq<bv8>, outbuf: seq<bv8>, out: seq<bv8>)
    requires |key| == 4 && key != [0, 0, 0, 0] && Delivered((Mask(payload, key) + rest)[..|payload|], key, outbuf, out)
    ensures |payload| <= |out| && out[..|payload|] == payload
  {
    hide Delivered;
    assert (Mask(payload, key) + rest)[..|payload|] == Mask(payload, key);
    MaskedPayloadIsRecovered(payload, key, outbuf, out);
  }

  lemma FieldsAre(frame: Frame, answer: int)
    ensures frame.Fields(answer) == Parsed(answer, frame.leftHeaderLen, frame.payloadLength, frame.mask, frame.opcode, frame.fin)
  {
  }

  lemma HeaderFields(
    inp: seq<bv8>, before: Parsed, fin: bool, opcode: bv8, length: bv64, payload: seq<bv8>, key: seq<bv8>, rest: seq<bv8>)
    requires opcode < 16 && |key| == 4 && length as nat == |payload|
    requires inp == FrameHeader(fin, opcode, length, key) + (Mask(payload, key) + rest)
    ensures Readable(inp, |inp|)
    ensures ParseHeader(inp, |inp|, before) == Parsed(|FrameHeader(fin, opcode, length, key)|, 0, length, key, opcode, fin)
    ensures inp[|FrameHeader(fin, opcode, length, key)|..] == Mask(payload, key) + rest && |Mask(payload, key)| == |payload|
  {
    hide *;
    MaskedHeaderIsRead(fin, opcode, length, key, Mask(payload, key) + rest, |inp|, before);
  }

  lemma Inside(a: seq<bv8>, b: seq<bv8>, c: seq<bv8>)
    ensures (a + (b + c))[|a|..|a| + |b|] == b
  {
  }
}
