/**
 HTTP/1.1 chunked transfer coding (section 4.1 of RFC 7230): the resumable in-place decoder and the
 encoder whose output it reads.
 */
module Chunked {
  import opened Bytes

  datatype Phase = ChunkSize | ChunkExt | ChunkData | ChunkCrlf | TrailersLineHead | TrailersLineMiddle

  /** `phr_chunked_decoder`. */
  datatype Decoder = Decoder(left: nat, consumeTrailer: bool, hexCount: nat, phase: Phase)

  function Fresh(consumeTrailer: bool): (d: Decoder) { Decoder(0, consumeTrailer, 0, ChunkSize) }

  const MAX_HEX := 16

  function Pow16(n: nat): (r: nat)
    ensures r > 0
  {
    if n == 0 then 1 else 16 * Pow16(n - 1)
  }

  lemma Pow16Max()
    ensures Pow16(MAX_HEX) == 0x1_0000_0000_0000_0000
  {
    assert Pow16(4) == 0x1_0000;
    assert Pow16(8) == 0x1_0000_0000;
    assert Pow16(12) == 0x1_0000_0000_0000;
  }

  /** What every reachable decoder satisfies; the accumulator stays below 16^hexCount, so below 2^64. */
  ghost predicate Valid(d: Decoder) {
    && d.hexCount <= MAX_HEX
    && d.left < 0x1_0000_0000_0000_0000
    && (d.phase == ChunkSize ==> d.left < Pow16(d.hexCount))
    && (d.phase == ChunkData ==> d.left > 0)
    && (d.phase != ChunkSize ==> d.hexCount == 0)
    && (d.phase == ChunkCrlf ==> d.left == 0)
  }

  /** `decode_hex`: the digit's value, or -1. */
  function DecodeHex(c: byte): (v: int)
    ensures -1 <= v < 16
  {
    if 48 <= c <= 57 then c - 48
    else if 65 <= c <= 70 then c - 65 + 10
    else if 97 <= c <= 102 then c - 97 + 10
    else -1
  }

  /** The hexadecimal digits, written out. */
  const LOWER_HEX := "0123456789abcdef"
  const UPPER_HEX := "0123456789ABCDEF"

  ghost predicate StandsFor(c: byte, v: int) {
    0 <= v < 16 && (LOWER_HEX[v] as int == c || UPPER_HEX[v] as int == c)
  }

  /** `decode_hex` gives a value exactly for the digit at that place, in either case. */
  lemma DecodeHexIff(c: byte, v: int)
    ensures v != -1 ==> (DecodeHex(c) == v <==> StandsFor(c, v))
    ensures DecodeHex(c) == -1 <==> forall w :: !StandsFor(c, w)
  {
    if 0 <= v < 16 { HexDigits(v); }
    if DecodeHex(c) >= 0 {
      HexDigits(DecodeHex(c));
      assert StandsFor(c, DecodeHex(c));
    } else {
      forall w ensures !StandsFor(c, w) {
        if 0 <= w < 16 { HexDigits(w); }
      }
    }
  }

  lemma HexDigits(v: nat)
    requires v < 16
    ensures LOWER_HEX[v] as int == (if v < 10 then 48 + v else 87 + v) && UPPER_HEX[v] as int == if v < 10 then 48 + v else 55 + v
  {
  }

  // ----- The decoder, one byte at a time -----

  datatype Step = Continue(decoder: Decoder, out: seq<byte>) | Reject(decoder: Decoder) | Finish(decoder: Decoder)

  function StepExt(d: Decoder, c: byte): (r: Step) {
    if c != LF then Continue(d, [])
    else if d.left != 0 then Continue(d.(phase := ChunkData), [])
    else if d.consumeTrailer then Continue(d.(phase := TrailersLineHead), [])
    else Finish(d)
  }

  function StepByte(d: Decoder, c: byte): (r: Step) {
    match d.phase
    case ChunkSize =>
      var v := DecodeHex(c);
      if v == -1 then
        if d.hexCount == 0 then Reject(d) else StepExt(d.(hexCount := 0, phase := ChunkExt), c)
      else if d.hexCount == MAX_HEX then Reject(d)
      else Continue(d.(left := d.left * 16 + v, hexCount := d.hexCount + 1), [])
    case ChunkExt => StepExt(d, c)
    case ChunkData =>
      if d.left <= 1 then Continue(d.(left := 0, phase := ChunkCrlf), [c]) else Continue(d.(left := d.left - 1), [c])
    case ChunkCrlf =>
      if c == CR then Continue(d, []) else if c == LF then Continue(d.(phase := ChunkSize), []) else Reject(d)
    case TrailersLineHead =>
      if c == CR then Continue(d, []) else if c == LF then Finish(d) else Continue(d.(phase := TrailersLineMiddle), [])
    case TrailersLineMiddle =>
      if c == LF then Continue(d.(phase := TrailersLineHead), []) else Continue(d, [])
  }

  datatype Verdict = Incomplete | Error | Complete

  /** The verdict, the decoder afterwards, the decoded bytes and the bytes that were not decoded. */
  datatype Outcome = Outcome(verdict: Verdict, decoder: Decoder, out: seq<byte>, rest: seq<byte>)

  function After(out: seq<byte>, o: Outcome): (r: Outcome) { o.(out := out + o.out) }

  function Decode(d: Decoder, s: seq<byte>): (o: Outcome)
    decreases |s|
  {
    if s == [] then Outcome(Incomplete, d, [], [])
    else
      match StepByte(d, s[0])
      case Continue(d', out) => After(out, Decode(d', s[1..]))
      case Reject(d') => Outcome(Error, d', [], s)
      case Finish(d') => Outcome(Complete, d', [], s[1..])
  }

  /** Decoding keeps the decoder valid and gives back, at most, the bytes it was given. */
  lemma {:induction false} DecodeValid(d: Decoder, s: seq<byte>)
    requires Valid(d)
    ensures Valid(Decode(d, s).decoder)
    ensures |Decode(d, s).out| + |Decode(d, s).rest| <= |s|
    ensures Decode(d, s).verdict == Incomplete ==> Decode(d, s).rest == []
    ensures s[|s| - |Decode(d, s).rest|..] == Decode(d, s).rest
    decreases |s|
  {
    if s != [] {
      StepValid(d, s[0]);
      if StepByte(d, s[0]).Continue? {
        var d' := StepByte(d, s[0]).decoder;
        DecodeValid(d', s[1..]);
        var rest := Decode(d', s[1..]).rest;
        assert s[|s| - |rest|..] == s[1..][|s[1..]| - |rest|..];
      }
    }
  }

  lemma StepValid(d: Decoder, c: byte)
    requires Valid(d)
    ensures Valid(StepByte(d, c).decoder)
    ensures StepByte(d, c).Continue? ==> |StepByte(d, c).out| <= 1
  {
    hide DecodeHex;
    if d.phase == ChunkSize && d.hexCount < MAX_HEX {
      Pow16Monotone(d.hexCount + 1, MAX_HEX);
      Pow16Max();
    }
  }

  lemma {:induction false} Pow16Monotone(m: nat, n: nat)
    requires m <= n
    ensures Pow16(m) <= Pow16(n)
    decreases n
  {
    if m < n {
      Pow16Monotone(m, n - 1);
    }
  }

  // ----- Cut invariance -----

  lemma AfterAssoc(a: seq<byte>, b: seq<byte>, o: Outcome)
    ensures After(a, After(b, o)) == After(a + b, o)
  {
    assert a + (b + o.out) == a + b + o.out;
  }

  /** Decoding goes on across a cut; after a verdict, further bytes are left undecoded. */
  lemma {:induction false} DecodeConcat(d: Decoder, s: seq<byte>, t: seq<byte>)
    ensures var o := Decode(d, s);
            Decode(d, s + t) ==
              if o.verdict == Incomplete then After(o.out, Decode(o.decoder, t)) else o.(rest := o.rest + t)
    decreases |s|
  {
    if s == [] {
      assert s + t == t;
      assert After([], Decode(d, t)) == Decode(d, t);
    } else {
      assert (s + t)[1..] == s[1..] + t && (s + t)[0] == s[0];
      match StepByte(d, s[0])
      case Continue(d', out) =>
        DecodeConcat(d', s[1..], t);
        var o := Decode(d', s[1..]);
        AfterAssoc(out, o.out, Decode(o.decoder, t));
      case Reject(_) =>
      case Finish(_) =>
    }
  }

  /** A caller decodes piece after piece as long as the answer is "incomplete". */
  function DecodeAll(d: Decoder, cuts: seq<seq<byte>>): (o: Outcome)
    decreases |cuts|
  {
    if cuts == [] then Outcome(Incomplete, d, [], [])
    else
      var before := DecodeAll(d, cuts[..|cuts| - 1]);
      if before.verdict != Incomplete then before.(rest := before.rest + cuts[|cuts| - 1])
      else After(before.out, Decode(before.decoder, cuts[|cuts| - 1]))
  }

  /** Any cutting of a stream gives the joined output, verdict, decoder and undecoded tail of one call. */
  lemma {:induction false} CutInvariance(d: Decoder, cuts: seq<seq<byte>>)
    ensures DecodeAll(d, cuts) == Decode(d, Join(cuts))
    decreases |cuts|
  {
    if cuts != [] {
      CutInvariance(d, cuts[..|cuts| - 1]);
      DecodeConcat(d, Join(cuts[..|cuts| - 1]), cuts[|cuts| - 1]);
    }
  }

  // ----- The encoder -----

  const LAST_CHUNK: seq<byte> := [48, CR, LF]

  function HexDigit(v: nat): (c: byte)
    requires v < 16
    ensures DecodeHex(c) == v
  {
    if v < 10 then 48 + v else 97 + v - 10
  }

  /** Sizes are printed in lower case. */
  lemma HexDigitIs(v: nat)
    requires v < 16
    ensures HexDigit(v) == LOWER_HEX[v] as int
  {
    HexDigits(v);
  }

  /** `to_hex_string`. */
  function ToHex(n: nat): (s: seq<byte>)
    ensures s != []
  {
    if n < 16 then [HexDigit(n)] else ToHex(n / 16) + [HexDigit(n % 16)]
  }

  /** `to_chunked_buffers`: one block, and the end of the body when `eof`. */
  function ToChunk(data: seq<byte>, eof: bool): (r: seq<byte>) {
    (if data == [] then [] else ToHex(|data|) + CRLF + data + CRLF) + (if eof then LAST_CHUNK + CRLF else [])
  }

  /** The blocks one after the other, `eof` on the last. */
  function Encode(blocks: seq<seq<byte>>): (r: seq<byte>)
    requires blocks != []
  {
    if |blocks| == 1 then ToChunk(blocks[0], true) else ToChunk(blocks[0], false) + Encode(blocks[1..])
  }

  // ----- The round trip -----

  lemma {:induction false} ToHexLength(n: nat, k: nat)
    requires n < Pow16(k) && k > 0
    ensures |ToHex(n)| <= k
    decreases k
  {
    if n >= 16 {
      ToHexLength(n / 16, k - 1);
    }
  }

  /** Reading the printed size gives the size back. */
  lemma {:induction false} DecodeToHex(consume: bool, n: nat)
    requires |ToHex(n)| <= MAX_HEX
    ensures Decode(Fresh(consume), ToHex(n)) == Outcome(Incomplete, Decoder(n, consume, |ToHex(n)|, ChunkSize), [], [])
    decreases n
  {
    var d := Fresh(consume);
    if n < 16 {
      assert [HexDigit(n)][1..] == [];
    } else {
      DecodeToHex(consume, n / 16);
      DecodeConcat(d, ToHex(n / 16), [HexDigit(n % 16)]);
      assert [HexDigit(n % 16)][1..] == [];
    }
  }

  /** A chunk's data is copied whatever it holds. */
  lemma {:induction false} DecodeData(d: Decoder, s: seq<byte>)
    requires d.phase == ChunkData && 0 < |s| <= d.left
    ensures Decode(d, s) ==
      Outcome(Incomplete, if |s| == d.left then d.(left := 0, phase := ChunkCrlf) else d.(left := d.left - |s|), s, [])
    decreases |s|
  {
    var d' := StepByte(d, s[0]).decoder;
    if |s| == 1 {
      assert s[1..] == [];
      assert [s[0]] + [] == s;
    } else {
      DecodeData(d', s[1..]);
      assert [s[0]] + s[1..] == s;
    }
  }

  lemma DecodeTwo(d: Decoder, a: byte, b: byte)
    requires StepByte(d, a).Continue? && StepByte(d, a).out == []
    requires StepByte(StepByte(d, a).decoder, b).Continue? && StepByte(StepByte(d, a).decoder, b).out == []
    ensures Decode(d, [a, b]) == Outcome(Incomplete, StepByte(StepByte(d, a).decoder, b).decoder, [], [])
  {
    assert [a, b][1..] == [b] && [b][1..] == [];
    var d1 := StepByte(d, a).decoder;
    assert Decode(d1, [b]) == After([], Decode(StepByte(d1, b).decoder, []));
  }

  /** One non-empty block. */
  lemma DecodeChunk(consume: bool, data: seq<byte>)
    requires 0 < |data| < 0x1_0000_0000_0000_0000
    ensures Decode(Fresh(consume), ToHex(|data|) + CRLF + data + CRLF) == Outcome(Incomplete, Fresh(consume), data, [])
  {
    hide StepByte;
    var d := Fresh(consume);
    var n := |data|;
    Pow16Max();
    ToHexLength(n, MAX_HEX);
    DecodeToHex(consume, n);
    DecodeConcat(d, ToHex(n), CRLF);
    SizeLineEnd(Decoder(n, consume, |ToHex(n)|, ChunkSize));
    var d2 := Decoder(n, consume, 0, ChunkData);
    assert Decode(d, ToHex(n) + CRLF) == Outcome(Incomplete, d2, [], []);
    DecodeConcat(d, ToHex(n) + CRLF, data);
    DecodeData(d2, data);
    assert [] + data == data && data + [] == data;
    DecodeConcat(d, ToHex(n) + CRLF + data, CRLF);
    DataLineEnd(Decoder(0, consume, 0, ChunkCrlf));
  }

  lemma SizeLineEnd(d: Decoder)
    requires d.phase == ChunkSize && d.hexCount > 0 && d.left > 0
    ensures Decode(d, CRLF) == Outcome(Incomplete, d.(hexCount := 0, phase := ChunkData), [], [])
  {
    DecodeTwo(d, CR, LF);
  }

  lemma DataLineEnd(d: Decoder)
    requires d.phase == ChunkCrlf
    ensures Decode(d, CRLF) == Outcome(Incomplete, d.(phase := ChunkSize), [], [])
  {
    DecodeTwo(d, CR, LF);
  }

  /** The last chunk and the empty line after it, then anything. */
  lemma DecodeEnd(consume: bool, extra: seq<byte>)
    ensures var o := Decode(Fresh(consume), LAST_CHUNK + CRLF + extra);
            o.verdict == Complete && o.out == [] && o.rest == (if consume then [] else CRLF) + extra
  {
    var s := LAST_CHUNK + CRLF + extra;
    var d := Fresh(consume);
    var d1 := d.(hexCount := 1);
    var d2 := d.(phase := ChunkExt);
    assert s[1..][1..] == s[2..] && s[2..][1..] == s[3..] && s[3..][1..] == s[4..] && s[4..][1..] == s[5..];
    assert s[3..] == CRLF + extra && s[5..] == extra;
    assert StepByte(d, s[0]) == Continue(d1, []);
    assert StepByte(d1, s[1..][0]) == Continue(d2, []);
    assert Decode(d, s) == After([], After([], Decode(d2, s[2..])));
    if consume {
      var d3 := d.(phase := TrailersLineHead);
      assert StepByte(d2, s[2..][0]) == Continue(d3, []);
      assert StepByte(d3, s[3..][0]) == Continue(d3, []);
      assert StepByte(d3, s[4..][0]) == Finish(d3);
      assert Decode(d3, s[3..]) == After([], Decode(d3, s[4..]));
    } else {
      assert StepByte(d2, s[2..][0]) == Finish(d2);
    }
  }

  lemma DecodeBlock(consume: bool, data: seq<byte>, more: seq<byte>)
    requires |data| < 0x1_0000_0000_0000_0000
    ensures Decode(Fresh(consume), ToChunk(data, false) + more) == After(data, Decode(Fresh(consume), more))
  {
    if data == [] {
      assert ToChunk(data, false) + more == more;
      assert After([], Decode(Fresh(consume), more)) == Decode(Fresh(consume), more);
    } else {
      var chunk := ToHex(|data|) + CRLF + data + CRLF;
      assert ToChunk(data, false) == chunk;
      DecodeChunk(consume, data);
      DecodeConcat(Fresh(consume), chunk, more);
    }
  }

  /**
   The encoded blocks decode to the joined blocks, whatever follows them. The final CRLF is consumed with the
   trailers or left undecoded.
   */
  lemma {:induction false} DecodeEncoded(consume: bool, blocks: seq<seq<byte>>, extra: seq<byte>)
    requires blocks != [] && forall b :: b in blocks ==> |b| < 0x1_0000_0000_0000_0000
    ensures var o := Decode(Fresh(consume), Encode(blocks) + extra);
            && o.verdict == Complete
            && o.out == Join(blocks)
            && o.rest == (if consume then [] else CRLF) + extra
    decreases |blocks|
  {
    hide Decode;
    hide ToHex;
    hide Join;
    var first := blocks[0];
    assert first in blocks;
    JoinCons(blocks);
    assert Join<byte>([]) == [] by { JoinEmpty(); }
    if |blocks| == 1 {
      var end := LAST_CHUNK + CRLF + extra;
      assert Encode(blocks) + extra == ToChunk(first, false) + end;
      DecodeBlock(consume, first, end);
      DecodeEnd(consume, extra);
      assert first + [] == first && blocks[1..] == [];
    } else {
      var more := Encode(blocks[1..]) + extra;
      assert Encode(blocks) + extra == ToChunk(first, false) + more;
      DecodeBlock(consume, first, more);
      DecodeEncoded(consume, blocks[1..], extra);
    }
  }

  lemma JoinEmpty()
    ensures Join<byte>([]) == []
  {
  }

  /** The chunked round trip, through any cutting of the stream. */
  lemma RoundTrip(consume: bool, blocks: seq<seq<byte>>, extra: seq<byte>, cuts: seq<seq<byte>>)
    requires blocks != [] && forall b :: b in blocks ==> |b| < 0x1_0000_0000_0000_0000
    requires Join(cuts) == Encode(blocks) + extra
    ensures var o := DecodeAll(Fresh(consume), cuts);
            && o.verdict == Complete
            && o.out == Join(blocks)
            && o.rest == (if consume then [] else CRLF) + extra
  {
    DecodeEncoded(consume, blocks, extra);
    CutInvariance(Fresh(consume), cuts);
  }
}
