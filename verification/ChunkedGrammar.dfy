/**
 The chunked bodies that the decoder accepts (section 4.1 of RFC 7230), as texts: chunks with their extensions, the last
 chunk and the trailer. A fresh decoder answers "complete" with some output and some bytes left if and only if the bytes
 before those left spell a body with that content.
 */
module ChunkedGrammar {
  import opened Bytes
  import opened Chunked

  // ----- What a body is -----

  ghost predicate IsHex(c: byte) { exists v :: StandsFor(c, v) }

  /** The place of a digit among the sixteen. */
  ghost function DigitValue(c: byte): (v: nat)
    requires IsHex(c)
    ensures v < 16 && StandsFor(c, v)
  {
    var v :| StandsFor(c, v);
    v
  }

  lemma HexIff(c: byte)
    ensures IsHex(c) <==> DecodeHex(c) != -1
    ensures IsHex(c) ==> DecodeHex(c) == DigitValue(c)
  {
    DecodeHexIff(c, DecodeHex(c));
    if IsHex(c) { DecodeHexIff(c, DigitValue(c)); }
  }

  ghost predicate AreHex(w: seq<byte>) { forall k :: 0 <= k < |w| ==> IsHex(w[k]) }

  /** The number that hexadecimal digits stand for. */
  ghost function HexValue(w: seq<byte>): (n: nat)
    requires AreHex(w)
  {
    if w == [] then 0 else 16 * HexValue(w[..|w| - 1]) + DigitValue(w[|w| - 1])
  }

  ghost predicate InLine(t: seq<byte>) { forall k :: 0 <= k < |t| ==> t[k] != LF }

  /** A size in digits, then anything up to the end of the line. */
  datatype SizeLine = SizeLine(digits: seq<byte>, ext: seq<byte>)

  ghost predicate ProperLine(l: SizeLine) {
    && 0 < |l.digits| <= MAX_HEX && AreHex(l.digits)
    && InLine(l.ext) && (l.ext != [] ==> !IsHex(l.ext[0]))
  }

  function SpellLine(l: SizeLine): (s: seq<byte>) { l.digits + l.ext + [LF] }

  function Crs(n: nat): (s: seq<byte>)
    ensures |s| == n && forall k :: 0 <= k < n ==> s[k] == CR
  {
    seq(n, _ => CR)
  }

  /** A chunk ends with any number of CRs and a LF. */
  datatype Chunk = Chunk(line: SizeLine, data: seq<byte>, crs: nat)

  ghost predicate ProperChunk(c: Chunk) { c.data != [] && ProperLine(c.line) && HexValue(c.line.digits) == |c.data| }

  function SpellChunk(c: Chunk): (s: seq<byte>) { SpellLine(c.line) + (c.data + (Crs(c.crs) + [LF])) }

  function SpellChunks(cs: seq<Chunk>): (s: seq<byte>) {
    if cs == [] then [] else SpellChunk(cs[0]) + SpellChunks(cs[1..])
  }

  /** A trailer line is not made of CRs alone. */
  ghost predicate ProperTrailer(t: seq<byte>) { InLine(t) && exists k :: 0 <= k < |t| && t[k] != CR }

  /** The trailer lines, and one of CRs alone. */
  function SpellTrailers(ts: seq<seq<byte>>, crs: nat): (s: seq<byte>) {
    if ts == [] then Crs(crs) + [LF] else ts[0] + [LF] + SpellTrailers(ts[1..], crs)
  }

  datatype Body = Body(chunks: seq<Chunk>, last: SizeLine, trailers: seq<seq<byte>>, crs: nat)

  ghost predicate ProperBody(b: Body) {
    && (forall k :: 0 <= k < |b.chunks| ==> ProperChunk(b.chunks[k]))
    && ProperLine(b.last) && HexValue(b.last.digits) == 0
    && (forall k :: 0 <= k < |b.trailers| ==> ProperTrailer(b.trailers[k]))
  }

  /** The trailer belongs to the body if the decoder is to consume it. */
  function SpellBody(b: Body, consume: bool): (s: seq<byte>) {
    SpellChunks(b.chunks) + (SpellLine(b.last) + if consume then SpellTrailers(b.trailers, b.crs) else [])
  }

  function Content(cs: seq<Chunk>): (s: seq<byte>) {
    if cs == [] then [] else cs[0].data + Content(cs[1..])
  }

  // ----- A proper body is decoded -----

  /** A byte that changes the decoder and gives nothing. */
  lemma Quiet(d: Decoder, c: byte, t: seq<byte>)
    requires StepByte(d, c).Continue? && StepByte(d, c).out == []
    ensures Decode(d, [c] + t) == Decode(StepByte(d, c).decoder, t)
  {
    hide StepByte;
    assert ([c] + t)[1..] == t;
  }

  lemma {:induction false} DigitsDecoded(consume: bool, w: seq<byte>)
    requires AreHex(w) && |w| <= MAX_HEX
    ensures Decode(Fresh(consume), w) == Outcome(Incomplete, Decoder(HexValue(w), consume, |w|, ChunkSize), [], [])
    decreases |w|
  {
    if w != [] {
      hide IsHex;
      hide DigitValue;
      var most, c := w[..|w| - 1], w[|w| - 1];
      DigitsDecoded(consume, most);
      assert w == most + [c];
      DecodeConcat(Fresh(consume), most, [c]);
      DigitRead(consume, HexValue(most), |most|, c);
      hide Decode;
    }
  }

  lemma DigitRead(consume: bool, n: nat, k: nat, c: byte)
    requires IsHex(c) && k < MAX_HEX
    ensures Decode(Decoder(n, consume, k, ChunkSize), [c]) ==
      Outcome(Incomplete, Decoder(16 * n + DigitValue(c), consume, k + 1, ChunkSize), [], [])
  {
    HexIff(c);
    hide IsHex;
    hide DigitValue;
    Quiet(Decoder(n, consume, k, ChunkSize), c, []);
    assert [c] + [] == [c];
  }

  lemma {:induction false} ExtDecoded(d: Decoder, ext: seq<byte>, t: seq<byte>)
    requires d.phase == ChunkExt && InLine(ext)
    ensures Decode(d, ext + t) == Decode(d, t)
    decreases |ext|
  {
    if ext == [] {
      assert ext + t == t;
    } else {
      assert ext + t == [ext[0]] + (ext[1..] + t);
      Quiet(d, ext[0], ext[1..] + t);
      ExtDecoded(d, ext[1..], t);
    }
  }

  /** Where the decoder is after a size line with the value n. */
  function AfterLine(consume: bool, n: nat, t: seq<byte>): (o: Outcome) {
    if n > 0 then Decode(Decoder(n, consume, 0, ChunkData), t)
    else if consume then Decode(Decoder(0, consume, 0, TrailersLineHead), t)
    else Outcome(Complete, Decoder(0, consume, 0, ChunkExt), [], t)
  }

  lemma LineEnds(consume: bool, n: nat, t: seq<byte>)
    ensures Decode(Decoder(n, consume, 0, ChunkExt), [LF] + t) == AfterLine(consume, n, t)
  {
    var d := Decoder(n, consume, 0, ChunkExt);
    if n > 0 || consume { Quiet(d, LF, t); } else { assert ([LF] + t)[1..] == t; }
  }

  lemma DigitsEnd(d: Decoder, s: seq<byte>)
    requires d.phase == ChunkSize && d.hexCount > 0 && s != [] && !IsHex(s[0])
    ensures Decode(d, s) == Decode(d.(hexCount := 0, phase := ChunkExt), s)
  {
    HexIff(s[0]);
    hide IsHex;
  }

  lemma SizeLineDecoded(consume: bool, l: SizeLine, t: seq<byte>)
    requires ProperLine(l)
    ensures Decode(Fresh(consume), SpellLine(l) + t) == AfterLine(consume, HexValue(l.digits), t)
  {
    hide StepByte;
    hide Decode;
    HexIff(LF);
    hide IsHex;
    var n, more := HexValue(l.digits), l.ext + ([LF] + t);
    assert SpellLine(l) + t == l.digits + more;
    DigitsDecoded(consume, l.digits);
    DecodeConcat(Fresh(consume), l.digits, more);
    Nothing(Decode(Decoder(n, consume, |l.digits|, ChunkSize), more));
    DigitsEnd(Decoder(n, consume, |l.digits|, ChunkSize), more);
    ExtDecoded(Decoder(n, consume, 0, ChunkExt), l.ext, [LF] + t);
    LineEnds(consume, n, t);
  }

  lemma Nothing(o: Outcome)
    ensures After([], o) == o
  {
    assert [] + o.out == o.out;
  }

  lemma {:induction false} CrsDecoded(d: Decoder, n: nat, t: seq<byte>)
    requires d.phase == ChunkCrlf || d.phase == TrailersLineHead
    ensures Decode(d, Crs(n) + t) == Decode(d, t)
    decreases n
  {
    if n == 0 {
      assert Crs(n) + t == t;
    } else {
      assert Crs(n) + t == [CR] + (Crs(n - 1) + t);
      Quiet(d, CR, Crs(n - 1) + t);
      CrsDecoded(d, n - 1, t);
    }
  }

  lemma ChunkDecoded(consume: bool, c: Chunk, t: seq<byte>)
    requires ProperChunk(c)
    ensures Decode(Fresh(consume), SpellChunk(c) + t) == After(c.data, Decode(Fresh(consume), t))
  {
    hide StepByte;
    hide Decode;
    hide SpellLine;
    hide ProperLine;
    var end := Crs(c.crs) + ([LF] + t);
    assert SpellChunk(c) + t == SpellLine(c.line) + (c.data + end);
    SizeLineDecoded(consume, c.line, c.data + end);
    var d := Decoder(|c.data|, consume, 0, ChunkData);
    DecodeData(d, c.data);
    DecodeConcat(d, c.data, end);
    ChunkEnds(consume, c.crs, t);
  }

  lemma ChunkEnds(consume: bool, crs: nat, t: seq<byte>)
    ensures Decode(Decoder(0, consume, 0, ChunkCrlf), Crs(crs) + ([LF] + t)) == Decode(Fresh(consume), t)
  {
    var d := Decoder(0, consume, 0, ChunkCrlf);
    CrsDecoded(d, crs, [LF] + t);
    Quiet(d, LF, t);
  }

  lemma {:induction false} MiddleDecoded(d: Decoder, text: seq<byte>, t: seq<byte>)
    requires d.phase == TrailersLineMiddle && InLine(text)
    ensures Decode(d, text + [LF] + t) == Decode(d.(phase := TrailersLineHead), t)
    decreases |text|
  {
    if text == [] {
      assert text + [LF] + t == [LF] + t;
      Quiet(d, LF, t);
    } else {
      assert text + [LF] + t == [text[0]] + (text[1..] + [LF] + t);
      Quiet(d, text[0], text[1..] + [LF] + t);
      MiddleDecoded(d, text[1..], t);
    }
  }

  lemma {:induction false} TrailerDecoded(d: Decoder, text: seq<byte>, t: seq<byte>)
    requires d.phase == TrailersLineHead && ProperTrailer(text)
    ensures Decode(d, text + [LF] + t) == Decode(d, t)
    decreases |text|
  {
    assert text + [LF] + t == [text[0]] + (text[1..] + [LF] + t);
    Quiet(d, text[0], text[1..] + [LF] + t);
    if text[0] == CR {
      var k :| 0 <= k < |text| && text[k] != CR;
      assert text[1..][k - 1] == text[k];
      TrailerDecoded(d, text[1..], t);
    } else {
      MiddleDecoded(d.(phase := TrailersLineMiddle), text[1..], t);
    }
  }

  lemma {:induction false} TrailersDecoded(d: Decoder, ts: seq<seq<byte>>, crs: nat, t: seq<byte>)
    requires d.phase == TrailersLineHead && forall k :: 0 <= k < |ts| ==> ProperTrailer(ts[k])
    ensures Decode(d, SpellTrailers(ts, crs) + t) == Outcome(Complete, d, [], t)
    decreases |ts|
  {
    hide ProperTrailer;
    if ts == [] {
      assert SpellTrailers(ts, crs) + t == Crs(crs) + ([LF] + t);
      CrsDecoded(d, crs, [LF] + t);
      assert ([LF] + t)[1..] == t;
    } else {
      var more := SpellTrailers(ts[1..], crs) + t;
      assert SpellTrailers(ts, crs) + t == ts[0] + [LF] + more;
      TrailerDecoded(d, ts[0], more);
      TrailersDecoded(d, ts[1..], crs, t);
    }
  }

  lemma EndDecoded(consume: bool, b: Body, rest: seq<byte>)
    requires ProperBody(b) && b.chunks == []
    ensures var o := Decode(Fresh(consume), SpellBody(b, consume) + rest);
            o.verdict == Complete && o.out == [] && o.rest == rest
  {
    hide Decode;
    hide SpellLine;
    hide SpellTrailers;
    hide ProperLine;
    hide ProperTrailer;
    var trailer := if consume then SpellTrailers(b.trailers, b.crs) else [];
    assert SpellBody(b, consume) + rest == SpellLine(b.last) + (trailer + rest);
    SizeLineDecoded(consume, b.last, trailer + rest);
    if consume { TrailersDecoded(Decoder(0, consume, 0, TrailersLineHead), b.trailers, b.crs, rest); }
  }

  /** A proper body is decoded to its content, and what comes after it is left. */
  lemma {:induction false} BodyDecoded(consume: bool, b: Body, rest: seq<byte>)
    requires ProperBody(b)
    ensures var o := Decode(Fresh(consume), SpellBody(b, consume) + rest);
            o.verdict == Complete && o.out == Content(b.chunks) && o.rest == rest
    decreases |b.chunks|
  {
    if b.chunks == [] {
      EndDecoded(consume, b, rest);
    } else {
      var c, b' := b.chunks[0], b.(chunks := b.chunks[1..]);
      FirstChunk(b, consume, rest);
      hide *;
      RestProper(b);
      ChunkDecoded(consume, c, SpellBody(b', consume) + rest);
      BodyDecoded(consume, b', rest);
      AfterOut(c.data, Decode(Fresh(consume), SpellBody(b', consume) + rest));
    }
  }

  lemma FirstChunk(b: Body, consume: bool, rest: seq<byte>)
    requires b.chunks != []
    ensures var b' := b.(chunks := b.chunks[1..]);
            SpellBody(b, consume) + rest == SpellChunk(b.chunks[0]) + (SpellBody(b', consume) + rest)
    ensures Content(b.chunks) == b.chunks[0].data + Content(b.chunks[1..])
  {
    hide SpellChunk;
    hide SpellLine;
    hide SpellTrailers;
  }

  lemma RestProper(b: Body)
    requires ProperBody(b) && b.chunks != []
    ensures ProperChunk(b.chunks[0]) && ProperBody(b.(chunks := b.chunks[1..]))
  {
    hide ProperChunk;
    hide ProperLine;
    hide ProperTrailer;
  }

  lemma AfterOut(out: seq<byte>, o: Outcome)
    ensures After(out, o) == o.(out := out + o.out)
  {
  }

  // ----- The printed size -----

  ghost predicate IsLower(c: byte) { exists v :: 0 <= v < 16 && LOWER_HEX[v] as int == c }

  ghost predicate AreLower(w: seq<byte>) { forall k :: 0 <= k < |w| ==> IsLower(w[k]) }

  lemma DigitIs(v: nat)
    requires v < 16
    ensures var c := HexDigit(v); IsHex(c) && DigitValue(c) == v && IsLower(c) && (v > 0 ==> c != 48)
  {
    HexDigitIs(v);
    HexIff(HexDigit(v));
    HexDigits(v);
  }

  lemma ValueNext(most: seq<byte>, c: byte)
    requires AreHex(most) && AreLower(most) && IsHex(c) && IsLower(c)
    ensures AreHex(most + [c]) && AreLower(most + [c]) && HexValue(most + [c]) == 16 * HexValue(most) + DigitValue(c)
  {
    hide IsHex;
    hide IsLower;
    hide DigitValue;
    assert (most + [c])[..|most|] == most;
  }

  /** A printed size is the number in lower-case digits, without a leading zero. */
  lemma {:induction false} ToHexIs(n: nat)
    ensures AreHex(ToHex(n)) && AreLower(ToHex(n)) && HexValue(ToHex(n)) == n
    ensures n > 0 ==> ToHex(n)[0] != 48
    decreases n
  {
    var c := HexDigit(n % 16);
    DigitIs(n % 16);
    NoDigits();
    ToHexNext(n);
    hide *;
    if n < 16 {
      ValueNext([], c);
      assert [] + [c] == [c];
    } else {
      ToHexIs(n / 16);
      ValueNext(ToHex(n / 16), c);
    }
  }

  lemma ToHexNext(n: nat)
    ensures ToHex(n) == if n < 16 then [HexDigit(n % 16)] else ToHex(n / 16) + [HexDigit(n % 16)]
  {
    hide HexDigit;
  }

  lemma NoDigits()
    ensures AreHex([]) && AreLower([]) && HexValue([]) == 0
  {
  }

  // ----- What is decoded is a proper body -----

  /** How many digits there are at the start. */
  ghost function HexRun(s: seq<byte>): (n: nat)
    ensures n <= |s| && AreHex(s[..n]) && (n < |s| ==> !IsHex(s[n]))
  {
    if s == [] || !IsHex(s[0]) then 0 else
      var n := HexRun(s[1..]);
      assert forall k :: 0 < k < n + 1 ==> s[k] == s[1..][..n][k - 1];
      n + 1
  }

  /** Where the first LF is. */
  function LineRun(s: seq<byte>): (n: nat)
    ensures n <= |s| && InLine(s[..n]) && (n < |s| ==> s[n] == LF)
  {
    if s == [] || s[0] == LF then 0 else
      var n := LineRun(s[1..]);
      assert forall k :: 0 < k < n + 1 ==> s[k] == s[1..][..n][k - 1];
      n + 1
  }

  function CrRun(s: seq<byte>): (n: nat)
    ensures n <= |s| && s[..n] == Crs(n) && (n < |s| ==> s[n] != CR)
  {
    if s == [] || s[0] != CR then 0 else
      var n := CrRun(s[1..]);
      assert forall k :: 0 < k < n + 1 ==> s[k] == s[1..][..n][k - 1];
      n + 1
  }

  lemma CompleteIsSomething(d: Decoder, s: seq<byte>)
    requires Decode(d, s).verdict == Complete
    ensures s != []
  {
  }

  lemma SizeLineRead(consume: bool, s: seq<byte>) returns (l: SizeLine, t: seq<byte>)
    requires Decode(Fresh(consume), s).verdict == Complete
    ensures ProperLine(l) && s == SpellLine(l) + t
  {
    hide Decode;
    hide StepByte;
    hide IsHex;
    var n := HexRun(s);
    if n > MAX_HEX { TooManyDigits(consume, s, n); }
    var w, more := s[..n], s[n..];
    var d := Decoder(HexValue(w), consume, n, ChunkSize);
    DigitsDecoded(consume, w);
    assert s == w + more;
    DecodeConcat(Fresh(consume), w, more);
    CompleteIsSomething(d, more);
    var k := LineRun(more);
    ExtEnds(d, more, k);
    l, t := SizeLine(w, more[..k]), more[k + 1..];
    LineParts(w, more, k);
  }

  lemma LineParts(w: seq<byte>, more: seq<byte>, k: nat)
    requires k < |more| && more[k] == LF
    ensures w + more == SpellLine(SizeLine(w, more[..k])) + more[k + 1..]
  {
    assert more == more[..k] + [LF] + more[k + 1..];
  }

  lemma FullRefuses(d: Decoder, s: seq<byte>)
    requires d.phase == ChunkSize && d.hexCount == MAX_HEX && s != [] && IsHex(s[0])
    ensures Decode(d, s).verdict == Error
  {
    HexIff(s[0]);
    hide IsHex;
  }

  /** A seventeenth digit is refused. */
  lemma TooManyDigits(consume: bool, s: seq<byte>, n: nat)
    requires MAX_HEX < n <= |s| && AreHex(s[..n])
    ensures Decode(Fresh(consume), s).verdict == Error
  {
    hide Decode;
    hide StepByte;
    hide IsHex;
    var w, more := s[..MAX_HEX], s[MAX_HEX..];
    assert more[0] == s[..n][MAX_HEX];
    assert forall k :: 0 <= k < MAX_HEX ==> w[k] == s[..n][k];
    assert s == w + more;
    DigitsDecoded(consume, w);
    DecodeConcat(Fresh(consume), w, more);
    FullRefuses(Decoder(HexValue(w), consume, MAX_HEX, ChunkSize), more);
  }

  lemma ExtEnds(d: Decoder, s: seq<byte>, k: nat)
    requires d.phase == ChunkSize && s != [] && !IsHex(s[0]) && Decode(d, s).verdict == Complete
    requires k <= |s| && InLine(s[..k]) && (k < |s| ==> s[k] == LF)
    ensures d.hexCount > 0 && k < |s|
  {
    HexIff(s[0]);
    hide IsHex;
    assert d.hexCount > 0;
    if k == |s| {
      var d' := d.(hexCount := 0, phase := ChunkExt);
      DigitsEnd(d, s);
      assert s[..k] == s && s + [] == s;
      ExtDecoded(d', s, []);
    }
  }

  /** The CRs before a LF, where that is what is waited for. */
  lemma CrsRead(d: Decoder, s: seq<byte>) returns (crs: nat, c: byte, t: seq<byte>)
    requires (d.phase == ChunkCrlf || d.phase == TrailersLineHead) && Decode(d, s).verdict == Complete
    ensures s == Crs(crs) + ([c] + t) && c != CR && Decode(d, [c] + t) == Decode(d, s)
  {
    crs := CrRun(s);
    assert s == s[..crs] + s[crs..];
    CrsDecoded(d, crs, s[crs..]);
    assert s[crs..] != [];
    c, t := s[crs], s[crs + 1..];
    assert s[crs..] == [c] + t;
  }

  lemma ChunkDataRead(consume: bool, n: nat, s: seq<byte>) returns (data: seq<byte>, crs: nat, t: seq<byte>)
    requires n > 0 && Decode(Decoder(n, consume, 0, ChunkData), s).verdict == Complete
    ensures |data| == n && s == data + (Crs(crs) + [LF]) + t
  {
    hide StepByte;
    hide Decode;
    var d := Decoder(n, consume, 0, ChunkData);
    CompleteIsSomething(d, s);
    if |s| < n { DecodeData(d, s); }
    data := s[..n];
    DecodeData(d, data);
    assert s == data + s[n..];
    DecodeConcat(d, data, s[n..]);
    var c;
    var d' := Decoder(0, consume, 0, ChunkCrlf);
    crs, c, t := CrsRead(d', s[n..]);
    CrlfWanted(d', c, t);
    assert s[n..] == Crs(crs) + [LF] + t;
  }

  lemma CrlfWanted(d: Decoder, c: byte, t: seq<byte>)
    requires d.phase == ChunkCrlf && c != CR && Decode(d, [c] + t).verdict == Complete
    ensures c == LF
  {
  }

  /** Without a LF the trailer does not end. */
  lemma {:induction false} TrailerGoesOn(d: Decoder, s: seq<byte>)
    requires (d.phase == TrailersLineHead || d.phase == TrailersLineMiddle) && InLine(s)
    ensures Decode(d, s).verdict == Incomplete
    decreases |s|
  {
    if s != [] { TrailerGoesOn(StepByte(d, s[0]).decoder, s[1..]); }
  }

  lemma {:induction false} TrailersRead(d: Decoder, s: seq<byte>) returns (ts: seq<seq<byte>>, crs: nat, t: seq<byte>)
    requires d.phase == TrailersLineHead && Decode(d, s).verdict == Complete
    ensures (forall k :: 0 <= k < |ts| ==> ProperTrailer(ts[k])) && s == SpellTrailers(ts, crs) + t
    decreases |s|
  {
    hide StepByte;
    hide Decode;
    hide ProperTrailer;
    var c;
    crs, c, t := CrsRead(d, s);
    if c == LF {
      ts := [];
    } else {
      var line, more := TrailerRead(d, s, crs, c, t);
      var ts';
      ts', crs, t := TrailersRead(d, more);
      ts := [line] + ts';
      assert ts[1..] == ts';
      assert s == line + [LF] + (SpellTrailers(ts', crs) + t);
    }
  }

  lemma TrailerRead(d: Decoder, s: seq<byte>, crs: nat, c: byte, t: seq<byte>) returns (line: seq<byte>, more: seq<byte>)
    requires d.phase == TrailersLineHead && Decode(d, s).verdict == Complete
    requires s == Crs(crs) + ([c] + t) && c != CR && c != LF
    ensures ProperTrailer(line) && s == line + [LF] + more && Decode(d, more) == Decode(d, s)
  {
    hide StepByte;
    hide Decode;
    var n := LineRun(s);
    if n == |s| {
      assert s[..n] == s;
      TrailerGoesOn(d, s);
    }
    assert s[crs] == c && forall k :: 0 <= k < crs ==> s[k] == CR;
    line, more := s[..n], s[n + 1..];
    assert s == line + [LF] + more && line[crs] == c;
    TrailerDecoded(d, line, more);
  }

  lemma EndRead(consume: bool, l: SizeLine, t: seq<byte>) returns (b: Body, rest: seq<byte>)
    requires ProperLine(l) && HexValue(l.digits) == 0 && AfterLine(consume, 0, t).verdict == Complete
    ensures ProperBody(b) && SpellLine(l) + t == SpellBody(b, consume) + rest
  {
    hide SpellLine;
    hide ProperLine;
    hide ProperTrailer;
    if consume {
      var ts, crs;
      ts, crs, rest := TrailersRead(Decoder(0, consume, 0, TrailersLineHead), t);
      b := Body([], l, ts, crs);
    } else {
      b, rest := Body([], l, [], 0), t;
    }
  }

  /** What is decoded completely starts with a proper body. */
  lemma {:induction false} BodyRead(consume: bool, s: seq<byte>) returns (b: Body, rest: seq<byte>)
    requires Decode(Fresh(consume), s).verdict == Complete
    ensures ProperBody(b) && s == SpellBody(b, consume) + rest
    decreases |s|
  {
    var l, t := SizeLineRead(consume, s);
    var n := HexValue(l.digits);
    hide *;
    SizeLineDecoded(consume, l, t);
    if n == 0 {
      b, rest := EndRead(consume, l, t);
    } else {
      var c, t' := ChunkRead(consume, l, t);
      ChunkDecoded(consume, c, t');
      AfterOut(c.data, Decode(Fresh(consume), t'));
      ChunkIsSomething(c);
      b, rest := BodyRead(consume, t');
      b := PutFirst(consume, c, b, rest);
    }
  }

  lemma ChunkIsSomething(c: Chunk)
    ensures |SpellChunk(c)| > 0
  {
  }

  lemma ChunkRead(consume: bool, l: SizeLine, t: seq<byte>) returns (c: Chunk, t': seq<byte>)
    requires ProperLine(l) && HexValue(l.digits) > 0 && AfterLine(consume, HexValue(l.digits), t).verdict == Complete
    ensures ProperChunk(c) && SpellLine(l) + t == SpellChunk(c) + t'
  {
    hide SpellLine;
    hide Decode;
    var n := HexValue(l.digits);
    hide ProperLine;
    var data, crs;
    data, crs, t' := ChunkDataRead(consume, n, t);
    c := Chunk(l, data, crs);
    assert SpellLine(l) + (data + (Crs(crs) + [LF]) + t') == SpellLine(l) + (data + (Crs(crs) + [LF])) + t';
  }

  lemma PutFirst(consume: bool, c: Chunk, b: Body, rest: seq<byte>) returns (r: Body)
    requires ProperChunk(c) && ProperBody(b)
    ensures ProperBody(r) && SpellBody(r, consume) + rest == SpellChunk(c) + (SpellBody(b, consume) + rest)
  {
    r := b.(chunks := [c] + b.chunks);
    assert r.chunks[1..] == b.chunks;
    FirstChunk(r, consume, rest);
    hide ProperChunk;
    hide ProperLine;
    hide ProperTrailer;
    hide SpellBody;
    assert b == r.(chunks := r.chunks[1..]);
  }

  /**
   A fresh decoder completes with this output and these bytes left if and only if a proper body with that content comes
   before them.
   */
  lemma CompleteIff(consume: bool, s: seq<byte>, out: seq<byte>, rest: seq<byte>)
    ensures
      var o := Decode(Fresh(consume), s);
      o.verdict == Complete && o.out == out && o.rest == rest <==>
      exists b: Body :: ProperBody(b) && s == SpellBody(b, consume) + rest && out == Content(b.chunks)
  {
    hide *;
    if Decode(Fresh(consume), s).verdict == Complete {
      var b, rest' := BodyRead(consume, s);
      BodyDecoded(consume, b, rest');
    }
    if exists b: Body :: ProperBody(b) && s == SpellBody(b, consume) + rest && out == Content(b.chunks) {
      var b: Body :| ProperBody(b) && s == SpellBody(b, consume) + rest && out == Content(b.chunks);
      BodyDecoded(consume, b, rest);
    }
  }

  // ----- The three answers -----

  ghost predicate IsBody(s: seq<byte>, consume: bool) { exists b: Body :: ProperBody(b) && s == SpellBody(b, consume) }

  /** The shortest body. */
  function Shortest(): (b: Body) { Body([], SizeLine([48], []), [], 0) }

  lemma ShortestDecoded(consume: bool)
    ensures var o := Decode(Fresh(consume), SpellBody(Shortest(), consume)); o.verdict == Complete && o.rest == []
  {
    var b := Shortest();
    HexIff(48);
    hide Decode;
    hide IsHex;
    assert b.last.digits == [48] && [48][..0] == [];
    assert HexValue([48]) == 16 * HexValue([]) + DigitValue(48);
    assert ProperBody(b);
    BodyDecoded(consume, b, []);
    assert SpellBody(b, consume) + [] == SpellBody(b, consume);
  }

  /** A decoder completes on these bytes and leaves none. */
  ghost predicate Completes(d: Decoder, t: seq<byte>) { Decode(d, t).verdict == Complete && Decode(d, t).rest == [] }

  lemma AfterLf(consume: bool) returns (t: seq<byte>)
    ensures Completes(Decoder(0, consume, 0, ChunkCrlf), t)
  {
    t := [LF] + SpellBody(Shortest(), consume);
    ShortestDecoded(consume);
    hide SpellBody;
    Quiet(Decoder(0, consume, 0, ChunkCrlf), LF, SpellBody(Shortest(), consume));
  }

  lemma AfterData(consume: bool, n: nat) returns (t: seq<byte>)
    requires n > 0
    ensures Completes(Decoder(n, consume, 0, ChunkData), t)
  {
    var data := Crs(n);
    var more := AfterLf(consume);
    t := data + more;
    var d := Decoder(n, consume, 0, ChunkData);
    DecodeData(d, data);
    DecodeConcat(d, data, more);
  }

  lemma AfterSize(consume: bool, n: nat) returns (t: seq<byte>)
    ensures Completes(Decoder(n, consume, 0, ChunkExt), t) && t != [] && t[0] == LF
  {
    var more: seq<byte> := [];
    if n > 0 {
      more := AfterData(consume, n);
    } else if consume {
      more := [LF];
      TrailerEnds(Decoder(0, consume, 0, TrailersLineHead));
    }
    t := [LF] + more;
    LineEnds(consume, n, more);
  }

  lemma TrailerEnds(d: Decoder)
    requires d.phase == TrailersLineHead
    ensures Completes(d, [LF])
  {
  }

  /** From every reachable decoder some bytes complete the body. */
  lemma CanComplete(d: Decoder) returns (t: seq<byte>)
    requires Valid(d)
    ensures Completes(d, t)
  {
    hide Decode;
    match d.phase
    case ChunkSize =>
      if d.hexCount == 0 {
        t := SpellBody(Shortest(), d.consumeTrailer);
        ShortestDecoded(d.consumeTrailer);
        assert d == Fresh(d.consumeTrailer);
      } else {
        t := AfterSize(d.consumeTrailer, d.left);
        HexIff(LF);
        DigitsEnd(d, t);
      }
    case ChunkExt => t := AfterSize(d.consumeTrailer, d.left);
    case ChunkData => t := AfterData(d.consumeTrailer, d.left);
    case ChunkCrlf => t := AfterLf(d.consumeTrailer);
    case TrailersLineHead =>
      t := [LF];
      TrailerEnds(d);
    case TrailersLineMiddle =>
      t := [LF] + [LF];
      Quiet(d, LF, [LF]);
      TrailerEnds(d.(phase := TrailersLineHead));
  }

  /**
   What a fresh decoder answers to every input: "complete" exactly when a body comes first, otherwise "incomplete" exactly
   when more bytes can make it one, and -1 in all other cases.
   */
  lemma DecoderAnswers(consume: bool, s: seq<byte>)
    ensures var v := Decode(Fresh(consume), s).verdict;
            && (v == Complete <==> exists n: nat :: n <= |s| && IsBody(s[..n], consume))
            && (v == Incomplete <==> v != Complete && exists t: seq<byte> :: IsBody(s + t, consume))
  {
    hide *;
    var v := Decode(Fresh(consume), s).verdict;
    if v == Complete {
      var n := BodyFirst(consume, s);
    }
    if exists n: nat :: n <= |s| && IsBody(s[..n], consume) {
      var n: nat :| n <= |s| && IsBody(s[..n], consume);
      BodyCompletes(consume, s[..n], s[n..]);
      assert s == s[..n] + s[n..];
    }
    if v == Incomplete {
      var t := CanBecomeBody(consume, s);
    }
    if exists t: seq<byte> :: IsBody(s + t, consume) {
      var t: seq<byte> :| IsBody(s + t, consume);
      BodyNotRefused(consume, s, t);
    }
  }

  lemma BodyFirst(consume: bool, s: seq<byte>) returns (n: nat)
    requires Decode(Fresh(consume), s).verdict == Complete
    ensures n <= |s| && IsBody(s[..n], consume)
  {
    hide Decode;
    hide SpellBody;
    hide ProperBody;
    var b, rest := BodyRead(consume, s);
    n := |SpellBody(b, consume)|;
    assert s[..n] == SpellBody(b, consume);
  }

  lemma BodyCompletes(consume: bool, s: seq<byte>, rest: seq<byte>)
    requires IsBody(s, consume)
    ensures Decode(Fresh(consume), s + rest).verdict == Complete && Decode(Fresh(consume), s + rest).rest == rest
  {
    hide Decode;
    hide SpellBody;
    hide ProperBody;
    var b: Body :| ProperBody(b) && s == SpellBody(b, consume);
    BodyDecoded(consume, b, rest);
  }

  lemma CanBecomeBody(consume: bool, s: seq<byte>) returns (t: seq<byte>)
    requires Decode(Fresh(consume), s).verdict == Incomplete
    ensures IsBody(s + t, consume)
  {
    hide Decode;
    hide SpellBody;
    hide ProperBody;
    var o := Decode(Fresh(consume), s);
    DecodeValid(Fresh(consume), s) by { assert Pow16(0) == 1; }
    t := CanComplete(o.decoder);
    DecodeConcat(Fresh(consume), s, t);
    var b, rest := BodyRead(consume, s + t);
    BodyDecoded(consume, b, rest);
    assert rest == [] && SpellBody(b, consume) + [] == SpellBody(b, consume);
  }

  lemma BodyNotRefused(consume: bool, s: seq<byte>, t: seq<byte>)
    requires IsBody(s + t, consume)
    ensures Decode(Fresh(consume), s).verdict != Error
  {
    hide Decode;
    hide IsBody;
    BodyCompletes(consume, s + t, []);
    assert s + t + [] == s + t;
    DecodeConcat(Fresh(consume), s, t);
  }
}
