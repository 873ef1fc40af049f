/**
 The message heads that the parsers accept (section 3 of RFC 7230), as texts: a request or response and the freedom there
 is in spelling it. A parser answers n with some fields if and only if the first n bytes are a spelling of those fields.
 */
module HttpGrammar {
  import opened Bytes
  import opened HttpParser

  /** "HTTP/1." */
  const VERSION: seq<byte> := [72, 84, 84, 80, 47, 49, 46]

  // ----- What can be said -----

  /** A word of the request line. */
  ghost predicate IsWord(w: seq<byte>) {
    forall k :: 0 <= k < |w| ==> w[k] > 32 && w[k] != DEL
  }

  ghost predicate IsText(v: seq<byte>) {
    forall k :: 0 <= k < |v| ==> !IsControl(v[k])
  }

  ghost predicate AreTokenChars(n: seq<byte>) {
    forall k :: 0 <= k < |n| ==> IsTokenChar(n[k])
  }

  /** A value is text that does not start with a blank; a continuation line is text that does. */
  ghost predicate Sayable(h: Header) {
    && IsText(h.value)
    && match h.name
       case Named(n) => n != [] && AreTokenChars(n) && (h.value != [] ==> !IsBlank(h.value[0]))
       case Continuation => h.value != [] && IsBlank(h.value[0])
  }

  /** Headers, the first of which has a name. */
  ghost predicate AllSayable(hs: seq<Header>, first: bool) {
    && (forall k :: 0 <= k < |hs| ==> Sayable(hs[k]))
    && (first && hs != [] ==> hs[0].name.Named?)
  }

  ghost predicate SayableRequest(q: Request) {
    q.minor < 10 && IsWord(q.method_) && IsWord(q.path) && AllSayable(q.headers, true)
  }

  ghost predicate SayableResponse(p: Response) {
    p.minor < 10 && p.status < 1000 && IsText(p.message) && AllSayable(p.headers, true)
  }

  /** The marks that a token may hold besides digits and letters (section 3.2.6 of RFC 7230). */
  const MARKS := "!#$%&'*+-.^_`|~"

  lemma TokenCharIff(c: byte)
    ensures IsTokenChar(c) <==>
      || '0' as int <= c <= '9' as int || 'A' as int <= c <= 'Z' as int || 'a' as int <= c <= 'z' as int
      || exists k :: 0 <= k < |MARKS| && MARKS[k] as int == c
  {
    assert |MARKS| == 15;
    forall k | 0 <= k < 15 ensures IsTokenChar(MARKS[k] as int) {
      MarkIsTokenChar(k);
    }
    if IsTokenChar(c) && !IsAlphanumeric(c) { var k := MarkOf(c); }
  }

  predicate IsAlphanumeric(c: byte) { IsDigit(c) || 65 <= c <= 90 || 97 <= c <= 122 }

  lemma MarkIsTokenChar(k: nat)
    requires k < |MARKS|
    ensures MARKS[k] as int < 128 && IsTokenChar(MARKS[k] as int)
  {
    assert |MARKS| == 15;
  }

  lemma MarkOf(c: byte) returns (k: nat)
    requires IsTokenChar(c) && !IsAlphanumeric(c)
    ensures k < |MARKS| && MARKS[k] as int == c
  {
    k := if c == 33 then 0 else if c <= 39 then c - 34 else if c <= 43 then c - 36 else if c <= 46 then c - 37
         else if c == 94 then 10 else if c == 95 then 11 else if c == 96 then 12 else if c == 124 then 13 else 14;
  }

  // ----- How it can be spelled -----

  ghost predicate IsEol(e: seq<byte>) { e == CRLF || e == [LF] }

  ghost predicate AreBlanks(b: seq<byte>) { forall k :: 0 <= k < |b| ==> IsBlank(b[k]) }

  /** The blanks after a header's colon, and how its line ends. */
  datatype LineSpelling = LineSpelling(blanks: seq<byte>, eol: seq<byte>)

  ghost predicate Proper(sp: LineSpelling) { AreBlanks(sp.blanks) && IsEol(sp.eol) }

  function SpellHeader(h: Header, sp: LineSpelling): (s: seq<byte>) {
    match h.name
    case Named(n) => n + [COLON] + sp.blanks + h.value + sp.eol
    case Continuation => h.value + sp.eol
  }

  /** The header lines and the empty line after them. */
  function SpellHeaders(hs: seq<Header>, sps: seq<LineSpelling>, last: seq<byte>): (s: seq<byte>)
    requires |sps| == |hs|
  {
    if hs == [] then last else SpellHeader(hs[0], sps[0]) + SpellHeaders(hs[1..], sps[1..], last)
  }

  ghost predicate ProperLines(sps: seq<LineSpelling>, last: seq<byte>) {
    (forall k :: 0 <= k < |sps| ==> Proper(sps[k])) && IsEol(last)
  }

  /** Some spelling of a header block. */
  ghost predicate SpellsHeaders(s: seq<byte>, hs: seq<Header>) {
    exists sps: seq<LineSpelling>, last: seq<byte> ::
      |sps| == |hs| && ProperLines(sps, last) && s == SpellHeaders(hs, sps, last)
  }

  ghost predicate IsLead(e: seq<byte>) { e == [] || IsEol(e) }

  /** The first line of a request, with an empty line before it or none. */
  ghost predicate SpellsRequestLine(s: seq<byte>, q: Request)
    requires q.minor < 10
  {
    exists lead: seq<byte>, eol: seq<byte> ::
      IsLead(lead) && IsEol(eol) && s == lead + SpellRequestLine(q, eol)
  }

  function SpellRequestLine(q: Request, eol: seq<byte>): (s: seq<byte>)
    requires q.minor < 10
  {
    q.method_ + [SPACE] + q.path + [SPACE] + VERSION + [48 + q.minor] + eol
  }

  ghost predicate SpellsRequest(s: seq<byte>, q: Request)
    requires q.minor < 10
  {
    exists k :: 0 <= k <= |s| && SpellsRequestLine(s[..k], q) && SpellsHeaders(s[k..], q.headers)
  }

  function SpellStatusLine(p: Response, eol: seq<byte>): (s: seq<byte>)
    requires p.minor < 10 && p.status < 1000
  {
    VERSION + [48 + p.minor, SPACE, 48 + p.status / 100, 48 + p.status / 10 % 10, 48 + p.status % 10, SPACE] + p.message + eol
  }

  ghost predicate SpellsResponse(s: seq<byte>, p: Response)
    requires p.minor < 10 && p.status < 1000
  {
    exists k, eol: seq<byte> ::
      0 <= k <= |s| && IsEol(eol) && s[..k] == SpellStatusLine(p, eol) && SpellsHeaders(s[k..], p.headers)
  }

  // ----- What the scanners read -----

  /** ADVANCE_TOKEN stops at j if and only if a word and a space are there. */
  lemma {:induction false} TokenIff(s: seq<byte>, i: nat, j: nat)
    requires i <= j <= |s|
    ensures Token(s, i).Ok? && Token(s, i).end == j <==> j < |s| && s[j] == SPACE && IsWord(s[i..j])
    decreases j - i
  {
    if i < j {
      TokenIff(s, i + 1, j);
      assert s[i..j] == [s[i]] + s[i + 1..j];
      WordCons(s[i], s[i + 1..j]);
    }
  }

  lemma WordCons(c: byte, w: seq<byte>)
    ensures IsWord([c] + w) <==> c > 32 && c != DEL && IsWord(w)
  {
    if IsWord([c] + w) {
      assert ([c] + w)[0] == c;
      assert forall k :: 0 <= k < |w| ==> ([c] + w)[k + 1] == w[k];
    }
  }

  lemma {:induction false} ControlIff(s: seq<byte>, i: nat, j: nat)
    requires i <= j <= |s|
    ensures Control(s, i) == j <==> (j == |s| || IsControl(s[j])) && IsText(s[i..j])
    decreases j - i
  {
    if i < j {
      ControlIff(s, i + 1, j);
      assert s[i..j] == [s[i]] + s[i + 1..j];
      TextCons(s[i], s[i + 1..j]);
    }
  }

  lemma TextCons(c: byte, w: seq<byte>)
    ensures IsText([c] + w) <==> !IsControl(c) && IsText(w)
  {
    if IsText([c] + w) {
      assert ([c] + w)[0] == c;
      assert forall k :: 0 <= k < |w| ==> ([c] + w)[k + 1] == w[k];
    }
  }

  lemma {:induction false} NameIff(s: seq<byte>, i: nat, j: nat)
    requires i <= j <= |s|
    ensures Name(s, i).Ok? && Name(s, i).end == j <==> j < |s| && s[j] == COLON && AreTokenChars(s[i..j])
    decreases j - i
  {
    assert !IsTokenChar(COLON);
    hide IsTokenChar;
    if i < j {
      NameIff(s, i + 1, j);
      assert s[i..j] == [s[i]] + s[i + 1..j];
      TokenCharsCons(s[i], s[i + 1..j]);
    }
  }

  lemma TokenCharsCons(c: byte, w: seq<byte>)
    ensures AreTokenChars([c] + w) <==> IsTokenChar(c) && AreTokenChars(w)
  {
    hide IsTokenChar;
    if AreTokenChars([c] + w) {
      assert ([c] + w)[0] == c;
      assert forall k :: 0 <= k < |w| ==> ([c] + w)[k + 1] == w[k];
    }
  }

  lemma {:induction false} BlanksIff(s: seq<byte>, i: nat, j: nat)
    requires i <= j <= |s|
    ensures Blanks(s, i).Ok? && Blanks(s, i).end == j <==> j < |s| && !IsBlank(s[j]) && AreBlanks(s[i..j])
    decreases j - i
  {
    if i < j {
      BlanksIff(s, i + 1, j);
      assert s[i..j] == [s[i]] + s[i + 1..j];
      BlanksCons(s[i], s[i + 1..j]);
    }
  }

  lemma BlanksCons(c: byte, w: seq<byte>)
    ensures AreBlanks([c] + w) <==> IsBlank(c) && AreBlanks(w)
  {
    if AreBlanks([c] + w) {
      assert ([c] + w)[0] == c;
      assert forall k :: 0 <= k < |w| ==> ([c] + w)[k + 1] == w[k];
    }
  }

  lemma LineEndIff(s: seq<byte>, k: nat, end: nat)
    requires k <= end <= |s|
    ensures LineEnd(s, k).Ok? && LineEnd(s, k).end == end <==> IsEol(s[k..end])
  {
    if end == k + 1 { assert s[k..end] == [s[k]]; }
    if end == k + 2 { assert s[k..end] == [s[k], s[k + 1]]; }
  }

  /** A line end starts with a control byte. */
  lemma EolStarts(s: seq<byte>, k: nat, end: nat)
    requires k <= end <= |s| && IsEol(s[k..end])
    ensures k < end && IsControl(s[k]) && !IsBlank(s[k]) && (s[k] == CR || s[k] == LF)
  {
    assert s[k] == s[k..end][0];
  }

  /** The rest of a line. */
  lemma TextIff(s: seq<byte>, i: nat, end: nat, v: seq<byte>)
    requires i <= end <= |s|
    ensures TokenToEol(s, i) == Ok(end, v) <==>
      IsText(v) && i + |v| <= end && s[i..i + |v|] == v && IsEol(s[i + |v|..end])
  {
    hide Control;
    hide LineEnd;
    hide IsText;
    var k := Control(s, i);
    ControlIff(s, i, k);
    if TokenToEol(s, i) == Ok(end, v) {
      assert LineEnd(s, k).Ok? && LineEnd(s, k).end == end;
      LineEndIff(s, k, end);
      assert v == s[i..k] && |v| == k - i;
    }
    if IsText(v) && i + |v| <= end && s[i..i + |v|] == v && IsEol(s[i + |v|..end]) {
      EolStarts(s, i + |v|, end);
      ControlIff(s, i, i + |v|);
      LineEndIff(s, i + |v|, end);
    }
  }

  // ----- One header line -----

  /** A header line at offset i, up to `end`, in some spelling. */
  ghost predicate LineAt(s: seq<byte>, i: nat, end: nat, h: Header, sp: LineSpelling) {
    i <= end <= |s| && Proper(sp) && Sayable(h) && s[i..end] == SpellHeader(h, sp)
  }

  /** Where the parts of a header line with a name are. */
  lemma NamedParts(s: seq<byte>, i: nat, end: nat, n: seq<byte>, b: seq<byte>, v: seq<byte>, e: seq<byte>)
    requires i <= end <= |s| && s[i..end] == n + [COLON] + b + v + e
    ensures var colon := i + |n|; var start := colon + 1 + |b|;
            && start + |v| + |e| == end && s[i..colon] == n && s[colon] == COLON && s[colon + 1..start] == b
            && s[start..start + |v|] == v && s[start + |v|..end] == e
  {
    var line := n + [COLON] + b + v + e;
    assert forall k :: i <= k < end ==> s[k] == line[k - i];
  }

  lemma NamedJoin(s: seq<byte>, i: nat, colon: nat, start: nat, stop: nat, end: nat)
    requires i <= colon < start <= stop <= end <= |s| && s[colon] == COLON
    ensures s[i..end] == s[i..colon] + [COLON] + s[colon + 1..start] + s[start..stop] + s[stop..end]
  {
  }

  /** A header line is read as what it spells. */
  lemma LineIsRead(s: seq<byte>, i: nat, end: nat, h: Header, sp: LineSpelling, first: bool)
    requires LineAt(s, i, end, h, sp) && (first ==> h.name.Named?)
    ensures i < end && s[i] != CR && s[i] != LF
    ensures var n := HeaderName(s, i, first);
            n.Ok? && n.value == h.name && TokenToEol(s, n.end) == Ok(end, h.value)
  {
    match h.name
    case Named(n) => NamedIsRead(s, i, end, n, sp.blanks, h.value, sp.eol, first);
    case Continuation =>
      var k := i + |h.value|;
      assert s[i..end][..|h.value|] == h.value && s[i..end][|h.value|..] == sp.eol;
      assert s[i..k] == h.value && s[k..end] == sp.eol && s[i] == s[i..k][0];
      TextIff(s, i, end, h.value);
      hide TokenToEol;
  }

  lemma NamedIsRead(s: seq<byte>, i: nat, end: nat, n: seq<byte>, b: seq<byte>, v: seq<byte>, e: seq<byte>, first: bool)
    requires i <= end <= |s| && s[i..end] == n + [COLON] + b + v + e && IsEol(e) && AreBlanks(b)
    requires n != [] && AreTokenChars(n) && IsText(v) && (v != [] ==> !IsBlank(v[0]))
    ensures i < end && s[i] != CR && s[i] != LF
    ensures var start := i + |n| + 1 + |b|;
            HeaderName(s, i, first) == Ok(start, Named(n)) && TokenToEol(s, start) == Ok(end, v)
  {
    hide *;
    NamedParts(s, i, end, n, b, v, e);
    var colon, start := i + |n|, i + |n| + 1 + |b|;
    NameStarts(s, i, colon);
    ValueStarts(s, start, start + |v|, end);
    NameIff(s, i, colon);
    BlanksIff(s, colon + 1, start);
    TextIff(s, start, end, v);
    NameOfParts(s, i, colon, start, first);
  }

  lemma NameStarts(s: seq<byte>, i: nat, colon: nat)
    requires i < colon <= |s| && AreTokenChars(s[i..colon])
    ensures !IsBlank(s[i]) && s[i] != CR && s[i] != LF
  {
    assert s[i] == s[i..colon][0];
    NotBlank(s[i]);
  }

  /** The first byte of a value, or of the line end after an empty one, is no blank. */
  lemma ValueStarts(s: seq<byte>, start: nat, stop: nat, end: nat)
    requires start <= stop <= end <= |s| && IsEol(s[stop..end]) && (start < stop ==> !IsBlank(s[start..stop][0]))
    ensures start < |s| && !IsBlank(s[start])
  {
    EolStarts(s, stop, end);
  }

  lemma NameOfParts(s: seq<byte>, i: nat, colon: nat, start: nat, first: bool)
    requires i < colon < |s| && !IsBlank(s[i]) && Name(s, i).Ok? && Name(s, i).end == colon
    requires Blanks(s, colon + 1).Ok? && Blanks(s, colon + 1).end == start
    ensures HeaderName(s, i, first) == Ok(start, Named(s[i..colon]))
  {
    hide Name;
    hide Blanks;
    hide IsBlank;
  }

  lemma NotBlank(c: byte)
    requires IsTokenChar(c)
    ensures !IsBlank(c) && c != CR && c != LF && c != COLON
  {
  }

  /** What is read as a header line spells it. */
  lemma ReadIsLine(s: seq<byte>, i: nat, first: bool) returns (sp: LineSpelling)
    requires i < |s| && HeaderName(s, i, first).Ok? && TokenToEol(s, HeaderName(s, i, first).end).Ok?
    ensures var n := HeaderName(s, i, first);
            var v := TokenToEol(s, n.end);
            LineAt(s, i, v.end, Header(n.value, v.value), sp) && (first ==> n.value.Named?)
  {
    var n := HeaderName(s, i, first);
    var v := TokenToEol(s, n.end);
    TextIff(s, n.end, v.end, v.value);
    var stop := n.end + |v.value|;
    hide TokenToEol;
    if n.value.Continuation? {
      sp := LineSpelling([], s[stop..v.end]);
      ContinuationRead(s, i, stop, v.end, v.value);
      assert s[i..v.end] == s[i..stop] + s[stop..v.end];
    } else {
      sp := NamedRead(s, i, first, stop, v.end, v.value);
    }
  }

  lemma NamedRead(s: seq<byte>, i: nat, first: bool, stop: nat, end: nat, v: seq<byte>) returns (sp: LineSpelling)
    requires i < |s| && HeaderName(s, i, first).Ok? && HeaderName(s, i, first).value.Named?
    requires HeaderName(s, i, first).end <= stop <= end <= |s| && s[HeaderName(s, i, first).end..stop] == v
    requires IsText(v) && IsEol(s[stop..end])
    ensures LineAt(s, i, end, Header(HeaderName(s, i, first).value, v), sp)
  {
    hide IsText;
    hide IsEol;
    hide Name;
    hide Blanks;
    hide IsTokenChar;
    var start, colon := HeaderName(s, i, first).end, Name(s, i).end;
    assert HeaderName(s, i, first).value == Named(s[i..colon]) && i < colon;
    assert Blanks(s, colon + 1).Ok? && Blanks(s, colon + 1).end == start;
    hide HeaderName;
    NameIff(s, i, colon);
    BlanksIff(s, colon + 1, start);
    hide AreTokenChars;
    hide AreBlanks;
    NamedJoin(s, i, colon, start, stop, end);
    sp := LineSpelling(s[colon + 1..start], s[stop..end]);
    assert v != [] ==> v[0] == s[start];
  }

  lemma ContinuationRead(s: seq<byte>, i: nat, stop: nat, end: nat, v: seq<byte>)
    requires i <= stop <= end <= |s| && i < |s| && IsBlank(s[i]) && s[i..stop] == v && IsEol(s[stop..end])
    ensures v != [] && v[0] == s[i]
  {
    EolStarts(s, stop, end);
  }

  // ----- The header block -----

  lemma HeadersStep(s: seq<byte>, i: nat, max: nat, sofar: seq<Header>, h: Header, end: nat)
    requires i < |s| && s[i] != CR && s[i] != LF && |sofar| < max
    requires var n := HeaderName(s, i, sofar == []); n.Ok? && n.value == h.name && TokenToEol(s, n.end) == Ok(end, h.value)
    ensures i < end <= |s| && Headers(s, i, max, sofar) == Headers(s, end, max, sofar + [h])
  {
    hide HeaderName;
    hide TokenToEol;
    hide LineEnd;
    assert h == Header(h.name, h.value);
  }

  lemma OneHeader(s: seq<byte>, i: nat, end: nat, max: nat, sofar: seq<Header>, h: Header, sp: LineSpelling)
    requires i <= end <= |s| && Proper(sp) && Sayable(h) && s[i..end] == SpellHeader(h, sp)
    requires |sofar| < max && (sofar == [] ==> h.name.Named?)
    ensures Headers(s, i, max, sofar) == Headers(s, end, max, sofar + [h])
  {
    hide HeaderName;
    hide TokenToEol;
    hide Headers;
    hide SpellHeader;
    hide Sayable;
    hide Proper;
    LineIsRead(s, i, end, h, sp, sofar == []);
    HeadersStep(s, i, max, sofar, h, end);
  }

  lemma FirstLine(s: seq<byte>, i: nat, end: nat, hs: seq<Header>, sps: seq<LineSpelling>, last: seq<byte>) returns (mid: nat)
    requires |sps| == |hs| > 0 && i <= end <= |s| && s[i..end] == SpellHeaders(hs, sps, last)
    ensures i <= mid <= end
    ensures s[i..mid] == SpellHeader(hs[0], sps[0]) && s[mid..end] == SpellHeaders(hs[1..], sps[1..], last)
  {
    var line, more := SpellHeader(hs[0], sps[0]), SpellHeaders(hs[1..], sps[1..], last);
    assert s[i..end] == line + more;
    hide *;
    mid := i + |line|;
    assert s[i..mid] == s[i..end][..|line|] && s[mid..end] == s[i..end][|line|..];
  }

  lemma RestSayable(hs: seq<Header>, first: bool)
    requires AllSayable(hs, first) && hs != []
    ensures Sayable(hs[0]) && (first ==> hs[0].name.Named?) && AllSayable(hs[1..], false)
  {
    hide Sayable;
  }

  lemma RestProper(sps: seq<LineSpelling>, last: seq<byte>)
    requires ProperLines(sps, last) && sps != []
    ensures Proper(sps[0]) && ProperLines(sps[1..], last)
  {
    hide Proper;
  }

  /** A spelled header block is read as what it spells. */
  lemma {:induction false} HeadersAt(
    s: seq<byte>, i: nat, end: nat, max: nat, sofar: seq<Header>, hs: seq<Header>, sps: seq<LineSpelling>, last: seq<byte>)
    requires |sps| == |hs| && ProperLines(sps, last) && AllSayable(hs, sofar == []) && |sofar| + |hs| <= max
    requires i <= end <= |s| && s[i..end] == SpellHeaders(hs, sps, last)
    ensures Headers(s, i, max, sofar) == Ok(end, sofar + hs)
    decreases |hs|
  {
    hide *;
    if hs == [] {
      NoHeaders(s, i, end, max, sofar, hs, sps, last);
    } else {
      var mid := FirstLine(s, i, end, hs, sps, last);
      RestSayable(hs, sofar == []);
      RestProper(sps, last);
      OneHeader(s, i, mid, max, sofar, hs[0], sps[0]);
      HeadersAt(s, mid, end, max, sofar + [hs[0]], hs[1..], sps[1..], last);
      Regroup(sofar, hs);
    }
  }

  lemma Regroup(sofar: seq<Header>, hs: seq<Header>)
    requires hs != []
    ensures sofar + [hs[0]] + hs[1..] == sofar + hs
  {
  }

  lemma NoHeaders(
    s: seq<byte>, i: nat, end: nat, max: nat, sofar: seq<Header>, hs: seq<Header>, sps: seq<LineSpelling>, last: seq<byte>)
    requires hs == [] && sps == [] && ProperLines(sps, last) && i <= end <= |s| && s[i..end] == SpellHeaders(hs, sps, last)
    ensures Headers(s, i, max, sofar) == Ok(end, sofar + hs)
  {
    NoMoreHeaders(s, i, end, max, sofar);
    hide Headers;
    assert sofar + hs == sofar;
  }

  lemma NoMoreHeaders(s: seq<byte>, i: nat, end: nat, max: nat, sofar: seq<Header>)
    requires i <= end <= |s| && IsEol(s[i..end])
    ensures Headers(s, i, max, sofar) == Ok(end, sofar)
  {
    EolStarts(s, i, end);
    LineEndIff(s, i, end);
  }

  /** What is read as a header block spells it. */
  lemma {:induction false} HeadersRead(s: seq<byte>, i: nat, max: nat, sofar: seq<Header>)
    returns (hs: seq<Header>, sps: seq<LineSpelling>, last: seq<byte>)
    requires i <= |s| && Headers(s, i, max, sofar).Ok? && |sofar| <= max
    ensures |sps| == |hs| && ProperLines(sps, last) && AllSayable(hs, sofar == []) && |sofar| + |hs| <= max
    ensures var r := Headers(s, i, max, sofar);
            r.value == sofar + hs && s[i..r.end] == SpellHeaders(hs, sps, last)
    decreases |s| - i
  {
    hide HeaderName;
    hide TokenToEol;
    hide SpellHeader;
    hide Sayable;
    var end := Headers(s, i, max, sofar).end;
    if s[i] == CR || s[i] == LF {
      LineEndIff(s, i, end);
      hs, sps, last := [], [], s[i..end];
      assert sofar + hs == sofar;
    } else {
      var name := HeaderName(s, i, sofar == []);
      var value := TokenToEol(s, name.end);
      var h := Header(name.value, value.value);
      var sp := ReadIsLine(s, i, sofar == []);
      var hs', sps';
      hs', sps', last := HeadersRead(s, value.end, max, sofar + [h]);
      hs, sps := [h] + hs', [sp] + sps';
      assert hs[1..] == hs' && sps[1..] == sps';
      assert sofar + [h] + hs' == sofar + hs;
      assert s[i..end] == s[i..value.end] + s[value.end..end];
    }
  }

  /** The header parser accepts exactly the spelled header blocks. */
  lemma HeadersIff(s: seq<byte>, n: nat, max: nat, hs: seq<Header>)
    requires n <= |s|
    ensures ParseHeaders(s, max) == Ok(n, hs) <==> AllSayable(hs, true) && |hs| <= max && SpellsHeaders(s[..n], hs)
  {
    HeadersFromIff(s, 0, n, max, hs);
    assert s[0..n] == s[..n];
    hide Headers;
    hide SpellsHeaders;
  }

  lemma HeadersFromIff(s: seq<byte>, i: nat, n: nat, max: nat, hs: seq<Header>)
    requires i <= n <= |s|
    ensures Headers(s, i, max, []) == Ok(n, hs) <==> AllSayable(hs, true) && |hs| <= max && SpellsHeaders(s[i..n], hs)
  {
    hide Headers;
    hide SpellHeaders;
    hide AllSayable;
    hide ProperLines;
    if Headers(s, i, max, []) == Ok(n, hs) {
      var hs', sps, last := HeadersRead(s, i, max, []);
      assert [] + hs' == hs';
    }
    if AllSayable(hs, true) && |hs| <= max && SpellsHeaders(s[i..n], hs) {
      var sps: seq<LineSpelling>, last: seq<byte> :|
        |sps| == |hs| && ProperLines(sps, last) && s[i..n] == SpellHeaders(hs, sps, last);
      HeadersAt(s, i, n, max, [], hs, sps, last);
      assert [] + hs == hs;
    }
  }

  // ----- Requests -----

  lemma VersionIff(s: seq<byte>, i: nat, minor: nat)
    requires i <= |s|
    ensures HttpVersion(s, i) == Ok(i + 8, minor) <==>
      i + 9 <= |s| && s[i..i + 7] == VERSION && minor < 10 && s[i + 7] == 48 + minor
    ensures HttpVersion(s, i).Ok? ==> HttpVersion(s, i).end == i + 8
  {
  }

  /** The request line from offset i. */
  ghost predicate RequestLineAt(s: seq<byte>, i: nat, end: nat, q: Request, eol: seq<byte>) {
    q.minor < 10 && i <= end <= |s| && s[i..end] == SpellRequestLine(q, eol)
  }

  lemma RequestLineParts(s: seq<byte>, i: nat, end: nat, q: Request, eol: seq<byte>)
    requires RequestLineAt(s, i, end, q, eol)
    ensures var j := i + |q.method_|; var k := j + 1 + |q.path|;
            && k + 9 + |eol| == end && s[i..j] == q.method_ && s[j] == SPACE && s[j + 1..k] == q.path && s[k] == SPACE
            && s[k + 1..k + 8] == VERSION && s[k + 8] == 48 + q.minor && s[k + 9..end] == eol
  {
    var line := SpellRequestLine(q, eol);
    assert forall x :: i <= x < end ==> s[x] == line[x - i];
  }

  lemma RequestLineJoin(s: seq<byte>, i: nat, j: nat, k: nat, end: nat, minor: nat)
    requires i <= j < k && k + 9 <= end <= |s| && s[j] == SPACE && s[k] == SPACE
    requires s[k + 1..k + 8] == VERSION && minor < 10 && s[k + 8] == 48 + minor
    ensures s[i..end] == SpellRequestLine(Request(s[i..j], s[j + 1..k], minor, []), s[k + 9..end])
  {
    assert s[k + 1..k + 9] == VERSION + [48 + minor];
    assert s[i..end] == s[i..j] + [SPACE] + s[j + 1..k] + [SPACE] + s[k + 1..k + 9] + s[k + 9..end];
  }

  lemma RequestLineIff(s: seq<byte>, i: nat, end: nat, q: Request)
    requires i <= end <= |s| && q.headers == []
    ensures RequestLine(s, i) == Ok(end, q) <==>
      && q.minor < 10 && IsWord(q.method_) && IsWord(q.path)
      && exists eol: seq<byte> :: IsEol(eol) && RequestLineAt(s, i, end, q, eol)
  {
    if RequestLine(s, i) == Ok(end, q) {
      RequestLineRead(s, i, end, q);
    }
    if q.minor < 10 && IsWord(q.method_) && IsWord(q.path) && exists eol: seq<byte> :: IsEol(eol) && RequestLineAt(s, i, end, q, eol) {
      var eol: seq<byte> :| IsEol(eol) && RequestLineAt(s, i, end, q, eol);
      RequestLineIsRead(s, i, end, q, eol);
    }
  }

  lemma RequestLineRead(s: seq<byte>, i: nat, end: nat, q: Request)
    requires i <= end <= |s| && RequestLine(s, i) == Ok(end, q)
    ensures q.minor < 10 && IsWord(q.method_) && IsWord(q.path) && q.headers == []
    ensures exists eol: seq<byte> :: IsEol(eol) && RequestLineAt(s, i, end, q, eol)
  {
    hide Token;
    hide HttpVersion;
    hide LineEnd;
    var j := Token(s, i).end;
    var k := Token(s, j + 1).end;
    TokenIff(s, i, j);
    TokenIff(s, j + 1, k);
    VersionIff(s, k + 1, q.minor);
    LineEndIff(s, k + 9, end);
    RequestLineJoin(s, i, j, k, end, q.minor);
    assert RequestLineAt(s, i, end, q, s[k + 9..end]);
  }

  lemma LineOfParts(s: seq<byte>, i: nat, j: nat, k: nat, minor: nat, end: nat)
    requires i <= j < |s| && Token(s, i).Ok? && Token(s, i).end == j
    requires k < |s| && Token(s, j + 1).Ok? && Token(s, j + 1).end == k
    requires HttpVersion(s, k + 1) == Ok(k + 9, minor) && LineEnd(s, k + 9).Ok? && LineEnd(s, k + 9).end == end
    ensures RequestLine(s, i) == Ok(end, Request(s[i..j], s[j + 1..k], minor, []))
  {
    hide Token;
    hide HttpVersion;
    hide LineEnd;
  }

  lemma RequestLineIsRead(s: seq<byte>, i: nat, end: nat, q: Request, eol: seq<byte>)
    requires RequestLineAt(s, i, end, q, eol) && IsEol(eol) && IsWord(q.method_) && IsWord(q.path)
    ensures RequestLine(s, i) == Ok(end, q.(headers := []))
  {
    hide Token;
    hide HttpVersion;
    hide LineEnd;
    hide SpellRequestLine;
    hide IsWord;
    RequestLineParts(s, i, end, q, eol);
    var j := i + |q.method_|;
    var k := j + 1 + |q.path|;
    TokenIff(s, i, j);
    TokenIff(s, j + 1, k);
    VersionIff(s, k + 1, q.minor);
    LineEndIff(s, k + 9, end);
    LineOfParts(s, i, j, k, q.minor, end);
  }

  /** The empty line that may come first. */
  lemma LeadIff(s: seq<byte>, n: nat)
    requires n <= |s| && s != []
    ensures EmptyLine(s).Ok? && EmptyLine(s).end == n <==> if n == 0 then s[0] != CR && s[0] != LF else IsEol(s[..n])
  {
    assert s[0..n] == s[..n];
    LineEndIff(s, 0, n);
    if n > 0 && IsEol(s[0..n]) { EolStarts(s, 0, n); }
  }

  /** A request line starts with a byte of the method or a space. */
  lemma LineStarts(s: seq<byte>, i: nat, end: nat, q: Request, eol: seq<byte>)
    requires RequestLineAt(s, i, end, q, eol) && IsWord(q.method_)
    ensures i < end && s[i] != CR && s[i] != LF
  {
    RequestLineParts(s, i, end, q, eol);
    assert q.method_ != [] ==> s[i] == s[i..i + |q.method_|][0];
  }

  /** The first lines of a request, up to its headers. */
  lemma OpeningRead(s: seq<byte>, k: nat, q: Request)
    requires s != [] && k <= |s| && EmptyLine(s).Ok? && RequestLine(s, EmptyLine(s).end) == Ok(k, q)
    ensures q.minor < 10 && IsWord(q.method_) && IsWord(q.path) && q.headers == [] && SpellsRequestLine(s[..k], q)
  {
    hide RequestLine;
    var n := EmptyLine(s).end;
    LeadIff(s, n);
    RequestLineRead(s, n, k, q);
    var eol: seq<byte> :| IsEol(eol) && RequestLineAt(s, n, k, q, eol);
    var lead := s[..n];
    assert s[..k] == lead + s[n..k];
    assert IsLead(lead) && IsEol(eol) && s[..k] == lead + SpellRequestLine(q, eol);
  }

  lemma OpeningIsRead(s: seq<byte>, k: nat, q: Request)
    requires k <= |s| && q.minor < 10 && IsWord(q.method_) && IsWord(q.path) && SpellsRequestLine(s[..k], q)
    ensures s != [] && EmptyLine(s).Ok? && RequestLine(s, EmptyLine(s).end) == Ok(k, q.(headers := []))
  {
    hide RequestLine;
    var lead: seq<byte>, eol: seq<byte> :|
      IsLead(lead) && IsEol(eol) && s[..k] == lead + SpellRequestLine(q, eol);
    var n := |lead|;
    assert s[..k][..n] == lead && s[..k][n..] == SpellRequestLine(q, eol);
    assert s[..n] == lead && s[n..k] == SpellRequestLine(q, eol);
    assert RequestLineAt(s, n, k, q, eol);
    LineStarts(s, n, k, q, eol);
    LeadIff(s, n);
    RequestLineIsRead(s, n, k, q, eol);
  }

  /** The request parser answers n with these fields if and only if the first n bytes are a spelling of them. */
  lemma RequestIff(s: seq<byte>, n: nat, max: nat, q: Request)
    requires n <= |s|
    ensures ParseRequest(s, max) == Ok(n, q) <==> SayableRequest(q) && |q.headers| <= max && SpellsRequest(s[..n], q)
  {
    if ParseRequest(s, max) == Ok(n, q) { RequestRead(s, n, max, q); }
    if SayableRequest(q) && |q.headers| <= max && SpellsRequest(s[..n], q) { RequestIsRead(s, n, max, q); }
  }

  lemma RequestRead(s: seq<byte>, n: nat, max: nat, q: Request)
    requires n <= |s| && ParseRequest(s, max) == Ok(n, q)
    ensures SayableRequest(q) && |q.headers| <= max && SpellsRequest(s[..n], q)
  {
    hide RequestLine;
    hide Headers;
    hide SpellsHeaders;
    var r := RequestLine(s, EmptyLine(s).end);
    OpeningRead(s, r.end, r.value);
    SpellsLineOf(s[..r.end], r.value, q);
    hide SpellsRequestLine;
    hide AllSayable;
    HeadersFromIff(s, r.end, n, max, q.headers);
    assert s[..n][..r.end] == s[..r.end] && s[..n][r.end..] == s[r.end..n];
  }

  lemma SpellsLineOf(s: seq<byte>, a: Request, b: Request)
    requires a.minor < 10 && SpellsRequestLine(s, a) && b == a.(headers := b.headers)
    ensures SpellsRequestLine(s, b)
  {
    var lead: seq<byte>, eol: seq<byte> :|
      IsLead(lead) && IsEol(eol) && s == lead + SpellRequestLine(a, eol);
    assert SpellRequestLine(b, eol) == SpellRequestLine(a, eol);
  }

  lemma RequestIsRead(s: seq<byte>, n: nat, max: nat, q: Request)
    requires n <= |s| && SayableRequest(q) && |q.headers| <= max && SpellsRequest(s[..n], q)
    ensures ParseRequest(s, max) == Ok(n, q)
  {
    hide RequestLine;
    hide Headers;
    hide SpellsHeaders;
    hide SpellsRequestLine;
    hide AllSayable;
    var k :| 0 <= k <= n && SpellsRequestLine(s[..n][..k], q) && SpellsHeaders(s[..n][k..], q.headers);
    assert s[..n][..k] == s[..k] && s[..n][k..] == s[k..n];
    OpeningIsRead(s, k, q);
    HeadersFromIff(s, k, n, max, q.headers);
    assert q == q.(headers := []).(headers := q.headers);
  }

  // ----- Responses -----

  lemma ThreeDigits(n: nat)
    requires n < 1000
    ensures 100 * (n / 100) + 10 * (n / 10 % 10) + n % 10 == n && n / 100 < 10
  {
    var tens := n / 10;
    assert n == 10 * tens + n % 10 && tens == 10 * (tens / 10) + tens % 10;
    assert n / 100 == tens / 10;
  }

  lemma DigitsOf(a: nat, b: nat, c: nat)
    requires a < 10 && b < 10 && c < 10
    ensures var n := 100 * a + 10 * b + c; n / 100 == a && n / 10 % 10 == b && n % 10 == c
  {
  }

  lemma StatusIff(s: seq<byte>, i: nat, status: nat)
    requires i <= |s|
    ensures Status(s, i) == Ok(i + 4, status) <==>
      && i + 4 <= |s| && status < 1000 && s[i + 3] == SPACE
      && s[i] == 48 + status / 100 && s[i + 1] == 48 + status / 10 % 10 && s[i + 2] == 48 + status % 10
    ensures Status(s, i).Ok? ==> Status(s, i).end == i + 4
  {
    if Status(s, i).Ok? {
      DigitsOf(s[i] - 48, s[i + 1] - 48, s[i + 2] - 48);
    }
    if status < 1000 { ThreeDigits(status); }
  }

  /** Where the parts of a status line are. */
  lemma StatusLineParts(s: seq<byte>, end: nat, p: Response, eol: seq<byte>)
    requires p.minor < 10 && p.status < 1000 && end <= |s| && s[..end] == SpellStatusLine(p, eol)
    ensures var m := 13 + |p.message|;
            && m + |eol| == end && s[13..m] == p.message && s[m..end] == eol
            && s[0..7] == VERSION && s[7] == 48 + p.minor && s[8] == SPACE && s[12] == SPACE
            && s[9] == 48 + p.status / 100 && s[10] == 48 + p.status / 10 % 10 && s[11] == 48 + p.status % 10
  {
    var line := SpellStatusLine(p, eol);
    assert forall x :: 0 <= x < end ==> s[x] == line[x];
  }

  lemma StatusLineJoin(s: seq<byte>, m: nat, end: nat, p: Response)
    requires 13 <= m <= end <= |s| && p.minor < 10 && p.status < 1000 && s[13..m] == p.message
    requires s[0..7] == VERSION && s[7] == 48 + p.minor && s[8] == SPACE && s[12] == SPACE
    requires s[9] == 48 + p.status / 100 && s[10] == 48 + p.status / 10 % 10 && s[11] == 48 + p.status % 10
    ensures s[..end] == SpellStatusLine(p, s[m..end])
  {
    assert s[..13] == VERSION + [48 + p.minor, SPACE, 48 + p.status / 100, 48 + p.status / 10 % 10, 48 + p.status % 10, SPACE];
    assert s[..end] == s[..13] + s[13..m] + s[m..end];
  }

  lemma StatusLineIsRead(s: seq<byte>, end: nat, p: Response, eol: seq<byte>)
    requires p.minor < 10 && p.status < 1000 && IsText(p.message) && IsEol(eol)
    requires end <= |s| && s[..end] == SpellStatusLine(p, eol)
    ensures HttpVersion(s, 0) == Ok(8, p.minor) && s[8] == SPACE && Status(s, 9) == Ok(13, p.status)
    ensures TokenToEol(s, 13) == Ok(end, p.message)
  {
    StatusLineParts(s, end, p, eol);
    hide SpellStatusLine;
    VersionIff(s, 0, p.minor);
    StatusIff(s, 9, p.status);
    TextIff(s, 13, end, p.message);
    EolStarts(s, 13 + |p.message|, end);
    hide TokenToEol;
    hide Status;
    hide HttpVersion;
    hide IsText;
  }

  lemma StatusLineRead(s: seq<byte>, end: nat, p: Response)
    requires HttpVersion(s, 0) == Ok(8, p.minor) && s[8] == SPACE && Status(s, 9) == Ok(13, p.status)
    requires end <= |s| && TokenToEol(s, 13) == Ok(end, p.message)
    ensures p.minor < 10 && p.status < 1000 && IsText(p.message)
    ensures exists eol: seq<byte> :: IsEol(eol) && s[..end] == SpellStatusLine(p, eol)
  {
    VersionIff(s, 0, p.minor);
    StatusIff(s, 9, p.status);
    TextIff(s, 13, end, p.message);
    hide TokenToEol;
    hide Status;
    hide HttpVersion;
    StatusLineJoin(s, 13 + |p.message|, end, p);
  }

  /** The same for responses. */
  lemma ResponseIff(s: seq<byte>, n: nat, max: nat, p: Response)
    requires n <= |s|
    ensures ParseResponse(s, max) == Ok(n, p) <==> SayableResponse(p) && |p.headers| <= max && SpellsResponse(s[..n], p)
  {
    if ParseResponse(s, max) == Ok(n, p) { ResponseRead(s, n, max, p); }
    if SayableResponse(p) && |p.headers| <= max && SpellsResponse(s[..n], p) { ResponseIsRead(s, n, max, p); }
  }

  lemma ResponseRead(s: seq<byte>, n: nat, max: nat, p: Response)
    requires n <= |s| && ParseResponse(s, max) == Ok(n, p)
    ensures SayableResponse(p) && |p.headers| <= max && SpellsResponse(s[..n], p)
  {
    hide *;
    var k := ResponseParts(s, n, max, p);
    StatusLineRead(s, k, p);
    var eol: seq<byte> :| IsEol(eol) && s[..k] == SpellStatusLine(p, eol);
    HeadersFromIff(s, k, n, max, p.headers);
    ResponseJoin(s[..n], k, eol, p) by { assert s[..n][..k] == s[..k] && s[..n][k..] == s[k..n]; }
  }

  /** Where the parts of a response that was read are. */
  lemma ResponseParts(s: seq<byte>, n: nat, max: nat, p: Response) returns (k: nat)
    requires n <= |s| && ParseResponse(s, max) == Ok(n, p)
    ensures HttpVersion(s, 0) == Ok(8, p.minor) && s[8] == SPACE && Status(s, 9) == Ok(13, p.status)
    ensures k <= n && TokenToEol(s, 13) == Ok(k, p.message) && Headers(s, k, max, []) == Ok(n, p.headers)
  {
    VersionIff(s, 0, p.minor);
    StatusIff(s, 9, p.status);
    hide HttpVersion;
    hide Status;
    hide TokenToEol;
    hide Headers;
    k := TokenToEol(s, 13).end;
  }

  lemma ResponseJoin(s: seq<byte>, k: nat, eol: seq<byte>, p: Response)
    requires p.minor < 10 && p.status < 1000 && IsText(p.message) && AllSayable(p.headers, true)
    requires k <= |s| && IsEol(eol) && s[..k] == SpellStatusLine(p, eol) && SpellsHeaders(s[k..], p.headers)
    ensures SayableResponse(p) && SpellsResponse(s, p)
  {
    hide IsText;
    hide AllSayable;
    hide SpellsHeaders;
    hide SpellStatusLine;
    hide IsEol;
  }

  lemma ResponseIsRead(s: seq<byte>, n: nat, max: nat, p: Response)
    requires n <= |s| && SayableResponse(p) && |p.headers| <= max && SpellsResponse(s[..n], p)
    ensures ParseResponse(s, max) == Ok(n, p)
  {
    hide HttpVersion;
    hide Status;
    hide TokenToEol;
    hide Headers;
    hide SpellsHeaders;
    hide SpellStatusLine;
    hide AllSayable;
    var k, eol: seq<byte> :|
      0 <= k <= n && IsEol(eol) && s[..n][..k] == SpellStatusLine(p, eol) && SpellsHeaders(s[..n][k..], p.headers);
    assert s[..n][..k] == s[..k] && s[..n][k..] == s[k..n];
    StatusLineIsRead(s, k, p, eol);
    HeadersFromIff(s, k, n, max, p.headers);
  }
}
