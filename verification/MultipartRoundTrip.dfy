/**
 The multipart body that the HTTP client prints, and what the server's reader makes of it.
 */
module MultipartRoundTrip {
  import opened Bytes
  import opened MultipartMachine
  import opened MultipartContent
  import MultipartParser

  /** "Content-Disposition" */
  const DISPOSITION: seq<byte> := [67, 111, 110, 116, 101, 110, 116, 45, 68, 105, 115, 112, 111, 115, 105, 116, 105, 111, 110]

  /** The value up to the file name: form-data; name="test"; filename=" */
  const VALUE_START: seq<byte> :=
    [102, 111, 114, 109, 45, 100, 97, 116, 97, 59, 32, 110, 97, 109, 101, 61, 34, 116, 101, 115, 116, 34, 59, 32,
     102, 105, 108, 101, 110, 97, 109, 101, 61, 34]

  const QUOTE: byte := 34

  /** The texts of the printed header. */
  lemma DispositionText(k: nat)
    ensures |DISPOSITION| == |"Content-Disposition"|
    ensures k < |DISPOSITION| ==> DISPOSITION[k] == "Content-Disposition"[k] as int
  {
  }

  lemma ValueText(k: nat)
    ensures |VALUE_START| == |"form-data; name=\"test\"; filename=\""|
    ensures k < |VALUE_START| ==> VALUE_START[k] == "form-data; name=\"test\"; filename=\""[k] as int
  {
  }

  // ----- The reader on top of the parser -----

  datatype Header = Header(name: seq<byte>, value: seq<byte>)
  datatype Part = Part(headers: seq<Header>, data: seq<byte>, closed: bool)

  /** `multipart_reader`: the header being read, the headers of the part, and what its user has been told. */
  datatype Reader = Reader(name: seq<byte>, value: seq<byte>, headers: seq<Header>, parts: seq<Part>, ended: bool)

  function NewReader(): (r: Reader) { Reader([], [], [], [], false) }

  /** What the reader's user does with a part: collect its data. */
  function OnLast(parts: seq<Part>, f: Part -> Part): (r: seq<Part>) {
    if parts == [] then [] else parts[..|parts| - 1] + [f(parts[|parts| - 1])]
  }

  function Read(r: Reader, e: Event): (r': Reader) {
    match e
    case PartBegin => r
    case FieldByte(b) => r.(name := r.name + [b])
    case ValueByte(b) => r.(value := r.value + [b])
    case HeaderEnd => r.(headers := r.headers + [Header(r.name, r.value)], name := [], value := [])
    case HeadersEnd => r.(parts := r.parts + [Part(r.headers, [], false)], headers := [])
    case DataByte(b) => r.(parts := OnLast(r.parts, (p: Part) => p.(data := p.data + [b])))
    case PartEnd => r.(parts := OnLast(r.parts, (p: Part) => p.(closed := true)))
    case StreamEnd => r.(ended := true)
    case Leftover => r.(parts := OnLast(r.parts, (p: Part) => p.(data := p.data + [0])))  // some byte
  }

  function ReadAll(r: Reader, es: seq<Event>): (r': Reader)
    decreases |es|
  {
    if es == [] then r else Read(ReadAll(r, es[..|es| - 1]), es[|es| - 1])
  }

  lemma {:induction false} ReadConcat(r: Reader, es: seq<Event>, fs: seq<Event>)
    ensures ReadAll(r, es + fs) == ReadAll(ReadAll(r, es), fs)
    decreases |fs|
  {
    if fs == [] {
      assert es + fs == es;
    } else {
      ReadConcat(r, es, fs[..|fs| - 1]);
      assert (es + fs)[..|es + fs| - 1] == es + fs[..|fs| - 1];
    }
  }

  lemma ReadSnoc(r: Reader, es: seq<Event>, e: Event)
    ensures ReadAll(r, es + [e]) == Read(ReadAll(r, es), e)
  {
    assert (es + [e])[..|es|] == es;
  }

  /** Name bytes are appended to the name. */
  lemma {:induction false} ReadName(r: Reader, s: seq<byte>)
    ensures ReadAll(r, FieldBytes(s)) == r.(name := r.name + s)
    decreases |s|
  {
    if s == [] {
      assert r.name + s == r.name;
    } else {
      var u := s[..|s| - 1];
      ReadName(r, u);
      assert FieldBytes(s)[..|s| - 1] == FieldBytes(u);
      assert r.name + u + [s[|s| - 1]] == r.name + s;
    }
  }

  lemma {:induction false} ReadValue(r: Reader, s: seq<byte>)
    ensures ReadAll(r, ValueBytes(s)) == r.(value := r.value + s)
    decreases |s|
  {
    if s == [] {
      assert r.value + s == r.value;
    } else {
      var u := s[..|s| - 1];
      ReadValue(r, u);
      assert ValueBytes(s)[..|s| - 1] == ValueBytes(u);
      assert r.value + u + [s[|s| - 1]] == r.value + s;
    }
  }

  lemma {:induction false} ReadData(r: Reader, done: seq<Part>, p: Part, s: seq<byte>)
    requires r.parts == done + [p]
    ensures ReadAll(r, DataBytes(s)) == r.(parts := done + [p.(data := p.data + s)])
    decreases |s|
  {
    if s == [] {
      assert p.data + s == p.data;
    } else {
      var u := s[..|s| - 1];
      ReadData(r, done, p, u);
      assert DataBytes(s)[..|s| - 1] == DataBytes(u);
      assert p.data + u + [s[|s| - 1]] == p.data + s;
    }
  }

  /** The reader's callbacks, each with the whole run of bytes it is given. */
  function ReadCall(r: Reader, call: MultipartParser.Call): (r': Reader) {
    match call
    case OnPartBegin => r
    case OnHeaderField(s) => r.(name := r.name + s)
    case OnHeaderValue(s) => r.(value := r.value + s)
    case OnHeaderEnd => r.(headers := r.headers + [Header(r.name, r.value)], name := [], value := [])
    case OnHeadersEnd => r.(parts := r.parts + [Part(r.headers, [], false)], headers := [])
    case OnPartData(s) => r.(parts := OnLast(r.parts, (p: Part) => p.(data := p.data + s)))
    case OnPartEnd => r.(parts := OnLast(r.parts, (p: Part) => p.(closed := true)))
    case OnEnd => r.(ended := true)
  }

  function ReadCalls(r: Reader, calls: seq<MultipartParser.Call>): (r': Reader)
    decreases |calls|
  {
    if calls == [] then r else ReadCall(ReadCalls(r, calls[..|calls| - 1]), calls[|calls| - 1])
  }

  lemma ReadOneEvent(r: Reader, e: Event)
    ensures ReadAll(r, [e]) == Read(r, e)
  {
    assert [e][..0] == [];
  }

  lemma ReadCallIsSpread(r: Reader, call: MultipartParser.Call)
    ensures ReadCall(r, call) == ReadAll(r, MultipartParser.Spread(call))
  {
    match call
    case OnHeaderField(s) => ReadName(r, s);
    case OnHeaderValue(s) => ReadValue(r, s);
    case OnPartData(s) =>
      if r.parts == [] {
        DataWithoutPart(r, s);
      } else {
        ReadData(r, r.parts[..|r.parts| - 1], r.parts[|r.parts| - 1], s);
      }
    case _ => ReadOneEvent(r, MultipartParser.Spread(call)[0]);
  }

  lemma {:induction false} DataWithoutPart(r: Reader, s: seq<byte>)
    requires r.parts == []
    ensures ReadAll(r, DataBytes(s)) == r
    decreases |s|
  {
    if s != [] {
      DataWithoutPart(r, s[..|s| - 1]);
      assert DataBytes(s)[..|s| - 1] == DataBytes(s[..|s| - 1]);
    }
  }

  /** The reader cannot tell how data callbacks were split: it depends on the joined bytes alone. */
  lemma {:induction false} ReaderSeesJoinedBytes(r: Reader, calls: seq<MultipartParser.Call>)
    ensures ReadCalls(r, calls) == ReadAll(r, MultipartParser.Flatten(calls))
    decreases |calls|
  {
    if calls != [] {
      var before, last := calls[..|calls| - 1], calls[|calls| - 1];
      ReaderSeesJoinedBytes(r, before);
      ReadCallIsSpread(ReadCalls(r, before), last);
      ReadConcat(r, MultipartParser.Flatten(before), MultipartParser.Spread(last));
    }
  }

  // ----- The printer -----

  /** The line that opens a part, its one header, and the empty line (`multipart_file_start`). */
  function FileStart(token: seq<byte>, filename: seq<byte>): (r: seq<byte>) {
    DASHES + token + CRLF + (DISPOSITION + [COLON] + [SPACE] + Disposition(filename) + CRLF) + CRLF
  }

  function Disposition(filename: seq<byte>): (r: seq<byte>) { VALUE_START + filename + [QUOTE] }

  /** The closing delimiter (`MULTIPART_END`). */
  function MultipartEnd(token: seq<byte>): (r: seq<byte>) { CRLF + DASHES + token + DASHES + CRLF + CRLF }

  /** The printed body has the size that was announced before printing it (`total_multipart_size`). */
  function Body(token: seq<byte>, filename: seq<byte>, content: seq<byte>): (r: seq<byte>)
    ensures |r| == |content| + |FileStart(token, filename)| + |MultipartEnd(token)|
  {
    FileStart(token, filename) + content + MultipartEnd(token)
  }

  /** What the server gives `set_boundary` for the token in the Content-Type header. */
  function Delimiter(token: seq<byte>): (d: seq<byte>) { CRLF + DASHES + token }

  // ----- The parser on the printed pieces -----

  lemma {:induction false} RunFirstLine(d: seq<byte>, n: nat)
    requires 2 <= |d| && n + 2 <= |d|
    ensures Run(d, Begin(), d[2..n + 2]) == Trace(Initial().(phase := FirstLine(n)), [])
    decreases n
  {
    if n == 0 {
      assert d[2..2] == [];
    } else {
      RunFirstLine(d, n - 1);
      hide Run;
      hide Then;
      assert d[2..n + 2] == d[2..n + 1] + [d[n + 1]];
      RunSnoc(d, Begin(), d[2..n + 1], d[n + 1]);
      ThenInFirstLine(d, Run(d, Begin(), d[2..n + 1]), d[n + 1]);
    }
  }

  lemma NameStep(d: seq<byte>, t: Trace, c: byte)
    requires 2 <= |d| && IsNameByte(c)
    requires (t.machine.phase.FieldStart? || t.machine.phase.Field?) && !t.machine.trail.Leaking?
    ensures Then(d, t, c) == Trace(t.machine.(phase := Field(NameLength(t.machine) + 1, NameHeld(t.machine) + [c])), t.log)
  {
    assert t.log + [] == t.log;
  }

  function NameLength(m: Machine): (n: nat) { if m.phase.Field? then m.phase.count else 0 }

  function NameHeld(m: Machine): (s: seq<byte>) { if m.phase.Field? then m.phase.held else [] }

  lemma {:induction false} RunName(d: seq<byte>, t: Trace, name: seq<byte>)
    requires 2 <= |d| && t.machine.phase == FieldStart && !t.machine.trail.Leaking? && name != []
    requires forall b :: b in name ==> IsNameByte(b)
    ensures Run(d, t, name) == Trace(t.machine.(phase := Field(|name|, name)), t.log)
    decreases |name|
  {
    hide Step;
    hide IsNameByte;
    hide Run;
    var u, c := name[..|name| - 1], name[|name| - 1];
    assert name == u + [c] && c in name;
    RunSnoc(d, t, u, c);
    if u == [] {
      RunEmpty(d, t);
    } else {
      assert forall b :: b in u ==> b in name;
      RunName(d, t, u);
    }
    NameStep(d, Run(d, t, u), c);
  }

  lemma ValueStep(d: seq<byte>, t: Trace, c: byte)
    requires 2 <= |d| && c != CR
    requires !t.machine.trail.Leaking? && (t.machine.phase.Value? || (t.machine.phase.ValueStart? && c != SPACE))
    ensures Then(d, t, c) == Trace(t.machine.(phase := Value), t.log + [ValueByte(c)])
  {
  }

  lemma {:induction false} RunValue(d: seq<byte>, t: Trace, value: seq<byte>)
    requires 2 <= |d| && t.machine.phase == ValueStart && !t.machine.trail.Leaking? && value != []
    requires value[0] != SPACE && CR !in value
    ensures Run(d, t, value) == Trace(t.machine.(phase := Value), t.log + ValueBytes(value))
    decreases |value|
  {
    hide Step;
    hide Run;
    var u, c := value[..|value| - 1], value[|value| - 1];
    assert value == u + [c] && c in value;
    RunSnoc(d, t, u, c);
    if u == [] {
      RunEmpty(d, t);
    } else {
      assert CR !in u;
      RunValue(d, t, u);
    }
    ValueStep(d, Run(d, t, u), c);
    assert ValueBytes(value) == ValueBytes(u) + [ValueByte(c)];
    assert t.log + ValueBytes(u) + [ValueByte(c)] == t.log + ValueBytes(value);
  }

  /** One header line, any name and any value that fit the format. */
  lemma RunHeader(d: seq<byte>, t: Trace, name: seq<byte>, value: seq<byte>)
    requires 2 <= |d| && t.machine.phase == FieldStart && !t.machine.trail.Leaking? && name != [] && value != []
    requires forall b :: b in name ==> IsNameByte(b)
    requires value[0] != SPACE && CR !in value
    ensures Run(d, t, name + [COLON] + [SPACE] + value + CRLF)
         == Trace(t.machine, t.log + FieldBytes(name) + ValueBytes(value) + [HeaderEnd])
  {
    hide IsNameByte;
    hide Run;
    hide Then;
    hide FieldBytes;
    hide ValueBytes;
    var s1 := name + [COLON];
    var s2 := s1 + [SPACE];
    var s3 := s2 + value;
    RunName(d, t, name);
    RunSnoc(d, t, name, COLON);
    RunSnoc(d, t, s1, SPACE);
    RunConcat(d, t, s2, value);
    HeaderMarks(d, t.machine, t.log, |name|, name, value);
    RunValue(d, Trace(t.machine.(phase := ValueStart), t.log + FieldBytes(name)), value);
    RunSnoc(d, t, s3, CR);
    RunSnoc(d, t, s3 + [CR], LF);
    assert s3 + CRLF == s3 + [CR] + [LF];
  }

  /** The four bytes that delimit a header's name and value. */
  lemma HeaderMarks(d: seq<byte>, m: Machine, log: seq<Event>, n: nat, held: seq<byte>, value: seq<byte>)
    requires 2 <= |d| && 0 < n && !m.trail.Leaking?
    ensures Then(d, Trace(m.(phase := Field(n, held)), log), COLON) == Trace(m.(phase := ValueStart), log + FieldBytes(held))
    ensures Then(d, Trace(m.(phase := ValueStart), log + FieldBytes(held)), SPACE)
         == Trace(m.(phase := ValueStart), log + FieldBytes(held))
    ensures Then(d, Trace(m.(phase := Value), log + FieldBytes(held) + ValueBytes(value)), CR)
         == Trace(m.(phase := ValueAlmostDone), log + FieldBytes(held) + ValueBytes(value) + [HeaderEnd])
    ensures Then(d, Trace(m.(phase := ValueAlmostDone), log + FieldBytes(held) + ValueBytes(value) + [HeaderEnd]), LF)
         == Trace(m.(phase := FieldStart), log + FieldBytes(held) + ValueBytes(value) + [HeaderEnd])
  {
    var l1 := log + FieldBytes(held);
    var l2 := l1 + ValueBytes(value) + [HeaderEnd];
    assert l1 + [] == l1 && l2 + [] == l2;
  }

  /** The delimiter is found right after content without it, because its first byte does not recur in it. */
  lemma RunContent(d: seq<byte>, t: Trace, content: seq<byte>)
    requires 2 <= |d| && t.machine.phase == Data(0)
    requires Free(d, content) && d[0] !in d[1..]
    ensures Run(d, t, content + d) == Trace(t.machine.(phase := Data(|d|)), t.log + DataBytes(content))
  {
    var k := ScanFree(d, t, content);
    var u := Run(d, t, content);
    RunConcat(d, t, content, d);
    FinishDelimiter(d, u, k, t.log, content, |d|);
    assert d[..|d|] == d;
  }

  /** From a held-back prefix of the delimiter, the delimiter itself starts a fresh candidate. */
  lemma {:induction false} FinishDelimiter(d: seq<byte>, u: Trace, k: nat, base: seq<Event>, content: seq<byte>, n: nat)
    requires 2 <= |d| && d[0] !in d[1..] && k < |d| && k <= |content| && 1 <= n <= |d|
    requires content[|content| - k..] == d[..k]
    requires u.machine.phase == Data(k) && u.log == base + DataBytes(content[..|content| - k])
    ensures Run(d, u, d[..n]) == Trace(u.machine.(phase := Data(n)), base + DataBytes(content))
    decreases n
  {
    hide Step;
    hide Run;
    RunSnoc(d, u, d[..n - 1], d[n - 1]);
    assert d[..n] == d[..n - 1] + [d[n - 1]];
    if n == 1 {
      assert d[..0] == [];
      RunEmpty(d, u);
      FreshCandidate(d, u, k);
      assert content == content[..|content| - k] + d[..k];
      assert DataBytes(content[..|content| - k]) + DataBytes(d[..k]) == DataBytes(content);
      assert base + DataBytes(content[..|content| - k]) + DataBytes(d[..k]) == base + DataBytes(content);
    } else {
      FinishDelimiter(d, u, k, base, content, n - 1);
      ThenInPart(d, Run(d, u, d[..n - 1]), d[n - 1]);
    }
  }

  lemma FreshCandidate(d: seq<byte>, u: Trace, k: nat)
    requires 2 <= |d| && d[0] !in d[1..] && k < |d| && u.machine.phase == Data(k)
    ensures Then(d, u, d[0]) == Trace(u.machine.(phase := Data(1)), u.log + DataBytes(d[..k]))
  {
    hide Step;
    ThenInPart(d, u, d[0]);
    if k == 0 {
      assert u.log + DataBytes(d[..0]) == u.log;
    } else {
      assert d[k] == d[1..][k - 1];
      ThenInPart(d, Trace(u.machine.(phase := Data(0)), u.log + DataBytes(d[..k])), d[0]);
    }
  }

  // ----- The round trip -----

  /** The events of a body with one part. */
  function OnePart(name: seq<byte>, value: seq<byte>, content: seq<byte>): (r: seq<Event>) {
    [PartBegin] + FieldBytes(name) + ValueBytes(value) + [HeaderEnd] + [HeadersEnd] + DataBytes(content) + [PartEnd, StreamEnd]
  }

  lemma RunFileStart(token: seq<byte>, filename: seq<byte>)
    requires CR !in token && CR !in filename
    ensures Run(Delimiter(token), Begin(), FileStart(token, filename))
         == Trace(Machine(DataStart(0), false, false, Straight), PartStart(filename))
  {
    hide Run;
    hide IsNameByte;
    var d := Delimiter(token);
    var value := Disposition(filename);
    var line := DASHES + token;
    assert d[2..] == line;
    RunFirstLine(d, |d| - 2);
    assert d[2..|d|] == line;
    RunSnoc(d, Begin(), line, CR);
    RunSnoc(d, Begin(), line + [CR], LF);
    assert line + CRLF == line + [CR] + [LF];
    var first := line + CRLF;
    var header := DISPOSITION + [COLON] + [SPACE] + value + CRLF;
    var t := Trace(Machine(FieldStart, false, false, Straight), [PartBegin]);
    assert Run(d, Begin(), first) == t;
    DispositionFits(filename);
    RunConcat(d, Begin(), first, header);
    RunHeader(d, t, DISPOSITION, value);
    RunSnoc(d, Begin(), first + header, CR);
    RunSnoc(d, Begin(), first + header + [CR], LF);
    assert FileStart(token, filename) == first + header + [CR] + [LF];
    var log := t.log + FieldBytes(DISPOSITION) + ValueBytes(value) + [HeaderEnd];
    assert log + [] == log;
  }

  lemma DispositionFits(filename: seq<byte>)
    requires CR !in filename
    ensures DISPOSITION != [] && forall b :: b in DISPOSITION ==> IsNameByte(b)
    ensures Disposition(filename) != [] && Disposition(filename)[0] != SPACE && CR !in Disposition(filename)
  {
  }

  /** The events up to the start of the part's data. */
  function PartStart(filename: seq<byte>): (es: seq<Event>) {
    [PartBegin] + FieldBytes(DISPOSITION) + ValueBytes(Disposition(filename)) + [HeaderEnd] + [HeadersEnd]
  }

  /** The parser after the printed part head. */
  function InPrintedPart(filename: seq<byte>): (t: Trace) {
    Trace(Machine(Data(0), false, false, Straight), PartStart(filename))
  }

  /** The printed body is read as its part head and then, from the data state, the rest. */
  lemma RunPrinted(token: seq<byte>, filename: seq<byte>, s: seq<byte>)
    requires CR !in token && CR !in filename && s != []
    ensures Run(Delimiter(token), Begin(), FileStart(token, filename) + s)
         == Run(Delimiter(token), InPrintedPart(filename), s)
  {
    hide Run;
    var d := Delimiter(token);
    RunFileStart(token, filename);
    var t, t' := Run(d, Begin(), FileStart(token, filename)), InPrintedPart(filename);
    RunConcat(d, Begin(), FileStart(token, filename), s);
    RunCons(d, t, s);
    RunCons(d, t', s);
    assert Then(d, t, s[0]) == Then(d, t', s[0]);
  }

  /** The delimiters that the server builds start with CR, which does not recur in them. */
  lemma DelimiterStart(token: seq<byte>)
    requires CR !in token
    ensures var d := Delimiter(token); 2 <= |d| && d[0] == CR && d[0] !in d[1..]
  {
    assert Delimiter(token)[1..] == [LF] + DASHES + token;
  }

  /** The first "--" after a delimiter ends the body with the content up to that delimiter. */
  lemma BodyEndsAt(token: seq<byte>, filename: seq<byte>, content: seq<byte>, j: nat)
    requires CR !in token && CR !in filename && j <= |content|
    requires var d := Delimiter(token); var s := content + d + DASHES; CleanBelow(d, s, j) && OccursAt(d + DASHES, s, j)
    ensures var u := Run(Delimiter(token), Begin(), Body(token, filename, content));
            && u.machine.phase == Finished && Good(u.machine)
            && u.log == OnePart(DISPOSITION, Disposition(filename), content[..j])
  {
    hide Run;
    var d := Delimiter(token);
    var s, end := content + d + DASHES, CRLF + CRLF;
    DelimiterStart(token);
    EndTried(d, InPrintedPart(filename), s, j);
    assert s[..j] == content[..j];
    assert Body(token, filename, content) == FileStart(token, filename) + (s + end);
    RunPrinted(token, filename, s + end);
    RunConcat(d, InPrintedPart(filename), s, end);
    FinishedStays(d, Run(d, InPrintedPart(filename), s), end);
  }

  /** A CR after an earlier delimiter: under any cutting another part begins before the stream ends, if it ends. */
  lemma BodyGoesOn(token: seq<byte>, filename: seq<byte>, content: seq<byte>, j: nat, cuts: seq<seq<byte>>)
    requires CR !in token && CR !in filename && j < |content| && Join(cuts) == Body(token, filename, content)
    requires var d := Delimiter(token); var s := content + d + DASHES; CleanBelow(d, s, j) && OccursAt(d + [CR], s, j)
    ensures Stale(Delimiter(token), PartStart(filename) + DataBytes(content[..j]), FeedAll(Delimiter(token), Begin(), cuts))
  {
    hide Run;
    hide FeedAll;
    hide Stale;
    var d := Delimiter(token);
    var s, start := content + d + DASHES, FileStart(token, filename);
    DelimiterStart(token);
    PartTried(d, InPrintedPart(filename), s, j);
    var k := j + |d| + 1;
    assert s[..j] == content[..j];
    RunPrinted(token, filename, s[..k]);
    assert Body(token, filename, content) == start + (s + (CRLF + CRLF));
    assert Join(cuts)[..|start| + k] == start + s[..k];
    StaleFeedAll(d, PartStart(filename) + DataBytes(content[..j]), Begin(), cuts, |start| + k);
  }

  // ----- What the reader makes of it -----

  /** The reader's user is given a part at the end of every header block, and no part is taken back. */
  lemma {:induction false} PartsGrow(r: Reader, es: seq<Event>)
    ensures |ReadAll(r, es).parts| >= |r.parts| + if HeadersEnd in es then 1 else 0
    decreases |es|
  {
    if es != [] {
      PartsGrow(r, es[..|es| - 1]);
      assert es == es[..|es| - 1] + [es[|es| - 1]];
    }
  }

  lemma TwoParts(base: seq<Event>, log: seq<Event>, actual: seq<Event>)
    requires HeadersEnd in base && Logged(base, log, HeadersEnd) && MultipartParser.Like(log, actual)
    ensures |ReadAll(NewReader(), actual).parts| >= 2
  {
    var n := |base|;
    var j :| 0 <= j < n && base[j] == HeadersEnd;
    var k :| 0 <= k < |log| - n && log[n..][k] == HeadersEnd;
    assert actual[..n][j] == HeadersEnd && actual[n..][k] == HeadersEnd;
    assert actual == actual[..n] + actual[n..];
    ReadConcat(NewReader(), actual[..n], actual[n..]);
    PartsGrow(NewReader(), actual[..n]);
    PartsGrow(ReadAll(NewReader(), actual[..n]), actual[n..]);
  }

  /** What the reader's user gets: one part, with exactly the header and the content that were printed. */
  lemma ReadOnePart(name: seq<byte>, value: seq<byte>, content: seq<byte>)
    ensures ReadAll(NewReader(), OnePart(name, value, content))
         == Reader([], [], [], [Part([Header(name, value)], content, true)], true)
  {
    var r0 := NewReader();
    ReadHeader(name, value);
    var e3 := [PartBegin] + FieldBytes(name) + ValueBytes(value) + [HeaderEnd] + [HeadersEnd];
    var p := Part([Header(name, value)], [], false);
    hide ReadAll;
    ReadConcat(r0, e3, DataBytes(content));
    ReadData(ReadAll(r0, e3), [], p, content);
    assert [] + content == content;
    var e4 := e3 + DataBytes(content);
    ReadSnoc(r0, e4, PartEnd);
    ReadSnoc(r0, e4 + [PartEnd], StreamEnd);
    assert e4 + [PartEnd] + [StreamEnd] == OnePart(name, value, content);
  }

  lemma ReadHeader(name: seq<byte>, value: seq<byte>)
    ensures ReadAll(NewReader(), [PartBegin] + FieldBytes(name) + ValueBytes(value) + [HeaderEnd] + [HeadersEnd])
         == Reader([], [], [], [] + [Part([Header(name, value)], [], false)], false)
  {
    var r0 := NewReader();
    var e := [PartBegin] + FieldBytes(name) + ValueBytes(value);
    ReadNameAndValue(name, value);
    hide ReadAll;
    hide FieldBytes;
    hide ValueBytes;
    hide OnLast;
    ReadSnoc(r0, e, HeaderEnd);
    ReadSnoc(r0, e + [HeaderEnd], HeadersEnd);
    assert [] + [Header(name, value)] == [Header(name, value)];
  }

  lemma ReadNameAndValue(name: seq<byte>, value: seq<byte>)
    ensures ReadAll(NewReader(), [PartBegin] + FieldBytes(name) + ValueBytes(value)) == Reader(name, value, [], [], false)
  {
    var r0 := NewReader();
    var e := [PartBegin] + FieldBytes(name);
    ReadOneEvent(r0, PartBegin);
    hide ReadAll;
    hide FieldBytes;
    hide ValueBytes;
    ReadConcat(r0, [PartBegin], FieldBytes(name));
    ReadName(r0, name);
    assert [] + name == name && [] + value == value;
    ReadConcat(r0, e, ValueBytes(value));
    ReadValue(r0.(name := name), value);
  }

  /** What the reader's user should be given for a printed body: one part with the printed header and content. */
  function Printed(filename: seq<byte>, content: seq<byte>): (r: Reader) {
    Reader([], [], [], [Part([Header(DISPOSITION, Disposition(filename))], content, true)], true)
  }

  /** The parser stops in its end state and the reader's user is given the printed part. */
  ghost predicate Recovers(t: Trace, filename: seq<byte>, content: seq<byte>) {
    t.machine.phase == Finished && ReadAll(NewReader(), t.log) == Printed(filename, content)
  }

  /**
   The multipart round trip, exactly: however the printed body is cut, the parser stops in its end state and the
   reader's user is given one part with the printed header and content if and only if neither the delimiter followed
   by CR nor the delimiter followed by "--" starts in the content.
   */
  lemma RoundTrip(token: seq<byte>, filename: seq<byte>, content: seq<byte>, cuts: seq<seq<byte>>)
    requires CR !in token && CR !in filename && Join(cuts) == Body(token, filename, content)
    ensures Recovers(FeedAll(Delimiter(token), Begin(), cuts), filename, content) <==> Clean(Delimiter(token), content)
  {
    var d := Delimiter(token);
    if Clean(d, content) {
      CleanIsRecovered(token, filename, content, cuts);
    } else {
      UncleanIsNotRecovered(token, filename, content, cuts);
    }
  }

  lemma CleanIsRecovered(token: seq<byte>, filename: seq<byte>, content: seq<byte>, cuts: seq<seq<byte>>)
    requires CR !in token && CR !in filename && Join(cuts) == Body(token, filename, content)
    requires Clean(Delimiter(token), content)
    ensures Recovers(FeedAll(Delimiter(token), Begin(), cuts), filename, content)
    ensures Leftover !in FeedAll(Delimiter(token), Begin(), cuts).log
  {
    hide FeedAll;
    hide Run;
    var d := Delimiter(token);
    ClosingDelimiter(d, content);
    BodyEndsAt(token, filename, content, |content|);
    assert content[..|content|] == content;
    FeedAllIsRun(d, Begin(), cuts);
    ReadOnePart(DISPOSITION, Disposition(filename), content);
  }

  lemma ClosingDelimiter(d: seq<byte>, content: seq<byte>)
    ensures OccursAt(d + DASHES, content + d + DASHES, |content|)
  {
    assert (content + d + DASHES)[|content|..|content| + |d + DASHES|] == d + DASHES;
  }

  lemma UncleanIsNotRecovered(token: seq<byte>, filename: seq<byte>, content: seq<byte>, cuts: seq<seq<byte>>)
    requires CR !in token && CR !in filename && Join(cuts) == Body(token, filename, content)
    requires !Clean(Delimiter(token), content)
    ensures !Recovers(FeedAll(Delimiter(token), Begin(), cuts), filename, content)
  {
    hide FeedAll;
    var u := FeedAll(Delimiter(token), Begin(), cuts);
    MultipartParser.LikeItself(u.log);
    if u.machine.phase == Finished { UncleanReadsOtherwise(token, filename, content, cuts, u.log); }
  }

  /** Whatever the callbacks got from places of the lookbehind buffer that had not been written. */
  lemma UncleanReadsOtherwise(
    token: seq<byte>, filename: seq<byte>, content: seq<byte>, cuts: seq<seq<byte>>, actual: seq<Event>)
    requires CR !in token && CR !in filename && Join(cuts) == Body(token, filename, content)
    requires !Clean(Delimiter(token), content)
    requires var u := FeedAll(Delimiter(token), Begin(), cuts);
             u.machine.phase == Finished && MultipartParser.Like(u.log, actual)
    ensures ReadAll(NewReader(), actual) != Printed(filename, content)
  {
    hide FeedAll;
    hide Run;
    var d := Delimiter(token);
    var u := FeedAll(d, Begin(), cuts);
    var j := FirstInterrupt(d, content + d + DASHES, |content|);
    if OccursAt(d + DASHES, content + d + DASHES, j) {
      BodyEndsAt(token, filename, content, j);
      FeedAllIsRun(d, Begin(), cuts);
      MultipartParser.LikeIsSame(u.log, actual);
      ReadOnePart(DISPOSITION, Disposition(filename), content[..j]);
      assert |content[..j]| < |content|;
    } else {
      BodyGoesOn(token, filename, content, j, cuts);
      var base := PartStart(filename) + DataBytes(content[..j]);
      assert base[|PartStart(filename)| - 1] == HeadersEnd;
      TwoParts(base, u.log, actual);
    }
  }

  /** Content in which the delimiter does not occur is always recovered. */
  lemma FreeContentIsRecovered(token: seq<byte>, filename: seq<byte>, content: seq<byte>, cuts: seq<seq<byte>>)
    requires CR !in token && CR !in filename && Join(cuts) == Body(token, filename, content)
    requires Free(Delimiter(token), content)
    ensures Recovers(FeedAll(Delimiter(token), Begin(), cuts), filename, content)
  {
    DelimiterStart(token);
    FreeIsClean(Delimiter(token), content);
    RoundTrip(token, filename, content, cuts);
  }

  /**
   The server's end of an upload: the parser is given the printed body in pieces, and its callbacks drive the reader.
   The parser stops in its end state with the reader's user given the printed part if and only if the content is clean.
   */
  method ReadUpload(token: seq<byte>, filename: seq<byte>, ghost content: seq<byte>, cuts: seq<seq<byte>>)
    returns (ended: bool, reader: Reader)
    requires CR !in token && CR !in filename && Join(cuts) == Body(token, filename, content)
    ensures ended && reader == Printed(filename, content) <==> Clean(Delimiter(token), content)
  {
    hide FeedAll;
    hide MultipartParser.Flatten;
    hide MultipartParser.Like;
    hide MultipartParser.Parser.Valid;
    DelimiterStart(token);
    var parser := new MultipartParser.Parser(Delimiter(token));
    var thrown := parser.FeedStream(cuts);
    reader := ReadCalls(NewReader(), parser.calls);
    ended := parser.state == MultipartParser.End;
    ReaderSeesJoinedBytes(NewReader(), parser.calls);
    parser.EndIsFinished();
    RoundTrip(token, filename, content, cuts);
    if Clean(Delimiter(token), content) {
      CleanIsRecovered(token, filename, content, cuts);
    } else if ended {
      UncleanReadsOtherwise(token, filename, content, cuts, MultipartParser.Flatten(parser.calls));
    }
  }

  /** A stream whose events depend on the cuts: with boundary "b", the bytes --b CR LF A CR. */
  lemma ColonMissingExample()
    ensures !CutInvariant(Delimiter([98]), DASHES + [98] + CRLF + [65, CR])
  {
    hide Run;
    hide CutInvariant;
    var d, line := Delimiter([98]), DASHES + [98];
    var s := line + CRLF + [65, CR];
    RunFirstLine(d, 3);
    assert d[2..5] == line;
    RunSnoc(d, Begin(), line, CR);
    RunSnoc(d, Begin(), line + [CR], LF);
    RunSnoc(d, Begin(), line + [CR] + [LF], 65);
    assert s[..6] == line + [CR] + [LF] + [65] && s[..7] == s;
    var t := Run(d, Begin(), line + [CR] + [LF]);
    assert t.machine.phase == FieldStart;
    ThenInName(d, t, 65);
    hide Step;
    ColonMissingBreaksCuts(d, s, 6);
  }

  /** A refused stream whose events depend on the cuts: --b CR LF A and then a byte that no name may hold. */
  lemma RefusedNameExample()
    ensures !SameEvents(Delimiter([98]), DASHES + [98] + CRLF + [65, 33])
  {
    hide Run;
    hide SameEvents;
    var d, line := Delimiter([98]), DASHES + [98];
    var s := line + CRLF + [65, 33];
    RunFirstLine(d, 3);
    assert d[2..5] == line;
    RunSnoc(d, Begin(), line, CR);
    RunSnoc(d, Begin(), line + [CR], LF);
    RunSnoc(d, Begin(), line + [CR] + [LF], 65);
    RunSnoc(d, Begin(), line + [CR] + [LF] + [65], 33);
    assert s[..6] == line + [CR] + [LF] + [65] && s[..7] == line + [CR] + [LF] + [65] + [33];
    var t := Run(d, Begin(), line + [CR] + [LF]);
    assert t.machine.phase == FieldStart;
    ThenInName(d, t, 65);
    ThenInName(d, Run(d, Begin(), s[..6]), 33);
    hide Then;
    RefusedEventsIff(d, s, 6);
  }

  // ----- Which delimiters the matcher always finds -----

  /** The matcher finds `d` right after any content that does not hold it. */
  ghost predicate FindsDelimiter(d: seq<byte>, content: seq<byte>)
    requires 2 <= |d|
  {
    Run(d, InData(), content + d) == Trace(Machine(Data(|d|), false, false, Straight), DataBytes(content))
  }

  /** A prefix of the delimiter is held back whole. */
  lemma {:induction false} HoldPrefix(d: seq<byte>, n: nat)
    requires 2 <= |d| && n <= |d|
    ensures Run(d, InData(), d[..n]) == Trace(Machine(Data(n), false, false, Straight), [])
    decreases n
  {
    hide Run;
    hide Then;
    if n == 0 {
      assert d[..0] == [];
      RunEmpty(d, InData());
    } else {
      HoldPrefix(d, n - 1);
      assert d[..n] == d[..n - 1] + [d[n - 1]];
      RunSnoc(d, InData(), d[..n - 1], d[n - 1]);
      ExtendHeld(d, Run(d, InData(), d[..n - 1]), d[n - 1]);
    }
  }

  /** Nothing has been handed over, or more than `j` events have, or the first was not data. */
  ghost predicate Overran(d: seq<byte>, t: Trace, n: nat, j: nat) {
    || (t.log == [] && InPart(d, t.machine) && |Held(d, t.machine)| == n)
    || |t.log| > j
    || (t.log != [] && !t.log[0].DataByte?)
  }

  lemma {:induction false} CandidateKept(d: seq<byte>, s: seq<byte>, j: nat, n: nat)
    requires 2 <= |d| && j < n <= |s| && j < |d|
    requires s[..j + 1] == d[..j + 1]
    ensures Overran(d, Run(d, InData(), s[..n]), n, j)
    decreases n
  {
    HoldPrefix(d, j + 1);
    hide Run;
    hide Then;
    if n > j + 1 {
      CandidateKept(d, s, j, n - 1);
      assert s[..n] == s[..n - 1] + [s[n - 1]];
      RunSnoc(d, InData(), s[..n - 1], s[n - 1]);
      OverranThen(d, Run(d, InData(), s[..n - 1]), s[n - 1], n - 1, j);
    }
  }

  lemma OverranThen(d: seq<byte>, t: Trace, c: byte, n: nat, j: nat)
    requires 2 <= |d| && j < n && Overran(d, t, n, j)
    ensures Overran(d, Then(d, t, c), n + 1, j)
  {
    if t.log == [] {
      ThenInPart(d, t, c);
    }
  }

  /**
   The matcher looks again only at the byte that broke a candidate, so it finds the delimiter after every content
   without it if and only if the delimiter's first byte does not recur in it. Delimiters that the server builds
   start with CR, and no boundary token holds one.
   */
  lemma FindsDelimiterIffFirstByteUnique(d: seq<byte>)
    requires 2 <= |d|
    ensures (forall content: seq<byte> :: Free(d, content) ==> FindsDelimiter(d, content)) <==> d[0] !in d[1..]
  {
    if d[0] !in d[1..] {
      forall content: seq<byte> | Free(d, content) ensures FindsDelimiter(d, content) {
        RunContent(d, InData(), content);
        assert [] + DataBytes(content) == DataBytes(content);
      }
    } else {
      var k :| 0 <= k < |d[1..]| && d[1..][k] == d[0];
      var j := k + 1;
      var content := d[..j];
      var s := content + d;
      assert s[..j + 1] == d[..j + 1];
      assert s[..|s|] == s;
      CandidateKept(d, s, j, |s|);
      assert Free(d, content);
      assert !FindsDelimiter(d, content);
    }
  }
}
