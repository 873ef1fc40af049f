/**
 Forms of several parts: what the parser and the reader make of a printed list of parts, under any cuts.
 */
module MultipartForm {
  import opened Bytes
  import opened MultipartMachine
  import opened MultipartContent
  import opened MultipartParts
  import opened MultipartRoundTrip
  import MultipartParser

  // ----- The printed form (section 5.1 of RFC 2046) -----

  /** A name of letters and hyphens, and a value that is one line without leading spaces. */
  ghost predicate ProperHeader(h: Header) {
    && h.name != [] && (forall b :: b in h.name ==> IsNameByte(b))
    && CR !in h.value && (h.value != [] ==> h.value[0] != SPACE)
  }

  ghost predicate ProperPart(p: Part) {
    p.closed && forall k :: 0 <= k < |p.headers| ==> ProperHeader(p.headers[k])
  }

  function PrintHeader(h: Header): (s: seq<byte>) { h.name + [COLON] + [SPACE] + h.value + CRLF }

  /** The header lines and the empty line after them. */
  function PrintHeaders(hs: seq<Header>): (s: seq<byte>) {
    if hs == [] then CRLF else PrintHeader(hs[0]) + PrintHeaders(hs[1..])
  }

  /** The parts with the delimiters between them, and the closing delimiter. */
  function PrintParts(d: seq<byte>, ps: seq<Part>): (s: seq<byte>)
    requires ps != []
  {
    PrintHeaders(ps[0].headers) + (ps[0].data + d + if |ps| == 1 then DASHES else CRLF + PrintParts(d, ps[1..]))
  }

  /** A whole form, and whatever comes after its closing delimiter. */
  function Form(token: seq<byte>, ps: seq<Part>, after: seq<byte>): (s: seq<byte>)
    requires ps != []
  {
    DASHES + token + CRLF + (PrintParts(Delimiter(token), ps) + after)
  }

  // ----- What should be seen of it -----

  function HeaderEvents(hs: seq<Header>): (es: seq<Event>) {
    if hs == [] then [HeadersEnd] else FieldBytes(hs[0].name) + ValueBytes(hs[0].value) + [HeaderEnd] + HeaderEvents(hs[1..])
  }

  function PartsEvents(ps: seq<Part>): (es: seq<Event>)
    requires ps != []
  {
    HeaderEvents(ps[0].headers) + DataBytes(ps[0].data)
    + if |ps| == 1 then [PartEnd, StreamEnd] else [PartEnd, PartBegin] + PartsEvents(ps[1..])
  }

  function FormEvents(ps: seq<Part>): (es: seq<Event>)
    requires ps != []
  {
    [PartBegin] + PartsEvents(ps)
  }

  /** Every content passes before the delimiter of the next part, and the last is clean. */
  ghost predicate Whole(d: seq<byte>, ps: seq<Part>)
    requires ps != []
  {
    if |ps| == 1 then Clean(d, ps[0].data) else Passes(d, ps[0].data) && Whole(d, ps[1..])
  }

  // ----- Headers -----

  lemma EmptyValue(d: seq<byte>, t: Trace)
    requires 2 <= |d| && t.machine.phase == ValueStart && !t.machine.trail.Leaking?
    ensures Then(d, Then(d, Then(d, t, SPACE), CR), LF) == Trace(t.machine.(phase := FieldStart), t.log + [HeaderEnd])
  {
    assert t.log + [] == t.log;
    assert t.log + [HeaderEnd] + [] == t.log + [HeaderEnd];
  }

  /** One header line. */
  lemma RunAnyHeader(d: seq<byte>, t: Trace, h: Header)
    requires 2 <= |d| && t.machine.phase == FieldStart && !t.machine.trail.Leaking? && ProperHeader(h)
    ensures Run(d, t, PrintHeader(h)) == Trace(t.machine, t.log + FieldBytes(h.name) + ValueBytes(h.value) + [HeaderEnd])
  {
    hide Run;
    hide Then;
    hide IsNameByte;
    if h.value != [] {
      RunHeader(d, t, h.name, h.value);
    } else {
      var s := h.name + [COLON];
      RunName(d, t, h.name);
      RunSnoc(d, t, h.name, COLON);
      HeaderMarks(d, t.machine, t.log, |h.name|, h.name, []);
      RunSnoc(d, t, s, SPACE);
      RunSnoc(d, t, s + [SPACE], CR);
      RunSnoc(d, t, s + [SPACE] + [CR], LF);
      EmptyValue(d, Run(d, t, s));
      assert PrintHeader(h) == s + [SPACE] + [CR] + [LF];
      assert t.log + FieldBytes(h.name) + ValueBytes([]) == t.log + FieldBytes(h.name);
    }
  }

  lemma EndOfHead(d: seq<byte>, t: Trace)
    requires 2 <= |d| && t.machine.phase == FieldStart && t.machine.trail == Straight
    ensures Run(d, t, CRLF) == Trace(t.machine.(phase := DataStart(0)), t.log + [HeadersEnd])
  {
    hide Then;
    RunEmpty(d, t);
    hide Run;
    RunSnoc(d, t, [CR], LF);
    RunSnoc(d, t, [], CR);
    assert [] + [CR] == [CR] && [CR] + [LF] == CRLF;
    ThenInName(d, t, CR);
    ThenAtLineEnd(d, Then(d, t, CR), LF);
  }

  /** A whole header block. */
  lemma {:induction false} RunHeaders(d: seq<byte>, t: Trace, hs: seq<Header>)
    requires 2 <= |d| && t.machine.phase == FieldStart && t.machine.trail == Straight
    requires forall k :: 0 <= k < |hs| ==> ProperHeader(hs[k])
    ensures Run(d, t, PrintHeaders(hs)) == Trace(t.machine.(phase := DataStart(0)), t.log + HeaderEvents(hs))
    decreases |hs|
  {
    hide Run;
    hide ProperHeader;
    if hs == [] {
      EndOfHead(d, t);
    } else {
      var h := hs[0];
      RunAnyHeader(d, t, h);
      RunConcat(d, t, PrintHeader(h), PrintHeaders(hs[1..]));
      var u := Run(d, t, PrintHeader(h));
      RunHeaders(d, u, hs[1..]);
      var es := FieldBytes(h.name) + ValueBytes(h.value) + [HeaderEnd];
      assert u.log == t.log + es;
      assert u.log + HeaderEvents(hs[1..]) == t.log + (es + HeaderEvents(hs[1..]));
    }
  }

  /** A part's head leads to its data. */
  lemma RunHead(d: seq<byte>, t: Trace, hs: seq<Header>, s: seq<byte>)
    requires 2 <= |d| && t.machine.phase == FieldStart && t.machine.trail == Straight && s != []
    requires forall k :: 0 <= k < |hs| ==> ProperHeader(hs[k])
    ensures Run(d, t, PrintHeaders(hs) + s) == Run(d, InPartOf(t, hs), s)
  {
    hide Run;
    hide ProperHeader;
    RunHeaders(d, t, hs);
    var u := Run(d, t, PrintHeaders(hs));
    RunConcat(d, t, PrintHeaders(hs), s);
    RunCons(d, u, s);
    ThenAtDataStart(d, u, s[0]);
    RunCons(d, InPartOf(t, hs), s);
  }

  /** The parser in the data of a part with these headers. */
  function InPartOf(t: Trace, hs: seq<Header>): (u: Trace) {
    Trace(t.machine.(phase := Data(0)), t.log + HeaderEvents(hs))
  }

  // ----- Whole forms are read -----

  /** The end of a form: the closing delimiter and whatever follows. */
  lemma RunLast(d: seq<byte>, t: Trace, p: Part, after: seq<byte>)
    requires IsDelimiter(d) && t.machine.phase == FieldStart && t.machine.trail == Straight && !t.machine.partFlag
    requires ProperPart(p) && Clean(d, p.data)
    ensures var u := Run(d, t, PrintParts(d, [p]) + after);
            u.machine.phase == Finished && u.machine.trail == Straight && u.log == t.log + PartsEvents([p])
  {
    hide Run;
    var s := p.data + d + DASHES;
    var t' := InPartOf(t, p.headers);
    RunHead(d, t, p.headers, s + after);
    assert PrintParts(d, [p]) + after == PrintHeaders(p.headers) + (s + after);
    ClosingDelimiter(d, p.data);
    EndTried(d, t', s, |p.data|);
    assert s[..|p.data|] == p.data;
    RunConcat(d, t', s, after);
    FinishedStays(d, Run(d, t', s), after);
    assert t.log + HeaderEvents(p.headers) + DataBytes(p.data) + [PartEnd, StreamEnd]
        == t.log + (HeaderEvents(p.headers) + DataBytes(p.data) + [PartEnd, StreamEnd]);
  }

  /** A part that another one follows. */
  lemma RunNext(d: seq<byte>, t: Trace, p: Part)
    requires IsDelimiter(d) && t.machine.phase == FieldStart && t.machine.trail == Straight && !t.machine.partFlag
    requires ProperPart(p) && Passes(d, p.data)
    ensures var u := Run(d, t, PrintHeaders(p.headers) + (p.data + d + CRLF));
            && u.machine.phase == FieldStart && u.machine.trail == Straight && !u.machine.partFlag
            && u.log == t.log + (HeaderEvents(p.headers) + DataBytes(p.data) + [PartEnd, PartBegin])
  {
    hide Run;
    var s := p.data + d + CRLF;
    RunHead(d, t, p.headers, s);
    PassesThenNext(d, InPartOf(t, p.headers), p.data);
    assert t.log + HeaderEvents(p.headers) + DataBytes(p.data) + [PartEnd, PartBegin]
        == t.log + (HeaderEvents(p.headers) + DataBytes(p.data) + [PartEnd, PartBegin]);
  }

  ghost predicate AllProper(ps: seq<Part>) { forall k :: 0 <= k < |ps| ==> ProperPart(ps[k]) }

  lemma {:induction false} RunParts(d: seq<byte>, t: Trace, ps: seq<Part>, after: seq<byte>)
    requires IsDelimiter(d) && t.machine.phase == FieldStart && t.machine.trail == Straight && !t.machine.partFlag
    requires ps != [] && AllProper(ps) && Whole(d, ps)
    ensures var u := Run(d, t, PrintParts(d, ps) + after);
            u.machine.phase == Finished && u.machine.trail == Straight && u.log == t.log + PartsEvents(ps)
    decreases |ps|
  {
    hide Run;
    hide ProperPart;
    hide Clean;
    hide Passes;
    var p := ps[0];
    if |ps| == 1 {
      assert ps == [p];
      RunLast(d, t, p, after);
    } else {
      var first, more := PrintHeaders(p.headers) + (p.data + d + CRLF), PrintParts(d, ps[1..]) + after;
      RunNext(d, t, p);
      PartsAre(d, ps);
      assert ps[1..] != [] && AllProper(ps[1..]) && Whole(d, ps[1..]);
      hide *;
      assert first + PrintParts(d, ps[1..]) + after == first + more;
      RunConcat(d, t, first, more);
      RunParts(d, Run(d, t, first), ps[1..], after);
      var es := HeaderEvents(p.headers) + DataBytes(p.data) + [PartEnd, PartBegin];
      assert t.log + es + PartsEvents(ps[1..]) == t.log + (es + PartsEvents(ps[1..]));
    }
  }

  /** The parser after the first line. */
  function Opened(): (t: Trace) { Trace(Machine(FieldStart, false, false, Straight), [PartBegin]) }

  lemma ServerDelimiter(token: seq<byte>)
    requires CR !in token
    ensures IsDelimiter(Delimiter(token))
  {
    DelimiterStart(token);
  }

  lemma RunOpening(token: seq<byte>, s: seq<byte>)
    requires CR !in token
    ensures Run(Delimiter(token), Begin(), DASHES + token + CRLF + s) == Run(Delimiter(token), Opened(), s)
  {
    hide Run;
    var d, line := Delimiter(token), DASHES + token;
    assert d[2..|d|] == line;
    RunFirstLine(d, |d| - 2);
    RunSnoc(d, Begin(), line, CR);
    RunSnoc(d, Begin(), line + [CR], LF);
    assert line + CRLF == line + [CR] + [LF];
    assert Run(d, Begin(), line + CRLF) == Opened();
    RunConcat(d, Begin(), line + CRLF, s);
  }

  /** A form of whole parts, under any cuts. */
  lemma WholeIsSeen(token: seq<byte>, ps: seq<Part>, after: seq<byte>, cuts: seq<seq<byte>>)
    requires CR !in token && ps != [] && AllProper(ps) && Join(cuts) == Form(token, ps, after)
    requires Whole(Delimiter(token), ps)
    ensures var u := FeedAll(Delimiter(token), Begin(), cuts); u.machine.phase == Finished && u.log == FormEvents(ps)
  {
    hide Run;
    hide FeedAll;
    var d := Delimiter(token);
    ServerDelimiter(token);
    var s := PrintParts(d, ps) + after;
    RunOpening(token, s);
    RunParts(d, Opened(), ps, after);
    FeedAllIsRun(d, Begin(), cuts);
    AgreeMeans(FeedAll(d, Begin(), cuts), Run(d, Begin(), Join(cuts)));
  }

  // ----- What the reader makes of the events -----

  /** A reader that has been given these parts. */
  function Given(parts: seq<Part>): (r: Reader) { Reader([], [], [], parts, false) }

  lemma {:induction false} ReadHeaders(r: Reader, hs: seq<Header>)
    requires r.name == [] && r.value == []
    ensures ReadAll(r, HeaderEvents(hs)) == r.(headers := [], parts := r.parts + [Part(r.headers + hs, [], false)])
    decreases |hs|
  {
    if hs == [] {
      ReadOneEvent(r, HeadersEnd);
      assert r.headers + hs == r.headers;
    } else {
      var h := hs[0];
      var es := FieldBytes(h.name) + ValueBytes(h.value) + [HeaderEnd];
      ReadOneHeader(r, h);
      ReadConcat(r, es, HeaderEvents(hs[1..]));
      var r' := r.(headers := r.headers + [h]);
      ReadHeaders(r', hs[1..]);
      assert r.headers + [h] + hs[1..] == r.headers + hs;
    }
  }

  lemma ReadOneHeader(r: Reader, h: Header)
    requires r.name == [] && r.value == []
    ensures ReadAll(r, FieldBytes(h.name) + ValueBytes(h.value) + [HeaderEnd]) == r.(headers := r.headers + [h])
  {
    hide ReadAll;
    ReadName(r, h.name);
    ReadConcat(r, FieldBytes(h.name), ValueBytes(h.value));
    ReadValue(r.(name := h.name), h.value);
    ReadSnoc(r, FieldBytes(h.name) + ValueBytes(h.value), HeaderEnd);
    assert [] + h.name == h.name && [] + h.value == h.value && h == Header(h.name, h.value);
  }

  /** A part whose data ended, and the event after it. */
  lemma ReadPart(done: seq<Part>, hs: seq<Header>, data: seq<byte>, last: Event)
    requires last == PartBegin || last == StreamEnd
    ensures ReadAll(Given(done), HeaderEvents(hs) + DataBytes(data) + [PartEnd, last])
         == Given(done + [Part(hs, data, true)]).(ended := last == StreamEnd)
  {
    var es := HeaderEvents(hs) + DataBytes(data);
    ReadOpen(done, hs, data);
    hide ReadAll;
    ReadSnoc(Given(done), es, PartEnd);
    ReadSnoc(Given(done), es + [PartEnd], last);
    assert es + [PartEnd, last] == es + [PartEnd] + [last];
    var ps := done + [Part(hs, data, false)];
    assert ps[..|ps| - 1] == done;
  }

  lemma ReadOpen(done: seq<Part>, hs: seq<Header>, data: seq<byte>)
    ensures ReadAll(Given(done), HeaderEvents(hs) + DataBytes(data)) == Given(done + [Part(hs, data, false)])
  {
    hide ReadAll;
    assert [] + hs == hs && [] + data == data;
    ReadHeaders(Given(done), hs);
    ReadConcat(Given(done), HeaderEvents(hs), DataBytes(data));
    ReadData(ReadAll(Given(done), HeaderEvents(hs)), done, Part(hs, [], false), data);
  }

  /** The events of whole parts give the reader's user those parts. */
  lemma {:induction false} ReadParts(done: seq<Part>, ps: seq<Part>)
    requires ps != [] && forall k :: 0 <= k < |ps| ==> ps[k].closed
    ensures ReadAll(Given(done), PartsEvents(ps)) == Given(done + ps).(ended := true)
    decreases |ps|
  {
    hide ReadAll;
    hide Read;
    var p := ps[0];
    assert p == Part(p.headers, p.data, true);
    if |ps| == 1 {
      assert ps == [p];
      ReadPart(done, p.headers, p.data, StreamEnd);
    } else {
      PartsAre([], ps);
      ReadPart(done, p.headers, p.data, PartBegin);
      var es := HeaderEvents(p.headers) + DataBytes(p.data) + [PartEnd, PartBegin];
      ReadConcat(Given(done), es, PartsEvents(ps[1..]));
      ReadParts(done + [p], ps[1..]);
      assert done + [p] + ps[1..] == done + ps;
    }
  }

  lemma PartsAre(d: seq<byte>, ps: seq<Part>)
    requires |ps| > 1
    ensures var p := ps[0];
            && PrintParts(d, ps) == PrintHeaders(p.headers) + (p.data + d + CRLF) + PrintParts(d, ps[1..])
            && PartsEvents(ps) == HeaderEvents(p.headers) + DataBytes(p.data) + [PartEnd, PartBegin] + PartsEvents(ps[1..])
  {
    hide PrintHeaders;
    hide HeaderEvents;
    hide DataBytes;
  }

  lemma ReadForm(ps: seq<Part>)
    requires ps != [] && forall k :: 0 <= k < |ps| ==> ps[k].closed
    ensures ReadAll(NewReader(), FormEvents(ps)) == Given(ps).(ended := true)
  {
    hide ReadAll;
    ReadConcat(NewReader(), [PartBegin], PartsEvents(ps));
    ReadOneEvent(NewReader(), PartBegin);
    ReadParts([], ps);
    assert [] + ps == ps;
  }

  // ----- A part that was closed is not changed any more -----

  predicate ChangesPart(e: Event) { e.DataByte? || e.Leftover? || e.PartEnd? }

  /** Since `base` no part has been changed before the headers of another one were read. */
  ghost predicate Frozen(base: seq<Event>, log: seq<Event>) {
    && base <= log
    && forall j :: |base| <= j < |log| && ChangesPart(log[j]) ==> HeadersEnd in log[|base|..j]
  }

  predicate Quiet(m: Machine) { (InHead(m) || m.phase.Finished?) && !m.trail.Leaking? }

  ghost predicate Headed(base: seq<Event>, t: Trace) {
    Frozen(base, t.log) && (Logged(base, t.log, HeadersEnd) || Quiet(t.machine))
  }

  /** Outside part data a byte gives nothing that changes a part. */
  lemma QuietStep(d: seq<byte>, m: Machine, c: byte)
    requires 2 <= |d| && Quiet(m)
    ensures forall e :: e in Step(d, m, c).events ==> !ChangesPart(e)
    ensures Quiet(Step(d, m, c).machine) || HeadersEnd in Step(d, m, c).events
  {
    hide IsNameByte;
  }

  lemma FrozenOn(base: seq<Event>, log: seq<Event>, es: seq<Event>)
    requires Frozen(base, log)
    requires Logged(base, log, HeadersEnd) || forall e :: e in es ==> !ChangesPart(e)
    ensures Frozen(base, log + es)
    ensures HeadersEnd in es || Logged(base, log, HeadersEnd) ==> Logged(base, log + es, HeadersEnd)
  {
    var log', n := log + es, |base|;
    forall j | n <= j < |log'| && ChangesPart(log'[j]) ensures HeadersEnd in log'[n..j] {
      if j < |log| {
        assert log'[n..j] == log[n..j];
      } else {
        assert log'[j] == es[j - |log|] && log'[j] in es;
        assert log'[n..j] == log[n..] + es[..j - |log|];
      }
    }
    assert log'[n..] == log[n..] + es;
  }

  lemma HeadedThen(d: seq<byte>, base: seq<Event>, t: Trace, c: byte)
    requires 2 <= |d| && Headed(base, t)
    ensures Headed(base, Then(d, t, c))
  {
    hide Step;
    hide Frozen;
    hide Logged;
    hide Quiet;
    if !Logged(base, t.log, HeadersEnd) { QuietStep(d, t.machine, c); }
    FrozenOn(base, t.log, Step(d, t.machine, c).events);
  }

  lemma {:induction false} HeadedRun(d: seq<byte>, base: seq<Event>, t: Trace, s: seq<byte>)
    requires 2 <= |d| && Headed(base, t)
    ensures Headed(base, Run(d, t, s))
    decreases |s|
  {
    hide Then;
    hide Headed;
    if s != [] {
      HeadedRun(d, base, t, s[..|s| - 1]);
      HeadedThen(d, base, Run(d, t, s[..|s| - 1]), s[|s| - 1]);
    }
  }

  lemma HeadedFlush(base: seq<Event>, t: Trace)
    requires Headed(base, t)
    ensures Headed(base, Flush(t))
  {
    hide Frozen;
    hide Logged;
    var es := Flushed(t);
    FrozenOn(base, t.log, es);
  }

  /** What the end of a buffer hands over. */
  function Flushed(t: Trace): (es: seq<Event>)
    ensures Flush(t).log == t.log + es
    ensures Quiet(t.machine) ==> Quiet(Flush(t).machine) && forall e :: e in es ==> !ChangesPart(e)
  {
    FlushGrows(t);
    assert Flush(t).log == t.log + Flush(t).log[|t.log|..];
    Flush(t).log[|t.log|..]
  }

  /** Under any cuts: from a good prefix on, after which the parser is outside part data. */
  lemma {:induction false} HeadedFeedAll(d: seq<byte>, t: Trace, cuts: seq<seq<byte>>, n: nat)
    requires 2 <= |d| && Valid(d, t.machine) && 0 < n <= |Join(cuts)|
    requires var u := Run(d, t, Join(cuts)[..n]); Good(u.machine) && Quiet(u.machine) && !u.machine.phase.Field?
    ensures Headed(Run(d, t, Join(cuts)[..n]).log, FeedAll(d, t, cuts))
    decreases |cuts|
  {
    hide Step;
    hide Run;
    hide Flush;
    hide Headed;
    var before, s := cuts[..|cuts| - 1], cuts[|cuts| - 1];
    var whole := Join(before);
    var f := FeedAll(d, t, before);
    var u := Run(d, t, Join(cuts)[..n]);
    if n <= |whole| {
      assert whole[..n] == Join(cuts)[..n];
      HeadedFeedAll(d, t, before, n);
      HeadedRun(d, u.log, f, s);
    } else {
      var k := n - |whole|;
      assert Join(cuts)[..n] == whole + s[..k] && Join(cuts)[..n][..|whole|] == whole;
      GoodPrefix(d, t, Join(cuts)[..n], |whole|);
      FeedAllIsRun(d, t, before);
      RunValid(d, t, whole);
      RunConcat(d, t, whole, s[..k]);
      AgreeRun(d, f, Run(d, t, whole), s[..k]);
      AgreeMeans(Run(d, f, s[..k]), u);
      assert s == s[..k] + s[k..];
      RunConcat(d, f, s[..k], s[k..]);
      HeadedNow(u);
      HeadedRun(d, u.log, u, s[k..]);
    }
    HeadedFlush(u.log, Run(d, f, s));
  }

  lemma HeadedNow(u: Trace)
    requires Quiet(u.machine)
    ensures Headed(u.log, u)
  {
  }

  lemma ReadKeeps(r: Reader, e: Event, m: nat)
    requires 0 < m <= |r.parts| && (ChangesPart(e) ==> m < |r.parts|)
    ensures var r' := Read(r, e);
            && |r'.parts| >= |r.parts| && r'.parts[m - 1] == r.parts[m - 1] && (e == HeadersEnd ==> |r'.parts| > m)
  {
  }

  /** The last part that was given at `base` is still what it was. */
  lemma {:induction false} FrozenReads(base: seq<Event>, log: seq<Event>, actual: seq<Event>)
    requires Frozen(base, log) && MultipartParser.Like(log, actual) && Leftover !in base
    requires ReadAll(NewReader(), base).parts != []
    ensures var r, r' := ReadAll(NewReader(), base), ReadAll(NewReader(), actual);
            var m := |r.parts|;
            && |r'.parts| >= m && r'.parts[m - 1] == r.parts[m - 1]
            && (HeadersEnd in log[|base|..] ==> |r'.parts| > m)
    decreases |log|
  {
    var n := |log| - 1;
    if |log| == |base| {
      assert actual == base;
    } else {
      FrozenBefore(base, log);
      assert actual == actual[..n] + [actual[n]];
      FrozenReads(base, log[..n], actual[..n]);
      ReadSnoc(NewReader(), actual[..n], actual[n]);
      hide ReadAll;
      hide Read;
      hide Frozen;
      ReadKeeps(ReadAll(NewReader(), actual[..n]), actual[n], |ReadAll(NewReader(), base).parts|);
    }
  }

  lemma FrozenBefore(base: seq<Event>, log: seq<Event>)
    requires Frozen(base, log) && |base| < |log|
    ensures var n := |log| - 1;
            && Frozen(base, log[..n]) && (ChangesPart(log[n]) ==> HeadersEnd in log[..n][|base|..])
            && (HeadersEnd in log[|base|..] <==> HeadersEnd in log[..n][|base|..] || log[n] == HeadersEnd)
  {
    var n := |log| - 1;
    var log0 := log[..n];
    assert log[|base|..] == log0[|base|..] + [log[n]] && log[|base|..n] == log0[|base|..];
    assert forall j :: |base| <= j < n ==> log[|base|..j] == log0[|base|..j];
  }

  // ----- No other form is read -----

  /**
   A form that is not whole goes wrong at some offset: the reader has been given a part that differs from the one that
   was printed, or the part flag is left set in the last part.
   */
  ghost predicate GoesWrong(d: seq<byte>, all: seq<Part>, u: Trace) {
    var parts := ReadAll(NewReader(), u.log).parts;
    && Good(u.machine) && Leftover !in u.log && parts != []
    && if InPart(d, u.machine) then u.machine.partFlag && |parts| == |all|
       else
         && (u.machine.phase == FieldStart || u.machine.phase == Finished)
         && |parts| <= |all| && parts[|parts| - 1] != all[|parts| - 1]
  }

  /** Where the parser is before a part, with these parts given. */
  ghost predicate Between(t: Trace, done: seq<Part>) {
    && t.machine.phase == FieldStart && t.machine.trail == Straight && !t.machine.partFlag && Leftover !in t.log
    && ReadAll(NewReader(), t.log) == Given(done)
  }

  lemma EarlyIsWrong(d: seq<byte>, t: Trace, done: seq<Part>, p: Part, k: nat, u: Trace, all: seq<Part>)
    requires Between(t, done) && done + [p] <= all && EndsEarly(InPartOf(t, p.headers), p.data, k, u)
    ensures GoesWrong(d, all, u)
  {
    hide ReadAll;
    var last := if u.machine.phase == FieldStart then PartBegin else StreamEnd;
    var es := HeaderEvents(p.headers) + DataBytes(p.data[..k]) + [PartEnd, last];
    assert u.log == t.log + es;
    ReadConcat(NewReader(), t.log, es);
    ReadPart(done, p.headers, p.data[..k], last);
    HeaderHasNone(p.headers);
    assert |p.data[..k]| != |p.data|;
    assert (done + [Part(p.headers, p.data[..k], true)])[|done|] != p == (done + [p])[|done|];
  }

  lemma FlagIsWrong(d: seq<byte>, t: Trace, done: seq<Part>, p: Part, j: nat, u: Trace)
    requires Between(t, done) && InPart(d, u.machine) && u.machine.partFlag && u.machine.trail == Straight
    requires j <= |p.data| && u.log == InPartOf(t, p.headers).log + DataBytes(p.data[..j])
    ensures GoesWrong(d, done + [p], u)
  {
    hide ReadAll;
    var es := HeaderEvents(p.headers) + DataBytes(p.data[..j]);
    assert u.log == t.log + es;
    ReadConcat(NewReader(), t.log, es);
    ReadOpen(done, p.headers, p.data[..j]);
    HeaderHasNone(p.headers);
  }

  lemma {:induction false} HeaderHasNone(hs: seq<Header>)
    ensures Leftover !in HeaderEvents(hs)
    decreases |hs|
  {
    if hs != [] { HeaderHasNone(hs[1..]); }
  }

  /** The offsets of a part's data in the printed parts. */
  lemma InHeadOf(d: seq<byte>, t: Trace, hs: seq<Header>, s: seq<byte>, n: nat)
    requires 2 <= |d| && t.machine.phase == FieldStart && t.machine.trail == Straight && 0 < n <= |s|
    requires forall k :: 0 <= k < |hs| ==> ProperHeader(hs[k])
    ensures Run(d, t, (PrintHeaders(hs) + s)[..|PrintHeaders(hs)| + n]) == Run(d, InPartOf(t, hs), s[..n])
  {
    hide *;
    assert (PrintHeaders(hs) + s)[..|PrintHeaders(hs)| + n] == PrintHeaders(hs) + s[..n];
    RunHead(d, t, hs, s[..n]);
  }

  lemma LastGoesWrong(d: seq<byte>, t: Trace, done: seq<Part>, p: Part) returns (n: nat)
    requires IsDelimiter(d) && Between(t, done) && ProperPart(p) && !Clean(d, p.data)
    ensures 0 < n <= |PrintParts(d, [p])| && GoesWrong(d, done + [p], Run(d, t, PrintParts(d, [p])[..n]))
  {
    hide Run;
    hide GoesWrong;
    hide ProperHeader;
    hide ReadAll;
    var head, s, t' := PrintHeaders(p.headers), p.data + d + DASHES, InPartOf(t, p.headers);
    var j := FirstInterrupt(d, s, |p.data|);
    assert s[..j] == p.data[..j];
    if OccursAt(d + DASHES, s, j) {
      n := |head| + |s|;
      EndTried(d, t', s, j);
      assert s[..|s|] == s;
      InHeadOf(d, t, p.headers, s, |s|);
      EarlyIsWrong(d, t, done, p, j, Run(d, t', s), done + [p]);
    } else {
      PartTried(d, t', s, j);
      var k := j + |d| + 1;
      n := |head| + k;
      InHeadOf(d, t, p.headers, s, k);
      FlagIsWrong(d, t, done, p, j, Run(d, t', s[..k]));
    }
  }

  lemma MiddleGoesWrong(d: seq<byte>, t: Trace, done: seq<Part>, ps: seq<Part>) returns (n: nat)
    requires IsDelimiter(d) && Between(t, done) && |ps| > 1 && ProperPart(ps[0]) && !Passes(d, ps[0].data)
    ensures 0 < n <= |PrintParts(d, ps)| && GoesWrong(d, done + ps, Run(d, t, PrintParts(d, ps)[..n]))
  {
    hide Run;
    hide GoesWrong;
    hide ProperHeader;
    hide Passes;
    hide ReadAll;
    var p := ps[0];
    var head, t' := PrintHeaders(p.headers), InPartOf(t, p.headers);
    var s, more := p.data + d + CRLF, PrintParts(d, ps[1..]);
    var k, i := NotPassing(d, t', p.data);
    PartsAre(d, ps);
    hide EndsEarly;
    hide PrintParts;
    assert head + s + more == head + (s + more);
    n := |head| + i;
    InHeadOf(d, t, p.headers, s + more, i);
    assert (s + more)[..i] == s[..i];
    assert done + [p] <= done + ps;
    EarlyIsWrong(d, t, done, p, k, Run(d, t', s[..i]), done + ps);
  }

  /** Where a form that is not whole goes wrong. */
  lemma {:induction false} PartsGoWrong(d: seq<byte>, t: Trace, done: seq<Part>, ps: seq<Part>) returns (n: nat)
    requires IsDelimiter(d) && Between(t, done) && ps != [] && AllProper(ps) && !Whole(d, ps)
    ensures 0 < n <= |PrintParts(d, ps)| && GoesWrong(d, done + ps, Run(d, t, PrintParts(d, ps)[..n]))
    decreases |ps|
  {
    hide Run;
    hide Between;
    hide ProperPart;
    hide GoesWrong;
    hide Clean;
    hide Passes;
    var p := ps[0];
    if |ps| == 1 {
      assert ps == [p];
      n := LastGoesWrong(d, t, done, p);
    } else if !Passes(d, p.data) {
      n := MiddleGoesWrong(d, t, done, ps);
    } else {
      var first, more := PrintHeaders(p.headers) + (p.data + d + CRLF), PrintParts(d, ps[1..]);
      BetweenNext(d, t, done, p);
      var k := PartsGoWrong(d, Run(d, t, first), done + [p], ps[1..]);
      n := |first| + k;
      PartsAre(d, ps);
      hide *;
      assert (first + more)[..n] == first + more[..k];
      RunConcat(d, t, first, more[..k]);
      assert done + [p] + ps[1..] == done + ps;
    }
  }

  lemma BetweenNext(d: seq<byte>, t: Trace, done: seq<Part>, p: Part)
    requires IsDelimiter(d) && Between(t, done) && ProperPart(p) && Passes(d, p.data)
    ensures Between(Run(d, t, PrintHeaders(p.headers) + (p.data + d + CRLF)), done + [p])
  {
    hide Run;
    hide ReadAll;
    hide Passes;
    RunNext(d, t, p);
    var es := HeaderEvents(p.headers) + DataBytes(p.data) + [PartEnd, PartBegin];
    ReadConcat(NewReader(), t.log, es);
    ReadPart(done, p.headers, p.data, PartBegin);
    HeaderHasNone(p.headers);
    assert p == Part(p.headers, p.data, true);
  }

  lemma OpenedIsBetween()
    ensures Between(Opened(), [])
  {
    ReadOneEvent(NewReader(), PartBegin);
  }

  /** Whatever the callbacks got after a form has gone wrong, the reader's user has not been given its parts. */
  lemma WrongIsNotRead(d: seq<byte>, all: seq<Part>, cuts: seq<seq<byte>>, n: nat, actual: seq<Event>)
    requires 2 <= |d| && 0 < n <= |Join(cuts)| && GoesWrong(d, all, Run(d, Begin(), Join(cuts)[..n]))
    requires var t := FeedAll(d, Begin(), cuts); t.machine.phase == Finished && MultipartParser.Like(t.log, actual)
    ensures ReadAll(NewReader(), actual).parts != all
  {
    hide Run;
    hide FeedAll;
    hide ReadAll;
    var u, t := Run(d, Begin(), Join(cuts)[..n]), FeedAll(d, Begin(), cuts);
    if InPart(d, u.machine) {
      StaleFeedAll(d, u.log, Begin(), cuts, n);
      hide MultipartParser.Like;
      MoreParts(u.log, t.log, actual);
    } else {
      HeadedFeedAll(d, Begin(), cuts, n);
      FrozenReads(u.log, t.log, actual);
    }
  }

  lemma MoreParts(base: seq<Event>, log: seq<Event>, actual: seq<Event>)
    requires Logged(base, log, HeadersEnd) && MultipartParser.Like(log, actual) && Leftover !in base
    ensures |ReadAll(NewReader(), actual).parts| > |ReadAll(NewReader(), base).parts|
  {
    var n := |base|;
    assert actual[..n] == base;
    var k :| 0 <= k < |log| - n && log[n..][k] == HeadersEnd;
    assert actual[n..][k] == HeadersEnd && actual == base + actual[n..];
    ReadConcat(NewReader(), base, actual[n..]);
    PartsGrow(ReadAll(NewReader(), base), actual[n..]);
  }

  lemma NotWholeIsNotRead(token: seq<byte>, ps: seq<Part>, after: seq<byte>, cuts: seq<seq<byte>>, actual: seq<Event>)
    requires CR !in token && ps != [] && AllProper(ps) && Join(cuts) == Form(token, ps, after)
    requires !Whole(Delimiter(token), ps)
    requires var t := FeedAll(Delimiter(token), Begin(), cuts);
             t.machine.phase == Finished && MultipartParser.Like(t.log, actual)
    ensures ReadAll(NewReader(), actual).parts != ps
  {
    hide Run;
    hide FeedAll;
    hide GoesWrong;
    hide MultipartParser.Like;
    var d, opening := Delimiter(token), DASHES + token + CRLF;
    ServerDelimiter(token);
    OpenedIsBetween();
    var k := PartsGoWrong(d, Opened(), [], ps);
    assert [] + ps == ps;
    var n := |opening| + k;
    assert Join(cuts)[..n] == opening + PrintParts(d, ps)[..k];
    RunOpening(token, PrintParts(d, ps)[..k]);
    WrongIsNotRead(d, ps, cuts, n, actual);
  }

  // ----- The results -----

  /** The parser stops in its end state and the reader's user is given these parts. */
  ghost predicate Reads(t: Trace, ps: seq<Part>) {
    t.machine.phase == Finished && ReadAll(NewReader(), t.log) == Given(ps).(ended := true)
  }

  /**
   A printed form of any number of parts, however it is cut: the parser stops in its end state and the reader's user is
   given exactly those parts, with their headers and contents, in order, if and only if every content but the last passes
   and the last is clean.
   */
  lemma FormIff(token: seq<byte>, ps: seq<Part>, after: seq<byte>, cuts: seq<seq<byte>>)
    requires CR !in token && ps != [] && AllProper(ps) && Join(cuts) == Form(token, ps, after)
    ensures Reads(FeedAll(Delimiter(token), Begin(), cuts), ps) <==> Whole(Delimiter(token), ps)
  {
    hide FeedAll;
    hide ReadAll;
    var t := FeedAll(Delimiter(token), Begin(), cuts);
    if Whole(Delimiter(token), ps) {
      WholeIsSeen(token, ps, after, cuts);
      ReadForm(ps);
    } else if t.machine.phase == Finished {
      MultipartParser.LikeItself(t.log);
      NotWholeIsNotRead(token, ps, after, cuts, t.log);
    }
  }

  /** The same of the parser object, whose callbacks drive the reader. */
  method ReadUploadedForm(token: seq<byte>, ghost ps: seq<Part>, ghost after: seq<byte>, cuts: seq<seq<byte>>)
    returns (ended: bool, reader: Reader)
    requires CR !in token && ps != [] && AllProper(ps) && Join(cuts) == Form(token, ps, after)
    ensures ended && reader == Given(ps).(ended := true) <==> Whole(Delimiter(token), ps)
  {
    hide FeedAll;
    hide ReadAll;
    hide MultipartParser.Flatten;
    hide MultipartParser.Like;
    hide MultipartParser.Parser.Valid;
    DelimiterStart(token);
    var parser := new MultipartParser.Parser(Delimiter(token));
    var thrown := parser.FeedStream(cuts);
    reader := ReadCalls(NewReader(), parser.calls);
    ended := parser.state == MultipartParser.End;
    ReaderSeesJoinedBytes(NewReader(), parser.calls);
    parser.EndIsFinished();
    if Whole(Delimiter(token), ps) {
      WholeIsSeen(token, ps, after, cuts);
      FormHasNone(ps);
      ReadForm(ps);
    } else if ended {
      NotWholeIsNotRead(token, ps, after, cuts, MultipartParser.Flatten(parser.calls));
    }
  }

  lemma {:induction false} FormHasNone(ps: seq<Part>)
    requires ps != []
    ensures Leftover !in PartsEvents(ps) && Leftover !in FormEvents(ps)
    decreases |ps|
  {
    HeaderHasNone(ps[0].headers);
    if |ps| > 1 { FormHasNone(ps[1..]); }
  }
}
