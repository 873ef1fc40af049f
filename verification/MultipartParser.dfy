/**
 The multipart parser as it is written: a buffer is scanned with an index that may step back,
 part data is skipped in strides of the delimiter's length, and a delimiter candidate is kept in
 a lookbehind buffer until it is known to be one. `Feed` is proved against the byte-at-a-time
 machine for every buffer, whatever came before it.
 */
module MultipartParser {
  import opened Bytes
  import opened MultipartMachine

  datatype State =
    | ParseError | Start | StartBoundary | HeaderFieldStart | HeaderField | HeaderValueStart | HeaderValue
    | HeaderValueAlmostDone | HeadersAlmostDoneState | PartDataStart | PartData | End

  /** The two bits of `flags`. */
  datatype Flags = Flags(partBoundary: bool, lastBoundary: bool)

  /** One callback; data callbacks carry the bytes between their two offsets. */
  datatype Call =
    | OnPartBegin | OnHeaderField(s: seq<byte>) | OnHeaderValue(s: seq<byte>) | OnHeaderEnd
    | OnHeadersEnd | OnPartData(s: seq<byte>) | OnPartEnd | OnEnd

  /** The variables that a call of `Feed` copies out of the parser and writes back at its end. */
  datatype Cursor = Cursor(state: State, flags: Flags, index: nat)

  const UNMARKED := -1

  datatype Kind = FieldKind | ValueKind | DataKind

  function MakeCall(kind: Kind, s: seq<byte>): (r: Call) {
    match kind
    case FieldKind => OnHeaderField(s)
    case ValueKind => OnHeaderValue(s)
    case DataKind => OnPartData(s)
  }

  function Spread(call: Call): (r: seq<Event>) {
    match call
    case OnPartBegin => [PartBegin]
    case OnHeaderField(s) => FieldBytes(s)
    case OnHeaderValue(s) => ValueBytes(s)
    case OnHeaderEnd => [HeaderEnd]
    case OnHeadersEnd => [HeadersEnd]
    case OnPartData(s) => DataBytes(s)
    case OnPartEnd => [PartEnd]
    case OnEnd => [StreamEnd]
  }

  /** The callbacks with their data spread out byte by byte. */
  function Flatten(calls: seq<Call>): (r: seq<Event>) {
    if calls == [] then [] else Flatten(calls[..|calls| - 1]) + Spread(calls[|calls| - 1])
  }

  lemma FlattenSnoc(calls: seq<Call>, c: Call)
    ensures Flatten(calls + [c]) == Flatten(calls) + Spread(c)
  {
    assert (calls + [c])[..|calls|] == calls;
  }

  /** What the callbacks got, seen next to the machine's events: a leftover place held some byte or other. */
  ghost predicate Like(events: seq<Event>, actual: seq<Event>) {
    && |events| == |actual|
    && forall k :: 0 <= k < |events| ==> events[k] == actual[k] || (events[k].Leftover? && actual[k].DataByte?)
  }

  lemma LikeAppend(a: seq<Event>, b: seq<Event>, x: seq<Event>, y: seq<Event>)
    requires Like(a, b) && Like(x, y)
    ensures Like(a + x, b + y)
  {
  }

  /** Without leftovers it is the same. */
  lemma LikeIsSame(events: seq<Event>, actual: seq<Event>)
    requires Like(events, actual) && Leftover !in events
    ensures events == actual
  {
  }

  /** What a failed candidate gives back, next to the bytes of the lookbehind buffer. */
  lemma GivenBackIsLike(m: Machine, look: seq<byte>)
    requires m.phase.Astray? && |look| == m.phase.from + |m.phase.kept| && look[m.phase.from..] == m.phase.kept
    ensures Like(GivenBack(m), DataBytes(look))
  {
    forall k | 0 <= k < |look| ensures GivenBack(m)[k] == DataBytes(look)[k] || GivenBack(m)[k].Leftover? {
      if k >= m.phase.from { assert look[k] == look[m.phase.from..][k - m.phase.from]; }
    }
  }

  lemma LikeItself(es: seq<Event>)
    ensures Like(es, es)
  {
  }

  // ----- Where the machine is, in the parser's variables -----

  /** The parser's variables while a buffer is read: cursor, marks, events handed over, lookbehind buffer. */
  datatype View = View(cur: Cursor, field: int, value: int, data: int, events: seq<Event>, look: seq<byte>)

  function Since(mark: int, buffer: seq<byte>, n: nat): (r: seq<byte>)
    requires UNMARKED <= mark <= n <= |buffer|
  {
    if mark == UNMARKED then [] else buffer[mark..n]
  }

  predicate MarksWithin(v: View, n: int) {
    UNMARKED <= v.field <= n && UNMARKED <= v.value <= n && UNMARKED <= v.data <= n
  }

  /** Outside part data the data mark is set only while it leaks. */
  ghost predicate Tracked(v: View, trail: Trail, buffer: seq<byte>, n: nat)
    requires n <= |buffer|
  {
    if trail.Leaking? then 0 <= v.data <= n && buffer[v.data..n] == trail.bytes else v.data == UNMARKED
  }

  ghost predicate SameFlags(v: View, m: Machine) { v.cur.flags == Flags(m.partFlag, m.lastFlag) }

  /** In the first line. */
  ghost predicate InFirstLine(d: seq<byte>, v: View, t: Trace, buffer: seq<byte>, n: nat)
    requires n <= |buffer|
  {
    && t.machine.phase.FirstLine? && v.field == UNMARKED && v.value == UNMARKED && t.log == v.events
    && ((v.cur.state == Start && t.machine.phase.at == 0) ||
        (v.cur.state == StartBoundary && v.cur.index == t.machine.phase.at < |d|))
  }

  /** In a header value. */
  ghost predicate InValue(v: View, t: Trace, buffer: seq<byte>, n: nat)
    requires n <= |buffer|
  {
    && v.field == UNMARKED
    && match t.machine.phase
       case ValueStart => v.cur.state == HeaderValueStart && v.value == UNMARKED && t.log == v.events
       case ValueAlmostDone => v.cur.state == HeaderValueAlmostDone && v.value == UNMARKED && t.log == v.events
       case Value =>
         v.cur.state == HeaderValue && 0 <= v.value <= n && t.log == v.events + ValueBytes(buffer[v.value..n])
       case _ => false
  }

  /** At the other places outside part data. */
  ghost predicate InHeaders(v: View, t: Trace, buffer: seq<byte>, n: nat)
    requires n <= |buffer|
  {
    && v.value == UNMARKED && t.log == v.events
    && match t.machine.phase
       case FieldStart => v.cur.state == HeaderFieldStart && v.field == UNMARKED
       case Field(count, held) =>
         v.cur.state == HeaderField && v.cur.index == count > 0 && 0 <= v.field <= n && buffer[v.field..n] == held
       case HeadersAlmostDone(k) => v.cur.state == HeadersAlmostDoneState && v.cur.index == k && v.field == UNMARKED
       case DataStart(k) => v.cur.state == PartDataStart && v.cur.index == k && v.field == UNMARKED
       case Finished => v.cur.state == End && v.field == UNMARKED
       case _ => false
  }

  /** In part data, the counter being what the data brought it to. */
  ghost predicate InData(d: seq<byte>, v: View, t: Trace, buffer: seq<byte>, n: nat)
    requires n <= |buffer| && InPart(d, t.machine)
  {
    && v.cur.state == PartData && v.cur.index == Index(d, t.machine) <= |v.look|
    && v.field == UNMARKED && v.value == UNMARKED && !t.machine.trail.Leaking?
    && v.look[..v.cur.index] == Held(d, t.machine)
    && if v.cur.index == 0 then 0 <= v.data <= n && t.log == v.events + DataBytes(buffer[v.data..n])
       else v.data == UNMARKED && t.log == v.events
  }

  /** In part data with a carried counter: the lookbehind buffer holds what was kept since, behind whatever it held. */
  ghost predicate InAstray(d: seq<byte>, v: View, t: Trace, buffer: seq<byte>, n: nat)
    requires n <= |buffer| && t.machine.phase.Astray?
  {
    var from, kept := t.machine.phase.from, t.machine.phase.kept;
    && v.cur.state == PartData && v.cur.index == Index(d, t.machine) && from > 0
    && v.field == UNMARKED && v.value == UNMARKED && t.machine.trail.Leaking? && t.log == v.events
    && (kept == [] || (v.cur.index <= |d| + 3 <= |v.look| && v.look[from..v.cur.index] == kept))
  }

  /** The parser at offset `n` of `buffer` is where the machine of `t` is. */
  ghost predicate At(d: seq<byte>, v: View, t: Trace, buffer: seq<byte>, n: nat)
    requires n <= |buffer|
  {
    && SameFlags(v, t.machine)
    && (if InPart(d, t.machine) then InData(d, v, t, buffer, n)
        else
          && Tracked(v, t.machine.trail, buffer, n)
          && match t.machine.phase
             case FirstLine(_) => InFirstLine(d, v, t, buffer, n)
             case ValueStart => InValue(v, t, buffer, n)
             case Value => InValue(v, t, buffer, n)
             case ValueAlmostDone => InValue(v, t, buffer, n)
             case Astray(_, _) => InAstray(d, v, t, buffer, n)
             case _ => InHeaders(v, t, buffer, n))
  }

  lemma AtMeans(d: seq<byte>, v: View, t: Trace, buffer: seq<byte>, n: nat)
    requires n <= |buffer| && At(d, v, t, buffer, n)
    ensures MarksWithin(v, n) && !Stopped(t.machine) && v.cur.state != ParseError
    ensures v.cur.state == End <==> t.machine.phase.Finished?
    ensures v.cur.state == PartDataStart <==> t.machine.phase.DataStart?
    ensures v.cur.state == PartData <==> InPart(d, t.machine) || t.machine.phase.Astray?
    ensures v.cur.state == PartData ==> v.cur.index == Index(d, t.machine) && (v.cur.index == 0 ==> t.machine.phase == Data(0))
    ensures v.cur.state == HeaderFieldStart || v.cur.state == HeaderField <==> t.machine.phase.FieldStart? || t.machine.phase.Field?
    ensures v.cur.state == HeaderValueStart || v.cur.state == HeaderValue <==> t.machine.phase.ValueStart? || t.machine.phase.Value?
    ensures v.cur.state == Start || v.cur.state == StartBoundary <==> t.machine.phase.FirstLine?
  {
    hide ValueBytes;
    hide DataBytes;
    hide Held;
  }

  /** The bytes since a mark, one further on. */
  lemma SliceNext(buffer: seq<byte>, mark: int, i: nat)
    requires UNMARKED <= mark <= i < |buffer|
    ensures buffer[i..i] == [] && buffer[i..i + 1] == [] + [buffer[i]]
    ensures mark != UNMARKED ==> buffer[mark..i + 1] == buffer[mark..i] + [buffer[i]]
  {
  }

  lemma TrackedNext(v: View, v': View, trail: Trail, buffer: seq<byte>, i: nat)
    requires i < |buffer| && Tracked(v, trail, buffer, i) && v'.data == v.data
    ensures Tracked(v', Leak(trail, buffer[i]), buffer, i + 1)
  {
    if trail.Leaking? { SliceNext(buffer, v.data, i); }
  }

  // ----- One byte outside part data -----

  /** What the tests on a byte of the first line do. */
  ghost predicate FirstLineStepped(d: seq<byte>, v: View, v': View, c: byte, refused: bool) {
    var at := if v.cur.state == Start then 0 else v.cur.index;
    && v'.cur.flags == v.cur.flags && v'.field == v.field && v'.value == v.value && v'.data == v.data
    && if at == |d| - 1 && c == LF then
         !refused && v'.cur.state == HeaderFieldStart && v'.events == v.events + [PartBegin]
       else
         && v'.events == v.events
         && (refused <==> !((at == |d| - 2 && c == CR) || (0 <= at < |d| - 2 && c == d[at + 2])))
         && (!refused ==> v'.cur.state == StartBoundary && v'.cur.index == at + 1)
  }

  lemma FirstLineFollows(d: seq<byte>, v: View, v': View, t: Trace, buffer: seq<byte>, i: nat, refused: bool)
    requires 2 <= |d| && i < |buffer| && At(d, v, t, buffer, i) && t.machine.phase.FirstLine?
    requires FirstLineStepped(d, v, v', buffer[i], refused)
    ensures Followed(d, v', t, buffer, i, refused)
  {
    ThenInFirstLine(d, t, buffer[i]);
    TrackedNext(v, v', t.machine.trail, buffer, i);
    hide Then;
    hide Tracked;
  }

  /** The machine refused the byte too, or the parser is where it went. */
  ghost predicate Followed(d: seq<byte>, v: View, t: Trace, buffer: seq<byte>, i: nat, refused: bool)
    requires 2 <= |d| && i < |buffer|
  {
    var u := Then(d, t, buffer[i]);
    if refused then u.machine.phase.Failed? && v.events == u.log else At(d, v, u, buffer, i + 1)
  }

  /** What the tests on a byte of a name do. */
  ghost predicate NameStepped(v: View, v': View, buffer: seq<byte>, i: nat, refused: bool)
    requires i < |buffer| && UNMARKED <= v.field <= i
  {
    var count := if v.cur.state == HeaderFieldStart then 0 else v.cur.index;
    var mark := if v.cur.state == HeaderFieldStart then i else v.field;
    var c := buffer[i];
    && v'.cur.flags == v.cur.flags && v'.value == v.value && v'.data == v.data
    && (refused <==> c != CR && (if c == COLON then count == 0 else !IsNameByte(c)))
    && if c == COLON && !refused then
         v'.cur.state == HeaderValueStart && v'.field == UNMARKED && v'.events == v.events + FieldBytes(Since(mark, buffer, i))
       else
         && v'.events == v.events
         && if refused then true
            else if c == CR then v'.cur.state == HeadersAlmostDoneState && v'.cur.index == count && v'.field == UNMARKED
            else v'.cur.state == HeaderField && v'.cur.index == count + 1 && v'.field == mark
  }

  lemma NameFollows(d: seq<byte>, v: View, v': View, t: Trace, buffer: seq<byte>, i: nat, refused: bool)
    requires 2 <= |d| && i < |buffer| && At(d, v, t, buffer, i) && (t.machine.phase.FieldStart? || t.machine.phase.Field?)
    requires UNMARKED <= v.field <= i && NameStepped(v, v', buffer, i, refused)
    ensures Followed(d, v', t, buffer, i, refused)
  {
    ThenInName(d, t, buffer[i]);
    TrackedNext(v, v', t.machine.trail, buffer, i);
    SliceNext(buffer, v.field, i);
    assert FieldBytes([]) == [];
    StrayTracked(v', Leak(t.machine.trail, buffer[i]), buffer, i + 1, if t.machine.phase.Field? then t.machine.phase.count else 0);
    hide Then;
    hide Tracked;
    hide FieldBytes;
    hide IsNameByte;
  }

  lemma StrayTracked(v: View, trail: Trail, buffer: seq<byte>, n: nat, count: nat)
    requires n <= |buffer| && Tracked(v, trail, buffer, n)
    ensures Tracked(v, Stray(trail, count), buffer, n)
  {
  }

  /** What the tests on a byte of a value do. */
  ghost predicate ValueStepped(v: View, v': View, buffer: seq<byte>, i: nat)
    requires i < |buffer| && UNMARKED <= v.value <= i
  {
    var mark := if v.cur.state == HeaderValueStart then i else v.value;
    && v'.cur.flags == v.cur.flags && v'.field == v.field && v'.data == v.data
    && if v.cur.state == HeaderValueStart && buffer[i] == SPACE then
         v'.cur == v.cur && v'.events == v.events && v'.value == v.value
       else if buffer[i] == CR then
         && v'.cur.state == HeaderValueAlmostDone && v'.value == UNMARKED
         && v'.events == v.events + ValueBytes(Since(mark, buffer, i)) + [HeaderEnd]
       else v'.cur.state == HeaderValue && v'.events == v.events && v'.value == mark
  }

  lemma ValueFollows(d: seq<byte>, v: View, v': View, t: Trace, buffer: seq<byte>, i: nat)
    requires 2 <= |d| && i < |buffer| && At(d, v, t, buffer, i) && (t.machine.phase.ValueStart? || t.machine.phase.Value?)
    requires UNMARKED <= v.value <= i && ValueStepped(v, v', buffer, i)
    ensures Followed(d, v', t, buffer, i, false)
  {
    ThenInValue(d, t, buffer[i]);
    TrackedNext(v, v', t.machine.trail, buffer, i);
    ValueBytesNext(buffer, v.value, i);
    hide Then;
    hide Tracked;
    hide ValueBytes;
  }

  lemma ValueBytesNext(buffer: seq<byte>, mark: int, i: nat)
    requires UNMARKED <= mark <= i < |buffer|
    ensures ValueBytes(buffer[i..i]) == ValueBytes([]) == [] && ValueBytes(buffer[i..i + 1]) == [ValueByte(buffer[i])]
    ensures mark != UNMARKED ==> ValueBytes(buffer[mark..i + 1]) == ValueBytes(buffer[mark..i]) + [ValueByte(buffer[i])]
  {
    assert mark != UNMARKED ==> buffer[mark..i + 1] == buffer[mark..i] + [buffer[i]];
  }

  /** What the tests at a line's end do; nothing after the end of the stream. */
  ghost predicate LineEndStepped(v: View, v': View, c: byte, refused: bool) {
    && v'.cur.flags == v.cur.flags && v'.cur.index == v.cur.index
    && v'.field == v.field && v'.value == v.value && v'.data == v.data
    && (refused <==> v.cur.state != End && c != LF)
    && v'.events == v.events + (if !refused && v.cur.state == HeadersAlmostDoneState then [HeadersEnd] else [])
    && (!refused ==>
          v'.cur.state == (if v.cur.state == HeaderValueAlmostDone then HeaderFieldStart
                           else if v.cur.state == End then End else PartDataStart))
  }

  lemma LineEndFollows(d: seq<byte>, v: View, v': View, t: Trace, buffer: seq<byte>, i: nat, refused: bool)
    requires 2 <= |d| && i < |buffer| && At(d, v, t, buffer, i)
    requires t.machine.phase.ValueAlmostDone? || t.machine.phase.HeadersAlmostDone? || t.machine.phase.Finished?
    requires LineEndStepped(v, v', buffer[i], refused)
    ensures Followed(d, v', t, buffer, i, refused)
  {
    ThenAtLineEnd(d, t, buffer[i]);
    TrackedNext(v, v', t.machine.trail, buffer, i);
    hide Then;
    hide Tracked;
    assert v.events + [] == v.events;
  }

  // ----- One byte of part data -----

  /** Where a part's data starts. */
  lemma StartFollows(d: seq<byte>, v: View, t: Trace, buffer: seq<byte>, i: nat)
    requires i < |buffer| && At(d, v, t, buffer, i) && t.machine.phase.DataStart?
    ensures At(d, v.(cur := v.cur.(state := PartData), data := i), t.(machine := Started(t.machine)), buffer, i)
  {
    assert d[..0] == [] && v.look[..0] == [] && buffer[i..i] == [] && DataBytes([]) == [] && v.events + [] == v.events;
  }

  /** What the branches on the counter and on the lookbehind buffer do; `what` is what is given back. */
  ghost predicate MatchStepped(d: seq<byte>, v: View, v': View, m: Machine, buffer: seq<byte>, i: nat, i': int, what: seq<Event>)
    requires i < |buffer| && UNMARKED <= v.data <= i && (InPart(d, m) || m.phase.Astray?)
  {
    var c, index := buffer[i], v.cur.index;
    && v'.field == v.field && v'.value == v.value
    && match MoveOn(d, m, c)
       case Extend =>
         var m' := Flagged(d, m, index, c);
         && i' == i && v'.cur == Cursor(PartData, Flags(m'.partFlag, m'.lastFlag), index + 1)
         && index < |v.look| && |v'.look| == |v.look| && v'.look[..index + 1] == v.look[..index] + [c]
         && if index == 0 then v'.data == UNMARKED && v'.events == v.events + DataBytes(Since(v.data, buffer, i))
            else v'.data == v.data && v'.events == v.events
       case Retry =>
         && v'.cur == v.cur.(index := 0) && v'.look == v.look
         && if index > 0 then i' == i - 1 && v'.data == i && v'.events == v.events + what
            else i' == i && v'.data == v.data && v'.events == v.events
       case NextPart =>
         && i' == i && v'.cur == Cursor(HeaderFieldStart, v.cur.flags.(partBoundary := false), 0)
         && v'.data == v.data && v'.events == v.events + [PartEnd] + [PartBegin]
       case LastPart =>
         && i' == i && v'.cur.state == End && v'.cur.flags == v.cur.flags
         && v'.data == v.data && v'.events == v.events + [PartEnd] + [StreamEnd]
       case Stay => i' == i && v'.cur == v.cur && v'.data == v.data && v'.events == v.events
       case Throw => v'.events == v.events
  }

  /** The machine after the same byte, or before it is read again. */
  ghost function Matched(d: seq<byte>, t: Trace, c: byte, again: bool, what: seq<Event>): (t': Trace)
    requires 2 <= |d|
  {
    if again then Trace(t.machine.(phase := Data(0), trail := if t.machine.phase.Astray? then Strayed else t.machine.trail), t.log + what)
    else Then(d, t, c)
  }

  /** What is given back when the candidate fails. */
  ghost function WhatIsHeld(d: seq<byte>, m: Machine): (es: seq<Event>)
    requires InPart(d, m) || m.phase.Astray?
  {
    if m.phase.Astray? then GivenBack(m) else DataBytes(Held(d, m))
  }

  /** After a byte of part data the parser is where the machine is. */
  lemma MatchFollows(d: seq<byte>, v: View, v': View, t: Trace, buffer: seq<byte>, i: nat, i': int)
    requires 2 <= |d| && i < |buffer| && At(d, v, t, buffer, i) && |v.look| == |d| + LOOKBEHIND_SLACK
    requires (InPart(d, t.machine) || t.machine.phase.Astray?) && UNMARKED <= v.data <= i
    requires MatchStepped(d, v, v', t.machine, buffer, i, i', WhatIsHeld(d, t.machine))
    ensures
      var c, t' := buffer[i], Matched(d, t, buffer[i], i' < i, WhatIsHeld(d, t.machine));
      && (Then(d, t, c).machine.phase.Overflow? <==> MoveOn(d, t.machine, c).Throw?)
      && if MoveOn(d, t.machine, c).Throw? then v'.events == Then(d, t, c).log
         else
           && (i' == i || (i' == i - 1 && v'.cur.index == 0 < v.cur.index)) && At(d, v', t', buffer, i' + 1)
           && (if i' == i then t' == Then(d, t, c) && !Stopped(t'.machine) else Then(d, t', c) == Then(d, t, c))
  {
    SteppedBack(d, v, v', t.machine, buffer, i, i', WhatIsHeld(d, t.machine));
    if t.machine.phase.Astray? {
      AstrayFollows(d, v, v', t, buffer, i, i');
      ThenAstray(d, t, buffer[i]);
    } else {
      DataMoves(d, t.machine, buffer[i]);
      DataFollows(d, v, v', t, buffer, i, i');
    }
    hide At;
    hide Then;
    hide MoveOn;
    hide GivenBack;
    hide DataBytes;
    hide Held;
  }

  lemma SteppedBack(d: seq<byte>, v: View, v': View, m: Machine, buffer: seq<byte>, i: nat, i': int, what: seq<Event>)
    requires i < |buffer| && UNMARKED <= v.data <= i && (InPart(d, m) || m.phase.Astray?)
    requires MatchStepped(d, v, v', m, buffer, i, i', what)
    ensures !MoveOn(d, m, buffer[i]).Throw? && i' < i ==> i' == i - 1 && v'.cur.index == 0 < v.cur.index
  {
  }

  lemma DataFollows(d: seq<byte>, v: View, v': View, t: Trace, buffer: seq<byte>, i: nat, i': int)
    requires 2 <= |d| && i < |buffer| && At(d, v, t, buffer, i) && InPart(d, t.machine) && |v.look| == |d| + LOOKBEHIND_SLACK
    requires UNMARKED <= v.data <= i && MatchStepped(d, v, v', t.machine, buffer, i, i', DataBytes(Held(d, t.machine)))
    ensures
      var c, t' := buffer[i], Matched(d, t, buffer[i], i' < i, DataBytes(Held(d, t.machine)));
      && !Stopped(Then(d, t, c).machine) && (i' < i ==> Then(d, t', c) == Then(d, t, c))
      && (i' == i || i' == i - 1) && At(d, v', t', buffer, i' + 1)
  {
    ThenInPart(d, t, buffer[i]);
    DataMoves(d, t.machine, buffer[i]);
    DataBytesNext(buffer, v.data, i);
    assert d[..0] == [] && v'.look[..0] == [];
    hide Then;
    hide DataBytes;
    hide MoveOn;
  }

  lemma DataMoves(d: seq<byte>, m: Machine, c: byte)
    requires InPart(d, m)
    ensures Index(d, m) <= |d| + 1 && !MoveOn(d, m, c).Stay? && !MoveOn(d, m, c).Throw?
    ensures MoveOn(d, m, c).Extend? ==> Index(d, m) <= |d|
    ensures MoveOn(d, m, c).Extend? && Index(d, m) == |d| ==> c == CR || c == HYPHEN
  {
  }

  lemma DataBytesNext(buffer: seq<byte>, mark: int, i: nat)
    requires UNMARKED <= mark <= i < |buffer|
    ensures DataBytes(buffer[i..i]) == DataBytes([]) == []
    ensures mark != UNMARKED ==> DataBytes(buffer[mark..i + 1]) == DataBytes(buffer[mark..i]) + [DataByte(buffer[i])]
  {
    assert mark != UNMARKED ==> buffer[mark..i + 1] == buffer[mark..i] + [buffer[i]];
  }

  lemma AstrayFollows(d: seq<byte>, v: View, v': View, t: Trace, buffer: seq<byte>, i: nat, i': int)
    requires 2 <= |d| && i < |buffer| && At(d, v, t, buffer, i) && t.machine.phase.Astray? && |v.look| == |d| + LOOKBEHIND_SLACK
    requires UNMARKED <= v.data <= i && MatchStepped(d, v, v', t.machine, buffer, i, i', GivenBack(t.machine))
    ensures
      var c, t' := buffer[i], Matched(d, t, buffer[i], i' < i, GivenBack(t.machine));
      && (Then(d, t, c).machine.phase.Overflow? <==> MoveOn(d, t.machine, c).Throw?)
      && if MoveOn(d, t.machine, c).Throw? then v'.events == Then(d, t, c).log
         else
           && (i' < i ==> Then(d, t', c) == Then(d, t, c))
           && (i' == i || i' == i - 1) && At(d, v', t', buffer, i' + 1)
  {
    ThenAstray(d, t, buffer[i]);
    AstrayMoves(d, t.machine, buffer[i]);
    if MoveOn(d, t.machine, buffer[i]).Retry? {
      RetryFollows(d, v', t, buffer, i, GivenBack(t.machine));
    } else if !MoveOn(d, t.machine, buffer[i]).Throw? {
      TrackedNext(v, v', t.machine.trail, buffer, i);
      AstrayKept(d, v, v', t.machine, buffer[i]);
    }
    hide Then;
    hide GivenBack;
    hide MoveOn;
    hide Tracked;
    hide DataBytes;
  }

  /** The byte is read again with nothing held back. */
  lemma RetryFollows(d: seq<byte>, v: View, t: Trace, buffer: seq<byte>, i: nat, what: seq<Event>)
    requires 2 <= |d| && i < |buffer| && t.machine.phase.Astray? && SameFlags(v, t.machine)
    requires v.cur.state == PartData && v.cur.index == 0 && v.field == UNMARKED && v.value == UNMARKED && v.data == i
    requires v.events == t.log + what
    ensures At(d, v, Matched(d, t, buffer[i], true, what), buffer, i)
  {
    DataBytesNext(buffer, i, i);
    assert d[..0] == [] && v.look[..0] == [] && v.events + [] == v.events;
  }

  /** Another byte kept behind the others. */
  lemma AstrayKept(d: seq<byte>, v: View, v': View, m: Machine, c: byte)
    requires m.phase.Astray?
    ensures
      var from, kept, index := m.phase.from, m.phase.kept, Index(d, m);
      index < |v.look| == |v'.look| && v'.look[..index + 1] == v.look[..index] + [c] && (kept == [] || v.look[from..index] == kept) ==>
        v'.look[from..index + 1] == kept + [c]
  {
    var from, kept, index := m.phase.from, m.phase.kept, Index(d, m);
    if index < |v.look| == |v'.look| && v'.look[..index + 1] == v.look[..index] + [c] {
      assert v'.look[from..index + 1] == v'.look[..index + 1][from..];
      assert (v.look[..index] + [c])[from..] == v.look[from..index] + [c];
      assert kept == [] ==> v.look[from..index] == [];
    }
  }

  lemma AstrayMoves(d: seq<byte>, m: Machine, c: byte)
    requires m.phase.Astray?
    ensures MoveOn(d, m, c).Throw? <==> Index(d, m) > |d| + LOOKBEHIND_SLACK
    ensures MoveOn(d, m, c).Stay? ==> Index(d, m) > |d| + 3
    ensures !MoveOn(d, m, c).Stay? && !MoveOn(d, m, c).Throw? ==> Index(d, m) <= |d| + 3
    ensures MoveOn(d, m, c).Extend? ==> Index(d, m) <= |d| + 2
  {
  }

  lemma GivenBackFits(d: seq<byte>, v: View, t: Trace, buffer: seq<byte>, n: nat)
    requires n <= |buffer| && |v.look| == |d| + LOOKBEHIND_SLACK && t.machine.phase.Astray? && At(d, v, t, buffer, n)
    ensures v.cur.index <= |d| + 3 ==> Like(GivenBack(t.machine), DataBytes(v.look[..v.cur.index]))
  {
    if v.cur.index <= |d| + 3 {
      assert v.look[..v.cur.index][t.machine.phase.from..] == t.machine.phase.kept;
      GivenBackIsLike(t.machine, v.look[..v.cur.index]);
    }
  }

  lemma CanGiveBack(d: seq<byte>, v: View, t: Trace, buffer: seq<byte>, n: nat)
    requires n <= |buffer| && |v.look| == |d| + LOOKBEHIND_SLACK && At(d, v, t, buffer, n)
    requires InPart(d, t.machine) || t.machine.phase.Astray?
    ensures v.cur.index <= |d| + 3 ==> Like(WhatIsHeld(d, t.machine), DataBytes(v.look[..v.cur.index]))
  {
    if t.machine.phase.Astray? {
      GivenBackFits(d, v, t, buffer, n);
    } else {
      LikeItself(DataBytes(Held(d, t.machine)));
    }
  }

  lemma SkipFollows(d: seq<byte>, v: View, t: Trace, buffer: seq<byte>, i: nat, j: nat)
    requires i <= j <= |buffer| && t.machine.phase == Data(0) && At(d, v, t, buffer, i)
    ensures At(d, v, Trace(t.machine, t.log + DataBytes(buffer[i..j])), buffer, j)
  {
    assert buffer[v.data..i] + buffer[i..j] == buffer[v.data..j];
    DataBytesConcat(v.events, buffer[v.data..i], buffer[i..j]);
    hide DataBytes;
  }

  lemma AtLineEnd(d: seq<byte>, v: View, t: Trace, buffer: seq<byte>, n: nat)
    requires n <= |buffer| && At(d, v, t, buffer, n)
    requires v.cur.state == HeaderValueAlmostDone || v.cur.state == HeadersAlmostDoneState || v.cur.state == End
    ensures t.machine.phase.ValueAlmostDone? || t.machine.phase.HeadersAlmostDone? || t.machine.phase.Finished?
  {
  }

  // ----- The end of a buffer -----

  /** The marked bytes up to the end of the buffer. */
  ghost function Pending(v: View, buffer: seq<byte>): (es: seq<Event>)
    requires MarksWithin(v, |buffer|)
  {
    FieldBytes(Since(v.field, buffer, |buffer|)) + ValueBytes(Since(v.value, buffer, |buffer|))
    + DataBytes(Since(v.data, buffer, |buffer|))
  }

  function Rebased(mark: int): (r: int) { if mark == UNMARKED then UNMARKED else 0 }

  /** The parser when the marked bytes are handed over and the marks moved to the start of the next buffer. */
  ghost function HandedOver(v: View, buffer: seq<byte>): (v': View)
    requires MarksWithin(v, |buffer|)
  {
    v.(field := Rebased(v.field), value := Rebased(v.value), data := Rebased(v.data), events := v.events + Pending(v, buffer))
  }

  /** Handing over the marked bytes is what the machine does at the end of a buffer. */
  lemma PendingIsFlush(d: seq<byte>, v: View, t: Trace, buffer: seq<byte>)
    requires At(d, v, t, buffer, |buffer|) && MarksWithin(v, |buffer|)
    ensures v.events + Pending(v, buffer) == Flush(t).log
  {
    hide Held;
    assert FieldBytes([]) == [] && ValueBytes([]) == [] && DataBytes([]) == [];
    hide FieldBytes;
    hide ValueBytes;
    hide DataBytes;
    var field, value := FieldBytes(Since(v.field, buffer, |buffer|)), ValueBytes(Since(v.value, buffer, |buffer|));
    var data := DataBytes(Since(v.data, buffer, |buffer|));
    assert Pending(v, buffer) == field + value + data;
    hide Pending;
    OneOrTwo(v.events, field, value, data);
  }

  lemma OneOrTwo(log: seq<Event>, a: seq<Event>, b: seq<Event>, c: seq<Event>)
    ensures b == [] ==> log + (a + b + c) == log + a + c
    ensures a == [] ==> log + (a + b + c) == log + b + c
    ensures a == [] && b == [] ==> log + (a + b + c) == log + c
    ensures a == [] && b == [] && c == [] ==> log + (a + b + c) == log
    ensures log + [] == log && log + a + [] == log + a && log + b + [] == log + b
  {
  }

  /** At the end of a buffer the parser is where the machine is at the start of the next. */
  lemma EndFollows(d: seq<byte>, v: View, t: Trace, buffer: seq<byte>)
    requires At(d, v, t, buffer, |buffer|) && MarksWithin(v, |buffer|)
    ensures At(d, HandedOver(v, buffer), Flush(t), [], 0)
  {
    PendingIsFlush(d, v, t, buffer);
    NotStopped(d, v, t, buffer, |buffer|);
    assert ValueBytes([]) == [] && DataBytes([]) == [];
    hide Pending;
    hide FieldBytes;
    hide ValueBytes;
    hide DataBytes;
    hide Held;
    var log := v.events + Pending(v, buffer);
    assert log + [] == log;
  }

  lemma NotStopped(d: seq<byte>, v: View, t: Trace, buffer: seq<byte>, n: nat)
    requires n <= |buffer| && At(d, v, t, buffer, n)
    ensures !Stopped(t.machine)
  {
    AtMeans(d, v, t, buffer, n);
  }

  /** At offset 0 every buffer looks alike. */
  lemma SameAtStart(d: seq<byte>, v: View, t: Trace, buffer: seq<byte>)
    requires At(d, v, t, [], 0)
    ensures At(d, v, t, buffer, 0)
  {
    hide Held;
    assert buffer[0..0] == [] == [][0..0];
  }

  /** Between calls nothing is pending. */
  lemma NothingPending(d: seq<byte>, v: View, t: Trace)
    requires At(d, v, t, [], 0) && Flush(t) == t
    ensures v.events == t.log
  {
    assert ValueBytes([]) == [] && DataBytes([]) == [];
    hide ValueBytes;
    hide DataBytes;
    hide Held;
  }

  class Parser {
    const boundary: seq<byte>
    const boundaryIndex: array<bool>
    const lookbehind: array<byte>
    var state: State
    var flags: Flags
    var index: nat
    var headerFieldMark: int
    var headerValueMark: int
    var partDataMark: int
    var calls: seq<Call>            // everything the callbacks have been given
    ghost var events: seq<Event>    // the same as the machine tells it
    ghost var trace: Trace          // the byte-at-a-time machine after the same bytes

    ghost predicate Shape()
      reads boundaryIndex
    {
      && 2 <= |boundary|
      && lookbehind.Length == |boundary| + LOOKBEHIND_SLACK
      && boundaryIndex.Length == 256
      && forall c: byte :: boundaryIndex[c] <==> c in boundary
    }

    ghost predicate Faithful()
      reads this
    {
      Like(events, Flatten(calls))
    }

    /** The variables while a buffer is read; `cur` are the copies that a call works on. */
    ghost function See(cur: Cursor): (v: View)
      reads this, lookbehind
    {
      View(cur, headerFieldMark, headerValueMark, partDataMark, events, lookbehind[..])
    }

    ghost predicate Follows(cur: Cursor, t: Trace, buffer: seq<byte>, n: nat)
      requires n <= |buffer|
      reads this, lookbehind, boundaryIndex
    {
      Shape() && Faithful() && At(boundary, See(cur), t, buffer, n)
    }

    /** Nothing more is read: a byte was refused, or the exception was thrown. */
    ghost predicate Refused(t: Trace)
      reads this
    {
      Stopped(t.machine) && events == t.log && Faithful()
    }

    ghost predicate Valid()
      reads this, lookbehind, boundaryIndex
    {
      && Shape()
      && if state == ParseError then Refused(trace)
         else Follows(Cursor(state, flags, index), trace, [], 0) && Flush(trace) == trace
    }

    lemma EndIsFinished()
      requires Valid()
      ensures state == End <==> trace.machine.phase.Finished?
    {
      hide Like;
      hide Flatten;
      if state != ParseError { AtMeans(boundary, See(Cursor(state, flags, index)), trace, [], 0); }
    }

    /** Between calls everything is handed over. */
    lemma EventsAreLog()
      requires Valid()
      ensures events == trace.log && Faithful()
    {
      hide Like;
      hide Flatten;
      hide At;
      if state != ParseError { NothingPending(boundary, See(Cursor(state, flags, index)), trace); }
    }

    /** `set_boundary`: the parser is ready for the first line. The lookbehind buffer is not initialised. */
    constructor (boundary: seq<byte>)
      requires 2 <= |boundary|
      ensures Valid() && fresh(boundaryIndex) && fresh(lookbehind)
      ensures this.boundary == boundary && trace == Begin() && calls == [] && events == []
    {
      var table := new bool[256](i => false);
      var n := 0;
      while n < |boundary|
        invariant 0 <= n <= |boundary|
        invariant forall c: byte :: table[c] <==> c in boundary[..n]
      {
        table[boundary[n]] := true;
        n := n + 1;
      }
      assert boundary[..n] == boundary;
      this.boundary := boundary;
      boundaryIndex := table;
      lookbehind := new byte[|boundary| + LOOKBEHIND_SLACK];
      state, flags, index := Start, Flags(false, false), 0;
      headerFieldMark, headerValueMark, partDataMark := UNMARKED, UNMARKED, UNMARKED;
      calls, events := [], [];
      trace := Begin();
    }

    // ----- Callbacks -----

    method Callback(call: Call)
      requires Faithful()
      modifies this`calls, this`events
      ensures Faithful() && events == old(events) + Spread(call)
    {
      Record(call, Spread(call));
    }

    /** One call; `what` is what it is to the machine. */
    method Record(call: Call, ghost what: seq<Event>)
      requires Faithful() && Like(what, Spread(call))
      modifies this`calls, this`events
      ensures Faithful() && events == old(events) + what
    {
      LikeAppend(events, Flatten(calls), what, Spread(call));
      FlattenSnoc(calls, call);
      calls := calls + [call];
      events := events + what;
    }

    /** A callback between a mark and an offset; the mark moves to the start of the next buffer or is cleared. */
    method DataCallback(kind: Kind, mark: int, buffer: seq<byte>, i: nat, clear: bool, allowEmpty: bool)
      returns (mark': int)
      requires Faithful() && UNMARKED <= mark && (clear ==> mark <= i <= |buffer|) && mark <= |buffer|
      modifies this`calls, this`events
      ensures Faithful() && (mark == UNMARKED ==> events == old(events))
      ensures mark' == if mark == UNMARKED || clear then UNMARKED else 0
      ensures events == old(events) + Spread(MakeCall(kind, Since(mark, buffer, if clear then i else |buffer|)))
    {
      if mark == UNMARKED {
        return mark;
      }
      var end := if clear then i else |buffer|;
      if mark != end || allowEmpty {
        hide Faithful;
        Callback(MakeCall(kind, buffer[mark..end]));
      }
      mark' := if clear then UNMARKED else 0;
    }

    // ----- Part data -----

    /** The stride over data that cannot hold the start of a delimiter. */
    method SkipData(buffer: seq<byte>, i: nat, ghost t: Trace) returns (j: nat)
      requires Shape() && i <= |buffer| && t.machine.phase == Data(0)
      ensures i <= j <= |buffer|
      ensures Run(boundary, t, buffer[i..j]) == Trace(t.machine, t.log + DataBytes(buffer[i..j]))
    {
      hide Step;
      j := i;
      assert t.log + DataBytes([]) == t.log;
      while j + |boundary| <= |buffer|
        invariant i <= j <= |buffer|
        invariant Run(boundary, t, buffer[i..j]) == Trace(t.machine, t.log + DataBytes(buffer[i..j]))
      {
        if boundaryIndex[buffer[j + |boundary| - 1]] {
          break;
        }
        ghost var k := j + |boundary|;
        ghost var t' := Trace(t.machine, t.log + DataBytes(buffer[i..j]));
        SkipIsScan(boundary, t', buffer[j..k]);
        RunConcat(boundary, t, buffer[i..j], buffer[j..k]);
        assert buffer[i..j] + buffer[j..k] == buffer[i..k];
        assert t.log + DataBytes(buffer[i..j]) + DataBytes(buffer[j..k]) == t.log + DataBytes(buffer[i..k]);
        j := j + |boundary|;
      }
    }

    /** One byte against the delimiter; `finished` when the function returns early. */
    method MatchByte(cur: Cursor, c: byte, buffer: seq<byte>, i: nat, ghost m: Machine)
      returns (cur': Cursor, finished: bool)
      requires 2 <= |boundary| && i < |buffer| && UNMARKED <= partDataMark <= i && Faithful() && cur.state == PartData
      requires (InPart(boundary, m) || m.phase.Astray?) && cur.index == Index(boundary, m) && cur.flags == Flags(m.partFlag, m.lastFlag)
      modifies this`calls, this`events, this`partDataMark
      ensures Faithful()
      ensures
        match MoveOn(boundary, m, c)
        case Extend =>
          var m' := Flagged(boundary, m, cur.index, c);
          && !finished && cur' == Cursor(PartData, Flags(m'.partFlag, m'.lastFlag), cur.index + 1)
          && if cur.index == 0 then
               partDataMark == UNMARKED && events == old(events) + DataBytes(Since(old(partDataMark), buffer, i))
             else events == old(events) && partDataMark == old(partDataMark)
        case Retry => !finished && cur' == cur.(index := 0) && events == old(events) && partDataMark == old(partDataMark)
        case NextPart =>
          && finished && cur' == Cursor(HeaderFieldStart, cur.flags.(partBoundary := false), 0)
          && events == old(events) + [PartEnd] + [PartBegin] && partDataMark == old(partDataMark)
        case LastPart =>
          && cur' == cur.(state := End, index := if finished then 0 else cur.index)
          && events == old(events) + [PartEnd] + [StreamEnd] && partDataMark == old(partDataMark)
        case _ => !finished && cur' == cur && events == old(events) && partDataMark == old(partDataMark)
    {
      hide Like;
      hide Flatten;
      var index, flags, st := cur.index, cur.flags, cur.state;
      finished := false;

      if index < |boundary| {
        if boundary[index] == c {
          if index == 0 {
            partDataMark := DataCallback(DataKind, partDataMark, buffer, i, true, false);
          }
          index := index + 1;
        } else {
          index := 0;
        }
      } else if index == |boundary| {
        index := index + 1;
        if c == CR {
          flags := flags.(partBoundary := true);
        } else if c == HYPHEN {
          flags := flags.(lastBoundary := true);
        } else {
          index := 0;
        }
      } else if index - 1 == |boundary| {
        if flags.partBoundary {
          index := 0;
          if c == LF {
            flags := flags.(partBoundary := false);
            Callback(OnPartEnd);
            Callback(OnPartBegin);
            st, finished := HeaderFieldStart, true;
          }
        } else if flags.lastBoundary {
          if c == HYPHEN {
            Callback(OnPartEnd);
            Callback(OnEnd);
            st := End;
          } else {
            index := 0;
          }
        } else {
          index := 0;
        }
      } else if index - 2 == |boundary| {
        index := if c == CR then index + 1 else 0;
      } else if index - |boundary| == 3 {
        index := 0;
        if c == LF {
          Callback(OnPartEnd);
          Callback(OnEnd);
          st, finished := End, true;
        }
      }
      cur' := Cursor(st, flags, index);
    }

    /** The byte is kept in the lookbehind buffer, or what the buffer holds is given back and the byte read again. */
    method KeepOrGiveBack(before: nat, index: nat, c: byte, i: nat, ghost what: seq<Event>) returns (i': int, thrown: bool)
      requires Faithful() && (index > 0 ==> index == before || index == before + 1)
      requires index == 0 < before ==> before <= lookbehind.Length && Like(what, DataBytes(lookbehind[..before]))
      modifies this`state, this`calls, this`events, this`partDataMark, lookbehind
      ensures Faithful() && (thrown <==> index > lookbehind.Length)
      ensures state == if thrown then ParseError else old(state)
      ensures !thrown ==>
        if index > 0 then
          && i' == i && events == old(events) && partDataMark == old(partDataMark)
          && lookbehind[..index] == old(lookbehind[..index - 1]) + [c]
        else if before > 0 then
          i' == i - 1 && partDataMark == i && lookbehind[..] == old(lookbehind[..]) && events == old(events) + what
        else i' == i && events == old(events) && partDataMark == old(partDataMark) && lookbehind[..] == old(lookbehind[..])
      ensures thrown ==> events == old(events) && partDataMark == old(partDataMark)
    {
      hide Like;
      hide Flatten;
      hide DataBytes;
      i', thrown := i, false;
      if index > 0 {
        if index - 1 >= lookbehind.Length {
          state := ParseError;
          thrown := true;
          return;
        }
        lookbehind[index - 1] := c;
      } else if before > 0 {
        Record(OnPartData(lookbehind[..before]), what);
        partDataMark := i;
        i' := i - 1;
      }
    }

    /** The branches on the counter, and what they do to the lookbehind buffer. */
    method MatchStep(cur: Cursor, buffer: seq<byte>, i: nat, ghost m: Machine, ghost what: seq<Event>)
      returns (cur': Cursor, i': int, thrown: bool)
      requires 2 <= |boundary| && lookbehind.Length == |boundary| + LOOKBEHIND_SLACK
      requires i < |buffer| && UNMARKED <= partDataMark <= i && Faithful() && cur.state == PartData
      requires (InPart(boundary, m) || m.phase.Astray?) && cur.index == Index(boundary, m) && cur.flags == Flags(m.partFlag, m.lastFlag)
      requires 0 < cur.index <= |boundary| + 3 ==> Like(what, DataBytes(lookbehind[..cur.index]))
      modifies this`state, this`calls, this`events, this`partDataMark, lookbehind
      ensures Faithful() && (thrown <==> MoveOn(boundary, m, buffer[i]).Throw?)
      ensures state == if thrown then ParseError else old(state)
      ensures MatchStepped(boundary, old(See(cur)), See(cur'), m, buffer, i, i', what)
    {
      hide Like;
      hide Flatten;
      hide DataBytes;
      IndexBounds(boundary, m, buffer[i]);
      hide MoveOn;
      var finished;
      i', thrown := i, false;
      cur', finished := MatchByte(cur, buffer[i], buffer, i, m);
      if !finished {
        i', thrown := KeepOrGiveBack(cur.index, cur'.index, buffer[i], i, what);
      }
      assert forall n: nat :: n <= lookbehind.Length ==> lookbehind[..][..n] == lookbehind[..n];
    }

    lemma IndexBounds(d: seq<byte>, m: Machine, c: byte)
      requires InPart(d, m) || m.phase.Astray?
      ensures
        match MoveOn(d, m, c)
        case Extend => Index(d, m) <= |d| + 2
        case Stay => |d| + 3 < Index(d, m) <= |d| + LOOKBEHIND_SLACK
        case Throw => Index(d, m) > |d| + LOOKBEHIND_SLACK
        case _ => Index(d, m) <= |d| + 3
    {
    }

    /** The stride, with the machine that reads the same bytes. */
    method SkipPartData(cur: Cursor, buffer: seq<byte>, i: nat, ghost t: Trace, ghost goal: Trace, ghost stop: nat)
      returns (i': nat, ghost t': Trace)
      requires i < |buffer| && t.machine.phase == Data(0) && Follows(cur, t, buffer, i)
      requires 2 <= |boundary| && Rest(boundary, t, buffer, i, goal, stop)
      ensures i <= i' <= |buffer| && t'.machine == t.machine && Follows(cur, t', buffer, i')
      ensures Rest(boundary, t', buffer, i', goal, stop)
    {
      hide Like;
      hide Flatten;
      hide Run;
      hide Rest;
      i' := SkipData(buffer, i, t);
      t' := Trace(t.machine, t.log + DataBytes(buffer[i..i']));
      RestSkip(boundary, t, buffer, i, i', goal, stop);
      SkipFollows(boundary, See(cur), t, buffer, i, i');
      hide At;
    }

    /** One byte of part data: what does not extend the candidate gives it back as data and is read again. */
    method MatchPartByte(cur: Cursor, buffer: seq<byte>, i: nat, ghost t: Trace)
      returns (cur': Cursor, i': int, thrown: bool, ghost t': Trace)
      requires i < |buffer| && Follows(cur, t, buffer, i) && cur.state == PartData
      modifies this`state, this`calls, this`events, this`partDataMark, lookbehind
      ensures 2 <= |boundary| && (thrown <==> Then(boundary, t, buffer[i]).machine.phase.Overflow?)
      ensures if thrown then state == ParseError && Shape() && Refused(Then(boundary, t, buffer[i])) else state == old(state)
      ensures !thrown ==> i' == i || (i' == i - 1 && cur'.index == 0 < cur.index)
      ensures !thrown ==> Follows(cur', t', buffer, i' + 1)
      ensures !thrown ==>
        if i' == i then t' == Then(boundary, t, buffer[i]) && !Stopped(t'.machine)
        else Then(boundary, t', buffer[i]) == Then(boundary, t, buffer[i])
    {
      hide *;
      MatchReady(cur, t, buffer, i);
      ghost var v, m := See(cur), t.machine;
      ghost var what := WhatIsHeld(boundary, m);
      cur', i', thrown := MatchStep(cur, buffer, i, m, what);
      t' := Matched(boundary, t, buffer[i], i' < i, what);
      SeeMeans(cur');
      MatchFollows(boundary, v, See(cur'), t, buffer, i, i');
      MatchDone(cur', t, t', buffer, i, i', thrown);
    }

    lemma SeeMeans(cur: Cursor)
      ensures See(cur).cur == cur && See(cur).events == events
    {
    }

    /** What a byte of part data finds. */
    lemma MatchReady(cur: Cursor, t: Trace, buffer: seq<byte>, i: nat)
      requires i < |buffer| && Follows(cur, t, buffer, i) && cur.state == PartData
      ensures Shape() && Faithful() && 2 <= |boundary| && lookbehind.Length == |boundary| + LOOKBEHIND_SLACK
      ensures InPart(boundary, t.machine) || t.machine.phase.Astray?
      ensures cur.index == Index(boundary, t.machine) && cur.flags == Flags(t.machine.partFlag, t.machine.lastFlag)
      ensures UNMARKED <= partDataMark <= i && At(boundary, See(cur), t, buffer, i)
      ensures See(cur).cur == cur && See(cur).data == partDataMark && |See(cur).look| == lookbehind.Length
      ensures 0 < cur.index <= |boundary| + 3 ==> Like(WhatIsHeld(boundary, t.machine), DataBytes(lookbehind[..cur.index]))
    {
      AtMeans(boundary, See(cur), t, buffer, i);
      CanGiveBack(boundary, See(cur), t, buffer, i);
      hide Like;
      hide Flatten;
      assert cur.index <= lookbehind.Length ==> lookbehind[..][..cur.index] == lookbehind[..cur.index];
    }

    lemma MatchDone(cur: Cursor, t: Trace, t': Trace, buffer: seq<byte>, i: nat, i': int, thrown: bool)
      requires i < |buffer| && 2 <= |boundary| && Shape() && Faithful() && (i' == i || i' == i - 1 || thrown)
      requires if thrown then events == Then(boundary, t, buffer[i]).log && Then(boundary, t, buffer[i]).machine.phase.Overflow?
               else At(boundary, See(cur), t', buffer, i' + 1)
      ensures if thrown then Refused(Then(boundary, t, buffer[i])) else Follows(cur, t', buffer, i' + 1)
    {
      hide Like;
      hide Flatten;
      hide At;
      hide Then;
    }

    /** `processPartData`: the loop goes on at offset `i' + 1`, which may be `i` again. */
    method ProcessPartData(cur: Cursor, buffer: seq<byte>, i: nat, ghost t: Trace, ghost goal: Trace, ghost stop: nat)
      returns (cur': Cursor, i': int, thrown: bool, ghost t': Trace)
      requires i < |buffer| && Follows(cur, t, buffer, i) && cur.state == PartData && 2 <= |boundary|
      requires Rest(boundary, t, buffer, i, goal, stop)
      modifies this`state, this`calls, this`events, this`partDataMark, lookbehind
      ensures if thrown then state == ParseError && Shape() && Refused(goal) && goal.machine.phase.Overflow? && stop == i
              else state == old(state)
      ensures !thrown ==> i <= i' <= |buffer| || (i' == i - 1 && cur'.index == 0 < cur.index)
      ensures !thrown ==>
        var n := if i' < |buffer| then i' + 1 else |buffer|;
        Follows(cur', t', buffer, n) && Rest(boundary, t', buffer, n, goal, stop)
    {
      hide *;
      i', thrown, cur', t' := i, false, cur, t;
      CounterAtZero(cur, t, buffer, i);
      if cur.index == 0 {
        i', t' := SkipPartData(cur, buffer, i, t, goal, stop);
        if i' == |buffer| {
          return;
        }
      }
      ghost var u, k := t', i';
      ThrowsWithCounter(u, buffer[k]);
      cur', i', thrown, t' := MatchPartByte(cur, buffer, i', t');
      RestAfter(boundary, u, t', buffer, k, i', thrown, goal, stop);
    }

    lemma CounterAtZero(cur: Cursor, t: Trace, buffer: seq<byte>, i: nat)
      requires i < |buffer| && Follows(cur, t, buffer, i) && cur.state == PartData
      ensures cur.index == 0 ==> t.machine.phase == Data(0)
    {
      AtMeans(boundary, See(cur), t, buffer, i);
    }

    /** What remains to be read after a byte, or before it is read again. */
    lemma RestAfter(
      d: seq<byte>, u: Trace, t: Trace, buffer: seq<byte>, k: nat, i: int, thrown: bool, goal: Trace, stop: nat)
      requires 2 <= |d| && k < |buffer| && Rest(d, u, buffer, k, goal, stop)
      requires thrown <==> Then(d, u, buffer[k]).machine.phase.Overflow?
      requires thrown || i == k || i == k - 1
      requires !thrown && i == k ==> t == Then(d, u, buffer[k]) && !Stopped(t.machine)
      requires !thrown && i == k - 1 ==> Then(d, t, buffer[k]) == Then(d, u, buffer[k])
      ensures if thrown then goal == Then(d, u, buffer[k]) && stop == k else Rest(d, t, buffer, i + 1, goal, stop)
    {
      hide Rest;
      hide Then;
      if thrown || i == k {
        RestThen(d, u, buffer, k, goal, stop);
      } else {
        RestAgain(d, u, t, buffer, k, goal, stop);
      }
    }

    /** The exception is never thrown with the counter at 0. */
    lemma ThrowsWithCounter(t: Trace, c: byte)
      requires 2 <= |boundary|
      ensures t.machine.phase == Data(0) ==> !Then(boundary, t, c).machine.phase.Overflow?
    {
      if t.machine.phase == Data(0) { ThenInPart(boundary, t, c); }
    }

    // ----- Outside part data -----

    /** The byte at offset `i` was refused, or the parser followed the machine over it. */
    ghost predicate Heeded(cur: Cursor, t: Trace, buffer: seq<byte>, i: nat, refused: bool)
      requires i < |buffer|
      reads this, lookbehind, boundaryIndex
    {
      Shape() && Faithful() && (refused ==> state == ParseError) && Followed(boundary, See(cur), t, buffer, i, refused)
    }

    method SetError()
      modifies this`state
      ensures state == ParseError
    {
      state := ParseError;
    }

    /** A byte of the first line. */
    method FirstLineByte(cur: Cursor, buffer: seq<byte>, i: nat, ghost t: Trace) returns (cur': Cursor, refused: bool)
      requires i < |buffer| && Follows(cur, t, buffer, i)
      requires cur.state == Start || cur.state == StartBoundary
      modifies this`state, this`calls, this`events
      ensures Heeded(cur', t, buffer, i, refused) && (refused || state == old(state))
    {
      hide Like;
      hide Flatten;
      ghost var v := See(cur);
      AtMeans(boundary, v, t, buffer, i);
      assert cur.state == StartBoundary ==> cur.index < |boundary|;
      hide At;
      hide Followed;
      cur', refused := FirstLineStep(cur, buffer[i]);
      FirstLineFollows(boundary, v, See(cur'), t, buffer, i, refused);
    }

    /** The tests on a byte of the first line. */
    method FirstLineStep(cur: Cursor, c: byte) returns (cur': Cursor, refused: bool)
      requires 2 <= |boundary| && Faithful() && (cur.state == Start || (cur.state == StartBoundary && cur.index < |boundary|))
      modifies this`state, this`calls, this`events
      ensures Faithful() && state == if refused then ParseError else old(state)
      ensures FirstLineStepped(boundary, old(See(cur)), See(cur'), c, refused)
    {
      hide Like;
      hide Flatten;
      var index := if cur.state == Start then 0 else cur.index;
      cur' := Cursor(StartBoundary, cur.flags, index + 1);
      refused := false;
      if index == |boundary| - 2 {
        if c != CR {
          SetError();
          refused := true;
        }
      } else if index == |boundary| - 1 {
        if c != LF {
          SetError();
          refused := true;
        } else {
          Callback(OnPartBegin);
          cur' := Cursor(HeaderFieldStart, cur.flags, 0);
        }
      } else if c != boundary[index + 2] {
        SetError();
        refused := true;
      }
    }

    /** A byte of a header name, or of the empty line that ends the headers. */
    method HeaderNameByte(cur: Cursor, buffer: seq<byte>, i: nat, ghost t: Trace) returns (cur': Cursor, refused: bool)
      requires i < |buffer| && Follows(cur, t, buffer, i)
      requires cur.state == HeaderFieldStart || cur.state == HeaderField
      modifies this`state, this`calls, this`events, this`headerFieldMark
      ensures Heeded(cur', t, buffer, i, refused) && (refused || state == old(state))
    {
      hide Like;
      hide Flatten;
      ghost var v := See(cur);
      AtMeans(boundary, v, t, buffer, i);
      hide At;
      hide Followed;
      cur', refused := NameByteStep(cur, buffer, i);
      NameFollows(boundary, v, See(cur'), t, buffer, i, refused);
    }

    /** The case analysis on a byte of a name. */
    method NameByteStep(cur: Cursor, buffer: seq<byte>, i: nat) returns (cur': Cursor, refused: bool)
      requires i < |buffer| && UNMARKED <= headerFieldMark <= i && Faithful()
      requires cur.state == HeaderFieldStart || cur.state == HeaderField
      modifies this`state, this`calls, this`events, this`headerFieldMark
      ensures Faithful() && state == if refused then ParseError else old(state)
      ensures NameStepped(old(See(cur)), See(cur'), buffer, i, refused)
    {
      hide FieldBytes;
      hide Like;
      hide Flatten;
      var c, index := buffer[i], cur.index;
      refused := false;
      if cur.state == HeaderFieldStart {
        headerFieldMark := i;
        index := 0;
      }
      if c == CR {
        headerFieldMark := UNMARKED;
        cur' := Cursor(HeadersAlmostDoneState, cur.flags, index);
        return;
      }
      index := index + 1;
      cur' := Cursor(HeaderField, cur.flags, index);
      if c == HYPHEN {
        return;
      }
      if c == COLON {
        if index == 1 {
          SetError();
          refused := true;
          return;
        }
        headerFieldMark := DataCallback(FieldKind, headerFieldMark, buffer, i, true, false);
        cur' := Cursor(HeaderValueStart, cur.flags, index);
        return;
      }
      if Lower(c) < 97 || Lower(c) > 122 {
        SetError();
        refused := true;
      }
    }

    /** A byte of a header value. */
    method HeaderValueByte(cur: Cursor, buffer: seq<byte>, i: nat, ghost t: Trace) returns (cur': Cursor)
      requires i < |buffer| && Follows(cur, t, buffer, i)
      requires cur.state == HeaderValueStart || cur.state == HeaderValue
      modifies this`calls, this`events, this`headerValueMark
      ensures Heeded(cur', t, buffer, i, false)
    {
      hide Like;
      hide Flatten;
      ghost var v := See(cur);
      AtMeans(boundary, v, t, buffer, i);
      hide At;
      hide Followed;
      cur' := ValueByteStep(cur, buffer, i);
      ValueFollows(boundary, v, See(cur'), t, buffer, i);
    }

    method ValueByteStep(cur: Cursor, buffer: seq<byte>, i: nat) returns (cur': Cursor)
      requires i < |buffer| && UNMARKED <= headerValueMark <= i && (cur.state == HeaderValueStart || cur.state == HeaderValue)
      requires Faithful()
      modifies this`calls, this`events, this`headerValueMark
      ensures Faithful() && ValueStepped(old(See(cur)), See(cur'), buffer, i)
    {
      hide ValueBytes;
      hide Like;
      hide Flatten;
      var c := buffer[i];
      cur' := cur;
      if cur.state == HeaderValueStart {
        if c == SPACE {
          return;
        }
        headerValueMark := i;
        cur' := cur.(state := HeaderValue);
      }
      if c == CR {
        headerValueMark := DataCallback(ValueKind, headerValueMark, buffer, i, true, true);
        Callback(OnHeaderEnd);
        cur' := cur.(state := HeaderValueAlmostDone);
      }
    }

    /** A byte after the CR that ends a line, or after the end of the stream. */
    method LineEndByte(cur: Cursor, buffer: seq<byte>, i: nat, ghost t: Trace) returns (cur': Cursor, refused: bool)
      requires i < |buffer| && Follows(cur, t, buffer, i)
      requires cur.state == HeaderValueAlmostDone || cur.state == HeadersAlmostDoneState || cur.state == End
      modifies this`state, this`calls, this`events
      ensures Heeded(cur', t, buffer, i, refused) && (refused || state == old(state))
    {
      hide Like;
      hide Flatten;
      ghost var v := See(cur);
      AtMeans(boundary, v, t, buffer, i);
      AtLineEnd(boundary, v, t, buffer, i);
      hide At;
      hide Followed;
      cur', refused := LineEndStep(cur, buffer[i]);
      LineEndFollows(boundary, v, See(cur'), t, buffer, i, refused);
    }

    method LineEndStep(cur: Cursor, c: byte) returns (cur': Cursor, refused: bool)
      requires cur.state == HeaderValueAlmostDone || cur.state == HeadersAlmostDoneState || cur.state == End
      requires Faithful()
      modifies this`state, this`calls, this`events
      ensures Faithful() && state == if refused then ParseError else old(state)
      ensures LineEndStepped(old(See(cur)), See(cur'), c, refused)
    {
      hide Like;
      hide Flatten;
      cur', refused := cur, false;
      if cur.state == HeaderValueAlmostDone {
        if c != LF {
          SetError();
          refused := true;
          return;
        }
        cur' := cur.(state := HeaderFieldStart);
      } else if cur.state == HeadersAlmostDoneState {
        if c != LF {
          SetError();
          refused := true;
          return;
        }
        Callback(OnHeadersEnd);
        cur' := cur.(state := PartDataStart);
      }
    }

    /** A byte outside part data, by state. */
    method SwitchByte(cur: Cursor, buffer: seq<byte>, i: nat, ghost t: Trace) returns (cur': Cursor, refused: bool)
      requires i < |buffer| && Follows(cur, t, buffer, i)
      requires cur.state != PartDataStart && cur.state != PartData
      modifies this`state, this`calls, this`events, this`headerFieldMark, this`headerValueMark
      ensures Heeded(cur', t, buffer, i, refused) && (refused || state == old(state))
    {
      AtMeans(boundary, See(cur), t, buffer, i);
      hide Heeded;
      hide Follows;
      refused := false;
      if cur.state == Start || cur.state == StartBoundary {
        cur', refused := FirstLineByte(cur, buffer, i, t);
      } else if cur.state == HeaderFieldStart || cur.state == HeaderField {
        cur', refused := HeaderNameByte(cur, buffer, i, t);
      } else if cur.state == HeaderValueStart || cur.state == HeaderValue {
        cur' := HeaderValueByte(cur, buffer, i, t);
      } else {
        cur', refused := LineEndByte(cur, buffer, i, t);
      }
    }

    /** The first byte of a part's data: the mark is set, and the counter is whatever the header line left. */
    method StartPartData(cur: Cursor, buffer: seq<byte>, i: nat, ghost t: Trace, ghost goal: Trace, ghost stop: nat)
      returns (cur': Cursor, ghost t': Trace)
      requires i < |buffer| && cur.state == PartDataStart && Follows(cur, t, buffer, i) && 2 <= |boundary|
      requires Rest(boundary, t, buffer, i, goal, stop)
      modifies this`partDataMark
      ensures cur' == cur.(state := PartData) && Follows(cur', t', buffer, i) && Rest(boundary, t', buffer, i, goal, stop)
    {
      ghost var v := See(cur);
      AtMeans(boundary, v, t, buffer, i);
      StartFollows(boundary, v, t, buffer, i);
      ThenAtDataStart(boundary, t, buffer[i]);
      hide Like;
      hide Flatten;
      hide At;
      hide Rest;
      hide Then;
      partDataMark := i;
      cur' := cur.(state := PartData);
      t' := t.(machine := Started(t.machine));
      RestAgain(boundary, t, t', buffer, i, goal, stop);
      assert See(cur') == v.(cur := cur', data := i);
    }

    // ----- The end of a buffer -----

    /** The end of a buffer: the marked bytes are handed over, and the marks move to the start of the next one. */
    method HandOver(buffer: seq<byte>, ghost cur: Cursor)
      requires MarksWithin(See(cur), |buffer|) && Faithful()
      modifies this`calls, this`events, this`headerFieldMark, this`headerValueMark, this`partDataMark
      ensures Faithful() && See(cur) == HandedOver(old(See(cur)), buffer)
    {
      hide Like;
      hide Flatten;
      hide FieldBytes;
      hide ValueBytes;
      hide DataBytes;
      ghost var field, value := FieldBytes(Since(headerFieldMark, buffer, |buffer|)), ValueBytes(Since(headerValueMark, buffer, |buffer|));
      ghost var data := DataBytes(Since(partDataMark, buffer, |buffer|));
      Concat4(events, field, value, data);
      headerFieldMark := DataCallback(FieldKind, headerFieldMark, buffer, |buffer|, false, false);
      headerValueMark := DataCallback(ValueKind, headerValueMark, buffer, |buffer|, false, false);
      partDataMark := DataCallback(DataKind, partDataMark, buffer, |buffer|, false, false);
    }

    lemma Concat4(a: seq<Event>, b: seq<Event>, c: seq<Event>, d: seq<Event>)
      ensures a + b + c + d == a + (b + c + d)
    {
    }

    /** The end of a call of `Feed`: the cursor is written back. */
    method EndFeed(cur: Cursor, buffer: seq<byte>, ghost t: Trace)
      requires Follows(cur, t, buffer, |buffer|)
      modifies this
      ensures Valid() && trace == Flush(t)
    {
      ghost var v := See(cur);
      AtMeans(boundary, v, t, buffer, |buffer|);
      EndFollows(boundary, v, t, buffer);
      FlushTwice(t);
      hide Like;
      hide Flatten;
      hide At;
      hide Flush;
      HandOver(buffer, cur);
      index, state, flags := cur.index, cur.state, cur.flags;
      trace := Flush(t);
      assert See(Cursor(state, flags, index)) == HandedOver(v, buffer);
    }

    // ----- The loop -----

    /** Where the loop of `Feed` is. */
    ghost predicate Running(cur: Cursor, t: Trace, buffer: seq<byte>, n: nat, goal: Trace, stop: nat)
      requires n <= |buffer|
      reads this, lookbehind, boundaryIndex
    {
      Follows(cur, t, buffer, n) && 2 <= |boundary| && Rest(boundary, t, buffer, n, goal, stop)
    }

    /** What one turn of the loop leaves: the next offset is further on, or the counter has been cleared. */
    ghost predicate Turned(cur: Cursor, cur': Cursor, t': Trace, buffer: seq<byte>, i: nat, i': int, goal: Trace, stop: nat)
      reads this, lookbehind, boundaryIndex
    {
      && (i < i' <= |buffer| + 1 || (i' == i < |buffer| && cur'.index == 0 < cur.index))
      && Running(cur', t', buffer, if i' < |buffer| then i' else |buffer|, goal, stop)
    }

    /** A byte of part data. */
    method PartByte(cur: Cursor, buffer: seq<byte>, i: nat, ghost t: Trace, ghost goal: Trace, ghost stop: nat)
      returns (cur': Cursor, i': nat, thrown: bool, ghost t': Trace)
      requires i < |buffer| && Running(cur, t, buffer, i, goal, stop)
      requires cur.state == PartDataStart || cur.state == PartData
      modifies this`state, this`calls, this`events, this`partDataMark, lookbehind
      ensures !thrown ==> Turned(cur, cur', t', buffer, i, i', goal, stop) && state == old(state)
      ensures thrown ==> state == ParseError && Shape() && Refused(goal) && goal.machine.phase.Overflow? && stop == i
    {
      hide Rest;
      hide Follows;
      hide Shape;
      hide Refused;
      cur', t', i' := cur, t, i;
      if cur.state == PartDataStart {
        cur', t' := StartPartData(cur, buffer, i, t, goal, stop);
      }
      var j;
      cur', j, thrown, t' := ProcessPartData(cur', buffer, i, t', goal, stop);
      if !thrown {
        i' := j + 1;
      }
    }

    /** The switch in the loop of `Feed`; `i'` is the offset of the next iteration. */
    method Iterate(cur: Cursor, buffer: seq<byte>, i: nat, ghost t: Trace, ghost goal: Trace, ghost stop: nat)
      returns (cur': Cursor, i': nat, refused: bool, thrown: bool, ghost t': Trace)
      requires i < |buffer| && Running(cur, t, buffer, i, goal, stop)
      modifies this, lookbehind
      ensures !refused && !thrown ==> Turned(cur, cur', t', buffer, i, i', goal, stop) && state == old(state)
      ensures refused || thrown ==> state == ParseError && Shape() && Refused(goal) && stop == i
      ensures (refused ==> goal.machine.phase.Failed?) && (thrown ==> goal.machine.phase.Overflow?)
      ensures trace == old(trace)
    {
      hide Rest;
      hide Follows;
      hide Shape;
      hide Then;
      hide Refused;
      refused, thrown, t' := false, false, t;
      if cur.state == PartDataStart || cur.state == PartData {
        cur', i', thrown, t' := PartByte(cur, buffer, i, t, goal, stop);
      } else {
        cur', refused := SwitchByte(cur, buffer, i, t);
        i' := i + 1;
        t' := Then(boundary, t, buffer[i]);
        HeedsMeans(cur', t, buffer, i, refused);
        RestThen(boundary, t, buffer, i, goal, stop);
        if !refused { NotStopped(boundary, See(cur'), t', buffer, i + 1); }
      }
    }

    lemma HeedsMeans(cur: Cursor, t: Trace, buffer: seq<byte>, i: nat, refused: bool)
      requires i < |buffer| && Heeded(cur, t, buffer, i, refused)
      ensures 2 <= |boundary| && Shape()
      ensures var u := Then(boundary, t, buffer[i]);
              if refused then state == ParseError && u.machine.phase.Failed? && Refused(u)
              else Follows(cur, u, buffer, i + 1) && At(boundary, See(cur), u, buffer, i + 1)
    {
      hide Like;
      hide Flatten;
      hide At;
      hide Then;
    }

    /** The call ends early: the machine is left where it stopped. */
    ghost method StopEarly(goal: Trace)
      requires Shape() && state == ParseError && Refused(goal)
      modifies this`trace
      ensures Valid() && trace == Flush(goal)
    {
      hide Like;
      hide Flatten;
      trace := goal;
    }

    /** The buffer is used up. */
    method EndScan(cur: Cursor, buffer: seq<byte>, ghost t: Trace, ghost goal: Trace, ghost stop: nat)
      requires Running(cur, t, buffer, |buffer|, goal, stop)
      modifies this
      ensures Valid() && trace == Flush(goal) && stop == |buffer| && !Stopped(goal.machine)
    {
      NotStopped(boundary, See(cur), t, buffer, |buffer|);
      hide Follows;
      hide Valid;
      RestEnd(boundary, t, buffer, goal, stop);
      EndFeed(cur, buffer, t);
    }

    /** The loop of `Feed`. */
    method Scan(buffer: seq<byte>, ghost goal: Trace, ghost stop: nat) returns (ret: nat, thrown: bool)
      requires state != ParseError && Running(Cursor(state, flags, index), trace, buffer, 0, goal, stop)
      modifies this, lookbehind
      ensures Valid() && trace == Flush(goal) && ret == stop
      ensures thrown <==> goal.machine.phase.Overflow?
    {
      hide Running;
      hide Valid;
      hide Shape;
      hide Flush;
      hide Refused;
      thrown := false;
      var cur := Cursor(state, flags, index);
      var i := 0;
      ghost var t := trace;
      while i < |buffer|
        invariant 0 <= i <= |buffer| + 1
        invariant Running(cur, t, buffer, if i < |buffer| then i else |buffer|, goal, stop)
        invariant state != ParseError && !thrown
        decreases 2 * (|buffer| - i) + (if cur.index > 0 then 1 else 0)
      {
        var j, refused;
        cur, j, refused, thrown, t := Iterate(cur, buffer, i, t, goal, stop);
        if refused || thrown {
          StopEarly(goal);
          return i, thrown;
        }
        i := j;
      }
      EndScan(cur, buffer, t, goal, stop);
      ret := |buffer|;
    }

    /**
     `feed`. For every buffer, whatever came before it, the parser ends where the byte-at-a-time machine ends, its
     callbacks have been given the machine's events, and it returns the number of bytes before the one that was refused
     or thrown at. The exception is thrown exactly when the machine's counter runs past the lookbehind buffer.
     */
    method Feed(buffer: seq<byte>) returns (ret: nat, thrown: bool)
      requires Valid()
      modifies this, lookbehind
      ensures Valid() && 2 <= |boundary|
      ensures trace == MultipartMachine.Feed(boundary, old(trace), buffer)
      ensures Like(trace.log, Flatten(calls)) && (Leftover !in trace.log ==> Flatten(calls) == trace.log)
      ensures ret == Consumed(boundary, old(trace), buffer)
      ensures thrown <==> trace.machine.phase.Overflow? && !old(trace).machine.phase.Overflow?
    {
      hide Valid;
      hide Running;
      hide Run;
      hide Consumed;
      hide Flush;
      hide Flatten;
      hide Like;
      hide MultipartMachine.Feed;
      ret, thrown := 0, false;
      if state == ParseError || |buffer| == 0 {
        NothingToRead(buffer);
      } else {
        StartsRunning(buffer);
        ghost var goal, stop := Run(boundary, trace, buffer), Consumed(boundary, trace, buffer);
        ret, thrown := Scan(buffer, goal, stop);
        FeedIs(boundary, old(trace), buffer);
      }
      EventsAreLog();
      if Leftover !in trace.log { LikeIsSame(trace.log, Flatten(calls)); }
    }

    lemma FeedIs(d: seq<byte>, t: Trace, s: seq<byte>)
      requires 2 <= |d|
      ensures var u := Run(d, t, s);
              MultipartMachine.Feed(d, t, s) == Flush(u) && Flush(u).machine.phase.Overflow? == u.machine.phase.Overflow?
    {
    }

    /** After a refusal, or without bytes, a call changes nothing. */
    lemma NothingToRead(buffer: seq<byte>)
      requires Valid() && (state == ParseError || buffer == [])
      ensures 2 <= |boundary| && MultipartMachine.Feed(boundary, trace, buffer) == trace
      ensures Consumed(boundary, trace, buffer) == 0
    {
      hide Like;
      hide Flatten;
      hide Then;
      if state == ParseError {
        StoppedStays(boundary, trace, buffer);
        hide Run;
      }
    }

    lemma StartsRunning(buffer: seq<byte>)
      requires Valid() && state != ParseError
      ensures 2 <= |boundary| && !Stopped(trace.machine)
      ensures Running(Cursor(state, flags, index), trace, buffer, 0, Run(boundary, trace, buffer), Consumed(boundary, trace, buffer))
    {
      hide Like;
      hide Flatten;
      hide Run;
      hide Consumed;
      ghost var v := See(Cursor(state, flags, index));
      NotStopped(boundary, v, trace, [], 0);
      assert buffer[0..] == buffer;
      SameAtStart(boundary, v, trace, buffer);
      hide At;
    }

    lemma Flushed()
      requires Valid()
      ensures 2 <= |boundary| && Flush(trace) == trace
    {
      hide Like;
      hide Flatten;
    }

    lemma StoppedFeed(t: Trace, s: seq<byte>)
      requires 2 <= |boundary| && Stopped(t.machine)
      ensures MultipartMachine.Feed(boundary, t, s) == t
    {
      StoppedStays(boundary, t, s);
      hide Run;
    }

    /**
     A stream that arrives in pieces. The parser ends where the machine ends; when every header line has a colon that is
     what one pass over the joined bytes shows, wherever the cuts are.
     */
    method FeedStream(cuts: seq<seq<byte>>) returns (thrown: bool)
      requires Valid() && !trace.machine.phase.Overflow?
      modifies this, lookbehind
      ensures Valid() && 2 <= |boundary| && trace == FeedAll(boundary, old(trace), cuts)
      ensures Like(trace.log, Flatten(calls)) && (Leftover !in trace.log ==> Flatten(calls) == trace.log)
      ensures thrown <==> trace.machine.phase.Overflow?
      ensures old(trace) == Begin() && Good(Run(boundary, Begin(), Join(cuts)).machine) ==>
        trace == Flush(Run(boundary, Begin(), Join(cuts)))
    {
      hide Valid;
      hide Flatten;
      hide Like;
      hide Flush;
      hide MultipartMachine.Feed;
      hide Run;
      Flushed();
      ghost var start := trace;
      thrown := false;
      var n := 0;
      assert cuts[..0] == [];
      while n < |cuts|
        invariant 0 <= n <= |cuts| && Valid()
        invariant trace == FeedAll(boundary, start, cuts[..n]) && (thrown <==> trace.machine.phase.Overflow?)
      {
        ghost var before := trace;
        var ret, threw := Feed(cuts[n]);
        if before.machine.phase.Overflow? { StoppedFeed(before, cuts[n]); }
        thrown := thrown || threw;
        n := n + 1;
        assert cuts[..n][..n - 1] == cuts[..n - 1];
      }
      assert cuts[..n] == cuts;
      Flushed();
      EventsAreLog();
      if Leftover !in trace.log { LikeIsSame(trace.log, Flatten(calls)); }
      if start == Begin() && Good(Run(boundary, Begin(), Join(cuts)).machine) {
        FeedAllIsRun(boundary, Begin(), cuts);
      }
    }
  }
}
