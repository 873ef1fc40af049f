/**
 The multipart/form-data parser, read one byte at a time.

 `Step` says what each byte does to the parser and which bytes it hands to its callbacks.
 Callbacks are recorded byte by byte, so two event sequences are equal exactly when the
 callbacks agree once adjacent data callbacks are joined.
 */
module MultipartMachine {
  import opened Bytes

  datatype Event =
    | PartBegin
    | FieldByte(b: byte)
    | ValueByte(b: byte)
    | HeaderEnd
    | HeadersEnd
    | DataByte(b: byte)
    | PartEnd
    | StreamEnd
    | Leftover                // a data byte from a place of the lookbehind buffer not written for this part

  /**
   `Field` holds the name bytes that no callback has seen yet: they are handed over at the
   colon or at the end of a buffer, and are lost when the line ends without a colon.
   The parser's counter is not reset by such a line; `carried` is the value it takes into
   the part's data (0 when the line was empty).
   */
  datatype Phase =
    | Failed
    | FirstLine(at: nat)
    | FieldStart
    | Field(count: nat, held: seq<byte>)
    | ValueStart
    | Value
    | ValueAlmostDone
    | HeadersAlmostDone(carried: nat)
    | DataStart(carried: nat)
    | Data(matched: nat)      // `matched` bytes of the delimiter are held back
    | Tail(last: byte)        // the whole delimiter and one more byte are held back
    | Astray(from: nat, kept: seq<byte>)  // data read with a carried counter: `from` when it started, `kept` held back since
    | Finished
    | Overflow                // the counter ran past the lookbehind buffer: an exception

  /**
   What header lines without a colon have left behind. When data starts with a carried counter the parser's data mark
   is set although bytes are held back. While it stays set, the bytes since the mark are handed over as data at the end
   of the buffer, whatever else they are.
   */
  datatype Trail =
    | Straight                      // every header line that ended had a colon
    | Strayed                       // one had none
    | Leaking(bytes: seq<byte>)     // one had none, and the data mark is still set: these bytes follow it

  datatype Machine = Machine(phase: Phase, partFlag: bool, lastFlag: bool, trail: Trail)

  datatype Outcome = Outcome(machine: Machine, events: seq<Event>)

  const LOOKBEHIND_SLACK := 8

  function Initial(): (m: Machine) { Machine(FirstLine(0), false, false, Straight) }

  function Lower(c: byte): (r: byte) {
    if c / 32 % 2 == 1 then c else c + 32
  }

  predicate IsNameByte(c: byte) {
    c == HYPHEN || 97 <= Lower(c) <= 122
  }

  /** Names are made of letters and hyphens. */
  lemma NameByteIff(c: byte)
    ensures IsNameByte(c) <==> c == '-' as int || 'A' as int <= c <= 'Z' as int || 'a' as int <= c <= 'z' as int
  {
  }

  /** A byte after the data mark. */
  function Leak(trail: Trail, c: byte): (r: Trail) {
    if trail.Leaking? then Leaking(trail.bytes + [c]) else trail
  }

  function Leaked(m: Machine, c: byte): (r: Machine) { m.(trail := Leak(m.trail, c)) }

  /** The data mark is set anew or given up. */
  function Closed(trail: Trail): (r: Trail) { if trail.Straight? then Straight else Strayed }

  /** A name of `count` bytes ended without a colon. */
  function Stray(trail: Trail, count: nat): (r: Trail) { if count > 0 && trail.Straight? then Strayed else trail }

  function FieldBytes(s: seq<byte>): (r: seq<Event>) { seq(|s|, i requires 0 <= i < |s| => FieldByte(s[i])) }

  function ValueBytes(s: seq<byte>): (r: seq<Event>) { seq(|s|, i requires 0 <= i < |s| => ValueByte(s[i])) }

  function DataBytes(s: seq<byte>): (r: seq<Event>) { seq(|s|, i requires 0 <= i < |s| => DataByte(s[i])) }

  /** A delimiter candidate failed: what was held back is data, and `c` is looked at afresh. */
  function Restart(d: seq<byte>, m: Machine, held: seq<byte>, c: byte): (r: Outcome)
    requires 0 < |d|
  {
    if c == d[0] then Outcome(m.(phase := Data(1)), DataBytes(held))
    else Outcome(m.(phase := Data(0)), DataBytes(held + [c]))
  }

  function StepFirstLine(d: seq<byte>, m: Machine, c: byte): (r: Outcome)
    requires 2 <= |d| && m.phase.FirstLine?
  {
    var at := m.phase.at;
    if at == |d| - 2 then
      Outcome(m.(phase := if c == CR then FirstLine(at + 1) else Failed), [])
    else if at == |d| - 1 then
      if c == LF then Outcome(m.(phase := FieldStart), [PartBegin]) else Outcome(m.(phase := Failed), [])
    else if at < |d| - 2 && c == d[at + 2] then
      Outcome(m.(phase := FirstLine(at + 1)), [])
    else
      Outcome(m.(phase := Failed), [])
  }

  function StepField(m: Machine, count: nat, held: seq<byte>, c: byte): (r: Outcome) {
    if c == CR then Outcome(m.(phase := HeadersAlmostDone(count), trail := Stray(m.trail, count)), [])
    else if c == COLON then
      if count == 0 then Outcome(m.(phase := Failed), [])
      else Outcome(m.(phase := ValueStart), FieldBytes(held))
    else if IsNameByte(c) then Outcome(m.(phase := Field(count + 1, held + [c])), [])
    else Outcome(m.(phase := Failed), [])
  }

  function StepValue(m: Machine, c: byte): (r: Outcome) {
    if c == CR then Outcome(m.(phase := ValueAlmostDone), [HeaderEnd])
    else Outcome(m.(phase := Value), [ValueByte(c)])
  }

  /** What a byte does while a part's data is read. */
  datatype Move = Extend | Retry | NextPart | LastPart | Stay | Throw

  predicate InPart(d: seq<byte>, m: Machine) {
    (m.phase.Data? && m.phase.matched <= |d|) || m.phase.Tail?
  }

  /** The parser's counter. */
  function Index(d: seq<byte>, m: Machine): (n: nat)
    requires InPart(d, m) || m.phase.Astray?
  {
    if m.phase.Data? then m.phase.matched else if m.phase.Tail? then |d| + 1 else m.phase.from + |m.phase.kept|
  }

  /**
   The branches on the counter. Past the delimiter and one byte it only comes by being carried in; from |d| + 4 on it
   never changes again.
   */
  function MoveAt(d: seq<byte>, index: nat, partFlag: bool, lastFlag: bool, c: byte): (r: Move) {
    if index < |d| then (if c == d[index] then Extend else Retry)
    else if index == |d| then (if c == CR || c == HYPHEN then Extend else Retry)
    else if index == |d| + 1 then
      // the part flag is looked at first, and only a part delimiter that completes clears it
      if partFlag then (if c == LF then NextPart else Retry)
      else if lastFlag && c == HYPHEN then LastPart
      else Retry
    else if index == |d| + 2 then (if c == CR then Extend else Retry)
    else if index == |d| + 3 then (if c == LF then LastPart else Retry)
    else if index <= |d| + LOOKBEHIND_SLACK then Stay
    else Throw
  }

  /** The bytes held back: a prefix of the delimiter, or all of it and one more byte. */
  function Held(d: seq<byte>, m: Machine): (r: seq<byte>)
    requires InPart(d, m)
  {
    if m.phase.Data? then d[..m.phase.matched] else d + [m.phase.last]
  }

  function MoveOn(d: seq<byte>, m: Machine, c: byte): (r: Move)
    requires InPart(d, m) || m.phase.Astray?
  {
    MoveAt(d, Index(d, m), m.partFlag, m.lastFlag, c)
  }

  /** The flags that the byte after the delimiter sets. */
  function Flagged(d: seq<byte>, m: Machine, index: nat, c: byte): (r: Machine) {
    if index != |d| then m else if c == CR then m.(partFlag := true) else m.(lastFlag := true)
  }

  function Extended(d: seq<byte>, m: Machine, c: byte): (r: Machine)
    requires InPart(d, m) && m.phase.Data?
  {
    if m.phase.matched < |d| then m.(phase := Data(m.phase.matched + 1))
    else Flagged(d, m, |d|, c).(phase := Tail(c))
  }

  function StepPart(d: seq<byte>, m: Machine, c: byte): (r: Outcome)
    requires 0 < |d| && InPart(d, m)
  {
    match MoveOn(d, m, c)
    case Extend => Outcome(Extended(d, m, c), [])
    case Retry => Restart(d, m, Held(d, m), c)
    case NextPart => Outcome(m.(phase := FieldStart, partFlag := false), [PartEnd, PartBegin])
    case LastPart => Outcome(m.(phase := Finished), [PartEnd, StreamEnd])
    case _ => Outcome(m, [])
  }

  /** Data handed over from places of the lookbehind buffer that were not written for this part. */
  function Leftovers(n: nat): (r: seq<Event>) { seq(n, i => Leftover) }

  /** What is given back when a candidate with a carried counter fails. */
  function GivenBack(m: Machine): (r: seq<Event>)
    requires m.phase.Astray?
  {
    Leftovers(m.phase.from) + DataBytes(m.phase.kept)
  }

  /** A byte of data while the counter is not what this part's data brought it to. */
  function StepAstray(d: seq<byte>, m: Machine, c: byte): (r: Outcome)
    requires 0 < |d| && m.phase.Astray?
  {
    var index := Index(d, m);
    match MoveAt(d, index, m.partFlag, m.lastFlag, c)
    case Extend => Outcome(Leaked(Flagged(d, m, index, c), c).(phase := Astray(m.phase.from, m.phase.kept + [c])), [])
    case Retry =>
      var o := StepPart(d, m.(phase := Data(0), trail := Strayed), c);
      Outcome(o.machine, GivenBack(m) + o.events)
    case NextPart => Outcome(Leaked(m, c).(phase := FieldStart, partFlag := false), [PartEnd, PartBegin])
    case LastPart => Outcome(Leaked(m, c).(phase := Finished), [PartEnd, StreamEnd])
    case Stay => Outcome(Leaked(m, c), [])
    case Throw => Outcome(m.(phase := Overflow), [])
  }

  /** A byte outside part data. */
  function StepHead(d: seq<byte>, m: Machine, c: byte): (r: Outcome)
    requires 2 <= |d|
  {
    match m.phase
    case FirstLine(_) => StepFirstLine(d, m, c)
    case FieldStart => StepField(m, 0, [], c)
    case Field(count, held) => StepField(m, count, held, c)
    case ValueStart => if c == SPACE then Outcome(m, []) else StepValue(m, c)
    case Value => StepValue(m, c)
    case ValueAlmostDone => Outcome(m.(phase := if c == LF then FieldStart else Failed), [])
    case HeadersAlmostDone(k) =>
      if c == LF then Outcome(m.(phase := DataStart(k)), [HeadersEnd]) else Outcome(m.(phase := Failed), [])
    case _ => Outcome(m, [])
  }

  /** Where the data of a part starts: with nothing held back, or with a carried counter. */
  function Started(m: Machine): (r: Machine)
    requires m.phase.DataStart?
  {
    if m.phase.carried == 0 then m.(phase := Data(0), trail := Closed(m.trail))
    else m.(phase := Astray(m.phase.carried, []), trail := Leaking([]))
  }

  function Step(d: seq<byte>, m: Machine, c: byte): (r: Outcome)
    requires 2 <= |d|
  {
    match m.phase
    case Failed => Outcome(m, [])
    case Overflow => Outcome(m, [])
    case DataStart(k) => if k == 0 then StepPart(d, Started(m), c) else StepAstray(d, Started(m), c)
    case Data(matched) => if matched <= |d| then StepPart(d, m, c) else Outcome(m, [])
    case Tail(last) => StepPart(d, m, c)
    case Astray(_, _) => StepAstray(d, m, c)
    case _ => var o := StepHead(d, m, c); Outcome(Leaked(o.machine, c), o.events)
  }

  /** Nothing is read any more: a byte was refused, or the exception was thrown. */
  predicate Stopped(m: Machine) { m.phase.Failed? || m.phase.Overflow? }

  /** A parser and everything its callbacks have been given so far. */
  datatype Trace = Trace(machine: Machine, log: seq<Event>)

  function Begin(): (t: Trace) { Trace(Initial(), []) }

  function Then(d: seq<byte>, t: Trace, c: byte): (r: Trace)
    requires 2 <= |d|
  {
    var o := Step(d, t.machine, c);
    Trace(o.machine, t.log + o.events)
  }

  /** A byte of the first line. */
  lemma ThenInFirstLine(d: seq<byte>, t: Trace, c: byte)
    requires 2 <= |d| && t.machine.phase.FirstLine?
    ensures
      var at, m := t.machine.phase.at, Leaked(t.machine, c);
      Then(d, t, c) ==
        if at == |d| - 1 && c == LF then Trace(m.(phase := FieldStart), t.log + [PartBegin])
        else if (at == |d| - 2 && c == CR) || (at < |d| - 2 && c == d[at + 2]) then Trace(m.(phase := FirstLine(at + 1)), t.log)
        else Trace(m.(phase := Failed), t.log)
  {
    assert t.log + [] == t.log;
  }

  /** A byte of a header name, or the one that ends it. */
  lemma ThenInName(d: seq<byte>, t: Trace, c: byte)
    requires 2 <= |d| && (t.machine.phase.FieldStart? || t.machine.phase.Field?)
    ensures
      var count := if t.machine.phase.Field? then t.machine.phase.count else 0;
      var held := if t.machine.phase.Field? then t.machine.phase.held else [];
      var u := Then(d, t, c);
      var m := Leaked(t.machine, c);
      if c == CR then u == Trace(m.(phase := HeadersAlmostDone(count), trail := Stray(m.trail, count)), t.log)
      else if c == COLON && count != 0 then u == Trace(m.(phase := ValueStart), t.log + FieldBytes(held))
      else if c != COLON && IsNameByte(c) then u == Trace(m.(phase := Field(count + 1, held + [c])), t.log)
      else u == Trace(m.(phase := Failed), t.log)
  {
    hide IsNameByte;
    assert t.log + [] == t.log;
  }

  /** A byte of a header value, or the CR that ends it; spaces before the value are skipped. */
  lemma ThenInValue(d: seq<byte>, t: Trace, c: byte)
    requires 2 <= |d| && (t.machine.phase.ValueStart? || t.machine.phase.Value?)
    ensures
      var m := Leaked(t.machine, c);
      Then(d, t, c) ==
        if t.machine.phase.ValueStart? && c == SPACE then Trace(m, t.log)
        else if c == CR then Trace(m.(phase := ValueAlmostDone), t.log + [HeaderEnd])
        else Trace(m.(phase := Value), t.log + [ValueByte(c)])
  {
    assert t.log + [] == t.log;
  }

  /** The LF that ends a line, and bytes after the end of the stream. */
  lemma ThenAtLineEnd(d: seq<byte>, t: Trace, c: byte)
    requires 2 <= |d| && (t.machine.phase.ValueAlmostDone? || t.machine.phase.HeadersAlmostDone? || t.machine.phase.Finished?)
    ensures
      var m := Leaked(t.machine, c);
      Then(d, t, c) ==
        if m.phase.Finished? then Trace(m, t.log)
        else if c != LF then Trace(m.(phase := Failed), t.log)
        else if m.phase.ValueAlmostDone? then Trace(m.(phase := FieldStart), t.log)
        else Trace(m.(phase := DataStart(m.phase.carried)), t.log + [HeadersEnd])
  {
    assert t.log + [] == t.log;
  }

  /** The first byte of a part's data is read where the data starts. */
  lemma ThenAtDataStart(d: seq<byte>, t: Trace, c: byte)
    requires 2 <= |d| && t.machine.phase.DataStart?
    ensures Then(d, t, c) == Then(d, t.(machine := Started(t.machine)), c)
  {
    hide StepPart;
    hide StepAstray;
  }

  /** A byte of data with a carried counter, by what it does to the delimiter candidate. */
  lemma ThenAstray(d: seq<byte>, t: Trace, c: byte)
    requires 2 <= |d| && t.machine.phase.Astray?
    ensures Then(d, t, c).machine.phase.Overflow? <==> MoveOn(d, t.machine, c).Throw?
    ensures !Then(d, t, c).machine.phase.Failed?
    ensures
      var m, index := t.machine, Index(d, t.machine);
      match MoveOn(d, m, c)
      case Extend => Then(d, t, c) == Trace(Leaked(Flagged(d, m, index, c), c).(phase := Astray(m.phase.from, m.phase.kept + [c])), t.log)
      case Retry => Then(d, t, c) == Then(d, Trace(m.(phase := Data(0), trail := Strayed), t.log + GivenBack(m)), c)
      case NextPart =>
        Then(d, t, c) == Trace(Leaked(m, c).(phase := FieldStart, partFlag := false), t.log + [PartEnd] + [PartBegin])
      case LastPart => Then(d, t, c) == Trace(Leaked(m, c).(phase := Finished), t.log + [PartEnd] + [StreamEnd])
      case Stay => Then(d, t, c) == Trace(Leaked(m, c), t.log)
      case Throw => Then(d, t, c) == Trace(m.(phase := Overflow), t.log)
  {
    hide MoveAt;
    hide GivenBack;
    hide StepPart;
    var m := t.machine;
    assert t.log + [] == t.log;
    assert t.log + [PartEnd, PartBegin] == t.log + [PartEnd] + [PartBegin];
    assert t.log + [PartEnd, StreamEnd] == t.log + [PartEnd] + [StreamEnd];
    var o := StepPart(d, m.(phase := Data(0), trail := Strayed), c);
    assert t.log + (GivenBack(m) + o.events) == t.log + GivenBack(m) + o.events;
    ThenInPart(d, Trace(m.(phase := Data(0), trail := Strayed), t.log + GivenBack(m)), c);
  }

  /** A byte of part data, by what it does to the delimiter candidate. */
  lemma ThenInPart(d: seq<byte>, t: Trace, c: byte)
    requires 2 <= |d| && InPart(d, t.machine)
    ensures !Stopped(Then(d, t, c).machine) && Then(d, t, c).machine.trail == t.machine.trail
    ensures MoveOn(d, t.machine, c).Extend? ==> t.machine.phase.Data?
    ensures MoveOn(d, t.machine, c).NextPart? || MoveOn(d, t.machine, c).LastPart? ==> t.machine.phase.Tail?
    ensures
      match MoveOn(d, t.machine, c)
      case Extend =>
        && Then(d, t, c) == Trace(Extended(d, t.machine, c), t.log)
        && InPart(d, Extended(d, t.machine, c))
        && Held(d, Extended(d, t.machine, c)) == Held(d, t.machine) + [c]
      case Retry =>
        && Then(d, t, c) == Then(d, Trace(t.machine.(phase := Data(0)), t.log + DataBytes(Held(d, t.machine))), c)
        && (Held(d, t.machine) == [] ==> Then(d, t, c) == Trace(t.machine.(phase := Data(0)), t.log + [DataByte(c)]))
      case NextPart =>
        Then(d, t, c) == Trace(t.machine.(phase := FieldStart, partFlag := false), t.log + [PartEnd] + [PartBegin])
      case LastPart => Then(d, t, c) == Trace(t.machine.(phase := Finished), t.log + [PartEnd] + [StreamEnd])
      case _ => false
  {
    var held := Held(d, t.machine);
    assert t.log + [] == t.log && held + [] == held;
    assert DataBytes(held + [c]) == DataBytes(held) + DataBytes([] + [c]);
    assert t.log + DataBytes(held) + DataBytes([] + [c]) == t.log + (DataBytes(held) + DataBytes([] + [c]));
    assert t.log + DataBytes(held) + DataBytes([]) == t.log + DataBytes(held);
    assert d[..0] == [] && DataBytes([] + [c]) == [DataByte(c)];
    assert held == [] ==> t.machine == t.machine.(phase := Data(0)) && DataBytes(held + [c]) == [DataByte(c)];
    assert t.log + [PartEnd, PartBegin] == t.log + [PartEnd] + [PartBegin];
    assert t.log + [PartEnd, StreamEnd] == t.log + [PartEnd] + [StreamEnd];
  }

  /** The bytes of one buffer. */
  function Run(d: seq<byte>, t: Trace, s: seq<byte>): (r: Trace)
    requires 2 <= |d|
    decreases |s|
  {
    if s == [] then t else Then(d, Run(d, t, s[..|s| - 1]), s[|s| - 1])
  }

  /** The end of a buffer: the name bytes seen so far are handed over, and whatever follows the data mark. */
  function Flush(t: Trace): (r: Trace) {
    if Stopped(t.machine) then t else FlushTrail(FlushName(t))
  }

  function FlushName(t: Trace): (r: Trace) {
    match t.machine.phase
    case Field(count, held) => Trace(t.machine.(phase := Field(count, [])), t.log + FieldBytes(held))
    case _ => t
  }

  function FlushTrail(t: Trace): (r: Trace) {
    match t.machine.trail
    case Leaking(bytes) => Trace(t.machine.(trail := Leaking([])), t.log + DataBytes(bytes))
    case _ => t
  }

  /** One call of `feed`. */
  function Feed(d: seq<byte>, t: Trace, s: seq<byte>): (r: Trace)
    requires 2 <= |d|
  {
    Flush(Run(d, t, s))
  }

  /** A sequence of calls of `feed`. */
  function FeedAll(d: seq<byte>, t: Trace, cuts: seq<seq<byte>>): (r: Trace)
    requires 2 <= |d|
    decreases |cuts|
  {
    if cuts == [] then t else Feed(d, FeedAll(d, t, cuts[..|cuts| - 1]), cuts[|cuts| - 1])
  }

  // ----- Reachable machines -----

  /** What every reachable machine satisfies: at most |d| + 1 bytes are held back in a part's data. */
  ghost predicate Valid(d: seq<byte>, m: Machine) {
    (InPart(d, m) ==> !m.trail.Leaking?) &&
    match m.phase
    case FirstLine(at) => at < |d|
    case Field(count, held) => |held| <= count && 0 < count
    case Data(matched) => matched <= |d|
    case Tail(last) => (last == CR && m.partFlag) || (last == HYPHEN && m.lastFlag)
    case Astray(from, kept) => 0 < from && from + |kept| <= |d| + LOOKBEHIND_SLACK && m.trail.Leaking?
    case HeadersAlmostDone(k) => k > 0 ==> !m.trail.Straight?
    case DataStart(k) => k > 0 ==> !m.trail.Straight?
    case Overflow => !m.trail.Straight?
    case _ => true
  }

  lemma StepValid(d: seq<byte>, m: Machine, c: byte)
    requires 2 <= |d| && Valid(d, m)
    ensures Valid(d, Step(d, m, c).machine)
  {
    hide StepHead;
    hide StepPart;
    hide StepAstray;
    match m.phase
    case DataStart(k) =>
      if k == 0 { StepPartValid(d, Started(m), c); } else { StepAstrayValid(d, Started(m), c); }
    case Data(_) => StepPartValid(d, m, c);
    case Tail(_) => StepPartValid(d, m, c);
    case Astray(_, _) => StepAstrayValid(d, m, c);
    case Failed =>
    case Overflow =>
    case _ => StepHeadValid(d, m, c);
  }

  lemma StepHeadValid(d: seq<byte>, m: Machine, c: byte)
    requires 2 <= |d| && Valid(d, m) && !InPart(d, m) && !m.phase.Astray? && !m.phase.DataStart? && !Stopped(m)
    ensures Valid(d, Leaked(StepHead(d, m, c).machine, c))
  {
    hide IsNameByte;
  }

  lemma StepPartValid(d: seq<byte>, m: Machine, c: byte)
    requires 2 <= |d| && InPart(d, m) && !m.trail.Leaking?
    ensures var m' := StepPart(d, m, c).machine; Valid(d, m') && m'.trail == m.trail && !Stopped(m')
  {
  }

  lemma StepAstrayValid(d: seq<byte>, m: Machine, c: byte)
    requires 2 <= |d| && m.phase.Astray? && 0 < m.phase.from && m.trail.Leaking?
    requires m.phase.kept == [] || Index(d, m) <= |d| + LOOKBEHIND_SLACK
    ensures Valid(d, StepAstray(d, m, c).machine)
  {
    hide StepPart;
    StepPartValid(d, m.(phase := Data(0), trail := Strayed), c);
  }

  lemma {:induction false} RunValid(d: seq<byte>, t: Trace, s: seq<byte>)
    requires 2 <= |d| && Valid(d, t.machine)
    ensures Valid(d, Run(d, t, s).machine)
    decreases |s|
  {
    hide Step;
    if s != [] {
      RunValid(d, t, s[..|s| - 1]);
      StepValid(d, Run(d, t, s[..|s| - 1]).machine, s[|s| - 1]);
    }
  }

  lemma RunSnoc(d: seq<byte>, t: Trace, s: seq<byte>, c: byte)
    requires 2 <= |d|
    ensures Run(d, t, s + [c]) == Then(d, Run(d, t, s), c)
  {
    assert (s + [c])[..|s|] == s;
  }

  lemma {:induction false} RunConcat(d: seq<byte>, t: Trace, s: seq<byte>, u: seq<byte>)
    requires 2 <= |d|
    ensures Run(d, t, s + u) == Run(d, Run(d, t, s), u)
    decreases |u|
  {
    if u == [] {
      assert s + u == s;
    } else {
      var u' := u[..|u| - 1];
      assert s + u == (s + u') + [u[|u| - 1]];
      RunConcat(d, t, s, u');
      RunSnoc(d, t, s + u', u[|u| - 1]);
    }
  }

  /** Reading goes on from the first byte. */
  lemma RunCons(d: seq<byte>, t: Trace, s: seq<byte>)
    requires 2 <= |d| && s != []
    ensures Run(d, t, s) == Run(d, Then(d, t, s[0]), s[1..])
  {
    hide Step;
    assert s == [s[0]] + s[1..];
    RunConcat(d, t, [s[0]], s[1..]);
    RunSnoc(d, t, [], s[0]);
    assert [] + [s[0]] == [s[0]];
  }

  /** How many bytes come before the first one refused or thrown at. */
  function Consumed(d: seq<byte>, t: Trace, s: seq<byte>): (n: nat)
    requires 2 <= |d|
    ensures n <= |s|
    ensures n < |s| ==> Stopped(Then(d, Run(d, t, s[..n]), s[n]).machine)
    ensures Stopped(t.machine) || !Stopped(Run(d, t, s[..n]).machine)
    decreases |s|
  {
    hide Step;
    if s == [] || Stopped(Then(d, t, s[0]).machine) then 0
    else
      var k := Consumed(d, Then(d, t, s[0]), s[1..]);
      assert Run(d, t, s[..1 + k]) == Run(d, Then(d, t, s[0]), s[1..][..k]) by {
        RunCons(d, t, s[..1 + k]);
        assert s[..1 + k][1..] == s[1..][..k];
      }
      1 + k
  }

  /** Bytes that are not refused are counted one by one. */
  lemma {:induction false} ConsumedSkip(d: seq<byte>, t: Trace, s: seq<byte>, n: nat)
    requires 2 <= |d| && n <= |s|
    requires !Stopped(Run(d, t, s[..n]).machine)
    ensures Consumed(d, t, s) == n + Consumed(d, Run(d, t, s[..n]), s[n..])
    ensures Run(d, t, s) == Run(d, Run(d, t, s[..n]), s[n..])
    decreases n
  {
    hide Step;
    assert s == s[..n] + s[n..];
    RunConcat(d, t, s[..n], s[n..]);
    if n > 0 {
      var u := Then(d, t, s[0]);
      RunCons(d, t, s[..n]);
      assert s[..n][1..] == s[1..][..n - 1] && s[1..][n - 1..] == s[n..];
      if Stopped(u.machine) { StoppedStays(d, u, s[1..][..n - 1]); }
      ConsumedSkip(d, u, s[1..], n - 1);
    }
  }

  /** From machine `t` at offset `n`, the rest of `s` ends in `goal` and the first refusal is at `stop`. */
  ghost predicate Rest(d: seq<byte>, t: Trace, s: seq<byte>, n: nat, goal: Trace, stop: nat)
    requires 2 <= |d| && n <= |s|
  {
    Run(d, t, s[n..]) == goal && n + Consumed(d, t, s[n..]) == stop
  }

  lemma RestSkip(d: seq<byte>, t: Trace, s: seq<byte>, n: nat, m: nat, goal: Trace, stop: nat)
    requires 2 <= |d| && n <= m <= |s| && Rest(d, t, s, n, goal, stop)
    requires !Stopped(Run(d, t, s[n..m]).machine)
    ensures Rest(d, Run(d, t, s[n..m]), s, m, goal, stop)
  {
    hide Step;
    hide Run;
    hide Consumed;
    assert s[n..][..m - n] == s[n..m] && s[n..][m - n..] == s[m..];
    ConsumedSkip(d, t, s[n..], m - n);
  }

  lemma RestThen(d: seq<byte>, t: Trace, s: seq<byte>, n: nat, goal: Trace, stop: nat)
    requires 2 <= |d| && n < |s| && Rest(d, t, s, n, goal, stop)
    ensures var u := Then(d, t, s[n]);
            if Stopped(u.machine) then goal == u && stop == n else Rest(d, u, s, n + 1, goal, stop)
  {
    hide Step;
    var u := Then(d, t, s[n]);
    RunCons(d, t, s[n..]);
    assert s[n..][1..] == s[n + 1..];
    if Stopped(u.machine) { StoppedStays(d, u, s[n + 1..]); }
  }

  lemma RestEnd(d: seq<byte>, t: Trace, s: seq<byte>, goal: Trace, stop: nat)
    requires 2 <= |d| && Rest(d, t, s, |s|, goal, stop)
    ensures t == goal && stop == |s|
  {
  }

  /** A byte looked at a second time. */
  lemma RestAgain(d: seq<byte>, t: Trace, t': Trace, s: seq<byte>, n: nat, goal: Trace, stop: nat)
    requires 2 <= |d| && n < |s| && Rest(d, t, s, n, goal, stop)
    requires Then(d, t', s[n]) == Then(d, t, s[n])
    ensures Rest(d, t', s, n, goal, stop)
  {
    hide Step;
    RunCons(d, t, s[n..]);
    RunCons(d, t', s[n..]);
  }

  // ----- Accepted streams -----

  /** A header line ended without a colon. */
  predicate ColonMissing(m: Machine) { !m.trail.Straight? }

  /** No byte was refused and every header line that ended has a colon. */
  predicate Good(m: Machine) { !Stopped(m) && !ColonMissing(m) }

  /** Neither a refusal nor a missing colon is ever forgotten. */
  lemma GoodBefore(d: seq<byte>, m: Machine, c: byte)
    requires 2 <= |d| && Good(Step(d, m, c).machine)
    ensures Good(m)
  {
    hide StepFirstLine;
    hide IsNameByte;
    if !m.trail.Straight? { TrailKept(d, m, c); }
  }

  lemma TrailKept(d: seq<byte>, m: Machine, c: byte)
    requires 2 <= |d| && !m.trail.Straight?
    ensures !Step(d, m, c).machine.trail.Straight?
  {
    if InPart(d, m) { PartPhases(d, m, c); }
    if m.phase.DataStart? && m.phase.carried == 0 { PartPhases(d, Started(m), c); }
    if m.phase.DataStart? && m.phase.carried > 0 { AstrayPhases(d, Started(m), c); }
    if m.phase.Astray? { AstrayPhases(d, m, c); }
    HeadTrail(d, m, c);
    hide StepPart;
    hide StepAstray;
    hide StepHead;
  }

  /** Where a byte of part data leads; the trail stays. */
  lemma PartPhases(d: seq<byte>, m: Machine, c: byte)
    requires 0 < |d| && InPart(d, m)
    ensures var m' := StepPart(d, m, c).machine;
            m'.trail == m.trail && (m'.phase.Data? || m'.phase.Tail? || m'.phase.FieldStart? || m'.phase.Finished?)
  {
    hide MoveAt;
  }

  lemma AstrayPhases(d: seq<byte>, m: Machine, c: byte)
    requires 0 < |d| && m.phase.Astray?
    ensures var m' := StepAstray(d, m, c).machine;
            && (!m.trail.Straight? ==> !m'.trail.Straight?)
            && (m'.phase.Astray? || m'.phase.Data? || m'.phase.Tail? || m'.phase.FieldStart? || m'.phase.Finished? || m'.phase.Overflow?)
  {
    PartPhases(d, m.(phase := Data(0), trail := Strayed), c);
    hide MoveAt;
    hide StepPart;
  }

  lemma HeadTrail(d: seq<byte>, m: Machine, c: byte)
    requires 2 <= |d| && !m.trail.Straight?
    ensures !Leaked(StepHead(d, m, c).machine, c).trail.Straight?
  {
    hide IsNameByte;
  }

  /** The places in a part's head are only reached from its head. */
  lemma HeadOnly(d: seq<byte>, m: Machine, c: byte)
    requires 2 <= |d|
    requires var p := Step(d, m, c).machine.phase; p.Field? || p.HeadersAlmostDone? || p.DataStart?
    ensures Step(d, m, c).machine == Leaked(StepHead(d, m, c).machine, c)
    ensures !m.phase.DataStart? && !m.phase.Data? && !m.phase.Tail? && !m.phase.Astray?
  {
    if InPart(d, m) { PartPhases(d, m, c); }
    if m.phase.DataStart? && m.phase.carried == 0 { PartPhases(d, Started(m), c); }
    if m.phase.DataStart? && m.phase.carried > 0 { AstrayPhases(d, Started(m), c); }
    if m.phase.Astray? { AstrayPhases(d, m, c); }
    hide StepPart;
    hide StepAstray;
    hide StepFirstLine;
    hide StepField;
  }

  /** What is good after a stream was good after each of its prefixes. */
  lemma {:induction false} GoodPrefix(d: seq<byte>, t: Trace, s: seq<byte>, n: nat)
    requires 2 <= |d| && n <= |s|
    requires Good(Run(d, t, s).machine)
    ensures Good(Run(d, t, s[..n]).machine)
    decreases |s|
  {
    if n == |s| {
      assert s[..n] == s;
    } else {
      hide Step;
      var u := s[..|s| - 1];
      GoodBefore(d, Run(d, t, u).machine, s[|s| - 1]);
      GoodPrefix(d, t, u, n);
      assert u[..n] == s[..n];
    }
  }

  // ----- Cut invariance -----

  /** Two traces that agree once the name bytes held back are handed over. */
  predicate Agree(t: Trace, u: Trace) { Flush(t) == Flush(u) }

  /** They are the same but for the bytes of a name that the one has handed over and the other holds back. */
  lemma AgreeMeans(t: Trace, u: Trace)
    requires Agree(t, u) && Good(u.machine)
    ensures Good(t.machine) && t.machine.phase.Field? == u.machine.phase.Field?
    ensures
      if u.machine.phase.Field? then
        && t.machine == u.machine.(phase := Field(u.machine.phase.count, t.machine.phase.held))
        && t.log + FieldBytes(t.machine.phase.held) == u.log + FieldBytes(u.machine.phase.held)
      else t == u
  {
    hide FieldBytes;
  }

  lemma AgreeThen(d: seq<byte>, t: Trace, u: Trace, c: byte)
    requires 2 <= |d| && Valid(d, t.machine) && Valid(d, u.machine)
    requires Agree(t, u) && Good(Then(d, u, c).machine)
    ensures Agree(Then(d, t, c), Then(d, u, c)) && Good(Then(d, t, c).machine)
  {
    hide Step;
    GoodBefore(d, u.machine, c);
    AgreeMeans(t, u);
    if u.machine.phase.Field? {
      var h, k := t.machine.phase.held, u.machine.phase.held;
      ThenInName(d, t, c);
      ThenInName(d, u, c);
      hide Then;
      hide IsNameByte;
      assert FieldBytes(h + [c]) == FieldBytes(h) + [FieldByte(c)];
      assert FieldBytes(k + [c]) == FieldBytes(k) + [FieldByte(c)];
      hide FieldBytes;
      assert t.log + (FieldBytes(h) + [FieldByte(c)]) == t.log + FieldBytes(h) + [FieldByte(c)];
      assert u.log + (FieldBytes(k) + [FieldByte(c)]) == u.log + FieldBytes(k) + [FieldByte(c)];
    }
  }

  lemma {:induction false} AgreeRun(d: seq<byte>, t: Trace, u: Trace, s: seq<byte>)
    requires 2 <= |d| && Valid(d, t.machine) && Valid(d, u.machine)
    requires Agree(t, u) && Good(Run(d, u, s).machine) && Good(t.machine)
    ensures Agree(Run(d, t, s), Run(d, u, s)) && Good(Run(d, t, s).machine)
    decreases |s|
  {
    hide Step;
    hide Flush;
    if s != [] {
      var s' := s[..|s| - 1];
      GoodPrefix(d, u, s, |s'|);
      AgreeRun(d, t, u, s');
      RunValid(d, t, s');
      RunValid(d, u, s');
      AgreeThen(d, Run(d, t, s'), Run(d, u, s'), s[|s| - 1]);
    }
  }

  lemma FlushTwice(t: Trace)
    ensures Flush(Flush(t)) == Flush(t)
  {
    assert t.machine.phase.Field? ==> Flush(t).log + FieldBytes([]) == Flush(t).log;
  }

  /** However a stream is cut, the calls together do what one pass over the bytes does. */
  lemma {:induction false} FeedAllIsRun(d: seq<byte>, t: Trace, cuts: seq<seq<byte>>)
    requires 2 <= |d| && Valid(d, t.machine)
    requires Good(Run(d, t, Join(cuts)).machine)
    ensures Agree(FeedAll(d, t, cuts), Run(d, t, Join(cuts)))
    ensures Good(FeedAll(d, t, cuts).machine) && Valid(d, FeedAll(d, t, cuts).machine)
    decreases |cuts|
  {
    if cuts != [] {
      var before, s := cuts[..|cuts| - 1], cuts[|cuts| - 1];
      var whole := Join(before);
      assert (whole + s)[..|whole|] == whole;
      GoodPrefix(d, t, Join(cuts), |whole|);
      FeedAllIsRun(d, t, before);
      RunConcat(d, t, whole, s);
      RunValid(d, t, whole);
      var f, r := FeedAll(d, t, before), Run(d, t, whole);
      AgreeRun(d, f, r, s);
      RunValid(d, f, s);
      FlushTwice(Run(d, f, s));
    }
  }

  /** What a caller sees after cutting a stream this way: the parser and its callbacks. */
  function Seen(d: seq<byte>, cuts: seq<seq<byte>>): (r: Trace)
    requires 2 <= |d|
  {
    Flush(FeedAll(d, Begin(), cuts))
  }

  ghost predicate CutInvariant(d: seq<byte>, s: seq<byte>)
    requires 2 <= |d|
  {
    forall cuts: seq<seq<byte>>, cuts': seq<seq<byte>> :: Join(cuts) == s && Join(cuts') == s ==> Seen(d, cuts) == Seen(d, cuts')
  }

  /** The sum of what the calls return: how many bytes were taken. */
  function Taken(d: seq<byte>, t: Trace, cuts: seq<seq<byte>>): (n: nat)
    requires 2 <= |d|
    decreases |cuts|
  {
    if cuts == [] then 0
    else Taken(d, t, cuts[..|cuts| - 1]) + Consumed(d, FeedAll(d, t, cuts[..|cuts| - 1]), cuts[|cuts| - 1])
  }

  /** Every byte of a good stream is taken. */
  lemma {:induction false} GoodIsTaken(d: seq<byte>, t: Trace, cuts: seq<seq<byte>>)
    requires 2 <= |d| && Valid(d, t.machine) && Good(Run(d, t, Join(cuts)).machine)
    ensures Taken(d, t, cuts) == |Join(cuts)|
    decreases |cuts|
  {
    hide Step;
    hide Run;
    if cuts != [] {
      var before, s := cuts[..|cuts| - 1], cuts[|cuts| - 1];
      var whole, f := Join(before), FeedAll(d, t, before);
      assert Join(cuts)[..|whole|] == whole;
      GoodPrefix(d, t, Join(cuts), |whole|);
      GoodIsTaken(d, t, before);
      FeedAllIsRun(d, t, before);
      RunValid(d, t, whole);
      RunConcat(d, t, whole, s);
      AgreeRun(d, f, Run(d, t, whole), s);
      assert s[..|s|] == s && s[|s|..] == [];
      ConsumedSkip(d, f, s, |s|);
    }
  }

  /**
   A refusal does not depend on the cuts: the same byte is refused, so the calls take the same number of bytes. The
   events are those before the refusal, but for the bytes of a header name that is refused: of those, the ones before
   the last cut have been handed over.
   */
  lemma {:induction false} RefusalIsCutInvariant(d: seq<byte>, t: Trace, cuts: seq<seq<byte>>, n: nat)
    requires 2 <= |d| && Valid(d, t.machine) && n < |Join(cuts)|
    requires Good(Run(d, t, Join(cuts)[..n]).machine)
    requires Run(d, t, Join(cuts)[..n + 1]).machine.phase.Failed?
    ensures FeedAll(d, t, cuts).machine.phase.Failed? && Taken(d, t, cuts) == n
    ensures
      var u, log := Run(d, t, Join(cuts)[..n]), FeedAll(d, t, cuts).log;
      log <= Flush(u).log && (!u.machine.phase.Field? ==> log == u.log)
    decreases |cuts|
  {
    hide Step;
    hide Run;
    hide Flush;
    var before, s := cuts[..|cuts| - 1], cuts[|cuts| - 1];
    var whole := Join(before);
    var f := FeedAll(d, t, before);
    if n < |whole| {
      assert whole[..n] == Join(cuts)[..n] && whole[..n + 1] == Join(cuts)[..n + 1];
      RefusalIsCutInvariant(d, t, before, n);
      StoppedStays(d, f, s);
      FailedFlush(f);
    } else {
      var k := n - |whole|;
      var r := Run(d, t, whole);
      assert Join(cuts)[..n][..|whole|] == whole;
      GoodPrefix(d, t, Join(cuts)[..n], |whole|);
      FeedAllIsRun(d, t, before);
      GoodIsTaken(d, t, before);
      RunValid(d, t, whole);
      assert Join(cuts)[..n] == whole + s[..k] && Join(cuts)[..n + 1] == whole + s[..k + 1];
      RunConcat(d, t, whole, s[..k]);
      RunConcat(d, t, whole, s[..k + 1]);
      AgreeFailed(d, f, r, s, k);
      FailedFlush(Run(d, f, s));
    }
  }

  lemma FailedFlush(t: Trace)
    requires t.machine.phase.Failed?
    ensures Flush(t) == t
  {
  }

  lemma AgreeFailed(d: seq<byte>, t: Trace, u: Trace, s: seq<byte>, k: nat)
    requires 2 <= |d| && Valid(d, t.machine) && Valid(d, u.machine) && k < |s|
    requires Agree(t, u) && Good(t.machine) && Good(Run(d, u, s[..k]).machine)
    requires Run(d, u, s[..k + 1]).machine.phase.Failed?
    ensures Run(d, t, s).machine.phase.Failed? && Consumed(d, t, s) == k
    ensures
      var v, log := Run(d, u, s[..k]), Run(d, t, s).log;
      log <= Flush(v).log && (!v.machine.phase.Field? ==> log == v.log)
  {
    hide Step;
    hide Run;
    AgreeRun(d, t, u, s[..k]);
    RunValid(d, t, s[..k]);
    RunValid(d, u, s[..k]);
    var x, v := Run(d, t, s[..k]), Run(d, u, s[..k]);
    assert s[..k + 1] == s[..k] + [s[k]];
    RunSnoc(d, u, s[..k], s[k]);
    RunSnoc(d, t, s[..k], s[k]);
    AgreeFailedStep(d, x, v, s[k]);
    assert s == s[..k + 1] + s[k + 1..];
    RunConcat(d, t, s[..k + 1], s[k + 1..]);
    StoppedStays(d, Run(d, t, s[..k + 1]), s[k + 1..]);
    ConsumedSkip(d, t, s, k);
  }

  /** A refused byte hands nothing over. */
  lemma RefusedHandsNothing(d: seq<byte>, t: Trace, c: byte)
    requires 2 <= |d| && Then(d, t, c).machine.phase.Failed?
    ensures Then(d, t, c).log == t.log
  {
    hide IsNameByte;
    hide MoveAt;
    assert t.log + [] == t.log;
  }

  lemma AgreeFailedStep(d: seq<byte>, t: Trace, u: Trace, c: byte)
    requires 2 <= |d| && Agree(t, u) && Then(d, u, c).machine.phase.Failed? && Good(u.machine)
    ensures Then(d, t, c).machine.phase.Failed? && Then(d, t, c).log == t.log
    ensures t.log <= Flush(u).log && (!u.machine.phase.Field? ==> t.log == u.log)
  {
    AgreeMeans(t, u);
    RefusedHandsNothing(d, u, c);
    if u.machine.phase.Field? {
      hide Step;
      ThenInName(d, t, c);
      ThenInName(d, u, c);
      hide Then;
      hide IsNameByte;
    }
  }

  /** However a stream is cut, its callbacks get the same bytes. */
  ghost predicate SameEvents(d: seq<byte>, s: seq<byte>)
    requires 2 <= |d|
  {
    forall cuts: seq<seq<byte>> :: Join(cuts) == s ==> FeedAll(d, Begin(), cuts).log == Run(d, Begin(), s).log
  }

  /** When the events of a refused stream do not depend on the cuts: exactly when it is not refused in a header name. */
  lemma RefusedEventsIff(d: seq<byte>, s: seq<byte>, n: nat)
    requires 2 <= |d| && n < |s|
    requires Good(Run(d, Begin(), s[..n]).machine) && Run(d, Begin(), s[..n + 1]).machine.phase.Failed?
    ensures SameEvents(d, s) <==> !Run(d, Begin(), s[..n]).machine.phase.Field?
  {
    hide Run;
    hide SameEvents;
    if Run(d, Begin(), s[..n]).machine.phase.Field? {
      RefusedInName(d, s, n);
    } else {
      RefusedOutsideName(d, s, n);
    }
  }

  lemma RefusedInName(d: seq<byte>, s: seq<byte>, n: nat)
    requires 2 <= |d| && n < |s| && Run(d, Begin(), s[..n]).machine.phase.Field? && Good(Run(d, Begin(), s[..n]).machine)
    requires Run(d, Begin(), s[..n + 1]).machine.phase.Failed?
    ensures !SameEvents(d, s)
  {
    hide Run;
    hide FeedAll;
    hide Feed;
    var cuts := [s[..n], s[n..]];
    FeedAllTwice(d, Begin(), s[..n], s[n..]);
    assert s[..n] + s[n..] == s;
    FlushedRefusal(d, s, n);
    RefusedRun(d, Begin(), s, n);
    assert Join(cuts) == s && FeedAll(d, Begin(), cuts).log != Run(d, Begin(), s).log;
  }

  lemma RefusedOutsideName(d: seq<byte>, s: seq<byte>, n: nat)
    requires 2 <= |d| && n < |s| && !Run(d, Begin(), s[..n]).machine.phase.Field?
    requires Good(Run(d, Begin(), s[..n]).machine) && Run(d, Begin(), s[..n + 1]).machine.phase.Failed?
    ensures SameEvents(d, s)
  {
    hide Run;
    hide FeedAll;
    hide Flush;
    RefusedRun(d, Begin(), s, n);
    forall cuts: seq<seq<byte>> | Join(cuts) == s ensures FeedAll(d, Begin(), cuts).log == Run(d, Begin(), s).log {
      RefusalIsCutInvariant(d, Begin(), cuts, n);
    }
  }

  /** One pass over a refused stream hands over what came before the refusal. */
  lemma RefusedRun(d: seq<byte>, t: Trace, s: seq<byte>, n: nat)
    requires 2 <= |d| && n < |s| && !Run(d, t, s[..n]).machine.phase.Failed? && Run(d, t, s[..n + 1]).machine.phase.Failed?
    ensures Run(d, t, s).log == Run(d, t, s[..n]).log && Run(d, t, s).machine.phase.Failed?
  {
    hide Step;
    hide Run;
    var u := Run(d, t, s[..n]);
    assert s[..n + 1] == s[..n] + [s[n]];
    RunSnoc(d, t, s[..n], s[n]);
    RefusedHandsNothing(d, u, s[n]);
    assert s == s[..n + 1] + s[n + 1..];
    RunConcat(d, t, s[..n + 1], s[n + 1..]);
    StoppedStays(d, Run(d, t, s[..n + 1]), s[n + 1..]);
  }

  /** A cut just before the refused byte hands over the whole name. */
  lemma FlushedRefusal(d: seq<byte>, s: seq<byte>, n: nat)
    requires 2 <= |d| && n < |s| && Run(d, Begin(), s[..n]).machine.phase.Field? && Good(Run(d, Begin(), s[..n]).machine)
    requires Run(d, Begin(), s[..n + 1]).machine.phase.Failed?
    ensures Feed(d, Feed(d, Begin(), s[..n]), s[n..]).log != Run(d, Begin(), s[..n]).log
  {
    hide Step;
    hide Run;
    var t := Run(d, Begin(), s[..n]);
    RunValid(d, Begin(), s[..n]);
    UncutHoldsWholeName(d, s[..n]);
    assert s[..n + 1] == s[..n] + [s[n]];
    RunSnoc(d, Begin(), s[..n], s[n]);
    FlushTwice(t);
    AgreeFailedStep(d, Flush(t), t, s[n]);
    RunOne(d, Flush(t), s[n]);
    assert s[n..][..0] == [] && s[n..][..1] == [s[n]];
    RunEmpty(d, Flush(t));
    RefusedRun(d, Flush(t), s[n..], 0);
    FailedFlush(Run(d, Flush(t), s[n..]));
  }

  lemma RunEmpty(d: seq<byte>, t: Trace)
    requires 2 <= |d|
    ensures Run(d, t, []) == t
  {
  }

  lemma {:induction false} StoppedStays(d: seq<byte>, t: Trace, s: seq<byte>)
    requires 2 <= |d| && Stopped(t.machine)
    ensures Run(d, t, s) == t && Consumed(d, t, s) == 0
    decreases |s|
  {
    if s != [] {
      StoppedStays(d, t, s[..|s| - 1]);
      assert t.log + [] == t.log;
    }
  }

  /** In one pass from the start, no name byte of the current line has been handed over. */
  lemma {:induction false} UncutHoldsWholeName(d: seq<byte>, s: seq<byte>)
    requires 2 <= |d|
    ensures var p := Run(d, Begin(), s).machine.phase; p.Field? ==> |p.held| == p.count
    decreases |s|
  {
    hide Step;
    if s != [] {
      UncutHoldsWholeName(d, s[..|s| - 1]);
      if Run(d, Begin(), s).machine.phase.Field? { NameGrows(d, Run(d, Begin(), s[..|s| - 1]).machine, s[|s| - 1]); }
    }
  }

  /** A name is entered byte by byte. */
  lemma NameGrows(d: seq<byte>, m: Machine, c: byte)
    requires 2 <= |d| && Step(d, m, c).machine.phase.Field?
    ensures m.phase.FieldStart? || m.phase.Field?
    ensures var p := Step(d, m, c).machine.phase;
            if m.phase.Field? then p == Field(m.phase.count + 1, m.phase.held + [c]) else p == Field(1, [c])
  {
    HeadOnly(d, m, c);
    hide Step;
    hide IsNameByte;
  }

  lemma OnlyColonMissingDerails(d: seq<byte>, m: Machine, c: byte)
    requires 2 <= |d| && Good(m) && Valid(d, m)
    requires var m' := Step(d, m, c).machine; !m'.phase.Failed? && !Good(m')
    ensures m.phase.Field? && c == CR
  {
    hide IsNameByte;
    hide MoveAt;
  }

  lemma BadStays(d: seq<byte>, m: Machine, c: byte)
    requires 2 <= |d| && m.phase.Failed?
    ensures Step(d, m, c).machine.phase.Failed?
  {
  }

  /** The first byte that leaves the good machines without being refused ends a line without a colon. */
  lemma {:induction false} FirstColonMissing(d: seq<byte>, s: seq<byte>) returns (n: nat)
    requires 2 <= |d|
    requires var m := Run(d, Begin(), s).machine; !m.phase.Failed? && !Good(m)
    ensures n < |s| && Good(Run(d, Begin(), s[..n]).machine)
    ensures Run(d, Begin(), s[..n]).machine.phase.Field? && s[n] == CR
    decreases |s|
  {
    hide Step;
    var u := s[..|s| - 1];
    if Good(Run(d, Begin(), u).machine) {
      n := |u|;
      RunValid(d, Begin(), u);
      OnlyColonMissingDerails(d, Run(d, Begin(), u).machine, s[n]);
    } else {
      if Run(d, Begin(), u).machine.phase.Failed? { BadStays(d, Run(d, Begin(), u).machine, s[|s| - 1]); }
      n := FirstColonMissing(d, u);
      assert u[..n] == s[..n];
    }
  }

  lemma FeedAllOnce(d: seq<byte>, t: Trace, s: seq<byte>)
    requires 2 <= |d|
    ensures FeedAll(d, t, [s]) == Feed(d, t, s) && Join([s]) == s
  {
    hide Feed;
    assert [s][..0] == [];
  }

  lemma FeedAllTwice(d: seq<byte>, t: Trace, s: seq<byte>, u: seq<byte>)
    requires 2 <= |d|
    ensures FeedAll(d, t, [s, u]) == Feed(d, Feed(d, t, s), u) && Join([s, u]) == s + u
  {
    hide Feed;
    assert [s, u][..1] == [s];
    FeedAllOnce(d, t, s);
  }

  /** A line without a colon shows its name when the buffer ends inside it, and never otherwise. */
  lemma ColonMissingBreaksCuts(d: seq<byte>, s: seq<byte>, n: nat)
    requires 2 <= |d| && n < |s|
    requires Good(Run(d, Begin(), s[..n]).machine)
    requires Run(d, Begin(), s[..n]).machine.phase.Field? && s[n] == CR
    ensures !CutInvariant(d, s[..n + 1])
  {
    hide FeedAll;
    hide Step;
    hide Flush;
    hide Run;
    var name, whole := s[..n], s[..n + 1];
    assert whole == name + [CR];
    var t := Run(d, Begin(), name);
    RunValid(d, Begin(), name);
    UncutHoldsWholeName(d, name);
    RunSnoc(d, Begin(), name, CR);
    FeedAllOnce(d, Begin(), whole);
    FeedAllTwice(d, Begin(), name, [CR]);
    RunOne(d, Flush(t), CR);
    NameLost(d, t);
    hide Then;
    var once, twice := Seen(d, [whole]), Seen(d, [name, [CR]]);
    assert once == Flush(Flush(Then(d, t, CR)));
    assert twice == Flush(Flush(Then(d, Flush(t), CR)));
  }

  lemma RunOne(d: seq<byte>, t: Trace, c: byte)
    requires 2 <= |d|
    ensures Run(d, t, [c]) == Then(d, t, c)
  {
    hide Step;
    RunSnoc(d, t, [], c);
    assert [] + [c] == [c];
  }

  lemma NameLost(d: seq<byte>, t: Trace)
    requires 2 <= |d| && Valid(d, t.machine) && t.machine.phase.Field? && t.machine.phase.held != []
    ensures |Flush(Then(d, t, CR)).log| < |Flush(Flush(Then(d, Flush(t), CR))).log|
    ensures Flush(Flush(Then(d, t, CR))) == Flush(Then(d, t, CR))
  {
  }

  /**
   Cut invariance, exactly: a stream that is not refused can be cut anywhere without changing
   what the callbacks see if and only if every header line in it has a colon.
   */
  lemma CutInvarianceIffColons(d: seq<byte>, s: seq<byte>)
    requires 2 <= |d|
    requires !Run(d, Begin(), s).machine.phase.Failed?
    ensures (forall n :: 0 <= n <= |s| ==> CutInvariant(d, s[..n])) <==> !ColonMissing(Run(d, Begin(), s).machine)
  {
    hide Step;
    hide Flush;
    hide Run;
    hide FeedAll;
    RunValid(d, Begin(), s);
    if Good(Run(d, Begin(), s).machine) {
      forall n, cuts: seq<seq<byte>>, cuts': seq<seq<byte>> | 0 <= n <= |s| && Join(cuts) == s[..n] && Join(cuts') == s[..n]
        ensures Seen(d, cuts) == Seen(d, cuts')
      {
        GoodPrefix(d, Begin(), s, n);
        FeedAllIsRun(d, Begin(), cuts);
        FeedAllIsRun(d, Begin(), cuts');
      }
    } else {
      var n := FirstColonMissing(d, s);
      ColonMissingBreaksCuts(d, s, n);
    }
  }

  // ----- Scanning data for the delimiter -----

  ghost predicate OccursAt(d: seq<byte>, s: seq<byte>, j: int) {
    0 <= j <= |s| - |d| && s[j..j + |d|] == d
  }

  ghost predicate Free(d: seq<byte>, s: seq<byte>) {
    forall j :: !OccursAt(d, s, j)
  }

  lemma OccursInExtension(d: seq<byte>, u: seq<byte>, s: seq<byte>, j: int)
    requires OccursAt(d, u, j) && u <= s
    ensures OccursAt(d, s, j)
  {
    assert s[j..j + |d|] == u[j..j + |d|];
  }

  lemma OccursAtEnd(d: seq<byte>, s: seq<byte>, end: seq<byte>)
    requires |end| == |d| <= |s| && end == d[..|d|] && s[|s| - |d|..] == end
    ensures OccursAt(d, s, |s| - |d|)
  {
    assert s[|s| - |d|..|s|] == s[|s| - |d|..];
  }

  lemma EndByteInDelimiter(d: seq<byte>, s: seq<byte>, k: nat)
    requires 0 < k <= |d| && k <= |s| && s[|s| - k..] == d[..k]
    ensures s[|s| - 1] in d
  {
    assert s[|s| - 1] == s[|s| - k..][k - 1];
  }

  /** Data without the delimiter is handed over in order; at most a proper prefix of the delimiter is held back. */
  lemma {:induction false} ScanFree(d: seq<byte>, t: Trace, s: seq<byte>) returns (k: nat)
    requires 2 <= |d| && t.machine.phase == Data(0) && Free(d, s)
    ensures k <= |s| && k < |d| && s[|s| - k..] == d[..k]
    ensures Run(d, t, s) == Trace(t.machine.(phase := Data(k)), t.log + DataBytes(s[..|s| - k]))
    decreases |s|
  {
    hide Step;
    if s == [] {
      k := 0;
      assert t.log + DataBytes([]) == t.log;
    } else {
      var u, c := s[..|s| - 1], s[|s| - 1];
      forall j ensures !OccursAt(d, u, j) {
        if OccursAt(d, u, j) { OccursInExtension(d, u, s, j); }
      }
      var h := ScanFree(d, t, u);
      assert u == s[..|s| - 1];
      k := ScanStep(d, Run(d, t, u), t.log, u, h, c);
      assert s == u + [c];
      if k == |d| { OccursAtEnd(d, s, d[..k]); }
      assert s[..|s| - k] == (u + [c])[..|u| + 1 - k];
    }
  }

  lemma ScanStep(d: seq<byte>, t: Trace, base: seq<Event>, u: seq<byte>, h: nat, c: byte) returns (k: nat)
    requires 2 <= |d| && h <= |u| && h < |d| && u[|u| - h..] == d[..h]
    requires t.machine.phase == Data(h) && t.log == base + DataBytes(u[..|u| - h])
    ensures k <= |u| + 1 && k <= |d| && (u + [c])[|u| + 1 - k..] == d[..k]
    ensures Then(d, t, c) == Trace(t.machine.(phase := Data(k)), base + DataBytes((u + [c])[..|u| + 1 - k]))
  {
    hide Step;
    hide MoveOn;
    hide DataBytes;
    var s := u + [c];
    if c == d[h] {
      k := h + 1;
      ExtendHeld(d, t, c);
      assert d[..k] == d[..h] + [c];
      assert s[..|s| - k] == u[..|u| - h];
    } else {
      var t' := Trace(t.machine.(phase := Data(0)), base + DataBytes(u));
      assert u == u[..|u| - h] + d[..h];
      DataBytesConcat(base, u[..|u| - h], d[..h]);
      RetryHeld(d, t, c);
      assert Then(d, t, c) == Then(d, t', c);
      if c == d[0] {
        k := 1;
        ExtendHeld(d, t', c);
        assert s[..|s| - 1] == u;
      } else {
        k := 0;
        RetryHeld(d, t', c);
        DataBytesConcat(base, u, [c]);
        assert s[..|s|] == s;
      }
    }
  }

  lemma DataBytesConcat(base: seq<Event>, s: seq<byte>, u: seq<byte>)
    ensures base + DataBytes(s) + DataBytes(u) == base + DataBytes(s + u)
    ensures |u| == 1 ==> base + DataBytes(s) + [DataByte(u[0])] == base + DataBytes(s + u)
  {
    assert DataBytes(s) + DataBytes(u) == DataBytes(s + u);
    assert |u| == 1 ==> DataBytes(u) == [DataByte(u[0])];
  }

  lemma ExtendHeld(d: seq<byte>, t: Trace, c: byte)
    requires 2 <= |d| && t.machine.phase.Data? && t.machine.phase.matched < |d| && c == d[t.machine.phase.matched]
    ensures Then(d, t, c) == Trace(t.machine.(phase := Data(t.machine.phase.matched + 1)), t.log)
  {
    hide Step;
    ThenInPart(d, t, c);
  }

  lemma RetryHeld(d: seq<byte>, t: Trace, c: byte)
    requires 2 <= |d| && t.machine.phase.Data? && t.machine.phase.matched < |d| && c != d[t.machine.phase.matched]
    ensures var t' := Trace(t.machine.(phase := Data(0)), t.log + DataBytes(d[..t.machine.phase.matched]));
            Then(d, t, c) == Then(d, t', c)
    ensures t.machine.phase.matched == 0 ==> Then(d, t, c) == Trace(t.machine, t.log + [DataByte(c)])
  {
    hide Step;
    ThenInPart(d, t, c);
  }

  /**
   The Boyer-Moore step: when the byte |d| - 1 places ahead is not in the delimiter, |d| bytes can be
   skipped, because reading them one by one hands all of them over as data.
   */
  lemma SkipIsScan(d: seq<byte>, t: Trace, s: seq<byte>)
    requires 2 <= |d| && t.machine.phase == Data(0)
    requires |s| == |d| && s[|s| - 1] !in d
    ensures Run(d, t, s) == Trace(t.machine, t.log + DataBytes(s))
  {
    assert d[|d| - 1] in d && s[0..|d|] == s;
    var k := ScanFree(d, t, s);
    if k > 0 { EndByteInDelimiter(d, s, k); }
    assert s[..|s|] == s;
  }
}
