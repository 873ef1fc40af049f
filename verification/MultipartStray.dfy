/**
 Header lines without a colon. Such a line leaves the parser's counter at the length of its name, and the data that
 follows is read with that counter. This module says what then happens, for every stream: what still does not depend on
 the cuts, when the exception is thrown, when places of the lookbehind buffer not written for the part are handed over as
 data, and when the parser recognises no delimiter any more.
 */
module MultipartStray {
  import opened Bytes
  import opened MultipartMachine
  import MultipartParser

  // ----- What depends on the bytes alone -----

  /** State, flags and counter: the machine without the bytes it holds until the end of the buffer. */
  function Control(m: Machine): (r: Machine) {
    m.(phase := if m.phase.Field? then Field(m.phase.count, []) else m.phase,
       trail := if m.trail.Leaking? then Leaking([]) else m.trail)
  }

  lemma ControlStep(d: seq<byte>, m: Machine, n: Machine, c: byte)
    requires 2 <= |d| && Control(m) == Control(n)
    ensures Control(Step(d, m, c).machine) == Control(Step(d, n, c).machine)
  {
    if m.phase.Astray? {
      ControlAstray(d, m, n, c);
      hide StepAstray;
    } else if m.phase.DataStart? || m.phase.Data? || m.phase.Tail? {
      ControlData(d, m, n, c);
    } else {
      ControlHead(d, m, n, c);
      hide StepHead;
    }
  }

  lemma ControlAstray(d: seq<byte>, m: Machine, n: Machine, c: byte)
    requires 2 <= |d| && Control(m) == Control(n) && m.phase.Astray?
    ensures n.phase.Astray? && Control(StepAstray(d, m, c).machine) == Control(StepAstray(d, n, c).machine)
  {
    hide MoveAt;
    hide StepPart;
    assert m.(phase := Data(0), trail := Strayed) == n.(phase := Data(0), trail := Strayed);
  }

  lemma ControlData(d: seq<byte>, m: Machine, n: Machine, c: byte)
    requires 2 <= |d| && Control(m) == Control(n) && (m.phase.DataStart? || m.phase.Data? || m.phase.Tail?)
    ensures Control(Step(d, m, c).machine) == Control(Step(d, n, c).machine)
  {
    if m.phase.DataStart? {
      assert Control(Started(m)) == Control(Started(n));
      if m.phase.carried > 0 { ControlAstray(d, Started(m), Started(n), c); } else { ControlPart(d, Started(m), Started(n), c); }
    } else if InPart(d, m) {
      ControlPart(d, m, n, c);
    }
    hide StepPart;
    hide StepAstray;
  }

  lemma ControlPart(d: seq<byte>, m: Machine, n: Machine, c: byte)
    requires 2 <= |d| && Control(m) == Control(n) && InPart(d, m)
    ensures InPart(d, n) && Control(StepPart(d, m, c).machine) == Control(StepPart(d, n, c).machine)
  {
    hide MoveAt;
  }

  lemma ControlHead(d: seq<byte>, m: Machine, n: Machine, c: byte)
    requires 2 <= |d| && Control(m) == Control(n)
    ensures Control(Leaked(StepHead(d, m, c).machine, c)) == Control(Leaked(StepHead(d, n, c).machine, c))
  {
    if m.phase.Field? || m.phase.FieldStart? {
      var count := if m.phase.Field? then m.phase.count else 0;
      ControlName(m, n, count, if m.phase.Field? then m.phase.held else [], if n.phase.Field? then n.phase.held else [], c);
      hide StepField;
    } else {
      hide StepFirstLine;
      SameOtherwise(d, m, n, c);
    }
  }

  lemma ControlName(m: Machine, n: Machine, count: nat, held: seq<byte>, held': seq<byte>, c: byte)
    requires Control(m) == Control(n)
    ensures Control(Leaked(StepField(m, count, held, c).machine, c)) == Control(Leaked(StepField(n, count, held', c).machine, c))
  {
    hide IsNameByte;
  }

  /** Outside names the step does not look at the trail. */
  lemma SameOtherwise(d: seq<byte>, m: Machine, n: Machine, c: byte)
    requires 2 <= |d| && Control(m) == Control(n) && !m.phase.Field? && !m.phase.FieldStart?
    ensures StepHead(d, m, c).machine == m.(phase := StepHead(d, m, c).machine.phase)
    ensures StepHead(d, n, c).machine == n.(phase := StepHead(d, m, c).machine.phase)
    ensures !StepHead(d, m, c).machine.phase.Field?
  {
  }

  lemma {:induction false} ControlRun(d: seq<byte>, t: Trace, u: Trace, s: seq<byte>)
    requires 2 <= |d| && Control(t.machine) == Control(u.machine)
    ensures Control(Run(d, t, s).machine) == Control(Run(d, u, s).machine)
    decreases |s|
  {
    hide Step;
    hide Control;
    if s != [] {
      ControlRun(d, t, u, s[..|s| - 1]);
      ControlStep(d, Run(d, t, s[..|s| - 1]).machine, Run(d, u, s[..|s| - 1]).machine, s[|s| - 1]);
    }
  }

  lemma ControlFlush(t: Trace)
    ensures Control(Flush(t).machine) == Control(t.machine)
  {
  }

  /** For every stream, refused or not: state, flags and counter do not depend on the cuts. */
  lemma {:induction false} ControlIsCutInvariant(d: seq<byte>, t: Trace, cuts: seq<seq<byte>>)
    requires 2 <= |d|
    ensures Control(FeedAll(d, t, cuts).machine) == Control(Run(d, t, Join(cuts)).machine)
    decreases |cuts|
  {
    hide Run;
    hide Control;
    hide Flush;
    if cuts == [] {
      RunEmpty(d, t);
    } else {
      var before, s := cuts[..|cuts| - 1], cuts[|cuts| - 1];
      ControlIsCutInvariant(d, t, before);
      ControlRun(d, FeedAll(d, t, before), Run(d, t, Join(before)), s);
      RunConcat(d, t, Join(before), s);
      ControlFlush(Run(d, FeedAll(d, t, before), s));
    }
  }

  lemma ControlMeans(m: Machine, n: Machine)
    requires Control(m) == Control(n)
    ensures Stopped(m) == Stopped(n) && m.phase.Overflow? == n.phase.Overflow? && m.phase.Failed? == n.phase.Failed?
    ensures m.phase.Finished? == n.phase.Finished?
  {
  }

  lemma {:induction false} ConsumedByControl(d: seq<byte>, t: Trace, u: Trace, s: seq<byte>)
    requires 2 <= |d| && Control(t.machine) == Control(u.machine)
    ensures Consumed(d, t, s) == Consumed(d, u, s)
    decreases |s|
  {
    hide Step;
    hide Control;
    if s != [] {
      ControlStep(d, t.machine, u.machine, s[0]);
      var t', u' := Then(d, t, s[0]), Then(d, u, s[0]);
      ControlMeans(t'.machine, u'.machine);
      ConsumedByControl(d, t', u', s[1..]);
    }
  }

  /** Where reading stops does not change when more bytes follow. */
  lemma ConsumedAppend(d: seq<byte>, t: Trace, s: seq<byte>, u: seq<byte>)
    requires 2 <= |d|
    ensures Consumed(d, t, s + u) == if Stopped(Run(d, t, s).machine) then Consumed(d, t, s) else |s| + Consumed(d, Run(d, t, s), u)
  {
    hide Step;
    assert (s + u)[..|s|] == s && (s + u)[|s|..] == u;
    if Stopped(Run(d, t, s).machine) {
      ConsumedStopped(d, t, s, u);
    } else {
      hide Run;
      hide Consumed;
      ConsumedSkip(d, t, s + u, |s|);
    }
  }

  lemma {:induction false} ConsumedStopped(d: seq<byte>, t: Trace, s: seq<byte>, u: seq<byte>)
    requires 2 <= |d| && Stopped(Run(d, t, s).machine)
    ensures Consumed(d, t, s + u) == Consumed(d, t, s)
    decreases |s|
  {
    hide Step;
    hide Run;
    if s == [] {
      RunEmpty(d, t);
      StoppedStays(d, t, u);
      assert s + u == u;
    } else {
      assert (s + u)[0] == s[0] && (s + u)[1..] == s[1..] + u;
      RunCons(d, t, s);
      if !Stopped(Then(d, t, s[0]).machine) { ConsumedStopped(d, Then(d, t, s[0]), s[1..], u); }
    }
  }

  /** For every stream: what the calls return adds up to where one pass stops, whatever the cuts. */
  lemma {:induction false} TakenIsConsumed(d: seq<byte>, t: Trace, cuts: seq<seq<byte>>)
    requires 2 <= |d|
    ensures Taken(d, t, cuts) == Consumed(d, t, Join(cuts))
    decreases |cuts|
  {
    hide Run;
    hide Control;
    hide Step;
    if cuts == [] {
    } else {
      var before, s := cuts[..|cuts| - 1], cuts[|cuts| - 1];
      var f, r := FeedAll(d, t, before), Run(d, t, Join(before));
      TakenIsConsumed(d, t, before);
      ControlIsCutInvariant(d, t, before);
      ControlMeans(f.machine, r.machine);
      ConsumedAppend(d, t, Join(before), s);
      ConsumedByControl(d, f, r, s);
      if Stopped(f.machine) { StoppedStays(d, f, s); } else { AllTaken(d, t, Join(before)); }
    }
  }

  lemma AllTaken(d: seq<byte>, t: Trace, s: seq<byte>)
    requires 2 <= |d| && !Stopped(Run(d, t, s).machine)
    ensures Consumed(d, t, s) == |s|
  {
    hide Run;
    assert s[..|s|] == s && s[|s|..] == [];
    ConsumedSkip(d, t, s, |s|);
  }

  // ----- When the exception is thrown -----

  predicate AreNameBytes(s: seq<byte>) { forall k :: 0 <= k < |s| ==> IsNameByte(s[k]) }

  /** A header line at offset n of k name bytes and no colon, with a byte of data after it. */
  ghost predicate BareLine(d: seq<byte>, s: seq<byte>, n: int, k: int)
    requires 2 <= |d|
  {
    && 0 <= n && 0 < k && n + k + 2 < |s|
    && Run(d, Begin(), s[..n]).machine.phase.FieldStart?
    && AreNameBytes(s[n..n + k]) && s[n + k] == CR && s[n + k + 1] == LF
  }

  /** One with more name bytes than the lookbehind buffer has places. */
  ghost predicate LongLine(d: seq<byte>, s: seq<byte>, n: int, k: int)
    requires 2 <= |d|
  {
    BareLine(d, s, n, k) && k > |d| + 8
  }

  lemma {:induction false} CountsName(d: seq<byte>, t: Trace, name: seq<byte>)
    requires 2 <= |d| && t.machine.phase.FieldStart? && name != [] && AreNameBytes(name)
    ensures var p := Run(d, t, name).machine.phase; p.Field? && p.count == |name|
    decreases |name|
  {
    hide Then;
    hide IsNameByte;
    var u, c := name[..|name| - 1], name[|name| - 1];
    assert IsNameByte(c);
    NotSpecial(c);
    if u == [] {
      RunEmpty(d, t);
    } else {
      CountsName(d, t, u);
    }
    ThenInName(d, Run(d, t, u), c);
  }

  lemma NotSpecial(c: byte)
    requires IsNameByte(c)
    ensures c != CR && c != COLON
  {
  }

  /** Where the data after such a line starts. */
  lemma BareLineLeads(d: seq<byte>, s: seq<byte>, n: nat, k: nat)
    requires 2 <= |d| && BareLine(d, s, n, k)
    ensures Run(d, Begin(), s[..n + k + 2]).machine.phase == DataStart(k)
  {
    hide Run;
    hide Then;
    var t := Run(d, Begin(), s[..n]);
    assert s[..n + k] == s[..n] + s[n..n + k];
    RunConcat(d, Begin(), s[..n], s[n..n + k]);
    CountsName(d, t, s[n..n + k]);
    var u := Run(d, Begin(), s[..n + k]);
    ThenInName(d, u, CR);
    assert s[..n + k + 1] == s[..n + k] + [CR] && s[..n + k + 2] == s[..n + k + 1] + [LF];
    RunSnoc(d, Begin(), s[..n + k], CR);
    ThenAtLineEnd(d, Run(d, Begin(), s[..n + k + 1]), LF);
    RunSnoc(d, Begin(), s[..n + k + 1], LF);
  }

  lemma LongLineThrows(d: seq<byte>, s: seq<byte>, n: nat, k: nat)
    requires 2 <= |d| && LongLine(d, s, n, k)
    ensures Run(d, Begin(), s).machine.phase.Overflow?
  {
    hide Run;
    BareLineLeads(d, s, n, k);
    var j := n + k + 2;
    var t := Run(d, Begin(), s[..j]);
    assert s[..j + 1] == s[..j] + [s[j]] && s == s[..j + 1] + s[j + 1..];
    RunSnoc(d, Begin(), s[..j], s[j]);
    RunConcat(d, Begin(), s[..j + 1], s[j + 1..]);
    assert Then(d, t, s[j]).machine.phase.Overflow?;
    StoppedStays(d, Run(d, Begin(), s[..j + 1]), s[j + 1..]);
  }

  /** How each place on the way to the exception is reached. */
  lemma OverflowFrom(d: seq<byte>, m: Machine, c: byte)
    requires 2 <= |d| && Valid(d, m) && Step(d, m, c).machine.phase.Overflow? && !m.phase.Overflow?
    ensures m.phase.DataStart? && m.phase.carried > |d| + LOOKBEHIND_SLACK
  {
    hide IsNameByte;
  }

  lemma DataStartFrom(d: seq<byte>, m: Machine, c: byte)
    requires 2 <= |d| && Step(d, m, c).machine.phase.DataStart?
    ensures m.phase == HeadersAlmostDone(Step(d, m, c).machine.phase.carried) && c == LF
  {
    HeadOnly(d, m, c);
    hide Step;
    hide IsNameByte;
  }

  lemma AlmostDoneFrom(d: seq<byte>, m: Machine, c: byte)
    requires 2 <= |d| && Step(d, m, c).machine.phase.HeadersAlmostDone? && Step(d, m, c).machine.phase.carried > 0
    ensures m.phase.Field? && m.phase.count == Step(d, m, c).machine.phase.carried && c == CR
  {
    HeadOnly(d, m, c);
    hide Step;
    hide IsNameByte;
  }

  /** Inside a name: it started at a line's start and holds name bytes only. */
  lemma {:induction false} NameStart(d: seq<byte>, s: seq<byte>)
    requires 2 <= |d| && Run(d, Begin(), s).machine.phase.Field?
    ensures var k := Run(d, Begin(), s).machine.phase.count;
            && 0 < k <= |s| && Run(d, Begin(), s[..|s| - k]).machine.phase.FieldStart?
            && AreNameBytes(s[|s| - k..])
    decreases |s|
  {
    hide *;
    LastStep(d, s);
    var u, c := s[..|s| - 1], s[|s| - 1];
    var m := Run(d, Begin(), u).machine;
    NameGrows(d, m, c);
    NameByteRead(d, m, c);
    if m.phase.Field? {
      NameStart(d, u);
      NameLonger(s, m.phase.count);
    } else {
      NameOne(s);
    }
  }

  lemma NameLonger(s: seq<byte>, k: nat)
    requires k < |s| && AreNameBytes(s[..|s| - 1][|s| - 1 - k..]) && IsNameByte(s[|s| - 1])
    ensures s[..|s| - 1][..|s| - 1 - k] == s[..|s| - (k + 1)] && AreNameBytes(s[|s| - (k + 1)..])
  {
    hide IsNameByte;
    var u := s[..|s| - 1];
    assert s[|s| - (k + 1)..] == u[|u| - k..] + [s[|s| - 1]];
  }

  lemma NameOne(s: seq<byte>)
    requires s != [] && IsNameByte(s[|s| - 1])
    ensures AreNameBytes(s[|s| - 1..])
  {
    hide IsNameByte;
  }

  lemma NameByteRead(d: seq<byte>, m: Machine, c: byte)
    requires 2 <= |d| && Step(d, m, c).machine.phase.Field?
    ensures IsNameByte(c)
  {
    HeadOnly(d, m, c);
    hide Step;
    hide IsNameByte;
  }

  /** At the start of data with a carried counter, a line without a colon has just ended. */
  lemma BareLineBefore(d: seq<byte>, s: seq<byte>)
    requires 2 <= |d| && Run(d, Begin(), s).machine.phase.DataStart? && Run(d, Begin(), s).machine.phase.carried > 0
    ensures var k := Run(d, Begin(), s).machine.phase.carried;
            && k + 2 <= |s| && Run(d, Begin(), s[..|s| - k - 2]).machine.phase.FieldStart?
            && AreNameBytes(s[|s| - k - 2..|s| - 2]) && s[|s| - 2] == CR && s[|s| - 1] == LF
  {
    hide *;
    LastStep(d, s);
    var u := s[..|s| - 1];
    DataStartFrom(d, Run(d, Begin(), u).machine, s[|s| - 1]);
    LastStep(d, u);
    var v := u[..|u| - 1];
    AlmostDoneFrom(d, Run(d, Begin(), v).machine, u[|u| - 1]);
    NameStart(d, v);
    WithoutLast(s, Run(d, Begin(), s).machine.phase.carried);
  }

  lemma WithoutLast(s: seq<byte>, k: nat)
    requires k + 2 <= |s|
    ensures var u := s[..|s| - 1];
            var v := u[..|u| - 1];
            && v[..|v| - k] == s[..|s| - k - 2] && v[|v| - k..] == s[|s| - k - 2..|s| - 2] && u[|u| - 1] == s[|s| - 2]
  {
  }

  lemma LastStep(d: seq<byte>, s: seq<byte>)
    requires 2 <= |d| && !Run(d, Begin(), s).machine.phase.FirstLine?
    ensures s != [] && Run(d, Begin(), s).machine == Step(d, Run(d, Begin(), s[..|s| - 1]).machine, s[|s| - 1]).machine
  {
    hide Step;
  }

  lemma {:induction false} ThrownByLongLine(d: seq<byte>, s: seq<byte>) returns (n: nat, k: nat)
    requires 2 <= |d| && Run(d, Begin(), s).machine.phase.Overflow?
    ensures LongLine(d, s, n, k)
    decreases |s|
  {
    hide Step;
    hide IsNameByte;
    var u, c := s[..|s| - 1], s[|s| - 1];
    if Run(d, Begin(), u).machine.phase.Overflow? {
      n, k := ThrownByLongLine(d, u);
      assert u[..n] == s[..n] && u[n..n + k] == s[n..n + k];
    } else {
      RunValid(d, Begin(), u);
      OverflowFrom(d, Run(d, Begin(), u).machine, c);
      BareLineBefore(d, u);
      k := Run(d, Begin(), u).machine.phase.carried;
      n := |u| - k - 2;
      assert u[..n] == s[..n] && u[n..n + k] == s[n..n + k];
    }
  }

  /**
   For every stream, under any cuts: the exception is thrown if and only if a line without a colon has more name bytes
   than the lookbehind buffer has places, and a data byte follows it.
   */
  lemma ThrowsIff(d: seq<byte>, cuts: seq<seq<byte>>)
    requires 2 <= |d|
    ensures FeedAll(d, Begin(), cuts).machine.phase.Overflow? <==> exists n, k :: LongLine(d, Join(cuts), n, k)
  {
    hide Run;
    hide Control;
    hide FeedAll;
    var s := Join(cuts);
    ControlIsCutInvariant(d, Begin(), cuts);
    ControlMeans(FeedAll(d, Begin(), cuts).machine, Run(d, Begin(), s).machine);
    if Run(d, Begin(), s).machine.phase.Overflow? {
      var n, k := ThrownByLongLine(d, s);
    }
    if n, k :| LongLine(d, s, n, k) {
      LongLineThrows(d, s, n, k);
    }
  }

  /** The same of the parser object. */
  method FeedUntilThrown(boundary: seq<byte>, cuts: seq<seq<byte>>) returns (thrown: bool)
    requires 2 <= |boundary|
    ensures thrown <==> exists n, k :: LongLine(boundary, Join(cuts), n, k)
  {
    hide FeedAll;
    hide LongLine;
    hide MultipartParser.Like;
    hide MultipartParser.Flatten;
    hide MultipartParser.Parser.Valid;
    var parser := new MultipartParser.Parser(boundary);
    thrown := parser.FeedStream(cuts);
    ThrowsIff(boundary, cuts);
  }

  // ----- When unwritten places are handed over -----

  /** Where a byte of data is read. */
  function Reading(m: Machine): (r: Machine) { if m.phase.DataStart? then Started(m) else m }

  /** The counter was carried in, and the byte does not go on with what it stands for. */
  predicate GivesBack(d: seq<byte>, m: Machine, c: byte) {
    var r := Reading(m);
    r.phase.Astray? && MoveAt(d, Index(d, r), r.partFlag, r.lastFlag, c).Retry?
  }

  lemma LeftoverStep(d: seq<byte>, m: Machine, c: byte)
    requires 2 <= |d| && Valid(d, m)
    ensures Leftover in Step(d, m, c).events <==> GivesBack(d, m, c)
  {
    hide IsNameByte;
    hide MoveAt;
    hide StepPart;
    var r := Reading(m);
    PartHasNone(d, if r.phase.Astray? then r.(phase := Data(0), trail := Strayed) else r, c);
    if r.phase.Astray? {
      assert Leftovers(r.phase.from)[0] == Leftover;
      assert GivenBack(r)[0] == Leftover;
    }
  }

  lemma PartHasNone(d: seq<byte>, m: Machine, c: byte)
    requires 2 <= |d|
    ensures InPart(d, m) ==> Leftover !in StepPart(d, m, c).events
  {
    hide MoveAt;
  }

  lemma GivesBackByControl(d: seq<byte>, m: Machine, n: Machine, c: byte)
    requires Control(m) == Control(n)
    ensures GivesBack(d, m, c) == GivesBack(d, n, c)
  {
    hide MoveAt;
  }

  lemma FlushHasNone(t: Trace)
    ensures Leftover in Flush(t).log <==> Leftover in t.log
  {
  }

  /** One pass from u and a pass from t that is at the same place hand over leftovers or none. */
  lemma {:induction false} LeftoverRun(d: seq<byte>, t: Trace, u: Trace, s: seq<byte>)
    requires 2 <= |d| && Control(t.machine) == Control(u.machine) && Valid(d, t.machine) && Valid(d, u.machine)
    requires Leftover in t.log <==> Leftover in u.log
    ensures Leftover in Run(d, t, s).log <==> Leftover in Run(d, u, s).log
    decreases |s|
  {
    hide Step;
    hide Control;
    hide GivesBack;
    if s != [] {
      var s', c := s[..|s| - 1], s[|s| - 1];
      LeftoverRun(d, t, u, s');
      ControlRun(d, t, u, s');
      RunValid(d, t, s');
      RunValid(d, u, s');
      var t', u' := Run(d, t, s'), Run(d, u, s');
      LeftoverStep(d, t'.machine, c);
      LeftoverStep(d, u'.machine, c);
      GivesBackByControl(d, t'.machine, u'.machine, c);
    }
  }

  lemma FlushValid(d: seq<byte>, t: Trace)
    requires Valid(d, t.machine)
    ensures Valid(d, Flush(t).machine)
  {
  }

  lemma {:induction false} FeedAllValid(d: seq<byte>, t: Trace, cuts: seq<seq<byte>>)
    requires 2 <= |d| && Valid(d, t.machine)
    ensures Valid(d, FeedAll(d, t, cuts).machine)
    decreases |cuts|
  {
    hide Run;
    hide Flush;
    if cuts != [] {
      var f := FeedAll(d, t, cuts[..|cuts| - 1]);
      FeedAllValid(d, t, cuts[..|cuts| - 1]);
      RunValid(d, f, cuts[|cuts| - 1]);
      FlushValid(d, Run(d, f, cuts[|cuts| - 1]));
    }
  }

  /** Whether unwritten places are handed over does not depend on the cuts. */
  lemma {:induction false} LeftoverIsCutInvariant(d: seq<byte>, t: Trace, cuts: seq<seq<byte>>)
    requires 2 <= |d| && Valid(d, t.machine)
    ensures Leftover in FeedAll(d, t, cuts).log <==> Leftover in Run(d, t, Join(cuts)).log
    decreases |cuts|
  {
    hide Run;
    hide Control;
    hide Flush;
    if cuts == [] {
      RunEmpty(d, t);
    } else {
      var before, s := cuts[..|cuts| - 1], cuts[|cuts| - 1];
      var f, r := FeedAll(d, t, before), Run(d, t, Join(before));
      LeftoverIsCutInvariant(d, t, before);
      ControlIsCutInvariant(d, t, before);
      FeedAllValid(d, t, before);
      RunValid(d, t, Join(before));
      LeftoverRun(d, f, r, s);
      RunConcat(d, t, Join(before), s);
      FlushHasNone(Run(d, f, s));
    }
  }

  /** A byte that gives back unwritten places. */
  ghost predicate GivesBackAt(d: seq<byte>, s: seq<byte>, n: int)
    requires 2 <= |d|
  {
    0 <= n < |s| && GivesBack(d, Run(d, Begin(), s[..n]).machine, s[n])
  }

  lemma {:induction false} LeftoverInRun(d: seq<byte>, s: seq<byte>)
    requires 2 <= |d|
    ensures Leftover in Run(d, Begin(), s).log <==> exists n :: GivesBackAt(d, s, n)
    decreases |s|
  {
    hide Step;
    hide GivesBack;
    if s == [] {
    } else {
      var u, c := s[..|s| - 1], s[|s| - 1];
      LeftoverInRun(d, u);
      RunValid(d, Begin(), u);
      LeftoverStep(d, Run(d, Begin(), u).machine, c);
      forall n | 0 <= n < |u| ensures GivesBackAt(d, u, n) == GivesBackAt(d, s, n) {
        assert u[..n] == s[..n];
      }
      assert GivesBackAt(d, s, |u|) == GivesBack(d, Run(d, Begin(), u).machine, c);
      if n :| GivesBackAt(d, u, n) { assert GivesBackAt(d, s, n); }
    }
  }

  /**
   For every stream, under any cuts: callbacks get places of the lookbehind buffer not written for the part if and only if
   some data byte is read with a carried counter and does not go on with the delimiter that the counter stands for.
   */
  lemma LeftoverIff(d: seq<byte>, cuts: seq<seq<byte>>)
    requires 2 <= |d|
    ensures Leftover in FeedAll(d, Begin(), cuts).log <==> exists n :: GivesBackAt(d, Join(cuts), n)
  {
    LeftoverIsCutInvariant(d, Begin(), cuts);
    LeftoverInRun(d, Join(cuts));
  }

  /** In particular for the first data byte after a line without a colon: the condition is on that byte. */
  lemma FirstByteGivesBackIff(d: seq<byte>, s: seq<byte>, n: nat, k: nat)
    requires 2 <= |d| && BareLine(d, s, n, k)
    ensures var c, m := s[n + k + 2], Run(d, Begin(), s[..n + k + 2]).machine;
            GivesBackAt(d, s, n + k + 2) <==>
              if k < |d| then c != d[k]
              else if k == |d| then c != CR && c != HYPHEN
              else if k == |d| + 1 then (if m.partFlag then c != LF else !(m.lastFlag && c == HYPHEN))
              else if k == |d| + 2 then c != CR
              else k == |d| + 3 && c != LF
  {
    hide Run;
    BareLineLeads(d, s, n, k);
  }

  /**
   Data that starts like the rest of a delimiter is taken for one: CR LF begins a part after a name as long as the
   delimiter, and ends the stream after one that is two longer; LF ends it after one that is three longer.
   */
  lemma CarriedDelimiter(d: seq<byte>, s: seq<byte>, n: nat, k: nat)
    requires 2 <= |d| && BareLine(d, s, n, k) && n + k + 4 <= |s|
    ensures var c, c' := s[n + k + 2], s[n + k + 3];
            && (k == |d| && c == CR && c' == LF ==> Run(d, Begin(), s[..n + k + 4]).machine.phase == FieldStart)
            && (k == |d| + 2 && c == CR && c' == LF ==> Run(d, Begin(), s[..n + k + 4]).machine.phase == Finished)
            && (k == |d| + 3 && c == LF ==> Run(d, Begin(), s[..n + k + 3]).machine.phase == Finished)
  {
    hide Run;
    var j := n + k + 2;
    BareLineLeads(d, s, n, k);
    var t := Run(d, Begin(), s[..j]);
    assert s[..j + 1] == s[..j] + [s[j]] && s[..j + 2] == s[..j + 1] + [s[j + 1]];
    RunSnoc(d, Begin(), s[..j], s[j]);
    RunSnoc(d, Begin(), s[..j + 1], s[j + 1]);
    ThenAtDataStart(d, t, s[j]);
    var u := t.(machine := Started(t.machine));
    hide Then;
    ThenAstray(d, u, s[j]);
    if Then(d, u, s[j]).machine.phase.Astray? { ThenAstray(d, Then(d, u, s[j]), s[j + 1]); }
  }

  // ----- When no delimiter is recognised any more -----

  /** A counter of |d| + 4 to |d| + 8 never changes: the rest of the stream is data, handed over at the buffers' ends. */
  lemma {:induction false} StuckForever(d: seq<byte>, t: Trace, s: seq<byte>)
    requires 2 <= |d| && t.machine.phase.Astray? && t.machine.trail.Leaking?
    requires |d| + 3 < Index(d, t.machine) <= |d| + 8
    ensures Run(d, t, s) == t.(machine := t.machine.(trail := Leaking(t.machine.trail.bytes + s)))
    ensures Feed(d, t, s) == Trace(t.machine.(trail := Leaking([])), t.log + DataBytes(t.machine.trail.bytes + s))
    decreases |s|
  {
    var b := t.machine.trail.bytes;
    if s == [] {
      assert b + s == b;
    } else {
      var u, c := s[..|s| - 1], s[|s| - 1];
      StuckForever(d, t, u);
      hide Then;
      StuckThen(d, Run(d, t, u), c);
      assert b + u + [c] == b + s;
    }
  }

  lemma StuckThen(d: seq<byte>, t: Trace, c: byte)
    requires 2 <= |d| && t.machine.phase.Astray? && t.machine.trail.Leaking?
    requires |d| + 3 < Index(d, t.machine) <= |d| + 8
    ensures Then(d, t, c) == t.(machine := t.machine.(trail := Leaking(t.machine.trail.bytes + [c])))
  {
    hide Then;
    ThenAstray(d, t, c);
  }

  lemma StuckAfter(d: seq<byte>, s: seq<byte>, n: nat, k: nat)
    requires 2 <= |d| && BareLine(d, s, n, k) && |d| + 3 < k <= |d| + 8
    ensures Run(d, Begin(), s).machine.phase == Astray(k, [])
  {
    hide Run;
    BareLineLeads(d, s, n, k);
    var j := n + k + 2;
    var t := Run(d, Begin(), s[..j]);
    assert s == s[..j] + s[j..];
    RunConcat(d, Begin(), s[..j], s[j..]);
    RunCons(d, t, s[j..]);
    var u := t.(machine := Started(t.machine));
    RunCons(d, u, s[j..]);
    ThenAtDataStart(d, t, s[j]);
    StuckForever(d, u, s[j..]);
  }

  // ----- Real streams -----

  /** "\r\n--b" */
  function SmallDelimiter(): (d: seq<byte>) { CRLF + DASHES + [98] }

  /** The first line for it, and a header line of the given name bytes and no colon. */
  function BareStream(name: seq<byte>): (s: seq<byte>) { DASHES + [98] + CRLF + name + CRLF }

  lemma FirstLineRead()
    ensures Run(SmallDelimiter(), Begin(), DASHES + [98] + CRLF)
         == Trace(Machine(FieldStart, false, false, Straight), [PartBegin])
  {
    hide Run;
    var d := SmallDelimiter();
    var s := DASHES + [98] + CRLF;
    assert s == [] + [HYPHEN] + [HYPHEN] + [98] + [CR] + [LF];
    RunEmpty(d, Begin());
    RunSnoc(d, Begin(), [], HYPHEN);
    RunSnoc(d, Begin(), [] + [HYPHEN], HYPHEN);
    RunSnoc(d, Begin(), [] + [HYPHEN] + [HYPHEN], 98);
    RunSnoc(d, Begin(), [] + [HYPHEN] + [HYPHEN] + [98], CR);
    RunSnoc(d, Begin(), [] + [HYPHEN] + [HYPHEN] + [98] + [CR], LF);
    assert [] + [PartBegin] == [PartBegin];
  }

  lemma BareStreamHasLine(name: seq<byte>, data: seq<byte>)
    requires name != [] && AreNameBytes(name) && data != []
    ensures BareLine(SmallDelimiter(), BareStream(name) + data, 5, |name|)
  {
    hide Run;
    var s := BareStream(name) + data;
    FirstLineRead();
    assert s[..5] == DASHES + [98] + CRLF && s[5..5 + |name|] == name;
  }

  /** --b CR LF A CR LF X: no exception, and one unwritten place is handed over before X. */
  lemma LeftoverExample(cuts: seq<seq<byte>>)
    requires Join(cuts) == BareStream([65]) + [88]
    ensures var t := FeedAll(SmallDelimiter(), Begin(), cuts); !t.machine.phase.Overflow? && Leftover in t.log
  {
    hide Run;
    hide FeedAll;
    var d, s := SmallDelimiter(), BareStream([65]) + [88];
    BareStreamHasLine([65], [88]);
    FirstByteGivesBackIff(d, s, 5, 1);
    assert GivesBackAt(d, s, 8);
    LeftoverIff(d, cuts);
    ThrowsIff(d, cuts);
    forall n, k ensures !LongLine(d, s, n, k) {
      assert |s| == 9;
    }
  }

  /** A name of fourteen letters, with the same delimiter of five bytes: the exception is thrown. */
  lemma ThrowExample(cuts: seq<seq<byte>>)
    requires Join(cuts) == BareStream(seq(14, i => 65)) + [88]
    ensures FeedAll(SmallDelimiter(), Begin(), cuts).machine.phase.Overflow?
  {
    hide Run;
    hide FeedAll;
    var name := seq(14, i => 65);
    BareStreamHasLine(name, [88]);
    assert LongLine(SmallDelimiter(), Join(cuts), 5, 14);
    ThrowsIff(SmallDelimiter(), cuts);
  }
}
