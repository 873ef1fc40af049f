/**
 Which contents of a part are read back. The parser tells the delimiter from content by what follows it: CR starts a
 part and "--" ends the stream. A CR that is not followed by LF leaves the part flag set, and from then on the closing
 delimiter is not seen.
 */
module MultipartContent {
  import opened Bytes
  import opened MultipartMachine

  /** The parser inside a part's data, with nothing handed over. */
  function InData(): (t: Trace) { Trace(Machine(Data(0), false, false, Straight), []) }

  /** At offset j the delimiter is followed by CR or by "--". */
  ghost predicate Interrupts(d: seq<byte>, s: seq<byte>, j: int) {
    OccursAt(d + [CR], s, j) || OccursAt(d + DASHES, s, j)
  }

  ghost predicate CleanBelow(d: seq<byte>, s: seq<byte>, n: int) {
    forall j :: 0 <= j < n ==> !Interrupts(d, s, j)
  }

  /** Nothing before the closing delimiter looks like a delimiter of the parser's. */
  ghost predicate Clean(d: seq<byte>, content: seq<byte>) {
    CleanBelow(d, content + d + DASHES, |content|)
  }

  lemma InterruptsInExtension(d: seq<byte>, u: seq<byte>, s: seq<byte>, j: int)
    requires u <= s && Interrupts(d, u, j)
    ensures Interrupts(d, s, j)
  {
    if OccursAt(d + [CR], u, j) {
      OccursInExtension(d + [CR], u, s, j);
    } else {
      OccursInExtension(d + DASHES, u, s, j);
    }
  }

  lemma CleanPrefix(d: seq<byte>, u: seq<byte>, s: seq<byte>, n: int)
    requires u <= s && CleanBelow(d, s, n)
    ensures CleanBelow(d, u, n)
  {
    forall j | 0 <= j < n && Interrupts(d, u, j) ensures false {
      InterruptsInExtension(d, u, s, j);
    }
  }

  // ----- Clean content is handed over in order -----

  /** `s` has been handed over but for what is held back, which is its end; no part delimiter has been tried. */
  ghost predicate Scanning(d: seq<byte>, from: Trace, s: seq<byte>, t: Trace) {
    && InPart(d, t.machine) && !t.machine.partFlag && t.machine.trail == from.machine.trail
    && (t.machine.phase.Tail? ==> t.machine.phase.last == HYPHEN && t.machine.lastFlag)
    && var h := Held(d, t.machine);
       |h| <= |s| && s[|s| - |h|..] == h && t.log == from.log + DataBytes(s[..|s| - |h|])
  }

  lemma ScanningThen(d: seq<byte>, from: Trace, s: seq<byte>, t: Trace, c: byte)
    requires 2 <= |d| && Scanning(d, from, s, t)
    requires forall j :: !Interrupts(d, s + [c], j)
    ensures Scanning(d, from, s + [c], Then(d, t, c))
  {
    PartMoves(d, t.machine, c);
    match MoveOn(d, t.machine, c)
    case Extend => ScanningExtend(d, from, s, t, c);
    case Retry => ScanningRetry(d, from, s, t, c);
    case LastPart => EndInterrupts(d, s);
    case NextPart =>
  }

  lemma ScanningExtend(d: seq<byte>, from: Trace, s: seq<byte>, t: Trace, c: byte)
    requires 2 <= |d| && Scanning(d, from, s, t) && MoveOn(d, t.machine, c).Extend?
    requires forall j :: !Interrupts(d, s + [c], j)
    ensures Scanning(d, from, s + [c], Then(d, t, c))
  {
    ThenInPart(d, t, c);
    PartMoves(d, t.machine, c);
    if t.machine.phase == Data(|d|) && c == CR { PartInterrupts(d, s); }
    hide Then;
    hide MoveOn;
    hide DataBytes;
    EndsLonger(s, Held(d, t.machine), c);
    hide Held;
  }

  lemma EndsLonger(s: seq<byte>, h: seq<byte>, c: byte)
    requires |h| <= |s| && s[|s| - |h|..] == h
    ensures var s', h' := s + [c], h + [c]; s'[|s'| - |h'|..] == h' && s'[..|s'| - |h'|] == s[..|s| - |h|]
  {
  }

  lemma ScanningRetry(d: seq<byte>, from: Trace, s: seq<byte>, t: Trace, c: byte)
    requires 2 <= |d| && Scanning(d, from, s, t) && MoveOn(d, t.machine, c).Retry?
    ensures Scanning(d, from, s + [c], Then(d, t, c))
  {
    ThenInPart(d, t, c);
    var h, s' := Held(d, t.machine), s + [c];
    var t' := Trace(t.machine.(phase := Data(0)), from.log + DataBytes(s));
    FreshByte(d, t', c);
    hide Then;
    hide MoveOn;
    hide DataBytes;
    assert s == s[..|s| - |h|] + h;
    DataBytesConcat(from.log, s[..|s| - |h|], h);
    DataBytesConcat(from.log, s, [c]);
    assert d[..0] == [] && s'[..|s|] == s && s'[..|s'|] == s' && s'[|s'|..] == [] && s'[|s|..] == [c];
    assert c == d[0] ==> d[..1] == [c];
  }

  lemma PartMoves(d: seq<byte>, m: Machine, c: byte)
    requires InPart(d, m)
    ensures MoveOn(d, m, c).Extend? && m.phase == Data(|d|) ==> c == CR || c == HYPHEN
    ensures MoveOn(d, m, c).LastPart? ==> m.phase.Tail? && c == HYPHEN
    ensures MoveOn(d, m, c).NextPart? ==> m.partFlag
  {
  }

  /** A byte looked at with no candidate. */
  lemma FreshByte(d: seq<byte>, t: Trace, c: byte)
    requires 2 <= |d| && t.machine.phase == Data(0)
    ensures Then(d, t, c) == if c == d[0] then Trace(t.machine.(phase := Data(1)), t.log)
                             else Trace(t.machine, t.log + [DataByte(c)])
  {
    hide Step;
    ThenInPart(d, t, c);
    assert d[..0] == [];
  }

  /** The delimiter held back and a CR after it. */
  lemma PartInterrupts(d: seq<byte>, s: seq<byte>)
    requires |d| <= |s| && s[|s| - |d|..] == d
    ensures Interrupts(d, s + [CR], |s| - |d|)
  {
    var j := |s| - |d|;
    assert (s + [CR])[j..j + |d| + 1] == d + [CR];
  }

  /** The delimiter and a hyphen held back, and another hyphen after them. */
  lemma EndInterrupts(d: seq<byte>, s: seq<byte>)
    requires |d| < |s| && s[|s| - |d| - 1..] == d + [HYPHEN]
    ensures Interrupts(d, s + [HYPHEN], |s| - |d| - 1)
  {
    var j := |s| - |d| - 1;
    assert (s + [HYPHEN])[j..j + |d| + 2] == d + DASHES;
  }

  lemma {:induction false} ScanClean(d: seq<byte>, t: Trace, s: seq<byte>)
    requires 2 <= |d| && t.machine.phase == Data(0) && !t.machine.partFlag
    requires CleanBelow(d, s, |s|)
    ensures Scanning(d, t, s, Run(d, t, s))
    decreases |s|
  {
    hide Step;
    if s == [] {
      assert d[..0] == [] && t.log + DataBytes([]) == t.log;
    } else {
      var u, c := s[..|s| - 1], s[|s| - 1];
      assert s == u + [c];
      CleanPrefix(d, u, s, |u|);
      ScanClean(d, t, u);
      assert forall j :: !Interrupts(d, s, j);
      ScanningThen(d, t, u, Run(d, t, u), c);
    }
  }

  /** The delimiter is recognised right after clean content. */
  lemma ReachesDelimiter(d: seq<byte>, t: Trace, s: seq<byte>)
    requires 2 <= |d| && d[0] !in d[1..] && d[0] != HYPHEN
    requires t.machine.phase == Data(0) && !t.machine.partFlag && CleanBelow(d, s + d, |s|)
    ensures var u := Run(d, t, s + d);
            && u.machine.phase == Data(|d|) && !u.machine.partFlag && u.machine.trail == t.machine.trail
            && u.log == t.log + DataBytes(s)
  {
    hide Step;
    hide Run;
    var u := Run(d, t, s);
    CleanPrefix(d, s, s + d, |s|);
    ScanClean(d, t, s);
    if u.machine.phase == Data(|d|) && d[0] == CR {
      PartInterrupts(d, s);
      assert s + [CR] <= s + d;
      InterruptsInExtension(d, s + [CR], s + d, |s| - |d|);
    }
    StartsAfresh(d, t, s, u);
    RunConcat(d, t, s, d);
    RunCons(d, u, d);
    HoldsOn(d, Then(d, u, d[0]), 1, |d|);
    assert d[1..|d|] == d[1..];
  }

  /** Whatever is held back, the delimiter's first byte gives it back and starts a new candidate. */
  lemma StartsAfresh(d: seq<byte>, from: Trace, s: seq<byte>, u: Trace)
    requires 2 <= |d| && d[0] !in d[1..] && d[0] != HYPHEN
    requires Scanning(d, from, s, u) && !(u.machine.phase == Data(|d|) && d[0] == CR)
    ensures Then(d, u, d[0]) == Trace(u.machine.(phase := Data(1)), from.log + DataBytes(s))
  {
    hide Step;
    hide DataBytes;
    var h := Held(d, u.machine);
    ThenInPart(d, u, d[0]);
    assert s == s[..|s| - |h|] + h;
    DataBytesConcat(from.log, s[..|s| - |h|], h);
    if u.machine.phase == Data(0) {
      assert h == [] && s[..|s|] == s;
      FreshByte(d, u, d[0]);
    } else {
      assert u.machine.phase.Data? && u.machine.phase.matched < |d| ==> d[u.machine.phase.matched] == d[1..][u.machine.phase.matched - 1];
      FreshByte(d, Trace(u.machine.(phase := Data(0)), from.log + DataBytes(s)), d[0]);
    }
  }

  /** Further bytes of the delimiter extend the candidate. */
  lemma {:induction false} HoldsOn(d: seq<byte>, t: Trace, k: nat, n: nat)
    requires 2 <= |d| && k <= n <= |d| && t.machine.phase == Data(k)
    ensures Run(d, t, d[k..n]) == Trace(t.machine.(phase := Data(n)), t.log)
    decreases n
  {
    hide Step;
    if n == k {
      assert d[k..n] == [];
    } else {
      HoldsOn(d, t, k, n - 1);
      assert d[k..n] == d[k..n - 1] + [d[n - 1]];
      RunSnoc(d, t, d[k..n - 1], d[n - 1]);
      ExtendHeld(d, Run(d, t, d[k..n - 1]), d[n - 1]);
    }
  }

  // ----- A part flag that stays set -----

  ghost predicate Logged(base: seq<Event>, log: seq<Event>, e: Event) {
    base <= log && e in log[|base|..]
  }

  lemma LoggedSince(base: seq<Event>, log: seq<Event>, log': seq<Event>, e: Event)
    requires base <= log <= log' && (Logged(base, log, e) || Logged(log, log', e))
    ensures Logged(base, log', e)
  {
    assert log'[|base|..] == log[|base|..] + log'[|log|..];
  }

  /** Between a part delimiter and the data of the part it begins. */
  predicate InHead(m: Machine) {
    || m.phase.FieldStart? || m.phase.Field? || m.phase.ValueStart? || m.phase.Value? || m.phase.ValueAlmostDone?
    || m.phase.HeadersAlmostDone? || m.phase.Failed?
  }

  /** Since `base` the part flag has been set in a part's data, or another part has begun. */
  ghost predicate Stale(d: seq<byte>, base: seq<Event>, t: Trace) {
    && base <= t.log
    && if InPart(d, t.machine) && t.machine.partFlag then true
       else Logged(base, t.log, PartBegin) && (InHead(t.machine) || Logged(base, t.log, HeadersEnd))
  }

  lemma StaleStep(d: seq<byte>, t: Trace, c: byte)
    requires 2 <= |d| && InPart(d, t.machine) && t.machine.partFlag
    ensures Stale(d, t.log, Then(d, t, c))
  {
    var u := Then(d, t, c);
    if MoveOn(d, t.machine, c).NextPart? {
      assert u.log[|t.log|..] == [PartEnd, PartBegin];
    }
  }

  lemma HeadStep(d: seq<byte>, t: Trace, c: byte)
    requires 2 <= |d| && InHead(t.machine)
    ensures t.log <= Then(d, t, c).log && (InHead(Then(d, t, c).machine) || Logged(t.log, Then(d, t, c).log, HeadersEnd))
  {
    hide IsNameByte;
    hide FieldBytes;
  }

  lemma StaleThen(d: seq<byte>, base: seq<Event>, t: Trace, c: byte)
    requires 2 <= |d| && Stale(d, base, t)
    ensures Stale(d, base, Then(d, t, c))
  {
    hide Step;
    var u := Then(d, t, c);
    if InPart(d, t.machine) && t.machine.partFlag {
      StaleStep(d, t, c);
      if Logged(t.log, u.log, PartBegin) { LoggedSince(base, t.log, u.log, PartBegin); }
      if Logged(t.log, u.log, HeadersEnd) { LoggedSince(base, t.log, u.log, HeadersEnd); }
    } else {
      LoggedSince(base, t.log, u.log, PartBegin);
      if Logged(base, t.log, HeadersEnd) {
        LoggedSince(base, t.log, u.log, HeadersEnd);
      } else {
        HeadStep(d, t, c);
        if Logged(t.log, u.log, HeadersEnd) { LoggedSince(base, t.log, u.log, HeadersEnd); }
      }
    }
  }

  /**
   Once the delimiter followed by CR has been read, no bytes end the stream before another part has begun and its
   headers have been read: a closing delimiter in between is handed over as data.
   */
  lemma {:induction false} StaleFlagHidesTheEnd(d: seq<byte>, base: seq<Event>, t: Trace, s: seq<byte>)
    requires 2 <= |d| && Stale(d, base, t)
    ensures Stale(d, base, Run(d, t, s))
    ensures Run(d, t, s).machine.phase.Finished? ==> Logged(base, Run(d, t, s).log, HeadersEnd)
    decreases |s|
  {
    hide Step;
    if s != [] {
      StaleFlagHidesTheEnd(d, base, t, s[..|s| - 1]);
      StaleThen(d, base, Run(d, t, s[..|s| - 1]), s[|s| - 1]);
    }
  }

  // ----- What an interruption does -----

  lemma {:induction false} FirstInterrupt(d: seq<byte>, s: seq<byte>, n: nat) returns (j: nat)
    requires !CleanBelow(d, s, n)
    ensures j < n && CleanBelow(d, s, j) && Interrupts(d, s, j)
    decreases n
  {
    if CleanBelow(d, s, n - 1) {
      j := n - 1;
    } else {
      j := FirstInterrupt(d, s, n - 1);
    }
  }

  /** Up to the end of the first delimiter that is followed by CR or "--", everything before it has been handed over. */
  lemma ReachesInterrupt(d: seq<byte>, t: Trace, s: seq<byte>, j: nat)
    requires 2 <= |d| && d[0] !in d[1..] && d[0] != HYPHEN
    requires t.machine.phase == Data(0) && !t.machine.partFlag && CleanBelow(d, s, j) && Interrupts(d, s, j)
    ensures j + |d| < |s|
    ensures var u := Run(d, t, s[..j + |d|]);
            && u.machine.phase == Data(|d|) && !u.machine.partFlag && u.machine.trail == t.machine.trail
            && u.log == t.log + DataBytes(s[..j])
  {
    hide Run;
    InterruptsMeans(d, s, j);
    assert s[..j + |d|] == s[..j] + s[j..j + |d|];
    CleanPrefix(d, s[..j] + d, s, j);
    ReachesDelimiter(d, t, s[..j]);
  }

  /** The delimiter followed by CR sets the part flag. */
  lemma PartTried(d: seq<byte>, t: Trace, s: seq<byte>, j: nat)
    requires 2 <= |d| && d[0] !in d[1..] && d[0] != HYPHEN
    requires t.machine.phase == Data(0) && !t.machine.partFlag && CleanBelow(d, s, j) && OccursAt(d + [CR], s, j)
    ensures j + |d| < |s|
    ensures var u := Run(d, t, s[..j + |d| + 1]);
            && InPart(d, u.machine) && u.machine.partFlag && u.machine.trail == t.machine.trail
            && u.log == t.log + DataBytes(s[..j])
  {
    hide Step;
    hide Run;
    ReachesInterrupt(d, t, s, j);
    var k := j + |d|;
    assert s[j..j + |d + [CR]|] == d + [CR];
    assert s[k] == s[j..j + |d| + 1][|d|];
    assert s[..k + 1] == s[..k] + [CR];
    RunSnoc(d, t, s[..k], CR);
    ThenInPart(d, Run(d, t, s[..k]), CR);
  }

  /** The delimiter followed by "--" ends the stream with what came before it. */
  lemma EndTried(d: seq<byte>, t: Trace, s: seq<byte>, j: nat)
    requires 2 <= |d| && d[0] !in d[1..] && d[0] != HYPHEN
    requires t.machine.phase == Data(0) && !t.machine.partFlag && !t.machine.trail.Leaking?
    requires CleanBelow(d, s, j) && OccursAt(d + DASHES, s, j)
    ensures Run(d, t, s).machine.phase == Finished && Run(d, t, s).log == t.log + DataBytes(s[..j]) + [PartEnd, StreamEnd]
    ensures Run(d, t, s).machine.trail == t.machine.trail
  {
    assert Interrupts(d, s, j);
    HyphensFollow(d, s, j);
    hide *;
    ReachesInterrupt(d, t, s, j);
    var k := j + |d|;
    TwoHyphens(d, Run(d, t, s[..k]));
    RunSnoc(d, t, s[..k], HYPHEN);
    RunSnoc(d, t, s[..k] + [HYPHEN], HYPHEN);
    RunConcat(d, t, s[..k] + [HYPHEN] + [HYPHEN], s[k + 2..]);
    FinishedStays(d, Run(d, t, s[..k] + [HYPHEN] + [HYPHEN]), s[k + 2..]);
  }

  lemma HyphensFollow(d: seq<byte>, s: seq<byte>, j: nat)
    requires OccursAt(d + DASHES, s, j)
    ensures var k := j + |d|; k + 2 <= |s| && s == s[..k] + [HYPHEN] + [HYPHEN] + s[k + 2..]
  {
    var k := j + |d|;
    var w := s[j..j + |d| + 2];
    assert |d + DASHES| == |d| + 2 && w == d + DASHES;
    assert s[k] == w[|d|] && s[k + 1] == w[|d| + 1];
  }

  lemma TwoHyphens(d: seq<byte>, t: Trace)
    requires 2 <= |d| && t.machine.phase == Data(|d|) && !t.machine.partFlag
    ensures var u := Then(d, Then(d, t, HYPHEN), HYPHEN);
            u.machine.phase == Finished && u.machine.trail == t.machine.trail && u.log == t.log + [PartEnd, StreamEnd]
  {
    hide Step;
    ThenInPart(d, t, HYPHEN);
    ThenInPart(d, Then(d, t, HYPHEN), HYPHEN);
    assert t.log + [PartEnd] + [StreamEnd] == t.log + [PartEnd, StreamEnd];
  }

  lemma {:induction false} FinishedStays(d: seq<byte>, t: Trace, s: seq<byte>)
    requires 2 <= |d| && t.machine.phase == Finished && !t.machine.trail.Leaking?
    ensures Run(d, t, s) == t
    decreases |s|
  {
    if s != [] {
      FinishedStays(d, t, s[..|s| - 1]);
      assert t.log + [] == t.log;
    }
  }

  /** After the first CR interruption the run is stale. */
  lemma StaleAfter(d: seq<byte>, t: Trace, s: seq<byte>, j: nat)
    requires 2 <= |d| && d[0] !in d[1..] && d[0] != HYPHEN
    requires t.machine.phase == Data(0) && !t.machine.partFlag && CleanBelow(d, s, j) && OccursAt(d + [CR], s, j)
    ensures Stale(d, t.log + DataBytes(s[..j]), Run(d, t, s))
    ensures Run(d, t, s).machine.phase.Finished? ==> Logged(t.log + DataBytes(s[..j]), Run(d, t, s).log, HeadersEnd)
  {
    hide Run;
    PartTried(d, t, s, j);
    var k := j + |d| + 1;
    assert s == s[..k] + s[k..];
    RunConcat(d, t, s[..k], s[k..]);
    StaleFlagHidesTheEnd(d, t.log + DataBytes(s[..j]), Run(d, t, s[..k]), s[k..]);
  }

  lemma FlushGrows(t: Trace)
    ensures t.log <= Flush(t).log && Flush(t).machine.partFlag == t.machine.partFlag
    ensures
      var p := Flush(t).machine.phase;
      p == t.machine.phase || (t.machine.phase.Field? && p == Field(t.machine.phase.count, []))
  {
  }

  lemma StaleFlush(d: seq<byte>, base: seq<Event>, t: Trace)
    requires Stale(d, base, t)
    ensures Stale(d, base, Flush(t))
  {
    FlushGrows(t);
    hide Flush;
    if Logged(base, t.log, PartBegin) { LoggedSince(base, t.log, Flush(t).log, PartBegin); }
    if Logged(base, t.log, HeadersEnd) { LoggedSince(base, t.log, Flush(t).log, HeadersEnd); }
  }

  /** Under any cutting: from the offset at which the part flag is left set, the calls are stale. */
  lemma {:induction false} StaleFeedAll(d: seq<byte>, base: seq<Event>, t: Trace, cuts: seq<seq<byte>>, n: nat)
    requires 2 <= |d| && Valid(d, t.machine) && 0 < n <= |Join(cuts)|
    requires var u := Run(d, t, Join(cuts)[..n]);
             InPart(d, u.machine) && u.machine.partFlag && u.machine.trail.Straight? && u.log == base
    ensures Stale(d, base, FeedAll(d, t, cuts))
    decreases |cuts|
  {
    hide Step;
    hide Run;
    hide Flush;
    hide Stale;
    var before, s := cuts[..|cuts| - 1], cuts[|cuts| - 1];
    var whole := Join(before);
    var f := FeedAll(d, t, before);
    if n <= |whole| {
      assert whole[..n] == Join(cuts)[..n];
      StaleFeedAll(d, base, t, before, n);
      StaleFlagHidesTheEnd(d, base, f, s);
      StaleFlush(d, base, Run(d, f, s));
    } else {
      var k := n - |whole|;
      var u := Run(d, t, Join(cuts)[..n]);
      assert Join(cuts)[..n] == whole + s[..k] && Join(cuts)[..n][..|whole|] == whole;
      GoodPrefix(d, t, Join(cuts)[..n], |whole|);
      FeedAllIsRun(d, t, before);
      RunValid(d, t, whole);
      RunConcat(d, t, whole, s[..k]);
      AgreeRun(d, f, Run(d, t, whole), s[..k]);
      AgreeInPart(d, Run(d, f, s[..k]), u);
      assert s == s[..k] + s[k..];
      RunConcat(d, f, s[..k], s[k..]);
      StaleNow(d, u);
      StaleFlagHidesTheEnd(d, base, u, s[k..]);
      StaleFlush(d, base, Run(d, f, s));
    }
  }

  lemma AgreeInPart(d: seq<byte>, t: Trace, u: Trace)
    requires Agree(t, u) && InPart(d, u.machine) && Good(u.machine)
    ensures t == u
  {
    AgreeMeans(t, u);
  }

  lemma StaleNow(d: seq<byte>, u: Trace)
    requires InPart(d, u.machine) && u.machine.partFlag
    ensures Stale(d, u.log, u)
  {
  }

  // ----- The results -----

  /**
   While content has neither begun a part nor ended the stream, the part flag is set if and only if the delimiter
   followed by CR occurs in it.
   */
  lemma FlagSetIff(d: seq<byte>, content: seq<byte>)
    requires 2 <= |d| && d[0] !in d[1..] && d[0] != HYPHEN
    requires var u := Run(d, InData(), content); PartBegin !in u.log && !u.machine.phase.Finished?
    ensures Run(d, InData(), content).machine.partFlag <==> exists j :: OccursAt(d + [CR], content, j)
  {
    hide Run;
    var u := Run(d, InData(), content);
    if CleanBelow(d, content, |content|) {
      ScanClean(d, InData(), content);
      forall j ensures !OccursAt(d + [CR], content, j) {
        assert 0 <= j < |content| ==> !Interrupts(d, content, j);
      }
    } else {
      var j := FirstInterrupt(d, content, |content|);
      if OccursAt(d + DASHES, content, j) { EndTried(d, InData(), content, j); }
      StaleAfter(d, InData(), content, j);
      assert [] + DataBytes(content[..j]) == DataBytes(content[..j]);
    }
  }

  /** Content, then the closing delimiter: the content is the data of the part, and the stream ends. */
  ghost predicate ReadBack(d: seq<byte>, content: seq<byte>)
    requires 2 <= |d|
  {
    var u := Run(d, InData(), content + d + DASHES);
    u.machine.phase == Finished && u.log == DataBytes(content) + [PartEnd, StreamEnd]
  }

  lemma CleanIsReadBack(d: seq<byte>, t: Trace, content: seq<byte>)
    requires 2 <= |d| && d[0] !in d[1..] && d[0] != HYPHEN
    requires t.machine.phase == Data(0) && !t.machine.partFlag && !t.machine.trail.Leaking? && Clean(d, content)
    ensures var u := Run(d, t, content + d + DASHES);
            u.machine.phase == Finished && u.log == t.log + DataBytes(content) + [PartEnd, StreamEnd]
  {
    hide Run;
    var s := content + d + DASHES;
    assert content + d <= s;
    CleanPrefix(d, content + d, s, |content|);
    assert s[|content|..|content| + |d + DASHES|] == d + DASHES;
    assert s[..|content|] == content;
    EndTried(d, t, s, |content|);
  }

  /** Content is read back if and only if nothing in it, or across its end, looks like a delimiter of the parser's. */
  lemma ReadBackIffClean(d: seq<byte>, content: seq<byte>)
    requires 2 <= |d| && d[0] !in d[1..] && d[0] != HYPHEN
    ensures ReadBack(d, content) <==> Clean(d, content)
  {
    hide Run;
    var s := content + d + DASHES;
    if Clean(d, content) {
      CleanIsReadBack(d, InData(), content);
      assert [] + DataBytes(content) == DataBytes(content);
    } else {
      var j := FirstInterrupt(d, s, |content|);
      assert [] + DataBytes(s[..j]) == DataBytes(s[..j]);
      if OccursAt(d + DASHES, s, j) {
        EndTried(d, InData(), s, j);
        assert |Run(d, InData(), s).log| == j + 2;
      } else {
        StaleAfter(d, InData(), s, j);
      }
    }
  }

  lemma InterruptsMeans(d: seq<byte>, s: seq<byte>, j: int)
    requires 2 <= |d| && Interrupts(d, s, j)
    ensures 0 <= j && j + |d| < |s| && OccursAt(d, s, j) && s[j] == d[0] && s[j + 1] == d[1]
    ensures s[j + |d|] == CR || (j + |d| + 1 < |s| && s[j + |d|] == HYPHEN && s[j + |d| + 1] == HYPHEN)
  {
    if OccursAt(d + [CR], s, j) { OccursThen(d, [CR], s, j); } else { OccursThen(d, DASHES, s, j); }
  }

  lemma OccursThen(d: seq<byte>, e: seq<byte>, s: seq<byte>, j: int)
    requires OccursAt(d + e, s, j)
    ensures OccursAt(d, s, j) && j + |d| + |e| <= |s|
    ensures forall k :: 0 <= k < |d| ==> s[j + k] == d[k]
    ensures forall k :: 0 <= k < |e| ==> s[j + |d| + k] == e[k]
  {
    var v := s[j..j + |d + e|];
    assert forall k :: 0 <= k < |v| ==> s[j + k] == v[k];
    assert s[j..j + |d|] == v[..|d|];
  }

  /** Content without the delimiter is clean. */
  lemma FreeIsClean(d: seq<byte>, content: seq<byte>)
    requires 2 <= |d| && d[0] !in d[1..] && Free(d, content)
    ensures Clean(d, content)
  {
    var s := content + d + DASHES;
    forall j | 0 <= j < |content| ensures !Interrupts(d, s, j) {
      if j + |d| <= |content| {
        assert content[j..j + |d|] == s[j..j + |d|];
      } else {
        assert s[j..j + |d|][|content| - j] == s[|content|] == d[0];
        assert d[1..][|content| - j - 1] == d[|content| - j];
      }
      assert !OccursAt(d, content, j);
      if Interrupts(d, s, j) { InterruptsMeans(d, s, j); }
    }
  }

  /** The delimiter followed by CR is content that is not read back, whatever comes after the CR. */
  lemma DelimiterAndCrIsNotReadBack(d: seq<byte>, x: byte)
    requires 2 <= |d| && d[0] !in d[1..] && d[0] != HYPHEN
    ensures !Clean(d, d + [CR, x]) && !ReadBack(d, d + [CR, x])
  {
    var s := d + [CR, x] + d + DASHES;
    assert s[0..|d + [CR]|] == d + [CR];
    assert Interrupts(d, s, 0);
    ReadBackIffClean(d, d + [CR, x]);
  }

  /** The delimiter followed by an ordinary byte is content that is read back. */
  lemma DelimiterAndOtherIsReadBack(d: seq<byte>, x: byte)
    requires 2 <= |d| && d[0] !in d[1..] && d[0] != HYPHEN && x != CR && x != HYPHEN
    ensures ReadBack(d, d + [x])
  {
    var s := d + [x] + d + DASHES;
    assert s[|d|] == x && s[|d| + 1] == d[0] && d[1..][0] == d[1];
    forall j | 0 <= j < |d + [x]| ensures !Interrupts(d, s, j) {
      assert 0 < j < |d| ==> d[1..][j - 1] == d[j] == s[j];
      if Interrupts(d, s, j) { InterruptsMeans(d, s, j); }
    }
    ReadBackIffClean(d, d + [x]);
  }

  // ----- Delimiters that start with a hyphen -----

  lemma {:induction false} NoCandidate(d: seq<byte>, t: Trace, s: seq<byte>)
    requires 2 <= |d| && t.machine.phase == Data(0) && d[0] !in s
    ensures Run(d, t, s).machine == t.machine
    decreases |s|
  {
    hide Step;
    if s != [] {
      NoCandidate(d, t, s[..|s| - 1]);
      FreshByte(d, Run(d, t, s[..|s| - 1]), s[|s| - 1]);
    }
  }

  /** After the delimiter its own first byte is taken for the first hyphen of an end, and never looked at again. */
  lemma HyphenDelimiterFails(d: seq<byte>)
    requires 2 <= |d| && d[0] !in d[1..] && d[0] == HYPHEN
    ensures Clean(d, d) && !ReadBack(d, d)
  {
    hide Step;
    hide Run;
    var s := d + d + DASHES;
    assert s[|d|] == d[0] && s[|d| + 1] == d[1] == d[1..][0];
    forall j | 0 <= j < |d| ensures !Interrupts(d, s, j) {
      assert 0 < j ==> d[1..][j - 1] == d[j] == s[j];
      if Interrupts(d, s, j) { InterruptsMeans(d, s, j); }
    }
    HoldsOn(d, InData(), 0, |d|);
    assert d[0..|d|] == d;
    var t := Run(d, InData(), d);
    HyphenTaken(d, t);
    var u := Then(d, Then(d, t, d[0]), d[1]);
    RunSnoc(d, InData(), d, d[0]);
    RunSnoc(d, InData(), d + [d[0]], d[1]);
    forall b | b in d[2..] ensures b in d[1..] {
      var k :| 0 <= k < |d[2..]| && d[2..][k] == b;
      assert d[1..][k + 1] == b;
    }
    NoCandidate(d, u, d[2..]);
    var v := Run(d, u, d[2..]);
    RunConcat(d, InData(), d + [d[0]] + [d[1]], d[2..]);
    FreshByte(d, v, HYPHEN);
    var w := Then(d, v, HYPHEN);
    assert d[1] == d[1..][0];
    RetryHeld(d, w, HYPHEN);
    FreshByte(d, Trace(w.machine.(phase := Data(0)), w.log + DataBytes(d[..1])), HYPHEN);
    var p := d + [d[0]] + [d[1]] + d[2..];
    RunSnoc(d, InData(), p, HYPHEN);
    RunSnoc(d, InData(), p + [HYPHEN], HYPHEN);
    assert d == [d[0]] + [d[1]] + d[2..];
    assert p + [HYPHEN] + [HYPHEN] == s;
  }

  lemma HyphenTaken(d: seq<byte>, t: Trace)
    requires 2 <= |d| && d[0] !in d[1..] && d[0] == HYPHEN && t.machine.phase == Data(|d|) && !t.machine.partFlag
    ensures Then(d, Then(d, t, d[0]), d[1]).machine.phase == Data(0)
  {
    hide Step;
    assert d[1] == d[1..][0];
    ThenInPart(d, t, d[0]);
    var u := Then(d, t, d[0]);
    ThenInPart(d, u, d[1]);
    FreshByte(d, Trace(u.machine.(phase := Data(0)), u.log + DataBytes(Held(d, u.machine))), d[1]);
  }

  /**
   For which delimiters with a first byte of their own the rule "read back if and only if clean" is right: exactly for
   those that do not start with a hyphen. The server's delimiters start with CR.
   */
  lemma RuleHoldsIffNoHyphen(d: seq<byte>)
    requires 2 <= |d| && d[0] !in d[1..]
    ensures (forall content: seq<byte> :: ReadBack(d, content) <==> Clean(d, content)) <==> d[0] != HYPHEN
  {
    if d[0] == HYPHEN {
      HyphenDelimiterFails(d);
    } else {
      forall content: seq<byte> ensures ReadBack(d, content) <==> Clean(d, content) {
        ReadBackIffClean(d, content);
      }
    }
  }
}
