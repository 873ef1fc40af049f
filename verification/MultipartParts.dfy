/**
 A part that another one follows. Its data ends at the delimiter followed by CR LF. This module says exactly which
 contents are then handed over whole; they are more than before the closing delimiter, because a part flag that an
 earlier CR left set does no harm here.
 */
module MultipartParts {
  import opened Bytes
  import opened MultipartMachine
  import opened MultipartContent

  /** At offset j something begins a part once the part flag is set. */
  ghost predicate Begins(d: seq<byte>, s: seq<byte>, j: int) {
    OccursAt(d + CRLF, s, j) || OccursAt(d + [HYPHEN, LF], s, j)
  }

  /**
   Content that is handed over unchanged before the delimiter of another part: nothing in it looks like a delimiter, or
   the first that does is followed by a CR, and from there on none is followed by CR LF or by a hyphen and LF.
   */
  ghost predicate Passes(d: seq<byte>, content: seq<byte>) {
    var s := content + d + CRLF;
    || CleanBelow(d, s, |content|)
    || exists j :: NoneBegins(d, content, j)
  }

  /** Nothing begins a part from j on, where the first CR after a delimiter is. */
  ghost predicate NoneBegins(d: seq<byte>, content: seq<byte>, j: int) {
    var s := content + d + CRLF;
    && 0 <= j < |content| && CleanBelow(d, s, j) && OccursAt(d + [CR], s, j)
    && forall k :: j <= k < |content| ==> !Begins(d, s, k)
  }

  /** The delimiters that the server builds: CR LF, and no other CR. */
  ghost predicate IsDelimiter(d: seq<byte>) { 2 <= |d| && d[0] == CR && d[1] == LF && CR !in d[1..] }

  /** With the part flag set, `s` has been handed over but for what is held back, which is its end. */
  ghost predicate Passing(d: seq<byte>, from: Trace, s: seq<byte>, t: Trace) {
    && InPart(d, t.machine) && t.machine.partFlag && t.machine.trail == from.machine.trail
    && (t.machine.phase.Tail? ==> t.machine.phase.last == CR || t.machine.phase.last == HYPHEN)
    && var h := Held(d, t.machine);
       |h| <= |s| && s[|s| - |h|..] == h && t.log == from.log + DataBytes(s[..|s| - |h|])
  }

  lemma PassingThen(d: seq<byte>, from: Trace, s: seq<byte>, t: Trace, c: byte)
    requires 2 <= |d| && Passing(d, from, s, t) && !Begins(d, s + [c], |s| - |d| - 1)
    ensures Passing(d, from, s + [c], Then(d, t, c))
  {
    FlagMoves(d, t.machine, c);
    match MoveOn(d, t.machine, c)
    case Extend => PassingExtend(d, from, s, t, c);
    case Retry => PassingRetry(d, from, s, t, c);
    case NextPart => PartBegins(d, from, s, t);
  }

  lemma FlagMoves(d: seq<byte>, m: Machine, c: byte)
    requires InPart(d, m) && m.partFlag
    ensures MoveOn(d, m, c).Extend? || MoveOn(d, m, c).Retry? || (MoveOn(d, m, c).NextPart? && m.phase.Tail? && c == LF)
    ensures MoveOn(d, m, c).Extend? ==> m.phase.Data? && (m.phase.matched == |d| ==> c == CR || c == HYPHEN)
    ensures m.phase.Tail? && c == LF ==> MoveOn(d, m, c).NextPart?
  {
  }

  lemma PartBegins(d: seq<byte>, from: Trace, s: seq<byte>, t: Trace)
    requires Passing(d, from, s, t) && t.machine.phase.Tail?
    ensures Begins(d, s + [LF], |s| - |d| - 1)
  {
    var j, last := |s| - |d| - 1, t.machine.phase.last;
    assert (s + [LF])[j..j + |d| + 2] == d + [last, LF];
  }

  lemma PassingExtend(d: seq<byte>, from: Trace, s: seq<byte>, t: Trace, c: byte)
    requires 2 <= |d| && Passing(d, from, s, t) && MoveOn(d, t.machine, c).Extend?
    ensures Passing(d, from, s + [c], Then(d, t, c))
  {
    ThenInPart(d, t, c);
    FlagMoves(d, t.machine, c);
    hide Then;
    hide MoveOn;
    hide DataBytes;
    EndsLonger(s, Held(d, t.machine), c);
    hide Held;
  }

  lemma PassingRetry(d: seq<byte>, from: Trace, s: seq<byte>, t: Trace, c: byte)
    requires 2 <= |d| && Passing(d, from, s, t) && MoveOn(d, t.machine, c).Retry?
    ensures Passing(d, from, s + [c], Then(d, t, c))
  {
    ThenInPart(d, t, c);
    var h, s' := Held(d, t.machine), s + [c];
    var t' := Trace(t.machine.(phase := Data(0)), from.log + DataBytes(s));
    FreshByte(d, t', c);
    hide Then;
    hide MoveOn;
    hide DataBytes;
    assert s == s[..|s| - |h|] + h;
    DataBytesConcat(from.log, s[..|s| - |h|], h);
    DataBytesConcat(from.log, s, [c]);
    assert d[..0] == [] && s'[..|s|] == s && s'[..|s'|] == s' && s'[|s'|..] == [] && s'[|s|..] == [c];
    assert c == d[0] ==> d[..1] == [c];
  }

  /** From the first CR after a delimiter to offset n. */
  lemma {:induction false} PassingRun(d: seq<byte>, t: Trace, s: seq<byte>, j: nat, n: nat)
    requires 2 <= |d| && d[0] !in d[1..] && d[0] != HYPHEN
    requires t.machine.phase == Data(0) && !t.machine.partFlag && CleanBelow(d, s, j) && OccursAt(d + [CR], s, j)
    requires j + |d| < n <= |s| && forall k :: j <= k <= n - |d| - 2 ==> !Begins(d, s, k)
    ensures Passing(d, t, s[..n], Run(d, t, s[..n]))
    decreases n
  {
    hide Run;
    if n == j + |d| + 1 {
      PassingStart(d, t, s, j);
    } else {
      PassingRun(d, t, s, j, n - 1);
      var u, c := s[..n - 1], s[n - 1];
      assert s[..n] == u + [c];
      if Begins(d, u + [c], n - |d| - 2) { BeginsInExtension(d, u + [c], s, n - |d| - 2); }
      PassingThen(d, t, u, Run(d, t, u), c);
      RunSnoc(d, t, u, c);
    }
  }

  lemma BeginsInExtension(d: seq<byte>, u: seq<byte>, s: seq<byte>, j: int)
    requires u <= s && Begins(d, u, j)
    ensures Begins(d, s, j)
  {
    if OccursAt(d + CRLF, u, j) {
      OccursInExtension(d + CRLF, u, s, j);
    } else {
      OccursInExtension(d + [HYPHEN, LF], u, s, j);
    }
  }

  lemma PassingStart(d: seq<byte>, t: Trace, s: seq<byte>, j: nat)
    requires 2 <= |d| && d[0] !in d[1..] && d[0] != HYPHEN
    requires t.machine.phase == Data(0) && !t.machine.partFlag && CleanBelow(d, s, j) && OccursAt(d + [CR], s, j)
    ensures j + |d| < |s| && Passing(d, t, s[..j + |d| + 1], Run(d, t, s[..j + |d| + 1]))
  {
    hide Run;
    hide Then;
    ReachesInterrupt(d, t, s, j);
    OccursThen(d, [CR], s, j);
    var k := j + |d|;
    assert s[..k] == s[..j] + d && s[..k + 1] == s[..k] + [CR];
    hide OccursAt;
    hide CleanBelow;
    RunSnoc(d, t, s[..k], CR);
    CrExtends(d, t, s[..j], Run(d, t, s[..k]));
  }

  lemma CrExtends(d: seq<byte>, t: Trace, s: seq<byte>, u: Trace)
    requires 2 <= |d| && u.machine.phase == Data(|d|) && u.machine.trail == t.machine.trail && u.log == t.log + DataBytes(s)
    ensures Passing(d, t, s + d + [CR], Then(d, u, CR))
  {
    ThenInPart(d, u, CR);
    hide Then;
    hide DataBytes;
    var w := s + d + [CR];
    assert w[|s|..] == d + [CR] && w[..|s|] == s;
  }

  /** Where content ends nothing but the delimiter itself can start. */
  lemma NotAcross(d: seq<byte>, content: seq<byte>, w: seq<byte>, j: int)
    requires 2 <= |d| && d[0] !in d[1..] && 0 <= j < |content| < j + |d|
    ensures !OccursAt(d, content + d + w, j)
  {
    var s, k := content + d + w, |content| - j;
    assert s[j..j + |d|][k] == s[|content|] == d[0];
    assert d[1..][k - 1] == d[k];
  }

  /** Whatever is held back, the delimiter's first byte gives it back and starts a new candidate. */
  lemma PassingStartsAfresh(d: seq<byte>, from: Trace, s: seq<byte>, u: Trace)
    requires IsDelimiter(d) && Passing(d, from, s, u) && u.machine.phase != Data(|d|)
    ensures Then(d, u, CR) == Trace(u.machine.(phase := Data(1)), from.log + DataBytes(s))
  {
    hide Step;
    hide DataBytes;
    var h := Held(d, u.machine);
    ThenInPart(d, u, CR);
    assert s == s[..|s| - |h|] + h;
    DataBytesConcat(from.log, s[..|s| - |h|], h);
    if u.machine.phase == Data(0) {
      assert h == [] && s[..|s|] == s;
      FreshByte(d, u, CR);
    } else {
      assert u.machine.phase.Data? ==> d[u.machine.phase.matched] == d[1..][u.machine.phase.matched - 1];
      FreshByte(d, Trace(u.machine.(phase := Data(0)), from.log + DataBytes(s)), CR);
    }
  }

  /** A whole delimiter, CR and LF. */
  lemma CrLfBegins(d: seq<byte>, u: Trace)
    requires 2 <= |d| && u.machine.phase == Data(|d|)
    ensures Then(d, Then(d, u, CR), LF)
         == Trace(u.machine.(phase := FieldStart, partFlag := false), u.log + [PartEnd, PartBegin])
  {
    var v := Then(d, u, CR);
    assert u.log + [] == u.log;
    assert v == Trace(u.machine.(phase := Tail(CR), partFlag := true), u.log);
  }

  /** What the delimiter of another part does after content of which `u` is the trace. */
  lemma DelimiterBegins(d: seq<byte>, t: Trace, content: seq<byte>, u: Trace)
    requires 2 <= |d| && Run(d, t, content + d) == u && u.machine.phase == Data(|d|)
    ensures Run(d, t, content + d + CRLF)
         == Trace(u.machine.(phase := FieldStart, partFlag := false), u.log + [PartEnd, PartBegin])
  {
    hide Run;
    hide Then;
    RunSnoc(d, t, content + d, CR);
    RunSnoc(d, t, content + d + [CR], LF);
    CrLfBegins(d, u);
    assert content + d + CRLF == content + d + [CR] + [LF];
  }

  /** The parser between two parts: the first has been handed over whole, and the flag is clear for the next. */
  ghost predicate NextPart(t: Trace, content: seq<byte>, u: Trace) {
    && u.machine.phase == FieldStart && !u.machine.partFlag && u.machine.trail == t.machine.trail
    && u.log == t.log + DataBytes(content) + [PartEnd, PartBegin]
  }

  /** After clean content the delimiter and CR LF begin the next part. */
  lemma CleanThenNext(d: seq<byte>, t: Trace, content: seq<byte>)
    requires 2 <= |d| && d[0] !in d[1..] && d[0] != HYPHEN
    requires t.machine.phase == Data(0) && !t.machine.partFlag && CleanBelow(d, content + d + CRLF, |content|)
    ensures NextPart(t, content, Run(d, t, content + d + CRLF))
  {
    hide Run;
    CleanPrefix(d, content + d, content + d + CRLF, |content|);
    ReachesDelimiter(d, t, content);
    DelimiterBegins(d, t, content, Run(d, t, content + d));
  }

  lemma NoneBeginsMeans(d: seq<byte>, content: seq<byte>, j: nat)
    requires IsDelimiter(d) && NoneBegins(d, content, j)
    ensures j + |d| < |content| && OccursAt(d, content + d + CRLF, |content|)
  {
    var s := content + d + CRLF;
    assert s[|content|..|content| + |d|] == d;
    OccursThen(d, [CR], s, j);
    if j + |d| > |content| { NotAcross(d, content, CRLF, j); }
    if j + |d| == |content| { DelimiterTwice(d, s, |content|); }
  }

  /** A delimiter right after a delimiter: the second starts with CR LF. */
  lemma DelimiterTwice(d: seq<byte>, s: seq<byte>, k: int)
    requires IsDelimiter(d) && OccursAt(d, s, k - |d|) && OccursAt(d, s, k)
    ensures Begins(d, s, k - |d|)
  {
    var j := k - |d|;
    assert s[k] == s[k..k + |d|][0] && s[k + 1] == s[k..k + |d|][1];
    assert s[j..j + |d| + 2] == s[j..k] + [s[k], s[k + 1]];
  }

  /**
   With the part flag set, the next delimiter is recognised at offset k, unless something began a part before it.
   */
  lemma PassingReaches(d: seq<byte>, t: Trace, s: seq<byte>, j: nat, k: nat)
    requires IsDelimiter(d) && t.machine.phase == Data(0) && !t.machine.partFlag
    requires CleanBelow(d, s, j) && OccursAt(d + [CR], s, j) && j + |d| < k && OccursAt(d, s, k)
    requires forall i :: j <= i < k ==> !Begins(d, s, i)
    ensures var u := Run(d, t, s[..k + |d|]);
            && u.machine.phase == Data(|d|) && u.machine.partFlag && u.machine.trail == t.machine.trail
            && u.log == t.log + DataBytes(s[..k])
  {
    hide Run;
    hide Then;
    PassingRun(d, t, s, j, k);
    var u := Run(d, t, s[..k]);
    if u.machine.phase == Data(|d|) {
      assert d[..|d|] == d && s[..k][k - |d|..] == s[k - |d|..k];
      DelimiterTwice(d, s, k);
    }
    hide Begins;
    PassingStartsAfresh(d, t, s[..k], u);
    assert s[..k + |d|] == s[..k] + d;
    hide OccursAt;
    RunConcat(d, t, s[..k], d);
    RunCons(d, u, d);
    HoldsOn(d, Then(d, u, CR), 1, |d|);
    assert d[1..|d|] == d[1..];
  }

  lemma PassesThenNext(d: seq<byte>, t: Trace, content: seq<byte>)
    requires IsDelimiter(d) && t.machine.phase == Data(0) && !t.machine.partFlag && Passes(d, content)
    ensures NextPart(t, content, Run(d, t, content + d + CRLF))
  {
    hide Run;
    if CleanBelow(d, content + d + CRLF, |content|) {
      CleanThenNext(d, t, content);
    } else {
      var j :| NoneBegins(d, content, j);
      var s := content + d + CRLF;
      NoneBeginsMeans(d, content, j);
      PassingReaches(d, t, s, j, |content|);
      assert s[..|content|] == content && s[..|content| + |d|] == content + d;
      DelimiterBegins(d, t, content, Run(d, t, content + d));
    }
  }

  // ----- Only such a part is handed over whole -----

  lemma {:induction false} RunGrows(d: seq<byte>, t: Trace, s: seq<byte>)
    requires 2 <= |d|
    ensures t.log <= Run(d, t, s).log
    decreases |s|
  {
    hide Step;
    if s != [] { RunGrows(d, t, s[..|s| - 1]); }
  }

  /** A part ends, or the stream, with less than was printed. */
  ghost predicate EndsEarly(t: Trace, content: seq<byte>, k: nat, u: Trace) {
    && k < |content| && u.machine.trail == t.machine.trail
    && ((u.machine.phase == FieldStart && u.log == t.log + DataBytes(content[..k]) + [PartEnd, PartBegin])
        || (u.machine.phase == Finished && u.log == t.log + DataBytes(content[..k]) + [PartEnd, StreamEnd]))
  }

  lemma {:induction false} FirstBegins(d: seq<byte>, s: seq<byte>, j: nat, n: nat) returns (k: nat)
    requires exists i :: j <= i < n && Begins(d, s, i)
    ensures j <= k < n && Begins(d, s, k) && forall i :: j <= i < k ==> !Begins(d, s, i)
    decreases n
  {
    if i :| j <= i < n - 1 && Begins(d, s, i) {
      k := FirstBegins(d, s, j, n - 1);
    } else {
      k := n - 1;
    }
  }

  lemma BeginsMeans(d: seq<byte>, s: seq<byte>, k: int)
    requires Begins(d, s, k)
    ensures OccursAt(d, s, k) && k + |d| + 2 <= |s| && s[k + |d| + 1] == LF && (s[k + |d|] == CR || s[k + |d|] == HYPHEN)
  {
    if OccursAt(d + CRLF, s, k) { OccursThen(d, CRLF, s, k); } else { OccursThen(d, [HYPHEN, LF], s, k); }
  }

  /** Two delimiters do not overlap. */
  lemma Apart(d: seq<byte>, s: seq<byte>, j: int, k: int)
    requires IsDelimiter(d) && OccursAt(d, s, j) && j < k < j + |d|
    ensures !OccursAt(d, s, k)
  {
    assert s[k] == s[j..j + |d|][k - j] == d[1..][k - j - 1];
    assert k + |d| <= |s| ==> s[k..k + |d|][0] == s[k];
  }

  /** With the part flag set, the delimiter, CR or a hyphen, and LF begin a part. */
  lemma FlagBegins(d: seq<byte>, u: Trace, c: byte)
    requires 2 <= |d| && u.machine.phase == Data(|d|) && (c == CR || (c == HYPHEN && u.machine.partFlag))
    ensures var v := Then(d, Then(d, u, c), LF);
            v.machine.phase == FieldStart && v.machine.trail == u.machine.trail && v.log == u.log + [PartEnd, PartBegin]
  {
    assert u.log + [] == u.log;
    assert Then(d, u, c).machine.phase == Tail(c) && Then(d, u, c).machine.partFlag;
  }

  /** Up to the first of them after the first CR that follows a delimiter. */
  lemma BeginsEarly(d: seq<byte>, t: Trace, s: seq<byte>, j: nat, k: nat)
    requires IsDelimiter(d) && t.machine.phase == Data(0) && !t.machine.partFlag
    requires CleanBelow(d, s, j) && OccursAt(d + [CR], s, j) && j <= k && Begins(d, s, k)
    requires forall i :: j <= i < k ==> !Begins(d, s, i)
    ensures k + |d| + 2 <= |s|
    ensures var u := Run(d, t, s[..k + |d| + 2]);
            && u.machine.phase == FieldStart && u.machine.trail == t.machine.trail
            && u.log == t.log + DataBytes(s[..k]) + [PartEnd, PartBegin]
  {
    hide Run;
    hide Then;
    BeginsMeans(d, s, k);
    OccursThen(d, [CR], s, j);
    var n := k + |d|;
    if j == k {
      ReachesInterrupt(d, t, s, j);
    } else {
      if k < j + |d| { Apart(d, s, j, k); }
      if j + |d| == k { DelimiterTwice(d, s, k); }
      PassingReaches(d, t, s, j, k);
    }
    hide Begins;
    hide CleanBelow;
    hide OccursAt;
    RunSnoc(d, t, s[..n], s[n]);
    RunSnoc(d, t, s[..n] + [s[n]], LF);
    assert s[..n + 2] == s[..n] + [s[n]] + [LF];
    FlagBegins(d, Run(d, t, s[..n]), s[n]);
  }

  /** Content that does not pass is cut short, under the delimiter of another part. */
  lemma NotPassing(d: seq<byte>, t: Trace, content: seq<byte>) returns (k: nat, n: nat)
    requires IsDelimiter(d) && t.machine.phase == Data(0) && !t.machine.partFlag && !t.machine.trail.Leaking?
    requires !Passes(d, content)
    ensures 0 < n <= |content + d + CRLF| && EndsEarly(t, content, k, Run(d, t, (content + d + CRLF)[..n]))
  {
    hide Run;
    var s := content + d + CRLF;
    var j := FirstInterrupt(d, s, |content|);
    if OccursAt(d + DASHES, s, j) {
      k, n := j, |s|;
      EndTried(d, t, s, j);
      assert s[..n] == s;
    } else {
      assert !NoneBegins(d, content, j);
      k := FirstBegins(d, s, j, |content|);
      BeginsEarly(d, t, s, j, k);
      n := k + |d| + 2;
    }
    assert s[..k] == content[..k];
  }

  /** Cut short is not handed over whole. */
  lemma EarlyIsNotWhole(t: Trace, content: seq<byte>, k: nat, u: Trace, log: seq<Event>, e: Event)
    requires EndsEarly(t, content, k, u) && u.log <= log
    ensures !(t.log + DataBytes(content) + [PartEnd, e] <= log)
  {
    var i := |t.log| + k;
    assert u.log[i] == PartEnd;
    assert (t.log + DataBytes(content) + [PartEnd, e])[i] == DataByte(content[k]);
  }

  /** Before the delimiter of another part, content is handed over whole if and only if it passes. */
  lemma NextIffPasses(d: seq<byte>, t: Trace, content: seq<byte>)
    requires IsDelimiter(d) && t.machine.phase == Data(0) && !t.machine.partFlag && !t.machine.trail.Leaking?
    ensures NextPart(t, content, Run(d, t, content + d + CRLF)) <==> Passes(d, content)
  {
    hide Run;
    if Passes(d, content) {
      PassesThenNext(d, t, content);
    } else {
      var k, n := NotPassing(d, t, content);
      var s := content + d + CRLF;
      var u := Run(d, t, s[..n]);
      assert s == s[..n] + s[n..];
      RunConcat(d, t, s[..n], s[n..]);
      RunGrows(d, u, s[n..]);
      EarlyIsNotWhole(t, content, k, u, Run(d, t, s).log, PartBegin);
    }
  }
}
