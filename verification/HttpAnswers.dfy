/**
 What the message-head parsers answer to every buffer: n when it starts with a head, -2 when it can still become one, and
 -1 otherwise. The one exception is that nothing is said about a version or a status before enough bytes for it are there.
 */
module HttpAnswers {
  import opened Bytes
  import opened HttpParser
  import opened HttpGrammar

  // ----- What can still be completed -----

  ghost predicate IsHeaders(s: seq<byte>, hs: seq<Header>, max: nat) {
    AllSayable(hs, true) && |hs| <= max && SpellsHeaders(s, hs)
  }

  ghost predicate IsRequest(s: seq<byte>, q: Request, max: nat) {
    SayableRequest(q) && |q.headers| <= max && SpellsRequest(s, q)
  }

  ghost predicate IsResponse(s: seq<byte>, p: Response, max: nat) {
    SayableResponse(p) && |p.headers| <= max && SpellsResponse(s, p)
  }

  /** A method, a path and then fewer bytes than are looked at for the version. */
  ghost predicate VersionShort(s: seq<byte>) {
    exists lead: seq<byte>, m: seq<byte>, path: seq<byte>, rest: seq<byte> ::
      IsLead(lead) && IsWord(m) && IsWord(path) && |rest| < 9 && s == lead + RequestOpening(m, path) + rest
  }

  function RequestOpening(m: seq<byte>, path: seq<byte>): (s: seq<byte>) { m + [SPACE] + path + [SPACE] }

  /** Fewer bytes than are looked at for the version, or a version and then fewer than are looked at for the status. */
  ghost predicate StatusShort(s: seq<byte>) {
    || |s| < 9
    || exists minor: nat, rest: seq<byte> :: minor < 10 && |rest| < 4 && s == ResponseOpening(minor) + rest
  }

  function ResponseOpening(minor: nat): (s: seq<byte>)
    requires minor < 10
  {
    VERSION + [48 + minor, SPACE]
  }

  // ----- One step more -----

  lemma {:induction false} TokenCompletes(s: seq<byte>, i: nat)
    requires i <= |s| && Token(s, i).Partial?
    ensures Token(s + [SPACE], i).Ok? && Token(s + [SPACE], i).end == |s|
    decreases |s| - i
  {
    if i < |s| { TokenCompletes(s, i + 1); }
  }

  lemma LineEndCompletes(s: seq<byte>, k: nat) returns (t: seq<byte>)
    requires k <= |s| && LineEnd(s, k).Partial?
    ensures LineEnd(s + t, k).Ok? && LineEnd(s + t, k).end == |s + t|
  {
    t := if k == |s| then CRLF else [LF];
  }

  lemma {:induction false} ControlAtEnd(s: seq<byte>, t: seq<byte>, i: nat)
    requires i <= |s| == Control(s, i) && t != [] && IsControl(t[0])
    ensures Control(s + t, i) == |s|
    decreases |s| - i
  {
    if i < |s| { ControlAtEnd(s, t, i + 1); }
  }

  lemma TextCompletes(s: seq<byte>, i: nat) returns (t: seq<byte>)
    requires i <= |s| && TokenToEol(s, i).Partial?
    ensures TokenToEol(s + t, i).Ok? && TokenToEol(s + t, i).end == |s + t|
  {
    var k := Control(s, i);
    t := LineEndCompletes(s, k);
    if k == |s| { ControlAtEnd(s, t, i); } else { ControlStable(s, t, i); }
    hide Control;
  }

  lemma {:induction false} NameCompletes(s: seq<byte>, t: seq<byte>, i: nat)
    requires i <= |s| && Name(s, i).Partial? && t != [] && t[0] == COLON
    ensures Name(s + t, i).Ok? && Name(s + t, i).end == |s|
    decreases |s| - i
  {
    hide IsTokenChar;
    if i < |s| { NameCompletes(s, t, i + 1); }
  }

  lemma {:induction false} BlanksComplete(s: seq<byte>, t: seq<byte>, i: nat)
    requires i <= |s| && Blanks(s, i).Partial? && t != [] && !IsBlank(t[0])
    ensures Blanks(s + t, i).Ok? && Blanks(s + t, i).end == |s|
    decreases |s| - i
  {
    if i < |s| { BlanksComplete(s, t, i + 1); }
  }

  // ----- Header lines -----

  /** A header line that is not whole. */
  ghost predicate LinePartial(s: seq<byte>, i: nat, first: bool)
    requires i < |s|
  {
    var n := HeaderName(s, i, first);
    n.Partial? || (n.Ok? && TokenToEol(s, n.end).Partial?)
  }

  /** One that is whole and ends the buffer. */
  ghost predicate LineWhole(s: seq<byte>, i: nat, first: bool)
    requires i < |s|
  {
    var n := HeaderName(s, i, first);
    n.Ok? && TokenToEol(s, n.end).Ok? && TokenToEol(s, n.end).end == |s|
  }

  lemma EmptyText(s: seq<byte>, k: nat)
    requires k + 2 == |s| && s[k..] == CRLF
    ensures TokenToEol(s, k).Ok? && TokenToEol(s, k).end == |s|
  {
    assert s[k] == s[k..][0] && s[k + 1] == s[k..][1];
  }

  lemma LineCompletes(s: seq<byte>, i: nat, first: bool) returns (t: seq<byte>)
    requires i < |s| && LinePartial(s, i, first)
    ensures LineWhole(s + t, i, first)
  {
    var n := HeaderName(s, i, first);
    if n.Ok? {
      t := TextCompletes(s, n.end);
      HeaderNameStable(s, t, i, first);
      hide HeaderName;
      hide TokenToEol;
    } else if Name(s, i).Partial? {
      t := [COLON] + CRLF;
      NameCompletes(s, t, i);
      EmptyText(s + t, |s| + 1);
      ColonThenEnd(s + t, i, |s|, first);
    } else {
      t := CRLF;
      NameStable(s, t, i);
      BlanksComplete(s, t, Name(s, i).end + 1);
      EmptyText(s + t, |s|);
      hide Name;
      hide Blanks;
      hide TokenToEol;
    }
  }

  lemma ColonThenEnd(s: seq<byte>, i: nat, colon: nat, first: bool)
    requires i < colon && colon + 3 == |s| && (first || !IsBlank(s[i])) && s[colon + 1..] == CRLF
    requires Name(s, i).Ok? && Name(s, i).end == colon
    ensures HeaderName(s, i, first).Ok? && HeaderName(s, i, first).end == colon + 1
  {
    hide Name;
    assert s[colon + 1] == s[colon + 1..][0];
  }

  // ----- Header blocks -----

  lemma EndOfHeaders(s: seq<byte>, max: nat, sofar: seq<Header>)
    ensures Headers(s + CRLF, |s|, max, sofar) == Ok(|s + CRLF|, sofar)
  {
  }

  /** What is not yet a whole header block can be made one. */
  lemma {:induction false} HeadersComplete(s: seq<byte>, i: nat, max: nat, sofar: seq<Header>) returns (t: seq<byte>)
    requires i <= |s| && Headers(s, i, max, sofar).Partial?
    ensures Headers(s + t, i, max, sofar).Ok? && Headers(s + t, i, max, sofar).end == |s + t|
    decreases |s| - i
  {
    hide HeaderName;
    hide TokenToEol;
    if i == |s| {
      t := CRLF;
      EndOfHeaders(s, max, sofar);
    } else if s[i] == CR || s[i] == LF {
      t := LineEndCompletes(s, i);
    } else if LinePartial(s, i, sofar == []) {
      t := LastLine(s, i, max, sofar);
    } else {
      var n := HeaderName(s, i, sofar == []);
      var v := TokenToEol(s, n.end);
      var sofar' := sofar + [Header(n.value, v.value)];
      t := HeadersComplete(s, v.end, max, sofar');
      HeaderNameStable(s, t, i, sofar == []);
      TokenToEolStable(s, t, n.end);
    }
  }

  lemma LastLine(s: seq<byte>, i: nat, max: nat, sofar: seq<Header>) returns (t: seq<byte>)
    requires i < |s| && s[i] != CR && s[i] != LF && |sofar| != max && LinePartial(s, i, sofar == [])
    ensures Headers(s + t, i, max, sofar).Ok? && Headers(s + t, i, max, sofar).end == |s + t|
  {
    hide HeaderName;
    hide TokenToEol;
    hide LinePartial;
    var first := sofar == [];
    var line := LineCompletes(s, i, first);
    var u := s + line;
    var n := HeaderName(u, i, first);
    var v := TokenToEol(u, n.end);
    t := line + CRLF;
    assert s + t == u + CRLF;
    HeaderNameStable(u, CRLF, i, first);
    TokenToEolStable(u, CRLF, n.end);
    EndOfHeaders(u, max, sofar + [Header(n.value, v.value)]);
  }

  /** The header parser answers n, -2 or -1 exactly when the buffer starts with a block, can become one, or neither. */
  lemma HeadersAnswer(s: seq<byte>, max: nat)
    ensures ParseHeaders(s, max).Ok? <==> exists n: nat, hs: seq<Header> :: n <= |s| && IsHeaders(s[..n], hs, max)
    ensures ParseHeaders(s, max).Partial? <==>
      !ParseHeaders(s, max).Ok? && exists t: seq<byte>, hs: seq<Header> :: IsHeaders(s + t, hs, max)
  {
    hide *;
    HeadersOkIff(s, max);
    if ParseHeaders(s, max).Partial? {
      var t, hs := HeadersCanBe(s, max);
    }
    if exists t: seq<byte>, hs: seq<Header> :: IsHeaders(s + t, hs, max) {
      var t: seq<byte>, hs: seq<Header> :| IsHeaders(s + t, hs, max);
      HeadersNotBad(s, t, hs, max);
    }
  }

  lemma HeadersOkIff(s: seq<byte>, max: nat)
    ensures ParseHeaders(s, max).Ok? <==> exists n: nat, hs: seq<Header> :: n <= |s| && IsHeaders(s[..n], hs, max)
  {
    hide *;
    if ParseHeaders(s, max).Ok? {
      var r := ParseHeaders(s, max);
      IsHeadersIff(s, r.end, r.value, max);
      assert IsHeaders(s[..r.end], r.value, max);
    }
    if exists n: nat, hs: seq<Header> :: n <= |s| && IsHeaders(s[..n], hs, max) {
      var n: nat, hs: seq<Header> :| n <= |s| && IsHeaders(s[..n], hs, max);
      IsHeadersIff(s, n, hs, max);
    }
  }

  lemma IsHeadersIff(s: seq<byte>, n: nat, hs: seq<Header>, max: nat)
    requires n <= |s|
    ensures ParseHeaders(s, max) == Ok(n, hs) <==> IsHeaders(s[..n], hs, max)
  {
    HeadersIff(s, n, max, hs);
  }

  lemma HeadersCanBe(s: seq<byte>, max: nat) returns (t: seq<byte>, hs: seq<Header>)
    requires ParseHeaders(s, max).Partial?
    ensures IsHeaders(s + t, hs, max)
  {
    t := HeadersComplete(s, 0, max, []);
    hide Headers;
    hs := Headers(s + t, 0, max, []).value;
    HeadersIff(s + t, |s + t|, max, hs);
    assert (s + t)[..|s + t|] == s + t;
  }

  lemma HeadersNotBad(s: seq<byte>, t: seq<byte>, hs: seq<Header>, max: nat)
    requires IsHeaders(s + t, hs, max)
    ensures !ParseHeaders(s, max).Bad?
  {
    hide ParseHeaders;
    assert (s + t)[..|s + t|] == s + t;
    HeadersIff(s + t, |s + t|, max, hs);
    if ParseHeaders(s, max).Bad? { ParseHeadersStable(s, t, max); }
  }

  // ----- Request lines -----

  /** Fewer bytes than are looked at for the version. */
  ghost predicate ShortAt(s: seq<byte>, i: nat)
    requires i <= |s|
  {
    && Token(s, i).Ok?
    && var j := Token(s, i).end;
       Token(s, j + 1).Ok? && |s| - (Token(s, j + 1).end + 1) < 9
  }

  const LINE_TAIL: seq<byte> := VERSION + [48] + CRLF

  lemma TailIsRead(s: seq<byte>)
    ensures HttpVersion(s + LINE_TAIL, |s|) == Ok(|s| + 8, 0)
    ensures LineEnd(s + LINE_TAIL, |s| + 8).Ok? && LineEnd(s + LINE_TAIL, |s| + 8).end == |s + LINE_TAIL|
  {
    var u := s + LINE_TAIL;
    assert u[|s|..|s| + 7] == VERSION && u[|s| + 7] == 48 && u[|s| + 8] == CR && u[|s| + 9] == LF;
  }

  lemma PathCompletes(s: seq<byte>, i: nat) returns (t: seq<byte>)
    requires i <= |s| && Token(s, i).Ok? && Token(s, Token(s, i).end + 1).Partial?
    ensures RequestLine(s + t, i).Ok? && RequestLine(s + t, i).end == |s + t|
  {
    hide Token;
    hide HttpVersion;
    hide LineEnd;
    var j := Token(s, i).end;
    var u := s + [SPACE];
    TokenStable(s, [SPACE], i);
    TokenCompletes(s, j + 1);
    t := [SPACE] + LINE_TAIL;
    assert s + t == u + LINE_TAIL;
    TokenStable(u, LINE_TAIL, i);
    TokenStable(u, LINE_TAIL, j + 1);
    TailIsRead(u);
  }

  lemma MethodCompletes(s: seq<byte>, i: nat) returns (t: seq<byte>)
    requires i <= |s| && Token(s, i).Partial?
    ensures RequestLine(s + t, i).Ok? && RequestLine(s + t, i).end == |s + t|
  {
    hide RequestLine;
    TokenCompletes(s, i);
    var u := PathCompletes(s + [SPACE], i);
    t := [SPACE] + u;
    assert s + [SPACE] + u == s + t;
  }

  lemma RequestLineCompletes(s: seq<byte>, i: nat) returns (t: seq<byte>)
    requires i <= |s| && RequestLine(s, i).Partial? && !ShortAt(s, i)
    ensures RequestLine(s + t, i).Ok? && RequestLine(s + t, i).end == |s + t|
  {
    if Token(s, i).Partial? {
      t := MethodCompletes(s, i);
    } else if Token(s, Token(s, i).end + 1).Partial? {
      t := PathCompletes(s, i);
    } else {
      t := LineCompletesAt(s, i);
    }
  }

  lemma LineCompletesAt(s: seq<byte>, i: nat) returns (t: seq<byte>)
    requires i <= |s| && RequestLine(s, i).Partial? && !ShortAt(s, i)
    requires Token(s, i).Ok? && Token(s, Token(s, i).end + 1).Ok?
    ensures RequestLine(s + t, i).Ok? && RequestLine(s + t, i).end == |s + t|
  {
    hide Token;
    hide LineEnd;
    var j := Token(s, i).end;
    var k := Token(s, j + 1).end;
    assert HttpVersion(s, k + 1).Ok?;
    hide HttpVersion;
    var v := HttpVersion(s, k + 1).end;
    t := LineEndCompletes(s, v);
    TokenStable(s, t, i);
    TokenStable(s, t, j + 1);
    HttpVersionStable(s, t, k + 1);
  }

  // ----- Requests -----

  /** A whole request line is completed by an empty line. */
  lemma RequestEnds(s: seq<byte>, max: nat)
    requires EmptyLine(s).Ok? && RequestLine(s, EmptyLine(s).end).Ok? && RequestLine(s, EmptyLine(s).end).end == |s|
    ensures ParseRequest(s + CRLF, max).Ok? && ParseRequest(s + CRLF, max).end == |s + CRLF|
  {
    hide RequestLine;
    hide Headers;
    EmptyLineStable(s, CRLF);
    RequestLineStable(s, CRLF, EmptyLine(s).end);
    EndOfHeaders(s, max, []);
  }

  lemma EmptyLineStable(s: seq<byte>, t: seq<byte>)
    requires !EmptyLine(s).Partial?
    ensures EmptyLine(s + t) == EmptyLine(s)
  {
    if s[0] == CR || s[0] == LF { LineEndStable(s, t, 0); }
  }

  lemma RequestCompletes(s: seq<byte>, max: nat) returns (t: seq<byte>)
    requires ParseRequest(s, max).Partial? && !(EmptyLine(s).Ok? && ShortAt(s, EmptyLine(s).end))
    ensures ParseRequest(s + t, max).Ok? && ParseRequest(s + t, max).end == |s + t|
  {
    hide RequestLine;
    hide Headers;
    hide Token;
    if EmptyLine(s).Partial? {
      t := LeadCompletes(s, max);
    } else {
      var i := EmptyLine(s).end;
      if RequestLine(s, i).Partial? {
        var u := RequestLineCompletes(s, i);
        EmptyLineStable(s, u);
        RequestEnds(s + u, max);
        t := u + CRLF;
        assert s + u + CRLF == s + t;
      } else {
        var h := RequestLine(s, i).end;
        t := HeadersComplete(s, h, max, []);
        EmptyLineStable(s, t);
        RequestLineStable(s, t, i);
      }
    }
  }

  lemma LeadCompletes(s: seq<byte>, max: nat) returns (t: seq<byte>)
    requires EmptyLine(s).Partial?
    ensures ParseRequest(s + t, max).Ok? && ParseRequest(s + t, max).end == |s + t|
  {
    hide ParseRequest;
    hide RequestLine;
    var lead := if s == [] then CRLF else [LF];
    var u := s + lead;
    assert u == CRLF && EmptyLine(u).Ok? && EmptyLine(u).end == |u|;
    assert Token(u, |u|).Partial?;
    var line := MethodCompletes(u, |u|);
    EmptyLineStable(u, line);
    RequestEnds(u + line, max);
    t := lead + line + CRLF;
    assert u + line + CRLF == s + t;
  }

  /** The request line is short of a version exactly when it looks like that. */
  lemma VersionShortIff(s: seq<byte>)
    ensures VersionShort(s) <==> s != [] && EmptyLine(s).Ok? && ShortAt(s, EmptyLine(s).end)
  {
    if VersionShort(s) {
      var lead: seq<byte>, m: seq<byte>, path: seq<byte>, rest: seq<byte> :|
        IsLead(lead) && IsWord(m) && IsWord(path) && |rest| < 9 && s == lead + RequestOpening(m, path) + rest;
      ShortIsRead(s, lead, m, path, rest);
    }
    if s != [] && EmptyLine(s).Ok? && ShortAt(s, EmptyLine(s).end) { ReadIsShort(s); }
  }

  lemma ShortIsRead(s: seq<byte>, lead: seq<byte>, m: seq<byte>, path: seq<byte>, rest: seq<byte>)
    requires IsLead(lead) && IsWord(m) && IsWord(path) && |rest| < 9 && s == lead + RequestOpening(m, path) + rest
    ensures s != [] && EmptyLine(s).Ok? && ShortAt(s, EmptyLine(s).end)
  {
    OpeningParts(s, lead, m, path, rest);
    hide RequestOpening;
    var i, j := |lead|, |lead| + |m|;
    LeadIff(s, i);
    TokenIff(s, i, j);
    TokenIff(s, j + 1, j + 1 + |path|);
    hide Token;
    hide EmptyLine;
  }

  lemma OpeningParts(s: seq<byte>, lead: seq<byte>, m: seq<byte>, path: seq<byte>, rest: seq<byte>)
    requires IsWord(m) && s == lead + RequestOpening(m, path) + rest
    ensures var i, j := |lead|, |lead| + |m|;
            var k := j + 1 + |path|;
            && k + 1 + |rest| == |s| && s[..i] == lead && s[i] != CR && s[i] != LF
            && s[i..j] == m && s[j] == SPACE && s[j + 1..k] == path && s[k] == SPACE
  {
    assert m != [] ==> s[|lead|] == m[0];
  }

  lemma ReadIsShort(s: seq<byte>)
    requires s != [] && EmptyLine(s).Ok? && ShortAt(s, EmptyLine(s).end)
    ensures VersionShort(s)
  {
    hide Token;
    var i := EmptyLine(s).end;
    LeadIff(s, i);
    hide EmptyLine;
    var j := Token(s, i).end;
    var k := Token(s, j + 1).end;
    TokenIff(s, i, j);
    TokenIff(s, j + 1, k);
    OpeningJoin(s, i, j, k);
    hide RequestOpening;
    hide IsWord;
    var lead, m, path, rest := s[..i], s[i..j], s[j + 1..k], s[k + 1..];
    assert IsLead(lead) && IsWord(m) && IsWord(path) && |rest| < 9;
  }

  lemma OpeningJoin(s: seq<byte>, i: nat, j: nat, k: nat)
    requires i <= j < k < |s| && s[j] == SPACE && s[k] == SPACE
    ensures s == s[..i] + RequestOpening(s[i..j], s[j + 1..k]) + s[k + 1..]
  {
  }

  lemma IsRequestIff(s: seq<byte>, n: nat, q: Request, max: nat)
    requires n <= |s|
    ensures ParseRequest(s, max) == Ok(n, q) <==> IsRequest(s[..n], q, max)
  {
    RequestIff(s, n, max, q);
  }

  /**
   The request parser answers n exactly when the buffer starts with a request; otherwise -2 exactly when it can become one
   or is short of a version; and -1 in all other cases.
   */
  lemma RequestAnswer(s: seq<byte>, max: nat)
    ensures ParseRequest(s, max).Ok? <==> exists n: nat, q: Request :: n <= |s| && IsRequest(s[..n], q, max)
    ensures ParseRequest(s, max).Partial? <==>
      !ParseRequest(s, max).Ok? && (VersionShort(s) || exists t: seq<byte>, q: Request :: IsRequest(s + t, q, max))
  {
    hide *;
    RequestOkIff(s, max);
    VersionShortIff(s);
    ShortIsPartial(s, max);
    if ParseRequest(s, max).Partial? && !VersionShort(s) {
      var t, q := RequestCanBe(s, max);
    }
    if exists t: seq<byte>, q: Request :: IsRequest(s + t, q, max) {
      var t: seq<byte>, q: Request :| IsRequest(s + t, q, max);
      RequestNotBad(s, t, q, max);
    }
  }

  lemma RequestOkIff(s: seq<byte>, max: nat)
    ensures ParseRequest(s, max).Ok? <==> exists n: nat, q: Request :: n <= |s| && IsRequest(s[..n], q, max)
  {
    hide *;
    if ParseRequest(s, max).Ok? {
      var r := ParseRequest(s, max);
      IsRequestIff(s, r.end, r.value, max);
      assert IsRequest(s[..r.end], r.value, max);
    }
    if exists n: nat, q: Request :: n <= |s| && IsRequest(s[..n], q, max) {
      var n: nat, q: Request :| n <= |s| && IsRequest(s[..n], q, max);
      IsRequestIff(s, n, q, max);
    }
  }

  lemma ShortIsPartial(s: seq<byte>, max: nat)
    ensures s != [] && EmptyLine(s).Ok? && ShortAt(s, EmptyLine(s).end) ==> ParseRequest(s, max).Partial?
  {
    hide EmptyLine;
    hide Token;
  }

  lemma RequestCanBe(s: seq<byte>, max: nat) returns (t: seq<byte>, q: Request)
    requires ParseRequest(s, max).Partial? && !(s != [] && EmptyLine(s).Ok? && ShortAt(s, EmptyLine(s).end))
    ensures IsRequest(s + t, q, max)
  {
    t := RequestCompletes(s, max);
    hide *;
    q := ParseRequest(s + t, max).value;
    IsRequestIff(s + t, |s + t|, q, max);
    assert (s + t)[..|s + t|] == s + t;
  }

  lemma RequestNotBad(s: seq<byte>, t: seq<byte>, q: Request, max: nat)
    requires IsRequest(s + t, q, max)
    ensures !ParseRequest(s, max).Bad?
  {
    hide *;
    assert (s + t)[..|s + t|] == s + t;
    IsRequestIff(s + t, |s + t|, q, max);
    if ParseRequest(s, max).Bad? { RequestStable(s, t, max); }
  }

  // ----- Responses -----

  /** Fewer bytes than are looked at for the version or the status. */
  lemma StatusShortIff(s: seq<byte>)
    ensures StatusShort(s) <==> HttpVersion(s, 0).Partial? || (HttpVersion(s, 0).Ok? && s[8] == SPACE && |s| < 13)
  {
    if HttpVersion(s, 0).Ok? && s[8] == SPACE {
      var minor := HttpVersion(s, 0).value;
      VersionIff(s, 0, minor);
      assert s[..9] == s[0..7] + [s[7], s[8]] == ResponseOpening(minor);
      assert s == ResponseOpening(minor) + s[9..];
    }
    if |s| >= 9 && StatusShort(s) {
      var minor: nat, rest: seq<byte> :| minor < 10 && |rest| < 4 && s == ResponseOpening(minor) + rest;
      assert s[0..7] == VERSION && s[7] == 48 + minor && s[8] == SPACE;
      VersionIff(s, 0, minor);
    }
  }

  lemma ResponseCompletes(s: seq<byte>, max: nat) returns (t: seq<byte>)
    requires ParseResponse(s, max).Partial? && HttpVersion(s, 0).Ok? && s[8] == SPACE && |s| >= 13
    ensures ParseResponse(s + t, max).Ok? && ParseResponse(s + t, max).end == |s + t|
  {
    hide Headers;
    hide TokenToEol;
    var m := Status(s, 9);
    assert m.Ok? && m.end == 13;
    if TokenToEol(s, 13).Partial? {
      var u := TextCompletes(s, 13);
      t := u + CRLF;
      assert s + u + CRLF == s + t;
      TokenToEolStable(s + u, CRLF, 13);
      EndOfHeaders(s + u, max, []);
    } else {
      t := HeadersComplete(s, TokenToEol(s, 13).end, max, []);
      TokenToEolStable(s, t, 13);
    }
    HttpVersionStable(s, t, 0);
    StatusStable(s, t, 9);
  }

  lemma IsResponseIff(s: seq<byte>, n: nat, p: Response, max: nat)
    requires n <= |s|
    ensures ParseResponse(s, max) == Ok(n, p) <==> IsResponse(s[..n], p, max)
  {
    ResponseIff(s, n, max, p);
  }

  /** The same of responses, which can also be short of a status. */
  lemma ResponseAnswer(s: seq<byte>, max: nat)
    ensures ParseResponse(s, max).Ok? <==> exists n: nat, p: Response :: n <= |s| && IsResponse(s[..n], p, max)
    ensures ParseResponse(s, max).Partial? <==>
      !ParseResponse(s, max).Ok? && (StatusShort(s) || exists t: seq<byte>, p: Response :: IsResponse(s + t, p, max))
  {
    hide *;
    ResponseOkIff(s, max);
    StatusShortIff(s);
    ShortStatusIsPartial(s, max);
    if ParseResponse(s, max).Partial? && !StatusShort(s) {
      var t, p := ResponseCanBe(s, max);
    }
    if exists t: seq<byte>, p: Response :: IsResponse(s + t, p, max) {
      var t: seq<byte>, p: Response :| IsResponse(s + t, p, max);
      ResponseNotBad(s, t, p, max);
    }
  }

  lemma ResponseOkIff(s: seq<byte>, max: nat)
    ensures ParseResponse(s, max).Ok? <==> exists n: nat, p: Response :: n <= |s| && IsResponse(s[..n], p, max)
  {
    hide *;
    if ParseResponse(s, max).Ok? {
      var r := ParseResponse(s, max);
      IsResponseIff(s, r.end, r.value, max);
      assert IsResponse(s[..r.end], r.value, max);
    }
    if exists n: nat, p: Response :: n <= |s| && IsResponse(s[..n], p, max) {
      var n: nat, p: Response :| n <= |s| && IsResponse(s[..n], p, max);
      IsResponseIff(s, n, p, max);
    }
  }

  lemma ShortStatusIsPartial(s: seq<byte>, max: nat)
    ensures HttpVersion(s, 0).Partial? || (HttpVersion(s, 0).Ok? && s[8] == SPACE && |s| < 13) ==>
      ParseResponse(s, max).Partial?
  {
  }

  lemma VersionOf(s: seq<byte>, max: nat)
    requires ParseResponse(s, max).Partial? && !HttpVersion(s, 0).Partial?
    ensures HttpVersion(s, 0).Ok? && |s| >= 9 && s[8] == SPACE
  {
  }

  lemma ResponseCanBe(s: seq<byte>, max: nat) returns (t: seq<byte>, p: Response)
    requires ParseResponse(s, max).Partial? && !HttpVersion(s, 0).Partial?
    requires HttpVersion(s, 0).Ok? && s[8] == SPACE ==> |s| >= 13
    ensures IsResponse(s + t, p, max)
  {
    hide *;
    VersionOf(s, max);
    t := ResponseCompletes(s, max);
    p := ParseResponse(s + t, max).value;
    IsResponseIff(s + t, |s + t|, p, max);
    assert (s + t)[..|s + t|] == s + t;
  }

  lemma ResponseNotBad(s: seq<byte>, t: seq<byte>, p: Response, max: nat)
    requires IsResponse(s + t, p, max)
    ensures !ParseResponse(s, max).Bad?
  {
    hide *;
    assert (s + t)[..|s + t|] == s + t;
    IsResponseIff(s + t, |s + t|, p, max);
    if ParseResponse(s, max).Bad? { ResponseStable(s, t, max); }
  }
}
