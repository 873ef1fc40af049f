/**
 What the HTTP message-head parsers (request, response and header block) answer: "malformed", "not enough bytes yet" or
 the number of bytes read; and that an answer, once given, does not change when more bytes arrive.
 */
module HttpParser {
  import opened Bytes

  /** The three-way verdict: -1, -2, or the offset just past what was read. */
  datatype Result<T> = Bad | Partial | Ok(end: nat, value: T) {
    predicate IsFailure() { !Ok? }

    function PropagateFailure<U>(): (r: Result<U>)
      requires !Ok?
    {
      if Bad? then Bad else Partial
    }

    function Extract(): (r: (nat, T))
      requires Ok?
    {
      (end, value)
    }
  }

  const DOT: byte := 46
  const SLASH: byte := 47

  // ----- Character classes -----

  predicate IsPrintable(c: byte) { 32 <= c < 127 }

  /** A control byte other than HT ends a line or is malformed. */
  predicate IsControl(c: byte) { (c < 32 && c != HT) || c == DEL }

  predicate IsDigit(c: byte) { 48 <= c <= 57 }

  function DigitValue(c: byte): (v: nat)
    requires IsDigit(c)
  {
    c - 48
  }

  /** `token_char_map`: letters, digits and !#$%&'*+-.^_`|~ */
  predicate IsTokenChar(c: byte) {
    || IsDigit(c) || 65 <= c <= 90 || 97 <= c <= 122
    || c == 33 || 35 <= c <= 39 || c == 42 || c == 43 || c == 45 || c == 46 || c == 94 || c == 95 || c == 96
    || c == 124 || c == 126
  }

  predicate IsBlank(c: byte) { c == SPACE || c == HT }

  // ----- What the parsers answer -----

  /** ADVANCE_TOKEN: up to the next space. */
  function Token(s: seq<byte>, i: nat): (r: Result<()>)
    requires i <= |s|
    ensures r.Ok? ==> i <= r.end < |s| && s[r.end] == SPACE
    decreases |s| - i
  {
    if i == |s| then Partial
    else if s[i] == SPACE then Ok(i, ())
    else if s[i] < 32 || s[i] == DEL then Bad
    else Token(s, i + 1)
  }

  /** The first control byte. */
  function Control(s: seq<byte>, i: nat): (k: nat)
    requires i <= |s|
    ensures i <= k <= |s| && (k < |s| ==> IsControl(s[k]))
    decreases |s| - i
  {
    if i == |s| || IsControl(s[i]) then i else Control(s, i + 1)
  }

  /** A line end at offset k: CR LF or a lone LF. */
  function LineEnd(s: seq<byte>, k: nat): (r: Result<()>)
    requires k <= |s|
    ensures r.Ok? ==> k < r.end <= |s|
  {
    if k == |s| then Partial
    else if s[k] == CR then
      if k + 1 == |s| then Partial else if s[k + 1] != LF then Bad else Ok(k + 2, ())
    else if s[k] == LF then Ok(k + 1, ())
    else Bad
  }

  /** `get_token_to_eol` */
  function TokenToEol(s: seq<byte>, i: nat): (r: Result<seq<byte>>)
    requires i <= |s|
    ensures r.Ok? ==> i < r.end <= |s|
  {
    var k := Control(s, i);
    var (end, _) :- LineEnd(s, k);
    Ok(end, s[i..k])
  }

  /** `parse_http_version`: HTTP/1. and a digit, with one more byte to look at. */
  function HttpVersion(s: seq<byte>, i: nat): (r: Result<nat>)
    requires i <= |s|
    ensures r.Ok? ==> i < r.end < |s|
  {
    if |s| - i < 9 then Partial
    else if s[i..i + 7] != [72, 84, 84, 80, SLASH, 49, DOT] || !IsDigit(s[i + 7]) then Bad
    else Ok(i + 8, DigitValue(s[i + 7]))
  }

  /** A header name, up to its colon. */
  function Name(s: seq<byte>, i: nat): (r: Result<()>)
    requires i <= |s|
    ensures r.Ok? ==> i <= r.end < |s| && s[r.end] == COLON
    decreases |s| - i
  {
    if i == |s| then Partial
    else if s[i] == COLON then Ok(i, ())
    else if !IsTokenChar(s[i]) then Bad
    else Name(s, i + 1)
  }

  function Blanks(s: seq<byte>, i: nat): (r: Result<()>)
    requires i <= |s|
    ensures r.Ok? ==> i <= r.end < |s|
    decreases |s| - i
  {
    if i == |s| then Partial else if !IsBlank(s[i]) then Ok(i, ()) else Blanks(s, i + 1)
  }

  /** A header line; no name on a line that continues the one before. */
  datatype Header = Header(name: FieldName, value: seq<byte>)
  datatype FieldName = Continuation | Named(bytes: seq<byte>)

  function HeaderName(s: seq<byte>, i: nat, first: bool): (r: Result<FieldName>)
    requires i < |s|
    ensures r.Ok? ==> i <= r.end < |s|
  {
    if !first && IsBlank(s[i]) then Ok(i, Continuation)
    else
      var (colon, _) :- Name(s, i);
      if colon == i then Bad
      else
        var (start, _) :- Blanks(s, colon + 1);
        Ok(start, Named(s[i..colon]))
  }

  /** `parse_headers`, after the headers read so far. */
  function Headers(s: seq<byte>, i: nat, max: nat, sofar: seq<Header>): (r: Result<seq<Header>>)
    requires i <= |s|
    ensures r.Ok? ==> i < r.end <= |s|
    decreases |s| - i
  {
    if i == |s| then Partial
    else if s[i] == CR || s[i] == LF then
      var (end, _) :- LineEnd(s, i);
      Ok(end, sofar)
    else if |sofar| == max then Bad
    else
      var (start, name) :- HeaderName(s, i, sofar == []);
      var (next, value) :- TokenToEol(s, start);
      Headers(s, next, max, sofar + [Header(name, value)])
  }

  datatype Request = Request(method_: seq<byte>, path: seq<byte>, minor: nat, headers: seq<Header>)

  /** Before the request line one empty line is skipped. */
  function EmptyLine(s: seq<byte>): (r: Result<()>)
    ensures r.Ok? ==> r.end <= |s|
  {
    if s == [] then Partial else if s[0] == CR || s[0] == LF then LineEnd(s, 0) else Ok(0, ())
  }

  /** The request line. */
  function RequestLine(s: seq<byte>, i: nat): (r: Result<Request>)
    requires i <= |s|
    ensures r.Ok? ==> i < r.end <= |s|
  {
    var (j, _) :- Token(s, i);
    var (k, _) :- Token(s, j + 1);
    var (v, minor) :- HttpVersion(s, k + 1);
    var (end, _) :- LineEnd(s, v);
    Ok(end, Request(s[i..j], s[j + 1..k], minor, []))
  }

  /** `phr_parse_request` with last_len 0. */
  function ParseRequest(s: seq<byte>, max: nat): (r: Result<Request>)
    ensures r.Ok? ==> r.end <= |s|
  {
    var (i, _) :- EmptyLine(s);
    var (h, line) :- RequestLine(s, i);
    var (end, headers) :- Headers(s, h, max, []);
    Ok(end, line.(headers := headers))
  }

  datatype Response = Response(minor: nat, status: nat, message: seq<byte>, headers: seq<Header>)

  /** `phr_parse_response` with last_len 0. */
  function ParseResponse(s: seq<byte>, max: nat): (r: Result<Response>)
    ensures r.Ok? ==> r.end <= |s|
  {
    var (v, minor) :- HttpVersion(s, 0);
    if s[v] != SPACE then Bad
    else
      var (m, status) :- Status(s, v + 1);
      var (h, message) :- TokenToEol(s, m);
      var (end, headers) :- Headers(s, h, max, []);
      Ok(end, Response(minor, status, message, headers))
  }

  /** Three digits and a space. */
  function Status(s: seq<byte>, i: nat): (r: Result<nat>)
    requires i <= |s|
    ensures r.Ok? ==> i < r.end <= |s|
  {
    if |s| - i < 4 then Partial
    else if !IsDigit(s[i]) || !IsDigit(s[i + 1]) || !IsDigit(s[i + 2]) || s[i + 3] != SPACE then Bad
    else Ok(i + 4, 100 * DigitValue(s[i]) + 10 * DigitValue(s[i + 1]) + DigitValue(s[i + 2]))
  }

  /** `phr_parse_headers` with last_len 0. */
  function ParseHeaders(s: seq<byte>, max: nat): (r: Result<seq<Header>>)
    ensures r.Ok? ==> r.end <= |s|
  {
    Headers(s, 0, max, [])
  }

  // ----- Verdict stability -----

  lemma {:induction false} TokenStable(s: seq<byte>, t: seq<byte>, i: nat)
    requires i <= |s| && !Token(s, i).Partial?
    ensures Token(s + t, i) == Token(s, i)
    decreases |s| - i
  {
    if !(s[i] == SPACE || s[i] < 32 || s[i] == DEL) {
      TokenStable(s, t, i + 1);
    }
  }

  lemma {:induction false} ControlStable(s: seq<byte>, t: seq<byte>, i: nat)
    requires i <= |s| && Control(s, i) < |s|
    ensures Control(s + t, i) == Control(s, i)
    decreases |s| - i
  {
    if !IsControl(s[i]) {
      ControlStable(s, t, i + 1);
    }
  }

  lemma LineEndStable(s: seq<byte>, t: seq<byte>, k: nat)
    requires k <= |s| && !LineEnd(s, k).Partial?
    ensures LineEnd(s + t, k) == LineEnd(s, k)
  {
  }

  lemma TokenToEolStable(s: seq<byte>, t: seq<byte>, i: nat)
    requires i <= |s| && !TokenToEol(s, i).Partial?
    ensures TokenToEol(s + t, i) == TokenToEol(s, i)
  {
    ControlStable(s, t, i);
    LineEndStable(s, t, Control(s, i));
    assert (s + t)[i..Control(s, i)] == s[i..Control(s, i)];
  }

  lemma HttpVersionStable(s: seq<byte>, t: seq<byte>, i: nat)
    requires i <= |s| && !HttpVersion(s, i).Partial?
    ensures HttpVersion(s + t, i) == HttpVersion(s, i)
  {
    assert (s + t)[i..i + 7] == s[i..i + 7];
  }

  lemma {:induction false} NameStable(s: seq<byte>, t: seq<byte>, i: nat)
    requires i <= |s| && !Name(s, i).Partial?
    ensures Name(s + t, i) == Name(s, i)
    decreases |s| - i
  {
    hide IsTokenChar;
    if !(s[i] == COLON || !IsTokenChar(s[i])) {
      NameStable(s, t, i + 1);
    }
  }

  lemma {:induction false} BlanksStable(s: seq<byte>, t: seq<byte>, i: nat)
    requires i <= |s| && !Blanks(s, i).Partial?
    ensures Blanks(s + t, i) == Blanks(s, i)
    decreases |s| - i
  {
    if IsBlank(s[i]) {
      BlanksStable(s, t, i + 1);
    }
  }

  lemma HeaderNameStable(s: seq<byte>, t: seq<byte>, i: nat, first: bool)
    requires i < |s| && !HeaderName(s, i, first).Partial?
    ensures HeaderName(s + t, i, first) == HeaderName(s, i, first)
  {
    if first || !IsBlank(s[i]) {
      NameStable(s, t, i);
      var r := Name(s, i);
      if r.Ok? {
        assert (s + t)[i..r.end] == s[i..r.end];
        if r.end != i { BlanksStable(s, t, r.end + 1); }
      }
    }
  }

  lemma {:induction false} HeadersStable(s: seq<byte>, t: seq<byte>, i: nat, max: nat, sofar: seq<Header>)
    requires i <= |s| && !Headers(s, i, max, sofar).Partial?
    ensures Headers(s + t, i, max, sofar) == Headers(s, i, max, sofar)
    decreases |s| - i
  {
    if s[i] == CR || s[i] == LF {
      LineEndStable(s, t, i);
    } else if |sofar| != max {
      HeaderNameStable(s, t, i, sofar == []);
      var n := HeaderName(s, i, sofar == []);
      if n.Ok? {
        TokenToEolStable(s, t, n.end);
        var v := TokenToEol(s, n.end);
        if v.Ok? {
          HeadersStable(s, t, v.end, max, sofar + [Header(n.value, v.value)]);
        }
      }
    }
  }

  lemma RequestLineStable(s: seq<byte>, t: seq<byte>, i: nat)
    requires i <= |s| && !RequestLine(s, i).Partial?
    ensures RequestLine(s + t, i) == RequestLine(s, i)
  {
    hide Token;
    hide HttpVersion;
    hide LineEnd;
    TokenStable(s, t, i);
    if Token(s, i).Ok? {
      var j := Token(s, i).end;
      assert (s + t)[i..j] == s[i..j];
      TokenStable(s, t, j + 1);
      if Token(s, j + 1).Ok? {
        var k := Token(s, j + 1).end;
        assert (s + t)[j + 1..k] == s[j + 1..k];
        HttpVersionStable(s, t, k + 1);
        if HttpVersion(s, k + 1).Ok? { LineEndStable(s, t, HttpVersion(s, k + 1).end); }
      }
    }
  }

  /** The request parser's answer, once given, stays on every extension of the buffer. */
  lemma RequestStable(s: seq<byte>, t: seq<byte>, max: nat)
    requires !ParseRequest(s, max).Partial?
    ensures ParseRequest(s + t, max) == ParseRequest(s, max)
  {
    hide Headers;
    hide RequestLine;
    if s[0] == CR || s[0] == LF { LineEndStable(s, t, 0); }
    var i := EmptyLine(s);
    if i.Ok? {
      RequestLineStable(s, t, i.end);
      var h := RequestLine(s, i.end);
      if h.Ok? { HeadersStable(s, t, h.end, max, []); }
    }
  }

  lemma StatusStable(s: seq<byte>, t: seq<byte>, i: nat)
    requires i <= |s| && !Status(s, i).Partial?
    ensures Status(s + t, i) == Status(s, i)
  {
  }

  /** The response parser's answer, once given, stays on every extension of the buffer. */
  lemma ResponseStable(s: seq<byte>, t: seq<byte>, max: nat)
    requires !ParseResponse(s, max).Partial?
    ensures ParseResponse(s + t, max) == ParseResponse(s, max)
  {
    hide Headers;
    HttpVersionStable(s, t, 0);
    var v := HttpVersion(s, 0);
    if v.Ok? && s[v.end] == SPACE {
      StatusStable(s, t, v.end + 1);
      var m := Status(s, v.end + 1);
      if m.Ok? {
        TokenToEolStable(s, t, m.end);
        var h := TokenToEol(s, m.end);
        if h.Ok? { HeadersStable(s, t, h.end, max, []); }
      }
    }
  }

  /** The header parser's answer, once given, stays on every extension of the buffer. */
  lemma ParseHeadersStable(s: seq<byte>, t: seq<byte>, max: nat)
    requires !ParseHeaders(s, max).Partial?
    ensures ParseHeaders(s + t, max) == ParseHeaders(s, max)
  {
    HeadersStable(s, t, 0, max, []);
  }

  // ----- The answer comes with the last byte it needs -----

  lemma {:induction false} TokenSoon(s: seq<byte>, n: nat, i: nat)
    requires i <= n <= |s| && Token(s, i).Ok? && Token(s, i).end < n
    ensures Token(s[..n], i) == Token(s, i)
    decreases |s| - i
  {
    if s[i] != SPACE {
      TokenSoon(s, n, i + 1);
    }
  }

  lemma {:induction false} ControlSoon(s: seq<byte>, n: nat, i: nat)
    requires i <= n <= |s| && Control(s, i) < n
    ensures Control(s[..n], i) == Control(s, i)
    decreases |s| - i
  {
    if !IsControl(s[i]) {
      ControlSoon(s, n, i + 1);
    }
  }

  lemma LineEndSoon(s: seq<byte>, n: nat, k: nat)
    requires k <= n <= |s| && LineEnd(s, k).Ok? && LineEnd(s, k).end <= n
    ensures LineEnd(s[..n], k) == LineEnd(s, k)
  {
  }

  lemma TokenToEolSoon(s: seq<byte>, n: nat, i: nat)
    requires i <= n <= |s| && TokenToEol(s, i).Ok? && TokenToEol(s, i).end <= n
    ensures TokenToEol(s[..n], i) == TokenToEol(s, i)
  {
    ControlSoon(s, n, i);
    LineEndSoon(s, n, Control(s, i));
    assert s[..n][i..Control(s, i)] == s[i..Control(s, i)];
  }

  lemma {:induction false} NameSoon(s: seq<byte>, n: nat, i: nat)
    requires i <= n <= |s| && Name(s, i).Ok? && Name(s, i).end < n
    ensures Name(s[..n], i) == Name(s, i)
    decreases |s| - i
  {
    hide IsTokenChar;
    if s[i] != COLON {
      NameSoon(s, n, i + 1);
    }
  }

  lemma {:induction false} BlanksSoon(s: seq<byte>, n: nat, i: nat)
    requires i <= n <= |s| && Blanks(s, i).Ok? && Blanks(s, i).end < n
    ensures Blanks(s[..n], i) == Blanks(s, i)
    decreases |s| - i
  {
    if IsBlank(s[i]) {
      BlanksSoon(s, n, i + 1);
    }
  }

  lemma HeaderNameSoon(s: seq<byte>, n: nat, i: nat, first: bool)
    requires i < n <= |s| && HeaderName(s, i, first).Ok? && HeaderName(s, i, first).end < n
    ensures HeaderName(s[..n], i, first) == HeaderName(s, i, first)
  {
    if first || !IsBlank(s[i]) {
      var colon := Name(s, i).end;
      NameSoon(s, n, i);
      BlanksSoon(s, n, colon + 1);
      assert s[..n][i..colon] == s[i..colon];
    }
  }

  lemma {:induction false} HeadersSoon(s: seq<byte>, n: nat, i: nat, max: nat, sofar: seq<Header>)
    requires i <= n <= |s| && Headers(s, i, max, sofar).Ok? && Headers(s, i, max, sofar).end <= n
    ensures Headers(s[..n], i, max, sofar) == Headers(s, i, max, sofar)
    decreases |s| - i
  {
    if s[i] == CR || s[i] == LF {
      LineEndSoon(s, n, i);
    } else {
      var name := HeaderName(s, i, sofar == []);
      var value := TokenToEol(s, name.end);
      HeadersSoon(s, n, value.end, max, sofar + [Header(name.value, value.value)]);
      HeaderNameSoon(s, n, i, sofar == []);
      TokenToEolSoon(s, n, name.end);
    }
  }

  lemma HttpVersionSoon(s: seq<byte>, n: nat, i: nat)
    requires i <= n <= |s| && HttpVersion(s, i).Ok? && HttpVersion(s, i).end < n
    ensures HttpVersion(s[..n], i) == HttpVersion(s, i)
  {
    assert s[..n][i..i + 7] == s[i..i + 7];
  }

  lemma RequestLineSoon(s: seq<byte>, n: nat, i: nat)
    requires i <= n <= |s| && RequestLine(s, i).Ok? && RequestLine(s, i).end <= n
    ensures RequestLine(s[..n], i) == RequestLine(s, i)
  {
    hide Token;
    hide HttpVersion;
    hide LineEnd;
    var j := Token(s, i).end;
    var k := Token(s, j + 1).end;
    var v := HttpVersion(s, k + 1).end;
    TokenSoon(s, n, i);
    TokenSoon(s, n, j + 1);
    HttpVersionSoon(s, n, k + 1);
    LineEndSoon(s, n, v);
    assert s[..n][i..j] == s[i..j] && s[..n][j + 1..k] == s[j + 1..k];
  }

  lemma RequestSoon(s: seq<byte>, n: nat, max: nat)
    requires n <= |s| && ParseRequest(s, max).Ok? && ParseRequest(s, max).end <= n
    ensures ParseRequest(s[..n], max) == ParseRequest(s, max)
  {
    hide Headers;
    hide RequestLine;
    var i := EmptyLine(s).end;
    var h := RequestLine(s, i).end;
    if s[0] == CR || s[0] == LF { LineEndSoon(s, n, 0); }
    RequestLineSoon(s, n, i);
    HeadersSoon(s, n, h, max, []);
  }

  /**
   When the answer on a buffer is n, every shorter prefix answers "not enough bytes yet" and every longer one answers
   n with the same fields.
   */
  lemma RequestPrefixes(s: seq<byte>, n: nat, max: nat)
    requires n <= |s| && ParseRequest(s, max).Ok?
    ensures ParseRequest(s[..n], max) == if n < ParseRequest(s, max).end then Partial else ParseRequest(s, max)
  {
    if n < ParseRequest(s, max).end {
      assert s == s[..n] + s[n..];
      if !ParseRequest(s[..n], max).Partial? { RequestStable(s[..n], s[n..], max); }
    } else {
      RequestSoon(s, n, max);
    }
  }

  lemma ResponseSoon(s: seq<byte>, n: nat, max: nat)
    requires n <= |s| && ParseResponse(s, max).Ok? && ParseResponse(s, max).end <= n
    ensures ParseResponse(s[..n], max) == ParseResponse(s, max)
  {
    hide Headers;
    var v := HttpVersion(s, 0).end;
    var m := Status(s, v + 1).end;
    var h := TokenToEol(s, m).end;
    assert v < m < h < Headers(s, h, max, []).end <= n;
    assert s[..n][0..7] == s[0..7];
    assert Status(s[..n], v + 1) == Status(s, v + 1);
    TokenToEolSoon(s, n, m);
    HeadersSoon(s, n, h, max, []);
  }

  lemma ResponsePrefixes(s: seq<byte>, n: nat, max: nat)
    requires n <= |s| && ParseResponse(s, max).Ok?
    ensures ParseResponse(s[..n], max) == if n < ParseResponse(s, max).end then Partial else ParseResponse(s, max)
  {
    if n < ParseResponse(s, max).end {
      assert s == s[..n] + s[n..];
      if !ParseResponse(s[..n], max).Partial? { ResponseStable(s[..n], s[n..], max); }
    } else {
      ResponseSoon(s, n, max);
    }
  }

  lemma HeadersPrefixes(s: seq<byte>, n: nat, max: nat)
    requires n <= |s| && ParseHeaders(s, max).Ok?
    ensures ParseHeaders(s[..n], max) == if n < ParseHeaders(s, max).end then Partial else ParseHeaders(s, max)
  {
    if n < ParseHeaders(s, max).end {
      assert s == s[..n] + s[n..];
      if !ParseHeaders(s[..n], max).Partial? { ParseHeadersStable(s[..n], s[n..], max); }
    } else {
      HeadersSoon(s, n, 0, max, []);
    }
  }
}
