/** The HTTP parser's scanning loops, each proved to give the answer of the corresponding function. */
module HttpScan {
  import opened Bytes
  import opened HttpParser

  /** ADVANCE_TOKEN */
  method AdvanceToken(s: seq<byte>, start: nat) returns (r: Result<()>)
    requires start <= |s|
    ensures r == Token(s, start)
  {
    var buf := start;
    if buf == |s| {
      return Partial;
    }
    while true
      invariant start <= buf < |s| && Token(s, start) == Token(s, buf)
      decreases |s| - buf
    {
      if s[buf] == SPACE {
        break;
      } else if !IsPrintable(s[buf]) {
        if s[buf] < 32 || s[buf] == DEL {
          return Bad;
        }
      }
      buf := buf + 1;
      if buf == |s| {
        return Partial;
      }
    }
    r := Ok(buf, ());
  }

  /**
   The first control byte: while eight bytes are left, up to eight printable bytes are skipped without looking for
   the buffer's end; the plain loop finishes. Both find what a byte-by-byte scan finds.
   */
  method FindControl(s: seq<byte>, start: nat) returns (k: nat)
    requires start <= |s|
    ensures k == Control(s, start)
  {
    k := start;
    while |s| - k >= 8
      invariant start <= k <= |s| && Control(s, start) == Control(s, k)
      decreases |s| - k
    {
      ghost var from := k;
      var n := 0;
      while n < 8 && IsPrintable(s[k])
        invariant 0 <= n <= 8 && k == from + n && k <= |s| && (n < 8 ==> k < |s|)
        invariant Control(s, start) == Control(s, k)
        decreases 8 - n
      {
        k := k + 1;
        n := n + 1;
      }
      if n < 8 {
        if IsControl(s[k]) {
          return;
        }
        k := k + 1;
      }
    }
    while k < |s|
      invariant start <= k <= |s| && Control(s, start) == Control(s, k)
    {
      if !IsPrintable(s[k]) && IsControl(s[k]) {
        return;
      }
      k := k + 1;
    }
  }

  /** `get_token_to_eol` */
  method GetTokenToEol(s: seq<byte>, start: nat) returns (r: Result<seq<byte>>)
    requires start <= |s|
    ensures r == TokenToEol(s, start)
  {
    var buf := FindControl(s, start);
    if buf == |s| {
      return Partial;
    }
    var len;
    if s[buf] == CR {
      buf := buf + 1;
      if buf == |s| {
        return Partial;
      }
      if s[buf] != LF {
        return Bad;
      }
      buf := buf + 1;
      len := buf - 2 - start;
    } else if s[buf] == LF {
      len := buf - start;
      buf := buf + 1;
    } else {
      return Bad;
    }
    r := Ok(buf, s[start..start + len]);
  }

  /** The name loop of `parse_headers`. */
  method ScanName(s: seq<byte>, start: nat) returns (r: Result<()>)
    requires start < |s|
    ensures r == Name(s, start)
  {
    hide IsTokenChar;
    var buf := start;
    while true
      invariant start <= buf < |s| && Name(s, start) == Name(s, buf)
      decreases |s| - buf
    {
      if s[buf] == COLON {
        break;
      } else if !IsTokenChar(s[buf]) {
        return Bad;
      }
      buf := buf + 1;
      if buf == |s| {
        return Partial;
      }
    }
    r := Ok(buf, ());
  }

  /** The loop that skips blanks after the colon. */
  method SkipBlanks(s: seq<byte>, start: nat) returns (r: Result<()>)
    requires start <= |s|
    ensures r == Blanks(s, start)
  {
    var buf := start;
    while true
      invariant start <= buf <= |s| && Blanks(s, start) == Blanks(s, buf)
      decreases |s| - buf
    {
      if buf == |s| {
        return Partial;
      }
      if !(s[buf] == SPACE || s[buf] == HT) {
        break;
      }
      buf := buf + 1;
    }
    r := Ok(buf, ());
  }

  method ScanHeaderName(s: seq<byte>, start: nat, first: bool) returns (r: Result<FieldName>)
    requires start < |s|
    ensures r == HeaderName(s, start, first)
  {
    hide Name;
    hide Blanks;
    if first || !(s[start] == SPACE || s[start] == HT) {
      var colon := ScanName(s, start);
      if !colon.Ok? {
        return colon.PropagateFailure();
      }
      if colon.end == start {
        return Bad;
      }
      var rest := SkipBlanks(s, colon.end + 1);
      if !rest.Ok? {
        return rest.PropagateFailure();
      }
      r := Ok(rest.end, Named(s[start..colon.end]));
    } else {
      r := Ok(start, Continuation);
    }
  }

  /** `parse_headers`: the loop fills `headers` until an empty line. */
  method ScanHeaders(s: seq<byte>, start: nat, max: nat) returns (r: Result<seq<Header>>)
    requires start <= |s|
    ensures r == Headers(s, start, max, [])
  {
    hide HeaderName;
    hide TokenToEol;
    var buf, headers := start, [];
    while true
      invariant start <= buf <= |s| && Headers(s, start, max, []) == Headers(s, buf, max, headers)
      decreases |s| - buf
    {
      if buf == |s| {
        return Partial;
      }
      if s[buf] == CR || s[buf] == LF {
        var end := LineEnd(s, buf);
        if !end.Ok? {
          return end.PropagateFailure();
        }
        return Ok(end.end, headers);
      }
      if |headers| == max {
        return Bad;
      }
      var name := ScanHeaderName(s, buf, |headers| == 0);
      if !name.Ok? {
        return name.PropagateFailure();
      }
      var value := GetTokenToEol(s, name.end);
      if !value.Ok? {
        return value.PropagateFailure();
      }
      headers := headers + [Header(name.value, value.value)];
      buf := value.end;
    }
  }

  /** `parse_request` */
  method ScanRequest(s: seq<byte>, max: nat) returns (r: Result<Request>)
    ensures r == ParseRequest(s, max)
  {
    hide Token;
    hide Headers;
    var first := EmptyLine(s);
    if !first.Ok? {
      return first.PropagateFailure();
    }
    var method_ := AdvanceToken(s, first.end);
    if !method_.Ok? {
      return method_.PropagateFailure();
    }
    var path := AdvanceToken(s, method_.end + 1);
    if !path.Ok? {
      return path.PropagateFailure();
    }
    var version := HttpVersion(s, path.end + 1);
    if !version.Ok? {
      return version.PropagateFailure();
    }
    var line := LineEnd(s, version.end);
    if !line.Ok? {
      return line.PropagateFailure();
    }
    var headers := ScanHeaders(s, line.end, max);
    if !headers.Ok? {
      return headers.PropagateFailure();
    }
    r := Ok(headers.end, Request(s[first.end..method_.end], s[method_.end + 1..path.end], version.value, headers.value));
  }

  /** `parse_response` */
  method ScanResponse(s: seq<byte>, max: nat) returns (r: Result<Response>)
    ensures r == ParseResponse(s, max)
  {
    hide TokenToEol;
    hide Headers;
    var version := HttpVersion(s, 0);
    if !version.Ok? {
      return version.PropagateFailure();
    }
    if s[version.end] != SPACE {
      return Bad;
    }
    var status := Status(s, version.end + 1);
    if !status.Ok? {
      return status.PropagateFailure();
    }
    var message := GetTokenToEol(s, status.end);
    if !message.Ok? {
      return message.PropagateFailure();
    }
    var headers := ScanHeaders(s, message.end, max);
    if !headers.Ok? {
      return headers.PropagateFailure();
    }
    r := Ok(headers.end, Response(version.value, status.value, message.value, headers.value));
  }
}
