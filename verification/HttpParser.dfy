/**
 The parser as it runs: a cursor that moves through a buffer, header slots that are filled in
 place, and the value scan unrolled eight bytes at a time. Each method is proved to compute the
 corresponding function of HttpSyntax. The byte after the input must not be a space, because the
 code looks at it while it skips spaces.
 */
module HttpParser {
  import opened Bytes
  import opened HttpSyntax
  import opened Options

  predicate Terminated(buf: array<Byte>, len: nat)
    reads buf
  {
    len < buf.Length && buf[len] != SP
  }

  /** IS_PRINTABLE_ASCII */
  predicate Printable(b: Byte) {
    32 <= b < 127
  }

  /** EXPECT_CHAR after a CR, or a lone LF. */
  method EatLineEnd(buf: array<Byte>, len: nat, from: nat) returns (r: Parse<()>)
    requires from <= len <= buf.Length
    ensures r == LineEnd(buf[..len], from)
  {
    if from == len {
      return Partial;
    }
    var i := from;
    if buf[i] == CR {
      i := i + 1;
      if i == len {
        return Partial;
      }
      if buf[i] != LF {
        return Invalid;
      }
      return Done(i + 1, ());
    } else if buf[i] == LF {
      return Done(i + 1, ());
    }
    return Invalid;
  }

  /** picohttpparser.c:147-179: the next byte that ends a value, eight bytes at a time while there are eight. */
  method ScanValue(buf: array<Byte>, len: nat, from: nat) returns (i: nat)
    requires from <= len <= buf.Length
    ensures i == FindEnd(buf[..len], from)
  {
    i := from;
    while len - i >= 8
      invariant from <= i <= len && FindEnd(buf[..len], i) == FindEnd(buf[..len], from)
      decreases len - i
    {
      var k, block := 0, i;
      while k < 8 && Printable(buf[i])
        invariant 0 <= k <= 8 && from <= i == block + k && block + 8 <= len
        invariant FindEnd(buf[..len], i) == FindEnd(buf[..len], from)
        decreases 8 - k
      {
        i := i + 1;
        k := k + 1;
      }
      if k == 8 {
        continue;
      }
      if (buf[i] < 32 && buf[i] != HT) || buf[i] == DEL {
        return;
      }
      i := i + 1;
    }
    while i < len
      invariant from <= i <= len && FindEnd(buf[..len], i) == FindEnd(buf[..len], from)
    {
      if !Printable(buf[i]) {
        if (buf[i] < 32 && buf[i] != HT) || buf[i] == DEL {
          return;
        }
      }
      i := i + 1;
    }
  }

  method GetTokenToEol(buf: array<Byte>, len: nat, from: nat) returns (r: Parse<Span>)
    requires from <= len <= buf.Length
    ensures r == ToEol(buf[..len], from)
  {
    var i := ScanValue(buf, len, from);
    if i == len {
      return Partial;
    }
    var end := EatLineEnd(buf, len, i);
    match end
    case Done(pos, _) => return Done(pos, Span(from, i - from));
    case Partial => return Partial;
    case Invalid => return Invalid;
  }

  /** ADVANCE_TOKEN */
  method AdvanceToken(buf: array<Byte>, len: nat, from: nat) returns (r: Parse<Span>)
    requires from <= len <= buf.Length
    ensures r == Token(buf[..len], from, from)
  {
    var i := from;
    if i == len {
      return Partial;
    }
    while true
      invariant from <= i < len && Token(buf[..len], from, i) == Token(buf[..len], from, from)
      decreases len - i
    {
      if buf[i] == SP {
        break;
      } else if !Printable(buf[i]) {
        if buf[i] < 32 || buf[i] == DEL {
          return Invalid;
        }
      }
      i := i + 1;
      if i == len {
        return Partial;
      }
    }
    r := Done(i, Span(from, i - from));
  }

  /** do ++buf while (*buf == ' '), starting on a space. */
  method EatSpaces(buf: array<Byte>, len: nat, from: nat) returns (i: nat)
    requires from < len && Terminated(buf, len)
    ensures i == SkipSp(buf[..len], from + 1)
  {
    i := from + 1;
    while buf[i] == SP
      invariant from < i <= len && SkipSp(buf[..len], i) == SkipSp(buf[..len], from + 1)
      decreases len - i
    {
      i := i + 1;
    }
  }

  method ParseHttpVersion(buf: array<Byte>, len: nat, from: nat) returns (r: Parse<nat>)
    requires from <= len <= buf.Length
    ensures r == HttpVersion(buf[..len], from)
  {
    if len - from < 9 {
      return Partial;
    }
    ghost var version := buf[..len][from..from + 7];
    var expected: seq<Byte> := [72, 84, 84, 80, 47, 49, 46];
    var i := 0;
    while i < 7
      invariant 0 <= i <= 7 && forall k :: 0 <= k < i ==> version[k] == expected[k]
    {
      if buf[from + i] != expected[i] {
        assert version[i] != expected[i];
        return Invalid;
      }
      assert version[i] == expected[i];
      i := i + 1;
    }
    assert version == expected;
    if buf[from + 7] < 48 || 57 < buf[from + 7] {
      return Invalid;
    }
    r := Done(from + 8, DigitValue(buf[from + 7]));
  }

  /** picohttpparser.c:297-310 */
  method ParseName(buf: array<Byte>, len: nat, from: nat) returns (r: Parse<Span>)
    requires from <= len <= buf.Length
    ensures r == Name(buf[..len], from, from)
  {
    var i := from;
    if i == len {
      return Partial;
    }
    while true
      invariant from <= i < len && Name(buf[..len], from, i) == Name(buf[..len], from, from)
      decreases len - i
    {
      if buf[i] == COLON {
        break;
      } else if !TokenChar(buf[i]) {
        return Invalid;
      }
      i := i + 1;
      if i == len {
        return Partial;
      }
    }
    if i - from == 0 {
      return Invalid;
    }
    r := Done(i, Span(from, i - from));
  }

  /** picohttpparser.c:322-336: the value, without the blanks at its end. */
  method ParseValue(buf: array<Byte>, len: nat, from: nat) returns (r: Parse<Span>)
    requires from <= len <= buf.Length
    ensures r == Value(buf[..len], from)
  {
    var line := GetTokenToEol(buf, len, from);
    match line
    case Partial => return Partial;
    case Invalid => return Invalid;
    case Done(pos, value) =>
      var n: nat := value.len;
      while n != 0
        invariant n <= value.len && TrimEnd(buf[..len], from, n) == TrimEnd(buf[..len], from, value.len)
        decreases n
      {
        var c := buf[from + n - 1];
        if !(c == SP || c == HT) {
          break;
        }
        n := n - 1;
      }
      r := Done(pos, Span(from, n));
  }

  /** picohttpparser.c:280-336: one header line, by its name and value or as a continuation. */
  method ParseHeaderLine(buf: array<Byte>, len: nat, from: nat, first: bool) returns (r: Parse<Header>)
    requires from < len <= buf.Length
    ensures r == HeaderLine(buf[..len], from, first)
  {
    hide Name, Value;
    var i := from;
    var name: Option<Span> := None;
    if first || !(buf[i] == SP || buf[i] == HT) {
      var token := ParseName(buf, len, i);
      match token {
        case Partial => return Partial;
        case Invalid => return Invalid;
        case Done(colon, span) =>
          name := Some(span);
          i := colon + 1;
          while true
            invariant colon + 1 <= i <= len && SkipBlanks(buf[..len], i) == SkipBlanks(buf[..len], colon + 1)
            decreases len - i
          {
            if i == len {
              return Partial;
            }
            if !(buf[i] == SP || buf[i] == HT) {
              break;
            }
            i := i + 1;
          }
      }
    }
    var value := ParseValue(buf, len, i);
    match value
    case Done(pos, span) => return Done(pos, Header(name, span));
    case Partial => return Partial;
    case Invalid => return Invalid;
  }

  /** Fills the header slots; the result says how many of them. */
  method ParseHeaders(buf: array<Byte>, len: nat, from: nat, headers: array<Header>) returns (r: Parse<nat>)
    requires from <= len <= buf.Length
    modifies headers
    ensures match Headers(buf[..len], from, [], headers.Length)
            case Done(pos, value) => r == Done(pos, |value|) && headers[..|value|] == value
            case Partial => r.Partial?
            case Invalid => r.Invalid?
  {
    hide HeaderLine;
    var i, count := from, 0;
    while true
      invariant i <= len && count <= headers.Length
      invariant Headers(buf[..len], from, [], headers.Length)
                == Headers(buf[..len], i, headers[..count], headers.Length)
      decreases len - i
    {
      if i == len {
        return Partial;
      }
      if buf[i] == CR || buf[i] == LF {
        var end := EatLineEnd(buf, len, i);
        match end
        case Done(pos, _) => return Done(pos, count);
        case Partial => return Partial;
        case Invalid => return Invalid;
      }
      if count == headers.Length {
        return Invalid;
      }
      var line := ParseHeaderLine(buf, len, i, count == 0);
      match line
      case Partial => return Partial;
      case Invalid => return Invalid;
      case Done(pos, header) =>
        ghost var read := headers[..count];
        headers[count] := header;
        count := count + 1;
        assert headers[..count] == read + [header];
        i := pos;
    }
  }

  /** is_complete */
  method CheckComplete(buf: array<Byte>, len: nat, lastLen: nat) returns (r: Parse<()>)
    requires lastLen <= len <= buf.Length
    ensures r == IsComplete(buf[..len], lastLen)
  {
    var i, count := if lastLen < 3 then 0 else lastLen - 3, 0;
    while true
      invariant i <= len && count < 2
      invariant BlankLine(buf[..len], i, count) == IsComplete(buf[..len], lastLen)
      decreases len - i
    {
      if i == len {
        return Partial;
      }
      if buf[i] == CR {
        i := i + 1;
        if i == len {
          return Partial;
        }
        if buf[i] != LF {
          return Invalid;
        }
        i := i + 1;
        count := count + 1;
      } else if buf[i] == LF {
        i := i + 1;
        count := count + 1;
      } else {
        i := i + 1;
        count := 0;
      }
      if count == 2 {
        return Done(i, ());
      }
    }
  }

  /** The request line up to the version, or -1 for an empty method or path. */
  method ParseTarget(buf: array<Byte>, len: nat, from: nat) returns (r: Parse<(Span, Span)>)
    requires from <= len && Terminated(buf, len)
    ensures r == Target(buf[..len], from)
  {
    hide Token, SkipSp;
    var verb := AdvanceToken(buf, len, from);
    match verb
    case Partial => return Partial;
    case Invalid => return Invalid;
    case Done(end, verbSpan) =>
      var start := EatSpaces(buf, len, end);
      var path := AdvanceToken(buf, len, start);
      match path
      case Partial => return Partial;
      case Invalid => return Invalid;
      case Done(pathEnd, pathSpan) =>
        var i := EatSpaces(buf, len, pathEnd);
        if verbSpan.len == 0 || pathSpan.len == 0 {
          return Invalid;
        }
        r := Done(i, (verbSpan, pathSpan));
  }

  /** phr_parse_request: -2, -1, or the length of the head, with the spans it found. */
  method PhrParseRequest(buf: array<Byte>, len: nat, headers: array<Header>, lastLen: nat) returns (r: Parse<Request>)
    requires lastLen <= len && Terminated(buf, len)
    modifies headers
    ensures r == ParseRequestAgain(buf[..len], headers.Length, lastLen)
    ensures r.Done? ==> headers[..|r.value.headers|] == r.value.headers
  {
    hide Target, HttpVersion, Headers, IsComplete;
    if lastLen != 0 {
      var complete := CheckComplete(buf, len, lastLen);
      match complete {
        case Partial => return Partial;
        case Invalid => return Invalid;
        case Done(_, _) =>
      }
    }
    if len == 0 {
      return Partial;
    }
    var start := 0;
    if buf[0] == CR || buf[0] == LF {
      var empty := EatLineEnd(buf, len, 0);
      match empty {
        case Partial => return Partial;
        case Invalid => return Invalid;
        case Done(pos, _) => start := pos;
      }
    }
    assert Start(buf[..len]) == Done(start, ());
    var target := ParseTarget(buf, len, start);
    match target
    case Partial => return Partial;
    case Invalid => return Invalid;
    case Done(i, spans) =>
      r := ParseRequestRest(buf, len, i, spans, headers);
  }

  /** picohttpparser.c:367-380: the version, the end of the request line, and the headers. */
  method ParseRequestRest(buf: array<Byte>, len: nat, from: nat, spans: (Span, Span), headers: array<Header>)
      returns (r: Parse<Request>)
    requires from <= len <= buf.Length
    modifies headers
    ensures r == RequestRest(buf[..len], from, spans, headers.Length)
    ensures r.Done? ==> headers[..|r.value.headers|] == r.value.headers
  {
    hide HttpVersion, Headers;
    var version := ParseHttpVersion(buf, len, from);
    match version
    case Partial => return Partial;
    case Invalid => return Invalid;
    case Done(j, minor) =>
      var end := EatLineEnd(buf, len, j);
      match end
      case Partial => return Partial;
      case Invalid => return Invalid;
      case Done(k, _) =>
        var block := ParseHeaders(buf, len, k, headers);
        match block
        case Partial => return Partial;
        case Invalid => return Invalid;
        case Done(n, count) => return Done(n, Request(spans.0, spans.1, minor, headers[..count]));
  }

  /** phr_parse_response */
  method PhrParseResponse(buf: array<Byte>, len: nat, headers: array<Header>, lastLen: nat) returns (r: Parse<Response>)
    requires lastLen <= len && Terminated(buf, len)
    modifies headers
    ensures r == ParseResponseAgain(buf[..len], headers.Length, lastLen)
    ensures r.Done? ==> headers[..|r.value.headers|] == r.value.headers
  {
    hide HttpVersion, Headers, IsComplete, SkipSp, Status, ReasonPhrase;
    if lastLen != 0 {
      var complete := CheckComplete(buf, len, lastLen);
      match complete {
        case Partial => return Partial;
        case Invalid => return Invalid;
        case Done(_, _) =>
      }
    }
    var version := ParseHttpVersion(buf, len, 0);
    match version
    case Partial => return Partial;
    case Invalid => return Invalid;
    case Done(j, minor) =>
      if buf[j] != SP {
        return Invalid;
      }
      var i := EatSpaces(buf, len, j);
      var status := ParseStatus(buf, len, i);
      match status
      case Partial => return Partial;
      case Invalid => return Invalid;
      case Done(k, code) =>
        var message := ParseReason(buf, len, k);
        match message
        case Partial => return Partial;
        case Invalid => return Invalid;
        case Done(m, text) =>
          var block := ParseHeaders(buf, len, m, headers);
          match block
          case Partial => return Partial;
          case Invalid => return Invalid;
          case Done(n, count) => return Done(n, Response(minor, code, text, headers[..count]));
  }

  /** PARSE_INT_3, once four bytes are there */
  method ParseStatus(buf: array<Byte>, len: nat, from: nat) returns (r: Parse<nat>)
    requires from <= len <= buf.Length
    ensures r == Status(buf[..len], from)
  {
    if len - from < 4 {
      return Partial;
    }
    var i, value, scale := 0, 0, 100;
    while i < 3
      invariant 0 <= i <= 3 && scale == (if i == 0 then 100 else if i == 1 then 10 else 1)
      invariant forall k :: from <= k < from + i ==> DigitByte(buf[k])
      invariant value == (if i == 0 then 0
                          else if i == 1 then 100 * DigitValue(buf[from])
                          else if i == 2 then 100 * DigitValue(buf[from]) + 10 * DigitValue(buf[from + 1])
                          else 100 * DigitValue(buf[from]) + 10 * DigitValue(buf[from + 1]) + DigitValue(buf[from + 2]))
    {
      if buf[from + i] < 48 || 57 < buf[from + i] {
        return Invalid;
      }
      value := value + scale * DigitValue(buf[from + i]);
      scale := scale / 10;
      if scale == 0 { scale := 1; }
      i := i + 1;
    }
    r := Done(from + 3, value);
  }

  /** picohttpparser.c:434-449 */
  method ParseReason(buf: array<Byte>, len: nat, from: nat) returns (r: Parse<Span>)
    requires from <= len && Terminated(buf, len)
    ensures r == ReasonPhrase(buf[..len], from)
  {
    hide ToEol;
    var line := GetTokenToEol(buf, len, from);
    match line
    case Partial => return Partial;
    case Invalid => return Invalid;
    case Done(pos, text) =>
      if text.len == 0 {
        return Done(pos, text);
      }
      if buf[from] != SP {
        return Invalid;
      }
      ghost var s := buf[..len];
      assert from + text.len == FindEnd(s, from) < |s| && EndsValue(s[from + text.len]);
      var start, n := from + 1, text.len - 1;
      while buf[start] == SP
        invariant from < start <= from + text.len && n == from + text.len - start
        invariant SkipSp(s, start) == SkipSp(s, from + 1)
        decreases n
      {
        start, n := start + 1, n - 1;
      }
      r := Done(pos, Span(start, n));
  }
}
