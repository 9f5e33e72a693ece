/**
 The request, response and header grammar of the bundled parser, as functions from a byte sequence
 and a position. `Partial` is the C result -2, `Invalid` is -1. Reading past the end finds a byte
 that is no space.
 */
module HttpSyntax {
  import opened Bytes
  import opened Options

  datatype Parse<+T> = Done(pos: nat, value: T) | Partial | Invalid

  datatype Span = Span(start: nat, len: nat)

  /** A continuation line of a folded header has no name. */
  datatype Header = Header(name: Option<Span>, value: Span)

  datatype Request = Request(verb: Span, path: Span, minorVersion: nat, headers: seq<Header>)

  datatype Response = Response(minorVersion: nat, status: nat, message: Span, headers: seq<Header>)

  /** Bytes that end a header value: control characters other than the tab, and DEL. */
  predicate EndsValue(b: Byte) {
    (b < 32 && b != HT) || b == DEL
  }

  predicate Blank(b: Byte) {
    b == SP || b == HT
  }

  predicate DigitByte(b: Byte) {
    48 <= b <= 57
  }

  function DigitValue(b: nat): nat
    requires b >= 48
  {
    b - 48
  }

  /** A token character (section 5.6.2 of RFC 9110). */
  predicate TokenChar(b: Byte) {
    || 48 <= b <= 57 || 65 <= b <= 90 || 97 <= b <= 122
    || b == 33 || 35 <= b <= 39 || b == 42 || b == 43 || b == 45 || b == 46 || 94 <= b <= 96 || b == 124 || b == 126
  }

  /** CR LF or LF at position i. */
  function LineEnd(s: seq<Byte>, i: nat): (r: Parse<()>)
    requires i <= |s|
    ensures r.Done? ==> i < r.pos <= |s|
  {
    if i == |s| then Partial
    else if s[i] == CR then
      if i + 1 == |s| then Partial else if s[i + 1] == LF then Done(i + 2, ()) else Invalid
    else if s[i] == LF then Done(i + 1, ())
    else Invalid
  }

  /** The bytes from `start` up to the next space. */
  function Token(s: seq<Byte>, start: nat, i: nat): (r: Parse<Span>)
    requires start <= i <= |s|
    ensures r.Done? ==> i <= r.pos < |s| && s[r.pos] == SP && r.value == Span(start, r.pos - start)
    decreases |s| - i
  {
    if i == |s| then Partial
    else if s[i] == SP then Done(i, Span(start, i - start))
    else if s[i] < 32 || s[i] == DEL then Invalid
    else Token(s, start, i + 1)
  }

  function SkipSp(s: seq<Byte>, i: nat): (p: nat)
    requires i <= |s|
    ensures i <= p <= |s| && (p < |s| ==> s[p] != SP)
    ensures forall k :: i <= k < p ==> s[k] == SP
    decreases |s| - i
  {
    if i < |s| && s[i] == SP then SkipSp(s, i + 1) else i
  }

  function SkipBlanks(s: seq<Byte>, i: nat): (p: nat)
    requires i <= |s|
    ensures i <= p <= |s| && (p < |s| ==> !Blank(s[p]))
    decreases |s| - i
  {
    if i < |s| && Blank(s[i]) then SkipBlanks(s, i + 1) else i
  }

  /** HTTP/1. and a digit, of which the parser wants to see one byte more. */
  function HttpVersion(s: seq<Byte>, i: nat): (r: Parse<nat>)
    requires i <= |s|
    ensures r.Done? ==> r.pos == i + 8 < |s|
  {
    if |s| < i + 9 then Partial
    else if s[i..i + 7] != [72, 84, 84, 80, 47, 49, 46] || !DigitByte(s[i + 7]) then Invalid
    else Done(i + 8, DigitValue(s[i + 7]))
  }

  function FindEnd(s: seq<Byte>, i: nat): (p: nat)
    requires i <= |s|
    ensures i <= p <= |s| && (p < |s| ==> EndsValue(s[p]))
    ensures forall k :: i <= k < p ==> !EndsValue(s[k])
    decreases |s| - i
  {
    if i == |s| || EndsValue(s[i]) then i else FindEnd(s, i + 1)
  }

  /** The rest of the line from i, without its end. */
  function ToEol(s: seq<Byte>, i: nat): (r: Parse<Span>)
    requires i <= |s|
    ensures r.Done? ==> i < r.pos <= |s| && r.value.start == i && i + r.value.len == FindEnd(s, i) < r.pos
  {
    var k := FindEnd(s, i);
    match LineEnd(s, k)
    case Done(pos, _) => Done(pos, Span(i, k - i))
    case Partial => Partial
    case Invalid => Invalid
  }

  /** A header name up to its colon. */
  function Name(s: seq<Byte>, start: nat, i: nat): (r: Parse<Span>)
    requires start <= i <= |s|
    ensures r.Done? ==> i <= r.pos < |s| && s[r.pos] == COLON && start < r.pos && r.value == Span(start, r.pos - start)
    decreases |s| - i
  {
    if i == |s| then Partial
    else if s[i] == COLON then if i == start then Invalid else Done(i, Span(start, i - start))
    else if !TokenChar(s[i]) then Invalid
    else Name(s, start, i + 1)
  }

  /** The length that remains of s[start..start + len] without trailing blanks. */
  function TrimEnd(s: seq<Byte>, start: nat, len: nat): (n: nat)
    requires start + len <= |s|
    ensures n <= len
  {
    if len > 0 && Blank(s[start + len - 1]) then TrimEnd(s, start, len - 1) else len
  }

  /** The value of a header: the rest of the line, trimmed at its end. */
  function Value(s: seq<Byte>, i: nat): (r: Parse<Span>)
    requires i <= |s|
    ensures r.Done? ==> i < r.pos <= |s| && r.value.start == i && i + r.value.len < r.pos
  {
    match ToEol(s, i)
    case Done(pos, value) => Done(pos, Span(i, TrimEnd(s, i, value.len)))
    case Partial => Partial
    case Invalid => Invalid
  }

  function HeaderLine(s: seq<Byte>, i: nat, first: bool): (r: Parse<Header>)
    requires i < |s|
    ensures r.Done? ==> i < r.pos <= |s|
  {
    if !first && Blank(s[i]) then
      match Value(s, i)
      case Done(pos, value) => Done(pos, Header(None, value))
      case Partial => Partial
      case Invalid => Invalid
    else
      match Name(s, i, i)
      case Partial => Partial
      case Invalid => Invalid
      case Done(colon, name) =>
        var start := SkipBlanks(s, colon + 1);
        if start == |s| then Partial
        else
          match Value(s, start)
          case Done(pos, value) => Done(pos, Header(Some(name), value))
          case Partial => Partial
          case Invalid => Invalid
  }

  /** Header lines up to the blank line, after `headers` have been read already. */
  function Headers(s: seq<Byte>, i: nat, headers: seq<Header>, max: nat): (r: Parse<seq<Header>>)
    requires i <= |s| && |headers| <= max
    ensures r.Done? ==> i < r.pos <= |s| && headers <= r.value && |r.value| <= max
    decreases |s| - i
  {
    if i == |s| then Partial
    else if s[i] == CR || s[i] == LF then
      match LineEnd(s, i)
      case Done(pos, _) => Done(pos, headers)
      case Partial => Partial
      case Invalid => Invalid
    else if |headers| == max then Invalid
    else
      match HeaderLine(s, i, headers == [])
      case Done(pos, header) => Headers(s, pos, headers + [header], max)
      case Partial => Partial
      case Invalid => Invalid
  }

  /** Where the request line starts: one empty line before it is skipped. */
  function Start(s: seq<Byte>): (r: Parse<()>)
    ensures r.Done? ==> r.pos <= |s|
  {
    if s == [] then Partial
    else if s[0] == CR || s[0] == LF then LineEnd(s, 0)
    else Done(0, ())
  }

  /** Method and path, and the position where the version is expected. */
  function Target(s: seq<Byte>, i: nat): (r: Parse<(Span, Span)>)
    requires i <= |s|
    ensures r.Done? ==> i < r.pos <= |s| && 0 < r.value.0.len && r.value.0.start == i
                        && r.value.0.start + r.value.0.len < r.value.1.start
    ensures r.Done? ==> r.value.1.start + r.value.1.len < r.pos
  {
    match Token(s, i, i)
    case Partial => Partial
    case Invalid => Invalid
    case Done(end, verb) =>
      var start := SkipSp(s, end + 1);
      match Token(s, start, start)
      case Partial => Partial
      case Invalid => Invalid
      case Done(pathEnd, path) =>
        if verb.len == 0 || path.len == 0 then Invalid
        else Done(SkipSp(s, pathEnd + 1), (verb, path))
  }

  /** The version, the end of the request line, and the headers. */
  function RequestRest(s: seq<Byte>, i: nat, target: (Span, Span), max: nat): (r: Parse<Request>)
    requires i <= |s|
    ensures r.Done? ==> i < r.pos <= |s|
  {
    match HttpVersion(s, i)
    case Partial => Partial
    case Invalid => Invalid
    case Done(j, minor) =>
      match LineEnd(s, j)
      case Partial => Partial
      case Invalid => Invalid
      case Done(k, _) =>
        match Headers(s, k, [], max)
        case Partial => Partial
        case Invalid => Invalid
        case Done(n, headers) => Done(n, Request(target.0, target.1, minor, headers))
  }

  function ParseRequest(s: seq<Byte>, max: nat): (r: Parse<Request>)
    ensures r.Done? ==> 0 < r.pos <= |s|
  {
    match Start(s)
    case Partial => Partial
    case Invalid => Invalid
    case Done(start, _) =>
      match Target(s, start)
      case Partial => Partial
      case Invalid => Invalid
      case Done(i, target) => RequestRest(s, i, target, max)
  }

  /** Three digits, of which one more byte must be there before they are looked at. */
  function Status(s: seq<Byte>, i: nat): (r: Parse<nat>)
    requires i <= |s|
    ensures r.Done? ==> r.pos == i + 3 < |s|
  {
    if |s| < i + 4 then Partial
    else if !DigitByte(s[i]) || !DigitByte(s[i + 1]) || !DigitByte(s[i + 2]) then Invalid
    else Done(i + 3, 100 * DigitValue(s[i]) + 10 * DigitValue(s[i + 1]) + DigitValue(s[i + 2]))
  }

  /** The reason phrase and the end of its line; it must be set off from the status by spaces. */
  function ReasonPhrase(s: seq<Byte>, i: nat): (r: Parse<Span>)
    requires i <= |s|
    ensures r.Done? ==> i < r.pos <= |s|
  {
    match ToEol(s, i)
    case Partial => Partial
    case Invalid => Invalid
    case Done(pos, text) =>
      if text.len == 0 then Done(pos, text)
      else if s[i] == SP then
        var start := SkipSp(s, i + 1);
        Done(pos, Span(start, if start <= i + text.len then i + text.len - start else 0))
      else Invalid
  }

  function ParseResponse(s: seq<Byte>, max: nat): (r: Parse<Response>)
    ensures r.Done? ==> 0 < r.pos <= |s|
  {
    match HttpVersion(s, 0)
    case Partial => Partial
    case Invalid => Invalid
    case Done(j, minor) =>
      if s[j] != SP then Invalid
      else
        match Status(s, SkipSp(s, j + 1))
        case Partial => Partial
        case Invalid => Invalid
        case Done(k, status) =>
          match ReasonPhrase(s, k)
          case Partial => Partial
          case Invalid => Invalid
          case Done(m, message) =>
            match Headers(s, m, [], max)
            case Partial => Partial
            case Invalid => Invalid
            case Done(n, headers) => Done(n, Response(minor, status, message, headers))
  }

  // ---------------------------------------------------------------- the quick check for a complete head

  /** Two line ends in a row, from position i with `count` of them seen just before. */
  function BlankLine(s: seq<Byte>, i: nat, count: nat): (r: Parse<()>)
    requires i <= |s| && count < 2
    ensures r.Done? ==> i < r.pos <= |s|
    decreases |s| - i
  {
    if i == |s| then Partial
    else if s[i] == CR || s[i] == LF then
      match LineEnd(s, i)
      case Partial => Partial
      case Invalid => Invalid
      case Done(pos, _) => if count == 1 then Done(pos, ()) else BlankLine(s, pos, 1)
    else BlankLine(s, i + 1, 0)
  }

  function IsComplete(s: seq<Byte>, lastLen: nat): Parse<()>
    requires lastLen <= |s|
  {
    BlankLine(s, if lastLen < 3 then 0 else lastLen - 3, 0)
  }

  /** phr_parse_request when the first lastLen bytes have been tried before without success. */
  function ParseRequestAgain(s: seq<Byte>, max: nat, lastLen: nat): Parse<Request>
    requires lastLen <= |s|
  {
    if lastLen == 0 then ParseRequest(s, max)
    else
      match IsComplete(s, lastLen)
      case Partial => Partial
      case Invalid => Invalid
      case Done(_, _) => ParseRequest(s, max)
  }

  function ParseResponseAgain(s: seq<Byte>, max: nat, lastLen: nat): Parse<Response>
    requires lastLen <= |s|
  {
    if lastLen == 0 then ParseResponse(s, max)
    else
      match IsComplete(s, lastLen)
      case Partial => Partial
      case Invalid => Invalid
      case Done(_, _) => ParseResponse(s, max)
  }

  /** phr_parse_headers */
  function ParseHeadersAgain(s: seq<Byte>, max: nat, lastLen: nat): Parse<seq<Header>>
    requires lastLen <= |s|
  {
    if lastLen == 0 then Headers(s, 0, [], max)
    else
      match IsComplete(s, lastLen)
      case Partial => Partial
      case Invalid => Invalid
      case Done(_, _) => Headers(s, 0, [], max)
  }
}
