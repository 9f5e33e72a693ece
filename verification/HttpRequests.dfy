/**
 http_read_request: a parsed head, and for everything but GET a body given by Content-Length or by
 the chunked transfer coding (section 6.3 of RFC 9112). Lengths are exact integers here; module
 HttpReader has the code's arithmetic and relates the two.
 */
module HttpRequests {
  import opened Bytes
  import opened Words
  import opened Numbers
  import opened HttpSyntax
  import opened HttpStability
  import opened Options
  import H = Dechunk

  /** A GET has no body that is looked at; a body outside is a span that reaches past the buffer. */
  datatype Content = NoBody | Inside(bytes: seq<Byte>) | Outside(size: nat)

  datatype Message = Message(head: Request, body: Content)

  const GET: seq<Byte> := [71, 69, 84]

  function TransferEncoding(): seq<Byte> {
    Ascii("Transfer-Encoding")
  }

  function ContentLength(): seq<Byte> {
    Ascii("Content-Length")
  }

  function Chunked(): seq<Byte> {
    Ascii("Chunked")
  }

  function Lower(b: Byte): Byte {
    if 65 <= b <= 90 then b + 32 else b
  }

  /** data_equal_case */
  predicate EqualCase(a: seq<Byte>, b: seq<Byte>) {
    |a| == |b| && forall i :: 0 <= i < |a| ==> Lower(a[i]) == Lower(b[i])
  }

  predicate Within(span: Span, n: nat) {
    span.start + span.len <= n
  }

  function Text(s: seq<Byte>, span: Span): seq<Byte>
    requires Within(span, |s|)
  {
    s[span.start..span.start + span.len]
  }

  predicate HeaderWithin(h: Header, n: nat) {
    Within(h.value, n) && (h.name.Some? ==> Within(h.name.value, n))
  }

  predicate HeadersWithin(headers: seq<Header>, n: nat) {
    forall i :: 0 <= i < |headers| ==> HeaderWithin(headers[i], n)
  }

  predicate Named(s: seq<Byte>, h: Header, name: seq<Byte>)
    requires HeaderWithin(h, |s|)
  {
    if h.name.Some? then EqualCase(Text(s, h.name.value), name) else name == []
  }

  /** The value of the first field of that name, or the null span. */
  function Lookup(s: seq<Byte>, headers: seq<Header>, name: seq<Byte>): (v: Span)
    requires HeadersWithin(headers, |s|)
    ensures v == Span(0, 0) || exists h :: h in headers && HeaderWithin(h, |s|) && h.value == v && Named(s, h, name)
    decreases |headers|
  {
    if headers == [] then Span(0, 0)
    else if Named(s, headers[0], name) then headers[0].value
    else
      assert forall i :: 0 <= i < |headers[1..]| ==> headers[1..][i] in headers;
      Lookup(s, headers[1..], name)
  }

  /** http_field_lookup */
  method FieldLookup(s: seq<Byte>, headers: seq<Header>, name: seq<Byte>) returns (v: Span)
    requires HeadersWithin(headers, |s|)
    ensures v == Lookup(s, headers, name)
  {
    var i := 0;
    while i < |headers|
      invariant 0 <= i <= |headers| && Lookup(s, headers[i..], name) == Lookup(s, headers, name)
    {
      assert headers[i..][0] == headers[i] && headers[i..][1..] == headers[i + 1..];
      if Named(s, headers[i], name) {
        return headers[i].value;
      }
      i := i + 1;
    }
    v := Span(0, 0);
  }

  /** The body that follows a head of n bytes. */
  function Body(s: seq<Byte>, n: nat, head: Request, reach: H.Reach): (r: Parse<Message>)
    requires !reach.Wrapping? && n <= |s| && HeadersWithin(head.headers, |s|)
    ensures r.Done? ==> n <= r.pos <= |s|
  {
    var encoding := Lookup(s, head.headers, TransferEncoding());
    var length := Lookup(s, head.headers, ContentLength());
    if length.len > 0 then
      if encoding.len > 0 then Invalid
      else
        var size := StrToUll(s[length.start..], 10);
        if |s| < n + size then Partial else Done(n + size, Message(head, Inside(s[n..n + size])))
    else if encoding.len > 0 then
      if !EqualCase(Text(s, encoding), Chunked()) then Invalid
      else
        match H.Dechunk(s[n..], reach)
        case Incomplete => Partial
        case Complete(k, body) => Done(n + k, Message(head, Inside(body)))
    else Invalid
  }

  function ReadRequest(s: seq<Byte>, max: nat, reach: H.Reach): (r: Parse<Message>)
    requires !reach.Wrapping?
    ensures r.Done? ==> 0 < r.pos <= |s|
  {
    match ParseRequest(s, max)
    case Partial => Partial
    case Invalid => Invalid
    case Done(n, head) =>
      RequestSpans(s, max);
      if Text(s, head.verb) == GET then Done(n, Message(head, NoBody)) else Body(s, n, head, reach)
  }

  // ---------------------------------------------------------------- where the spans lie

  /** A named field's value starts with no white space, and white space or the line end follows it. */
  predicate Delimited(s: seq<Byte>, h: Header) {
    h.name.Some? && h.value.len > 0 ==>
      && h.value.start + h.value.len < |s|
      && !IsSpace(s[h.value.start]) && IsSpace(s[h.value.start + h.value.len])
  }

  lemma {:induction false} TrimmedValue(s: seq<Byte>, start: nat, len: nat)
    requires start + len < |s| && IsSpace(s[start + len])
    ensures IsSpace(s[start + TrimEnd(s, start, len)])
  {
    if len > 0 && Blank(s[start + len - 1]) {
      TrimmedValue(s, start, len - 1);
    }
  }

  lemma ValueSpan(s: seq<Byte>, i: nat)
    requires i < |s| && Value(s, i).Done?
    ensures var v := Value(s, i).value;
            v.start == i && i + v.len < Value(s, i).pos && IsSpace(s[i + v.len])
              && (v.len > 0 && !Blank(s[i]) ==> !IsSpace(s[i]))
  {
    var k := FindEnd(s, i);
    assert k > i ==> !EndsValue(s[i]);
    TrimmedValue(s, i, k - i);
  }

  lemma HeaderSpans(s: seq<Byte>, i: nat, first: bool)
    requires i < |s| && HeaderLine(s, i, first).Done?
    ensures var h := HeaderLine(s, i, first).value; HeaderWithin(h, HeaderLine(s, i, first).pos) && Delimited(s, h)
  {
    hide Value, Name, SkipBlanks;
    if !first && Blank(s[i]) {
      ValueSpan(s, i);
    } else {
      ValueSpan(s, SkipBlanks(s, Name(s, i, i).pos + 1));
    }
  }

  predicate AllDelimited(s: seq<Byte>, headers: seq<Header>) {
    forall i :: 0 <= i < |headers| ==> Delimited(s, headers[i])
  }

  lemma {:induction false} HeadersSpans(s: seq<Byte>, i: nat, headers: seq<Header>, max: nat)
    requires i <= |s| && |headers| <= max && Headers(s, i, headers, max).Done?
    requires HeadersWithin(headers, i) && AllDelimited(s, headers)
    ensures HeadersWithin(Headers(s, i, headers, max).value, Headers(s, i, headers, max).pos)
    ensures AllDelimited(s, Headers(s, i, headers, max).value)
    decreases |s| - i
  {
    hide HeaderLine, Delimited;
    if s[i] != CR && s[i] != LF {
      HeaderSpans(s, i, headers == []);
      var line := HeaderLine(s, i, headers == []);
      HeadersSpans(s, line.pos, headers + [line.value], max);
    }
  }

  lemma RequestSpans(s: seq<Byte>, max: nat)
    ensures ParseRequest(s, max).Done? ==>
              var head, n := ParseRequest(s, max).value, ParseRequest(s, max).pos;
              && Within(head.verb, n) && Within(head.path, n) && HeadersWithin(head.headers, n)
              && HeadersWithin(head.headers, |s|) && AllDelimited(s, head.headers)
  {
    hide Target, HttpVersion, Headers, LineEnd;
    if ParseRequest(s, max).Done? {
      var i := Target(s, Start(s).pos).pos;
      var k := LineEnd(s, HttpVersion(s, i).pos).pos;
      HeadersSpans(s, k, [], max);
    }
  }

  // ---------------------------------------------------------------- prefix stability of whole requests

  lemma {:induction false} LookupKeeps(s: seq<Byte>, t: seq<Byte>, headers: seq<Header>, name: seq<Byte>)
    requires HeadersWithin(headers, |s|)
    ensures HeadersWithin(headers, |s + t|) && Lookup(s + t, headers, name) == Lookup(s, headers, name)
    decreases |headers|
  {
    if headers != [] {
      LookupKeeps(s, t, headers[1..], name);
      if headers[0].name.Some? {
        assert Text(s + t, headers[0].name.value) == Text(s, headers[0].name.value);
      }
    }
  }

  /** The digits of a Content-Length value end where the value ends. */
  lemma LengthKeeps(s: seq<Byte>, t: seq<Byte>, v: Span)
    requires v.len > 0 && v.start + v.len < |s| && !IsSpace(s[v.start]) && IsSpace(s[v.start + v.len])
    ensures StrToUll((s + t)[v.start..], 10) == StrToUll(s[v.start..], 10)
  {
    var rest := s[v.start..];
    assert (s + t)[v.start..] == rest + t;
    assert rest[0] == s[v.start] && rest[v.len] == s[v.start + v.len];
    assert SkipSpaces(rest, 0) == 0;
    assert NumberStart(rest, 10) <= 1 <= v.len;
    assert Digit(rest[v.len], 10) == -1;
    StrToUllExtend(rest, t, 10);
  }

  lemma LengthBodyKeeps(s: seq<Byte>, t: seq<Byte>, headers: seq<Header>)
    requires HeadersWithin(headers, |s|) && AllDelimited(s, headers)
    ensures var length := Lookup(s, headers, ContentLength());
            length.len > 0 ==>
              length.start <= |s| && StrToUll((s + t)[length.start..], 10) == StrToUll(s[length.start..], 10)
  {
    hide StrToUll;
    var length := Lookup(s, headers, ContentLength());
    if length.len > 0 {
      var h :| h in headers && HeaderWithin(h, |s|) && h.value == length && Named(s, h, ContentLength());
      assert Delimited(s, h);
      LengthKeeps(s, t, length);
    }
  }

  lemma BodyKeeps(s: seq<Byte>, t: seq<Byte>, n: nat, head: Request)
    requires n <= |s| && HeadersWithin(head.headers, |s|) && AllDelimited(s, head.headers)
    requires HeadersWithin(head.headers, |s + t|)
    ensures Keeps(Body(s, n, head, H.Line), Body(s + t, n, head, H.Line))
  {
    hide StrToUll, Lookup, H.Dechunk, HeadersWithin, AllDelimited, EqualCase;
    LookupKeeps(s, t, head.headers, TransferEncoding());
    LookupKeeps(s, t, head.headers, ContentLength());
    LookupWithin(s, head.headers, TransferEncoding());
    LengthBodyKeeps(s, t, head.headers);
    var length := Lookup(s, head.headers, ContentLength());
    var encoding := Lookup(s, head.headers, TransferEncoding());
    if length.len > 0 {
      var size := StrToUll(s[length.start..], 10);
      if n + size <= |s| {
        assert (s + t)[n..n + size] == s[n..n + size];
      }
    } else if encoding.len > 0 {
      assert Text(s + t, encoding) == Text(s, encoding);
      assert (s + t)[n..] == s[n..] + t;
      if H.Dechunk(s[n..], H.Line).Complete? {
        H.LineDechunkStable(s[n..], t);
      }
    }
  }

  /** A whole request, once read, is read the same however many bytes follow; so is an error. */
  lemma ReadRequestKeeps(s: seq<Byte>, t: seq<Byte>, max: nat)
    ensures Keeps(ReadRequest(s, max, H.Line), ReadRequest(s + t, max, H.Line))
  {
    hide ParseRequest, Body;
    RequestKeeps(s, t, max);
    RequestSpans(s, max);
    RequestSpans(s + t, max);
    if ParseRequest(s, max).Done? {
      var n, head := ParseRequest(s, max).pos, ParseRequest(s, max).value;
      assert Text(s + t, head.verb) == Text(s, head.verb);
      BodyKeeps(s, t, n, head);
    }
  }

  /** The branch of http.c:163-171 is taken. */
  predicate IsChunked(s: seq<Byte>, head: Request)
    requires Within(head.verb, |s|) && HeadersWithin(head.headers, |s|)
  {
    var encoding := Lookup(s, head.headers, TransferEncoding());
    && Text(s, head.verb) != GET && Lookup(s, head.headers, ContentLength()).len == 0
    && encoding.len > 0 && EqualCase(Text(s, encoding), Chunked())
  }

  lemma ChunkedKeeps(s: seq<Byte>, t: seq<Byte>, head: Request)
    requires Within(head.verb, |s|) && HeadersWithin(head.headers, |s|) && HeadersWithin(head.headers, |s + t|)
    ensures IsChunked(s + t, head) == IsChunked(s, head)
  {
    hide Lookup, EqualCase;
    LookupKeeps(s, t, head.headers, TransferEncoding());
    LookupKeeps(s, t, head.headers, ContentLength());
    LookupWithin(s, head.headers, TransferEncoding());
    assert Text(s + t, head.verb) == Text(s, head.verb);
    var encoding := Lookup(s, head.headers, TransferEncoding());
    assert Text(s + t, encoding) == Text(s, encoding);
  }

  /** Head and body end inside the length returned. */
  lemma BodyFits(s: seq<Byte>, n: nat, head: Request, reach: H.Reach)
    requires !reach.Wrapping? && n <= |s| && HeadersWithin(head.headers, |s|)
    ensures var r := Body(s, n, head, reach);
            r.Done? ==> r.value.body.Inside? && n + |r.value.body.bytes| <= r.pos
  {
    hide H.Dechunk, StrToUll, Lookup;
  }

  lemma RequestFits(s: seq<Byte>, max: nat, reach: H.Reach)
    requires !reach.Wrapping?
    ensures var r := ReadRequest(s, max, reach);
            r.Done? ==>
              && ParseRequest(s, max).Done? && ParseRequest(s, max).pos <= r.pos && !r.value.body.Outside?
              && (r.value.body.Inside? ==> ParseRequest(s, max).pos + |r.value.body.bytes| <= r.pos)
  {
    hide ParseRequest, Body;
    RequestSpans(s, max);
    if ParseRequest(s, max).Done? {
      BodyFits(s, ParseRequest(s, max).pos, ParseRequest(s, max).value, reach);
    }
  }

  lemma LookupWithin(s: seq<Byte>, headers: seq<Header>, name: seq<Byte>)
    requires HeadersWithin(headers, |s|)
    ensures Within(Lookup(s, headers, name), |s|)
  {
  }
}
