/**
 Requests on which the server's reader does not do what exact arithmetic or a stable reading would:
 a Content-Length near 2^64, and a chunked body that starts with a blank size line.
 */
module Counterexamples {
  import opened Bytes
  import opened Alphabet
  import opened Words
  import opened Numbers
  import opened NumberText
  import opened Decimal
  import opened HttpSyntax
  import opened HttpRequests
  import opened HttpReader
  import opened HttpWriter
  import opened RoundTrip
  import opened WrittenRequests
  import opened Server
  import opened HttpServer
  import opened HttpServerCode
  import opened Options
  import H = Dechunk

  /** A single field is found by its name, and nothing is found by a name of another length. */
  lemma OnlyField(s: seq<Byte>, headers: seq<Header>, f: Field, other: seq<Byte>)
    requires |headers| == 1 && Reads(s, headers[0], f) && HeadersWithin(headers, |s|) && |other| != |f.name|
    ensures Lookup(s, headers, f.name) == headers[0].value && Lookup(s, headers, other) == Span(0, 0)
    ensures Text(s, headers[0].value) == f.value
  {
    assert headers[1..] == [];
    assert Lookup(s, headers[1..], other) == Span(0, 0);
  }

  const POST: seq<Byte> := [80, 79, 83, 84]
  const ROOT: seq<Byte> := [47]

  lemma SmallHead(f: Field, rest: seq<Byte>) returns (s: seq<Byte>, n: nat, head: Request)
    requires FieldOk(f)
    ensures n == |RequestText(POST, ROOT, [f])| && s == RequestText(POST, ROOT, [f]) + rest
    ensures ParseRequest(s, FIELDS) == Done(n, head) && Within(head.verb, |s|) && Text(s, head.verb) == POST
    ensures HeadersWithin(head.headers, |s|) && AllDelimited(s, head.headers)
    ensures |head.headers| == 1 && Reads(s, head.headers[0], f)
  {
    hide ParseRequest, RequestText, HeadersWithin, AllDelimited;
    s, n := RequestText(POST, ROOT, [f]) + rest, |RequestText(POST, ROOT, [f])|;
    assert s[0..n] == RequestText(POST, ROOT, [f]);
    RequestHeadAt(s, POST, ROOT, [f], FIELDS);
    RequestSpans(s, FIELDS);
    head := ParseRequest(s, FIELDS).value;
  }

  // ---------------------------------------------------------------- declared lengths

  /** The value of the only field is read to its end. */
  lemma FieldNumber(s: seq<Byte>, h: Header, f: Field, n: Word)
    requires Reads(s, h, f) && Delimited(s, h) && f.value == Digits(n)
    ensures StrToUll(s[h.value.start..], 10) == n
  {
    hide StrToUll, Digits;
    var i, k := h.value.start, h.value.start + h.value.len;
    assert Text(s, h.value) == Digits(n);
    assert s[i..] == Digits(n) + s[k..];
    DecimalRead(n, s[k..]);
  }

  /** A POST with that declared length and nothing behind its head. */
  function LengthRequest(size: nat): seq<Byte> {
    RequestText(POST, ROOT, [Field(ContentLength(), Digits(size))])
  }

  /**
   A declared length that takes n + size to 2^64 or beyond: the code returns the wrapped sum, and a
   body that reaches past the buffer, where exact arithmetic asks for more.
   */
  lemma LargeLengthWraps(size: Word)
    requires |LengthRequest(size)| < HALF_WORD && |LengthRequest(size)| <= INT_MAX
             && |LengthRequest(size)| + size >= WORD_SIZE
    ensures var s := LengthRequest(size);
            && ReadRequest(s, FIELDS, H.Everything) == Partial
            && CodeRead(s, FIELDS).Returned? && CodeRead(s, FIELDS).ret == |s| + size - WORD_SIZE
            && CodeRead(s, FIELDS).message.Some? && CodeRead(s, FIELDS).message.value.body == Outside(size)
  {
    hide ParseRequest, RequestText, StrToUll, Digits, Lookup, HeadersWithin, AllDelimited, FieldOk, EqualCase, Reads;
    var f := Field(ContentLength(), Digits(size));
    LengthFieldOk(size);
    var s, n, head := SmallHead(f, []);
    assert s == LengthRequest(size);
    OnlyField(s, head.headers, f, TransferEncoding());
    var h := head.headers[0];
    assert Delimited(s, h) by { OneDelimited(s, head.headers); }
    FieldNumber(s, h, f, size);
    assert h.value.len == |Digits(size)| > 0;
    assert (n + size) % WORD_SIZE == n + size - WORD_SIZE < n;
  }

  lemma OneDelimited(s: seq<Byte>, headers: seq<Header>)
    requires AllDelimited(s, headers) && |headers| == 1
    ensures Delimited(s, headers[0])
  {
  }

  lemma LengthFieldOk(size: nat)
    ensures FieldOk(Field(ContentLength(), Digits(size)))
  {
    NamesAreTokens();
    DigitsAreOk(size);
  }

  lemma TwentyDigits(n: nat)
    requires WORD_SIZE - 100 <= n < WORD_SIZE
    ensures |Digits(n)| == 20
  {
    assert Pow10(8) == 1_0000_0000 && Pow10(16) == 1_0000_0000_0000_0000;
    assert Pow10(19) == 1000_0000_0000_0000_0000 && Pow10(20) == 1_0000_0000_0000_0000_0000;
    DigitCount(n, 20);
  }

  lemma LengthRequestSize(size: nat)
    requires WORD_SIZE - 100 <= size < WORD_SIZE
    ensures |LengthRequest(size)| == 57
  {
    hide Digits;
    TwentyDigits(size);
    var f := Field(ContentLength(), Digits(size));
    assert FieldsText([f]) == FieldText(f) + FieldsText([f][1..]);
    assert |ContentLength()| == 14;
  }

  /** 2^64 - 1 makes a request one byte shorter than its head; 2^64 - 57 makes the result 0. */
  lemma LengthsThatWrap()
    ensures var s := LengthRequest(WORD_SIZE - 1);
            |s| == 57 && CodeRead(s, FIELDS).Returned? && CodeRead(s, FIELDS).ret == 56
            && ReadRequest(s, FIELDS, H.Everything) == Partial
    ensures var s := LengthRequest(WORD_SIZE - 57);
            |s| == 57 && CodeRead(s, FIELDS).Returned? && CodeRead(s, FIELDS).ret == 0
            && ReadRequest(s, FIELDS, H.Everything) == Partial && CodeParse(s) == Invalid
  {
    hide CodeRead, ReadRequest, LengthRequest;
    LengthRequestSize(WORD_SIZE - 1);
    LengthRequestSize(WORD_SIZE - 57);
    LargeLengthWraps(WORD_SIZE - 1);
    LargeLengthWraps(WORD_SIZE - 57);
  }

  // ---------------------------------------------------------------- a blank chunk-size line

  function ChunkedRequest(body: seq<Byte>): seq<Byte> {
    RequestText(POST, ROOT, [Field(TransferEncoding(), Chunked())]) + body
  }

  lemma ChunkedFieldOk()
    ensures FieldOk(Field(TransferEncoding(), Chunked())) && |TransferEncoding()| != |ContentLength()|
    ensures EqualCase(Chunked(), Chunked())
  {
    assert forall i :: 0 <= i < 17 ==> TokenChar(TransferEncoding()[i]);
    assert forall i :: 0 <= i < 7 ==> !EndsValue(Chunked()[i]) && !Blank(Chunked()[i]);
  }

  /** What the code makes of a chunked request: the head, then whatever http_dechunk says. */
  lemma ChunkedRequestReads(body: seq<Byte>) returns (n: nat, head: Request)
    ensures n == |ChunkedRequest([])| <= INT_MAX
    ensures CodeRead(ChunkedRequest(body), FIELDS) ==
            match H.Dechunk(body, H.Wrapping)
            case Incomplete => MORE
            case Overrun => Overrun
            case Complete(k, joined) => Returned(ToInt((n + k) % WORD_SIZE), Some(Message(head, Inside(joined))))
  {
    hide ParseRequest, RequestText, H.Dechunk, Lookup, HeadersWithin, AllDelimited, FieldOk, EqualCase;
    var f := Field(TransferEncoding(), Chunked());
    ChunkedFieldOk();
    ChunkedRequestSize();
    var s;
    s, n, head := SmallHead(f, body);
    assert s == ChunkedRequest(body) && s[n..] == body;
    OnlyField(s, head.headers, f, ContentLength());
    assert |Chunked()| == 7;
  }

  lemma ChunkedRequestSize()
    ensures |RequestText(POST, ROOT, [Field(TransferEncoding(), Chunked())])| == 47
  {
    var f := Field(TransferEncoding(), Chunked());
    assert FieldsText([f]) == FieldText(f) + FieldsText([f][1..]);
    assert |TransferEncoding()| == 17 && |Chunked()| == 7;
  }

  const BLANK: seq<Byte> := [SP, LF, 48, 48]

  /** A whole request that one more byte turns into an incomplete one. */
  lemma BlankLineRequest()
    ensures CodeParse(ChunkedRequest(BLANK)).Done?
            && CodeParse(ChunkedRequest(BLANK)).pos == |ChunkedRequest(BLANK)| == 51
    ensures |CodeImage(ChunkedRequest(BLANK))| == 51
    ensures CodeParse(ChunkedRequest(BLANK) + [53]) == Partial
  {
    hide CodeRead, RequestText, H.HttpChunk, H.Dechunk;
    ChunkedRequestSize();
    var n, head := ChunkedRequestReads(BLANK);
    var _, _ := ChunkedRequestReads(BLANK + [53]);
    assert ChunkedRequest(BLANK) + [53] == ChunkedRequest(BLANK + [53]);
    H.BlankLineUnstable(H.Wrapping);
    H.DechunkStep(BLANK, H.Wrapping);
    H.DechunkStep(BLANK + [53], H.Wrapping);
    ImageLength(ChunkedRequest(BLANK));
  }

  lemma ImageLength(s: seq<Byte>)
    ensures |CodeImage(s)| == |s|
  {
    hide CodeRead, ParseRequest;
    CodeReadFits(s, FIELDS);
  }

  /**
   The server on that request: received whole, it is dispatched, although the stream that goes on
   with a 5 holds no request. So what was dispatched depends on how the input was cut up.
   */
  lemma BlankLineRun(user: nat -> Action)
    requires user(1).Hold?
    ensures var c := Take(Accepted(), Received(|ChunkedRequest(BLANK)|, ChunkedRequest(BLANK)), CodeEnv(user));
            && IsRun([Accepted(), c], [Received(|ChunkedRequest(BLANK)|, ChunkedRequest(BLANK))], CodeEnv(user))
            && |c.dispatched| == 1 && c.received == ChunkedRequest(BLANK)
            && Requests(c.received + [53], CodeEnv(user)) == []
  {
    hide CodeParse, CodeImage, ChunkedRequest;
    BlankLineRequest();
    var s := ChunkedRequest(BLANK);
    assert s[0..] == s;
    assert [] + s == s;
  }
}
