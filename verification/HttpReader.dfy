/**
 http_read_request as the code computes it: sums modulo 2^64, results cut to a C int, and chunk
 sizes read from all that follows. Related to the exact reader of module HttpRequests: when the two
 agree, and when the code's result is stable under more input. Inputs are shorter than 2^63 bytes.
 */
module HttpReader {
  import opened Bytes
  import opened Words
  import opened Numbers
  import opened HttpSyntax
  import opened HttpStability
  import opened HttpParser
  import opened HttpRequests
  import opened Options
  import A = ChunkArithmetic
  import H = Dechunk

  const INT_MAX := 0x7fff_ffff

  /** A size converted to int: its low 32 bits, as a signed number. */
  function ToInt(n: nat): (i: int)
    ensures i <= n && i <= INT_MAX && (n <= INT_MAX <==> i == n)
    ensures -0x8000_0000 <= i && (n - i) % 0x1_0000_0000 == 0
  {
    var low := n % 0x1_0000_0000;
    if low <= INT_MAX then low else low - 0x1_0000_0000
  }

  /** The int returned, with what was found; or a move of more bytes than there are. */
  datatype Reply = Returned(ret: int, message: Option<Message>) | Overrun

  const MORE := Returned(-2, None)
  const ERROR := Returned(-1, None)

  /** The branch of http.c:151-160 for a body of the declared length. */
  predicate IsLength(s: seq<Byte>, head: Request)
    requires Within(head.verb, |s|) && HeadersWithin(head.headers, |s|)
  {
    && Text(s, head.verb) != GET
    && Lookup(s, head.headers, ContentLength()).len > 0 && Lookup(s, head.headers, TransferEncoding()).len == 0
  }

  function DeclaredLength(s: seq<Byte>, head: Request): nat
    requires HeadersWithin(head.headers, |s|)
  {
    StrToUll(s[Lookup(s, head.headers, ContentLength()).start..], 10)
  }

  /** http.c:156-159 */
  function LengthReply(s: seq<Byte>, n: nat, size: nat, head: Request): Reply
    requires n <= |s|
  {
    var total := (n + size) % WORD_SIZE;
    if |s| < total then MORE
    else
      var body := if n + size < WORD_SIZE then Inside(s[n..n + size]) else Outside(size);
      Returned(ToInt(total), Some(Message(head, body)))
  }

  /** http.c:168-170 */
  function ChunkedReply(r: H.Result, n: nat, head: Request): Reply {
    match r
    case Incomplete => MORE
    case Overrun => Overrun
    case Complete(k, body) => Returned(ToInt((n + k) % WORD_SIZE), Some(Message(head, Inside(body))))
  }

  /** http.c:147-174 behind a head of n bytes. */
  function CodeBody(s: seq<Byte>, n: nat, head: Request): Reply
    requires n <= |s| && HeadersWithin(head.headers, |s|)
  {
    var encoding := Lookup(s, head.headers, TransferEncoding());
    if Lookup(s, head.headers, ContentLength()).len > 0 then
      if encoding.len > 0 then ERROR else LengthReply(s, n, DeclaredLength(s, head), head)
    else if encoding.len > 0 then
      if !EqualCase(Text(s, encoding), Chunked()) then ERROR
      else ChunkedReply(H.Dechunk(s[n..], H.Wrapping), n, head)
    else ERROR
  }

  function CodeRead(s: seq<Byte>, max: nat): Reply {
    match ParseRequest(s, max)
    case Partial => MORE
    case Invalid => ERROR
    case Done(pos, head) =>
      RequestSpans(s, max);
      var n := ToInt(pos);
      if n < 0 then Returned(n, None)
      else if Text(s, head.verb) == GET then Returned(n, Some(Message(head, NoBody)))
      else CodeBody(s, n, head)
  }

  /** The result of the exact reader, as a C int would give it if it could. */
  function Exact(r: Parse<Message>): Reply {
    match r
    case Partial => MORE
    case Invalid => ERROR
    case Done(pos, message) => Returned(pos, Some(message))
  }

  // ---------------------------------------------------------------- when the code is exact

  /** The end of the body fits 64 bits, and an int once the body is there. */
  predicate BodyLengthsFit(s: seq<Byte>, n: nat, head: Request)
    requires n <= |s| && Within(head.verb, |s|) && HeadersWithin(head.headers, |s|)
  {
    && (IsLength(s, head) ==> EndFits(n + DeclaredLength(s, head), |s|))
    && (IsChunked(s, head) ==>
          var k := H.Extent(s[n..], H.Wrapping);
          k > 0 ==> A.SizesFit(s[n..]) && n + k <= INT_MAX)
  }

  predicate EndFits(end: nat, available: nat) {
    end < WORD_SIZE && (end <= available ==> end <= INT_MAX)
  }

  predicate LengthsFit(s: seq<Byte>, max: nat) {
    RequestSpans(s, max);
    var r := ParseRequest(s, max);
    r.Done? ==> BodyLengthsFit(s, r.pos, r.value)
  }

  lemma LengthIsExactIff(s: seq<Byte>, n: nat, head: Request)
    requires n <= |s| < HALF_WORD && n <= INT_MAX && Within(head.verb, |s|) && HeadersWithin(head.headers, |s|)
    requires IsLength(s, head)
    ensures CodeBody(s, n, head) == Exact(Body(s, n, head, H.Everything)) <==> EndFits(n + DeclaredLength(s, head), |s|)
  {
    hide StrToUll, Lookup, H.Dechunk, EqualCase;
    var end := n + DeclaredLength(s, head);
    if end >= WORD_SIZE {
      assert end % WORD_SIZE == end - WORD_SIZE < n;
    }
  }

  lemma ChunkedIsExactIff(s: seq<Byte>, n: nat, head: Request)
    requires n <= |s| < HALF_WORD && n <= INT_MAX && Within(head.verb, |s|) && HeadersWithin(head.headers, |s|)
    requires IsChunked(s, head)
    ensures CodeBody(s, n, head) == Exact(Body(s, n, head, H.Everything)) <==> BodyLengthsFit(s, n, head)
  {
    hide StrToUll, Lookup, H.Dechunk, H.Extent, EqualCase, A.SizesFit;
    A.DechunkIsExactIff(s[n..]);
    H.ExtentIs(s[n..], H.Wrapping);
    A.CompleteIsExact(s[n..]);
  }

  /**
   The code returns what the exact reader does exactly if the lengths fit: n + size or each chunk's
   end below 2^64, and the whole request within an int. The head itself must be shorter than 2^31;
   LongHeadIsCut has the requests whose head is not.
   */
  lemma CodeReadIsExactIff(s: seq<Byte>, max: nat)
    requires |s| < HALF_WORD && (ParseRequest(s, max).Done? ==> ParseRequest(s, max).pos <= INT_MAX)
    ensures CodeRead(s, max) == Exact(ReadRequest(s, max, H.Everything)) <==> LengthsFit(s, max)
  {
    hide ParseRequest, Lookup, StrToUll, H.Dechunk, H.Extent, EqualCase, A.SizesFit, HeadersWithin;
    RequestSpans(s, max);
    if ParseRequest(s, max).Done? {
      var n, head := ParseRequest(s, max).pos, ParseRequest(s, max).value;
      if IsLength(s, head) {
        LengthIsExactIff(s, n, head);
      } else if IsChunked(s, head) {
        ChunkedIsExactIff(s, n, head);
      }
    }
  }

  lemma ReturnsInt(s: seq<Byte>, max: nat)
    ensures CodeRead(s, max).Returned? ==> CodeRead(s, max).ret <= INT_MAX
  {
    hide ParseRequest, H.Dechunk, HeadersWithin;
  }

  /** A request whose head has 2^31 bytes or more never comes back with its length. */
  lemma LongHeadIsCut(s: seq<Byte>, max: nat)
    requires ParseRequest(s, max).Done? && ParseRequest(s, max).pos > INT_MAX
    requires ReadRequest(s, max, H.Everything).Done?
    ensures CodeRead(s, max) != Exact(ReadRequest(s, max, H.Everything))
  {
    hide ParseRequest, CodeRead, ReadRequest;
    RequestFits(s, max, H.Everything);
    ReturnsInt(s, max);
  }

  // ---------------------------------------------------------------- when the code's result is stable

  predicate SameMessage(a: Reply, b: Reply) {
    a.Returned? && b.Returned? && a.message == b.message
  }

  /** What more input does to a request that the code has found, behind a head of n bytes. */
  lemma BodyReadsOn(s: seq<Byte>, t: seq<Byte>, n: nat, head: Request)
    requires n <= |s| && Within(head.verb, |s|) && Text(s, head.verb) != GET
    requires HeadersWithin(head.headers, |s|) && AllDelimited(s, head.headers) && HeadersWithin(head.headers, |s + t|)
    requires CodeBody(s, n, head).Returned? && CodeBody(s, n, head).message.Some?
    ensures if IsChunked(s, head) then
              var r, r' := H.Dechunk(s[n..], H.Wrapping), H.Dechunk(s[n..] + t, H.Wrapping);
              && r.Complete? && (r' == r ==> CodeBody(s + t, n, head) == CodeBody(s, n, head))
              && (SameMessage(CodeBody(s + t, n, head), CodeBody(s, n, head)) ==> r'.Complete? && r'.body == r.body)
            else CodeBody(s + t, n, head) == CodeBody(s, n, head)
  {
    hide StrToUll, Lookup, H.Dechunk, HeadersWithin, AllDelimited, EqualCase, LengthReply;
    LookupKeeps(s, t, head.headers, TransferEncoding());
    LookupKeeps(s, t, head.headers, ContentLength());
    LookupWithin(s, head.headers, TransferEncoding());
    LengthBodyKeeps(s, t, head.headers);
    var encoding := Lookup(s, head.headers, TransferEncoding());
    if Lookup(s, head.headers, ContentLength()).len > 0 {
      LengthReadsOn(s, t, n, DeclaredLength(s, head), head);
    } else {
      assert Text(s + t, encoding) == Text(s, encoding);
      assert (s + t)[n..] == s[n..] + t;
    }
  }

  lemma LengthReadsOn(s: seq<Byte>, t: seq<Byte>, n: nat, size: nat, head: Request)
    requires n <= |s| && LengthReply(s, n, size, head) != MORE
    ensures LengthReply(s + t, n, size, head) == LengthReply(s, n, size, head)
  {
    if n + size < WORD_SIZE {
      assert (s + t)[n..n + size] == s[n..n + size];
    }
  }

  lemma ReadsOn(s: seq<Byte>, t: seq<Byte>, max: nat)
    requires CodeRead(s, max).Returned? && CodeRead(s, max).message.Some?
    ensures ParseRequest(s, max).Done? && 0 <= ToInt(ParseRequest(s, max).pos) <= |s|
    ensures HeadersWithin(ParseRequest(s, max).value.headers, |s|) && Within(ParseRequest(s, max).value.verb, |s|)
    ensures var n, head := ToInt(ParseRequest(s, max).pos), ParseRequest(s, max).value;
            if IsChunked(s, head) then
              var r, r' := H.Dechunk(s[n..], H.Wrapping), H.Dechunk(s[n..] + t, H.Wrapping);
              && r.Complete? && (r' == r ==> CodeRead(s + t, max) == CodeRead(s, max))
              && (SameMessage(CodeRead(s + t, max), CodeRead(s, max)) ==> r'.Complete? && r'.body == r.body)
            else CodeRead(s + t, max) == CodeRead(s, max)
  {
    hide ParseRequest, CodeBody, Lookup, EqualCase, H.Dechunk, HeadersWithin, AllDelimited;
    RequestKeeps(s, t, max);
    RequestSpans(s, max);
    RequestSpans(s + t, max);
    var n, head := ToInt(ParseRequest(s, max).pos), ParseRequest(s, max).value;
    assert Text(s + t, head.verb) == Text(s, head.verb);
    if Text(s, head.verb) != GET {
      BodyReadsOn(s, t, n, head);
    }
  }

  /**
   No overrun, and in a chunked body that the code has found all size numbers end inside the bytes
   that are there.
   */
  ghost predicate Settled(s: seq<Byte>, max: nat) {
    var r := CodeRead(s, max);
    && !r.Overrun?
    && (r.message.Some? ==>
          (ReadsOn(s, [], max);
           IsChunked(s, ParseRequest(s, max).value) ==> H.NumbersEnd(s[ToInt(ParseRequest(s, max).pos)..])))
  }

  /** A request that the code has found stays what it is exactly if it is settled. */
  lemma RequestStableIff(s: seq<Byte>, max: nat)
    requires |s| < HALF_WORD - 1 && CodeRead(s, max).Returned? && CodeRead(s, max).message.Some?
    ensures (forall t :: CodeRead(s + t, max) == CodeRead(s, max)) <==> Settled(s, max)
  {
    hide CodeRead, ParseRequest, HeadersWithin, IsChunked, H.Dechunk, H.NumbersEnd;
    if Settled(s, max) {
      forall t
        ensures CodeRead(s + t, max) == CodeRead(s, max)
      {
        FoundKeeps(s, t, max);
      }
    } else {
      UnsettledDiffers(s, max);
    }
  }

  lemma FoundKeeps(s: seq<Byte>, t: seq<Byte>, max: nat)
    requires |s| < HALF_WORD - 1 && CodeRead(s, max).Returned? && CodeRead(s, max).message.Some? && Settled(s, max)
    ensures CodeRead(s + t, max) == CodeRead(s, max)
  {
    hide CodeRead, ParseRequest, HeadersWithin, IsChunked, H.Dechunk, H.NumbersEnd;
    ReadsOn(s, t, max);
    if IsChunked(s, ParseRequest(s, max).value) {
      A.NumbersEndKeeps(s[ToInt(ParseRequest(s, max).pos)..], t);
    }
  }

  /** One more digit makes another message of an unsettled request, or none. */
  lemma UnsettledDiffers(s: seq<Byte>, max: nat)
    requires |s| < HALF_WORD - 1 && CodeRead(s, max).Returned? && CodeRead(s, max).message.Some? && !Settled(s, max)
    ensures !SameMessage(CodeRead(s + [49], max), CodeRead(s, max))
  {
    hide CodeRead, ParseRequest, HeadersWithin, IsChunked, H.Dechunk, H.NumbersEnd;
    ReadsOn(s, [49], max);
    A.NumbersRunOn(s[ToInt(ParseRequest(s, max).pos)..]);
  }

  lemma BodyErrorKeeps(s: seq<Byte>, t: seq<Byte>, n: nat, head: Request)
    requires n <= |s| && HeadersWithin(head.headers, |s|) && HeadersWithin(head.headers, |s + t|)
    requires CodeBody(s, n, head) == ERROR
    ensures CodeBody(s + t, n, head) == ERROR
  {
    hide StrToUll, Lookup, H.Dechunk, HeadersWithin, EqualCase;
    LookupKeeps(s, t, head.headers, TransferEncoding());
    LookupKeeps(s, t, head.headers, ContentLength());
    LookupWithin(s, head.headers, TransferEncoding());
    var encoding := Lookup(s, head.headers, TransferEncoding());
    assert Text(s + t, encoding) == Text(s, encoding);
  }

  lemma BodyWithoutMessage(s: seq<Byte>, n: nat, head: Request)
    requires n <= |s| && HeadersWithin(head.headers, |s|)
    ensures var r := CodeBody(s, n, head); r.Returned? && r.message.None? ==> r == MORE || r == ERROR
  {
    hide StrToUll, Lookup, H.Dechunk, EqualCase;
  }

  /** Errors stay errors. */
  lemma ErrorKeeps(s: seq<Byte>, t: seq<Byte>, max: nat)
    requires CodeRead(s, max).Returned? && CodeRead(s, max).message.None? && CodeRead(s, max) != MORE
    ensures CodeRead(s + t, max) == CodeRead(s, max)
  {
    hide ParseRequest, CodeBody, HeadersWithin;
    RequestKeeps(s, t, max);
    RequestSpans(s, max);
    RequestSpans(s + t, max);
    if ParseRequest(s, max).Done? && ToInt(ParseRequest(s, max).pos) >= 0 {
      var n, head := ToInt(ParseRequest(s, max).pos), ParseRequest(s, max).value;
      assert Text(s + t, head.verb) == Text(s, head.verb);
      BodyWithoutMessage(s, n, head);
      BodyErrorKeeps(s, t, n, head);
    }
  }

  /** Whatever the code makes of a settled input, unless it asks for more, it makes of every extension. */
  lemma SettledKeeps(s: seq<Byte>, t: seq<Byte>, max: nat)
    requires |s| < HALF_WORD - 1 && Settled(s, max)
    ensures CodeRead(s, max) == MORE || CodeRead(s + t, max) == CodeRead(s, max)
  {
    hide CodeRead;
    if CodeRead(s, max).message.Some? {
      FoundKeeps(s, t, max);
    } else if CodeRead(s, max) != MORE {
      ErrorKeeps(s, t, max);
    }
  }

  // ---------------------------------------------------------------- plain requests

  /** Lengths fit, and no size line of a chunked body is blank. */
  ghost predicate PlainBody(s: seq<Byte>, n: nat, head: Request)
    requires n <= |s| && Within(head.verb, |s|) && HeadersWithin(head.headers, |s|)
  {
    && (IsLength(s, head) ==> EndFits(n + DeclaredLength(s, head), |s|))
    && (IsChunked(s, head) ==>
          && A.PlainBody(s[n..])
          && (H.Dechunk(s[n..], H.Line).Complete? ==> n + H.Dechunk(s[n..], H.Line).n <= INT_MAX))
  }

  ghost predicate PlainRequest(s: seq<Byte>, max: nat) {
    RequestSpans(s, max);
    var r := ParseRequest(s, max);
    |s| < HALF_WORD - 1 && (r.Done? ==> r.pos <= INT_MAX && PlainBody(s, r.pos, r.value))
  }

  lemma PlainBodyIsExact(s: seq<Byte>, n: nat, head: Request)
    requires n <= |s| < HALF_WORD && n <= INT_MAX && Within(head.verb, |s|) && HeadersWithin(head.headers, |s|)
    requires Text(s, head.verb) != GET && PlainBody(s, n, head)
    ensures CodeBody(s, n, head) == Exact(Body(s, n, head, H.Line))
  {
    hide StrToUll, Lookup, H.Dechunk, EqualCase, HeadersWithin, A.PlainBody;
    if IsLength(s, head) {
      LengthIsExactIff(s, n, head);
    } else if IsChunked(s, head) {
      A.PlainBodyExact(s[n..]);
    }
  }

  /** On plain requests the code returns what the exact reader of the size lines does. */
  lemma PlainRequestIsExact(s: seq<Byte>, max: nat)
    requires PlainRequest(s, max)
    ensures CodeRead(s, max) == Exact(ReadRequest(s, max, H.Line))
  {
    hide ParseRequest, CodeBody, Body, PlainBody, HeadersWithin;
    RequestSpans(s, max);
    if ParseRequest(s, max).Done? && Text(s, ParseRequest(s, max).value.verb) != GET {
      PlainBodyIsExact(s, ParseRequest(s, max).pos, ParseRequest(s, max).value);
    }
  }

  lemma PlainBodyNumbersEnd(s: seq<Byte>, n: nat, head: Request)
    requires n <= |s| < HALF_WORD && Within(head.verb, |s|) && HeadersWithin(head.headers, |s|)
    requires PlainBody(s, n, head) && IsChunked(s, head)
    ensures H.Dechunk(s[n..], H.Wrapping).Complete? ==> H.NumbersEnd(s[n..])
    ensures !H.Dechunk(s[n..], H.Wrapping).Overrun?
  {
    hide H.Dechunk, H.NumbersEnd, IsChunked, A.SizesFit, H.NoBlankLines;
    A.PlainBodyExact(s[n..]);
    H.ReadingsAgree(s[n..]);
    if H.Dechunk(s[n..], H.Wrapping).Complete? {
      H.NoBlankNumbersEnd(s[n..]);
    }
  }

  /** Plain requests are settled. */
  lemma PlainIsSettled(s: seq<Byte>, max: nat)
    requires PlainRequest(s, max)
    ensures Settled(s, max)
  {
    hide ParseRequest, CodeRead, PlainBody, HeadersWithin, H.Dechunk, H.NumbersEnd, IsChunked;
    PlainRequestIsExact(s, max);
    RequestSpans(s, max);
    if CodeRead(s, max).message.Some? {
      ReadsOn(s, [], max);
      if IsChunked(s, ParseRequest(s, max).value) {
        PlainBodyNumbersEnd(s, ParseRequest(s, max).pos, ParseRequest(s, max).value);
      }
    }
  }

  /** Plain requests are short. */
  lemma PlainIsShort(s: seq<Byte>, max: nat)
    requires PlainRequest(s, max)
    ensures Short(s, max)
  {
    hide ParseRequest, HeadersWithin, H.Dechunk, H.Extent, IsChunked, IsLength, H.NoBlankLines, A.SizesFit;
    RequestSpans(s, max);
    if ParseRequest(s, max).Done? && IsChunked(s, ParseRequest(s, max).value) {
      var n := ParseRequest(s, max).pos;
      A.PlainBodyExact(s[n..]);
      H.ExtentIs(s[n..], H.Wrapping);
    }
  }

  lemma PlainBodyPrefix(s: seq<Byte>, t: seq<Byte>, n: nat, head: Request)
    requires n <= |s| && Within(head.verb, |s|) && HeadersWithin(head.headers, |s|) && AllDelimited(s, head.headers)
    requires HeadersWithin(head.headers, |s + t|) && PlainBody(s + t, n, head)
    ensures PlainBody(s, n, head)
  {
    hide StrToUll, Lookup, H.Dechunk, EqualCase, HeadersWithin, AllDelimited, H.NoBlankLines, A.SizesFit;
    ChunkedKeeps(s, t, head);
    LookupKeeps(s, t, head.headers, TransferEncoding());
    LookupKeeps(s, t, head.headers, ContentLength());
    LengthBodyKeeps(s, t, head.headers);
    assert Text(s + t, head.verb) == Text(s, head.verb);
    if IsChunked(s, head) {
      assert (s + t)[n..] == s[n..] + t;
      H.NoBlankPrefix(s[n..], t);
      A.SizesFitPrefix(s[n..], t);
      if H.Dechunk(s[n..], H.Line).Complete? {
        H.LineDechunkStable(s[n..], t);
      }
    }
  }

  lemma PlainRequestPrefix(s: seq<Byte>, t: seq<Byte>, max: nat)
    requires PlainRequest(s + t, max)
    ensures PlainRequest(s, max)
  {
    hide ParseRequest, PlainBody, HeadersWithin, AllDelimited;
    RequestSpans(s, max);
    RequestSpans(s + t, max);
    RequestKeeps(s, t, max);
    if ParseRequest(s, max).Done? {
      PlainBodyPrefix(s, t, ParseRequest(s, max).pos, ParseRequest(s, max).value);
    }
  }

  // ---------------------------------------------------------------- as the code runs it

  /** The buffer after a request with a head of n bytes was read: a decoded body stands behind the head. */
  function Rewritten(s: seq<Byte>, n: nat, body: Content): (t: seq<Byte>)
    requires body.Inside? ==> n + |body.bytes| <= |s|
    ensures |t| == |s|
  {
    match body
    case Inside(b) => s[..n] + b + s[n + |b|..]
    case _ => s
  }

  lemma BodyStaysInside(s: seq<Byte>, n: nat, head: Request)
    requires n <= |s| && HeadersWithin(head.headers, |s|)
    ensures var r := CodeBody(s, n, head);
            r.Returned? && r.message.Some? && r.message.value.body.Inside? ==> n + |r.message.value.body.bytes| <= |s|
  {
    hide H.Dechunk, StrToUll, Lookup, EqualCase;
  }

  /** Where the head ends, and that a body inside the buffer fits behind it. */
  lemma CodeReadFits(s: seq<Byte>, max: nat)
    ensures var r := CodeRead(s, max);
            r.Returned? && r.message.Some? ==>
              && ParseRequest(s, max).Done? && 0 <= ToInt(ParseRequest(s, max).pos) <= |s|
              && (r.message.value.body.Inside? ==>
                    ToInt(ParseRequest(s, max).pos) + |r.message.value.body.bytes| <= |s|)
  {
    hide ParseRequest, CodeBody, HeadersWithin;
    RequestSpans(s, max);
    if ParseRequest(s, max).Done? && ToInt(ParseRequest(s, max).pos) >= 0 {
      BodyStaysInside(s, ToInt(ParseRequest(s, max).pos), ParseRequest(s, max).value);
    }
  }

  /** A chunked request that is complete ends below 2^31 bytes. */
  predicate Short(s: seq<Byte>, max: nat) {
    RequestSpans(s, max);
    var r := ParseRequest(s, max);
    r.Done? && ToInt(r.pos) >= 0 && IsChunked(s, r.value) ==>
      ToInt(r.pos) + H.Extent(s[ToInt(r.pos)..], H.Wrapping) <= INT_MAX
  }

  lemma LengthWritesNothing(s: seq<Byte>, n: nat, size: nat)
    requires n + size <= |s|
    ensures Rewritten(s, n, Inside(s[n..n + size])) == s
  {
    assert s == s[..n] + s[n..n + size] + s[n + size..];
  }

  lemma RestIsKept(s: seq<Byte>, n: nat, b: seq<Byte>, end: nat)
    requires n + |b| <= end <= |s|
    ensures Rewritten(s, n, Inside(b))[end..] == s[end..]
  {
  }

  lemma BodyWritesInside(s: seq<Byte>, n: nat, head: Request)
    requires n <= |s| < HALF_WORD && Within(head.verb, |s|) && HeadersWithin(head.headers, |s|)
    requires Text(s, head.verb) != GET
    requires IsChunked(s, head) ==> n + H.Extent(s[n..], H.Wrapping) <= INT_MAX
    ensures var r := CodeBody(s, n, head);
            r.Returned? && r.message.Some? && r.ret >= 0 ==>
              && r.ret <= |s|
              && (r.message.value.body.Inside? ==> n + |r.message.value.body.bytes| <= |s|)
              && Rewritten(s, n, r.message.value.body)[r.ret..] == s[r.ret..]
  {
    hide H.Dechunk, H.Extent, StrToUll, Lookup, EqualCase;
    var r := CodeBody(s, n, head);
    if r.Returned? && r.message.Some? && r.message.value.body.Inside? {
      if IsChunked(s, head) {
        H.ExtentIs(s[n..], H.Wrapping);
        if r.ret >= 0 {
          RestIsKept(s, n, r.message.value.body.bytes, r.ret);
        }
      } else {
        LengthWritesNothing(s, n, DeclaredLength(s, head));
      }
    }
  }

  /** A request that the code has found ends inside the input, and nothing behind its end is written. */
  lemma CodeReadInside(s: seq<Byte>, max: nat)
    requires |s| < HALF_WORD && Short(s, max)
    ensures var r := CodeRead(s, max);
            r.Returned? && r.message.Some? && r.ret >= 0 ==>
              && ParseRequest(s, max).Done? && 0 <= ToInt(ParseRequest(s, max).pos) && r.ret <= |s|
              && var n := ToInt(ParseRequest(s, max).pos);
                 && (r.message.value.body.Inside? ==> n + |r.message.value.body.bytes| <= |s|)
                 && Rewritten(s, n, r.message.value.body)[r.ret..] == s[r.ret..]
  {
    hide ParseRequest, CodeBody, HeadersWithin, H.Extent, IsChunked;
    RequestSpans(s, max);
    if ParseRequest(s, max).Done? && ToInt(ParseRequest(s, max).pos) >= 0 {
      var n, head := ToInt(ParseRequest(s, max).pos), ParseRequest(s, max).value;
      if Text(s, head.verb) != GET {
        BodyWritesInside(s, n, head);
      }
    }
  }

  /**
   Reads one request at the start of the buffer. Only a chunked body is rewritten, and only if it
   is complete; an overrun ends the model.
   */
  method HttpReadRequest(buf: array<Byte>, len: nat, headers: array<Header>) returns (r: Reply)
    requires H.Sentinel(buf, len)
    modifies buf, headers
    ensures r == CodeRead(old(buf[..len]), headers.Length)
    ensures r.Returned? && r.message.None? ==> buf[..] == old(buf[..])
    ensures r.Returned? && r.message.Some? ==>
              && ParseRequest(old(buf[..len]), headers.Length).Done?
              && var n := ToInt(ParseRequest(old(buf[..len]), headers.Length).pos);
                 && 0 <= n <= len && (r.message.value.body.Inside? ==> n + |r.message.value.body.bytes| <= len)
                 && buf[..] == Rewritten(old(buf[..]), n, r.message.value.body)
  {
    hide ParseRequest, Lookup, StrToUll, H.Dechunk, CodeBody, EqualCase;
    ghost var s := buf[..len];
    RequestSpans(s, headers.Length);
    SentinelTerminates(buf, len);
    var parsed := PhrParseRequest(buf, len, headers, 0);
    match parsed
    case Partial => return MORE;
    case Invalid => return ERROR;
    case Done(pos, head) =>
      var n := ToInt(pos);
      if n < 0 {
        return Returned(n, None);
      }
      if buf[..len][head.verb.start..head.verb.start + head.verb.len] == GET {
        return Returned(n, Some(Message(head, NoBody)));
      }
      r := ReadBody(buf, len, n, head);
  }

  lemma SentinelTerminates(buf: array<Byte>, len: nat)
    requires H.Sentinel(buf, len)
    ensures Terminated(buf, len)
  {
  }

  method ReadBody(buf: array<Byte>, len: nat, n: nat, head: Request) returns (r: Reply)
    requires n <= len && H.Sentinel(buf, len) && HeadersWithin(head.headers, len)
    modifies buf
    ensures r == CodeBody(old(buf[..len]), n, head)
    ensures r.Returned? && r.message.None? ==> buf[..] == old(buf[..])
    ensures r.Returned? && r.message.Some? ==>
              && (r.message.value.body.Inside? ==> n + |r.message.value.body.bytes| <= len)
              && buf[..] == Rewritten(old(buf[..]), n, r.message.value.body)
  {
    hide Lookup, StrToUll, H.Dechunk, EqualCase, LengthReply, ChunkedReply, Rewritten, NoNumberByte;
    ghost var s := buf[..len];
    var encoding := FieldLookup(buf[..len], head.headers, TransferEncoding());
    var length := FieldLookup(buf[..len], head.headers, ContentLength());
    LookupWithin(s, head.headers, TransferEncoding());
    LookupWithin(s, head.headers, ContentLength());
    if length.len > 0 {
      if encoding.len > 0 {
        return ERROR;
      }
      var size := DeclaredAt(buf, len, length.start);
      r := ReadLength(buf, len, n, head, size);
      return;
    }
    if encoding.len > 0 {
      if !EqualCase(buf[..len][encoding.start..encoding.start + encoding.len], Chunked()) {
        return ERROR;
      }
      assert buf[n..len] == s[n..];
      r := ReadChunked(buf, len, n, head);
      return;
    }
    r := ERROR;
  }

  /** http.c:155: strtoull is handed all of the buffer from the field value on. */
  method DeclaredAt(buf: array<Byte>, len: nat, start: nat) returns (size: Word)
    requires start <= len && H.Sentinel(buf, len)
    ensures size == StrToUll(buf[..len][start..], 10)
  {
    hide StrToUll, NoNumberByte;
    assert buf[start..] == buf[..len][start..] + buf[len..];
    NumberStopsAt(buf[..len][start..], buf[len..], 10);
    size := StrToUll(buf[start..], 10);
  }

  /** http.c:167-170 */
  method ReadChunked(buf: array<Byte>, len: nat, n: nat, head: Request) returns (r: Reply)
    requires n <= len && H.Sentinel(buf, len)
    modifies buf
    ensures r == ChunkedReply(H.Dechunk(old(buf[n..len]), H.Wrapping), n, head)
    ensures r.Returned? && r.message.None? ==> buf[..] == old(buf[..])
    ensures r.Returned? && r.message.Some? ==>
              && r.message.value.body.Inside? && n + |r.message.value.body.bytes| <= len
              && buf[..] == Rewritten(old(buf[..]), n, r.message.value.body)
  {
    hide H.Dechunk;
    var k, size, overrun := H.HttpDechunk(buf, n, len, H.Wrapping);
    if overrun {
      return Overrun;
    }
    if k == 0 {
      return MORE;
    }
    assert buf[..] == buf[..n] + buf[n..n + size] + buf[n + size..];
    r := Returned(ToInt((n + k) % WORD_SIZE), Some(Message(head, Inside(buf[n..n + size]))));
  }

  /** http.c:156-159 */
  method ReadLength(buf: array<Byte>, len: nat, n: nat, head: Request, size: Word) returns (r: Reply)
    requires n <= len <= buf.Length
    ensures r == LengthReply(buf[..len], n, size, head)
    ensures r.Returned? && r.message.Some? ==>
              && (r.message.value.body.Inside? ==> n + |r.message.value.body.bytes| <= len)
              && buf[..] == Rewritten(buf[..], n, r.message.value.body)
  {
    var total := (n + size) % WORD_SIZE;
    if len < total {
      return MORE;
    }
    if n + size >= WORD_SIZE {
      return Returned(ToInt(total), Some(Message(head, Outside(size))));
    }
    assert buf[n..n + size] == buf[..len][n..n + size];
    assert buf[..] == buf[..n] + buf[n..n + size] + buf[n + size..];
    r := Returned(ToInt(total), Some(Message(head, Inside(buf[n..n + size]))));
  }
}
