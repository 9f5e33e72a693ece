/**
 Requests as a client writes them: a request line, fields whose names stand in any mix of cases, and
 a body of a declared length or in written chunks. The reader gives back what was written, or
 refuses the request, as section 6.3 of RFC 9112 has it.
 */
module WrittenRequests {
  import opened Bytes
  import opened Alphabet
  import opened Words
  import opened Numbers
  import opened NumberText
  import opened Decimal
  import opened HttpSyntax
  import opened HttpGrammar
  import opened HttpRequests
  import opened HttpReader
  import opened HttpWriter
  import opened RoundTrip
  import opened ChunkText
  import opened Options
  import H = Dechunk

  // ---------------------------------------------------------------- the head

  const VERSION: seq<Byte> := [72, 84, 84, 80, 47, 49, 46, 49]

  /** A method or target: not empty, no space, no control character. */
  predicate Visible(text: seq<Byte>) {
    text != [] && forall i :: 0 <= i < |text| ==> IsVisible(text[i])
  }

  function RequestText(verb: seq<Byte>, path: seq<Byte>, fields: seq<Field>): seq<Byte> {
    verb + ([SP] + (path + ([SP] + (VERSION + (CRLF + (FieldsText(fields) + CRLF))))))
  }

  lemma VisibleAt(s: seq<Byte>, i: nat, text: seq<Byte>)
    requires Visible(text) && At(s, i, text) && i + |text| < |s| && s[i + |text|] == SP
    ensures Token(s, i, i) == Done(i + |text|, Span(i, |text|)) && s[i] > SP
  {
    hide IsVisible;
    Characters();
    assert forall k :: i <= k < i + |text| ==> s[k] == s[i..i + |text|][k - i];
    TokenIff(s, i, i, i + |text|);
  }

  lemma SpaceAt(s: seq<Byte>, i: nat)
    requires At(s, i, [SP])
    ensures i < |s| && s[i] == SP
    ensures i + 1 < |s| && s[i + 1] != SP ==> SkipSp(s, i + 1) == i + 1
  {
    assert s[i] == s[i..i + 1][0];
  }

  lemma VersionIsAt(s: seq<Byte>, i: nat)
    requires At(s, i, VERSION) && At(s, i + 8, CRLF)
    ensures HttpVersion(s, i) == Done(i + 8, 1) && LineEnd(s, i + 8) == Done(i + 10, ()) && s[i] != SP
  {
    assert s[i..i + 7] == s[i..i + 8][..7] && s[i + 7] == s[i..i + 8][7] && s[i] == s[i..i + 8][0];
    assert s[i + 8] == s[i + 8..i + 10][0] && s[i + 9] == s[i + 8..i + 10][1];
  }

  lemma TargetAt(s: seq<Byte>, verb: seq<Byte>, path: seq<Byte>)
    requires Visible(verb) && Visible(path) && At(s, 0, verb) && At(s, |verb|, [SP]) && At(s, |verb| + 1, path)
    requires var i := |verb| + 1 + |path|; At(s, i, [SP]) && i + 1 < |s| && s[i + 1] != SP
    ensures Start(s) == Done(0, ())
    ensures Target(s, 0) == Done(|verb| + 1 + |path| + 1, (Span(0, |verb|), Span(|verb| + 1, |path|)))
  {
    hide Token, SkipSp;
    SpaceAt(s, |verb|);
    SpaceAt(s, |verb| + 1 + |path|);
    VisibleAt(s, 0, verb);
    VisibleAt(s, |verb| + 1, path);
    SpaceAt(s, |verb|);
  }

  /** Where the parts of a written request head stand. */
  lemma Layout(s: seq<Byte>, verb: seq<Byte>, path: seq<Byte>, fields: seq<Field>)
    requires At(s, 0, RequestText(verb, path, fields))
    ensures var i := |verb| + 1 + |path|;
            && At(s, 0, verb) && At(s, |verb|, [SP]) && At(s, |verb| + 1, path) && At(s, i, [SP])
            && At(s, i + 1, VERSION) && At(s, i + 9, CRLF) && At(s, i + 11, FieldsText(fields) + CRLF)
            && i + 11 + |FieldsText(fields)| + 2 == |RequestText(verb, path, fields)|
  {
    hide FieldsText, At;
    var block := FieldsText(fields) + CRLF;
    var i := |verb| + 1 + |path|;
    AtParts(s, 0, verb, [SP] + (path + ([SP] + (VERSION + (CRLF + block)))));
    AtParts(s, |verb|, [SP], path + ([SP] + (VERSION + (CRLF + block))));
    AtParts(s, |verb| + 1, path, [SP] + (VERSION + (CRLF + block)));
    AtParts(s, i, [SP], VERSION + (CRLF + block));
    AtParts(s, i + 1, VERSION, CRLF + block);
    AtParts(s, i + 9, CRLF, block);
  }

  /** A written request head is read back: method, target, fields in order, and its length. */
  lemma RequestHeadAt(s: seq<Byte>, verb: seq<Byte>, path: seq<Byte>, fields: seq<Field>, max: nat)
    requires Visible(verb) && Visible(path) && FieldsOk(fields) && |fields| <= max
             && At(s, 0, RequestText(verb, path, fields))
    ensures var r := ParseRequest(s, max);
            && r.Done? && r.pos == |RequestText(verb, path, fields)| <= |s|
            && r.value.verb == Span(0, |verb|) && r.value.path == Span(|verb| + 1, |path|)
            && s[..|verb|] == verb && s[|verb| + 1..|verb| + 1 + |path|] == path
            && |r.value.headers| == |fields|
            && forall k :: 0 <= k < |fields| ==> Reads(s, r.value.headers[k], fields[k])
  {
    hide FieldsText, Target, HttpVersion, LineEnd, Start, Headers, Reads, FieldsOk, Visible, RequestText;
    Layout(s, verb, path, fields);
    var i := |verb| + 1 + |path|;
    VersionIsAt(s, i + 1);
    TargetAt(s, verb, path);
    FieldsAt(s, i + 11, fields, [], max);
  }

  lemma TooManyFields(s: seq<Byte>, verb: seq<Byte>, path: seq<Byte>, fields: seq<Field>, max: nat)
    requires Visible(verb) && Visible(path) && FieldsOk(fields) && |fields| > max
             && At(s, 0, RequestText(verb, path, fields))
    ensures ParseRequest(s, max).Invalid?
  {
    hide FieldsText, Target, HttpVersion, LineEnd, Start, Headers, FieldsOk, Visible, RequestText;
    Layout(s, verb, path, fields);
    var i := |verb| + 1 + |path|;
    VersionIsAt(s, i + 1);
    TargetAt(s, verb, path);
    TooManyAt(s, i + 11, fields, [], max);
  }

  /** The head, as it goes over the line. */
  lemma RequestIsText(verb: seq<Byte>, path: seq<Byte>, fields: seq<Field>)
    ensures RequestText(verb, path, fields) ==
            verb + (Ascii(" ") + (path + (Ascii(" HTTP/1.1") + (Ascii("\r\n") + (FieldsText(fields) + Ascii("\r\n"))))))
    ensures forall f :: FieldText(f) == f.name + Ascii(": ") + f.value + Ascii("\r\n")
  {
    hide FieldsText;
    NamedCharacters();
    assert [SP] + VERSION == Ascii(" HTTP/1.1");
    var block := CRLF + (FieldsText(fields) + CRLF);
    assert [SP] + (VERSION + block) == ([SP] + VERSION) + block;
  }

  // ---------------------------------------------------------------- fields by name

  /** data_equal_case holds exactly of texts that differ in the case of letters at most. */
  lemma EqualCaseIff(a: seq<Byte>, b: seq<Byte>)
    ensures EqualCase(a, b) <==> SameText(a, b)
  {
    hide SameLetter;
    forall i | 0 <= i < |a| == |b|
      ensures Lower(a[i]) == Lower(b[i]) <==> SameLetter(a[i], b[i])
    {
      SameLetterRange(a[i], b[i]);
    }
  }

  lemma SameTextTwice(a: seq<Byte>, b: seq<Byte>, c: seq<Byte>)
    requires SameText(b, c)
    ensures SameText(a, b) <==> SameText(a, c)
  {
    hide SameLetter;
    forall i | 0 <= i < |a| == |b|
      ensures SameLetter(a[i], b[i]) <==> SameLetter(a[i], c[i])
    {
      SameLetterRange(a[i], b[i]);
      SameLetterRange(a[i], c[i]);
      SameLetterRange(b[i], c[i]);
    }
  }

  function LengthName(): seq<Byte> {
    Ascii("content-length")
  }

  function CodingName(): seq<Byte> {
    Ascii("transfer-encoding")
  }

  function ChunkedName(): seq<Byte> {
    Ascii("chunked")
  }

  /** The words as the code writes them. */
  lemma WordsOfTheCode()
    ensures SameText(LengthName(), ContentLength()) && SameText(CodingName(), TransferEncoding())
    ensures SameText(ChunkedName(), Chunked()) && Ascii("GET") == GET
  {
    hide SameLetter;
    forall i | 0 <= i < |LengthName()| ensures SameLetter(LengthName()[i], ContentLength()[i]) {
      SameLetterRange(LengthName()[i], ContentLength()[i]);
    }
    forall i | 0 <= i < |CodingName()| ensures SameLetter(CodingName()[i], TransferEncoding()[i]) {
      SameLetterRange(CodingName()[i], TransferEncoding()[i]);
    }
    forall i | 0 <= i < |ChunkedName()| ensures SameLetter(ChunkedName()[i], Chunked()[i]) {
      SameLetterRange(ChunkedName()[i], Chunked()[i]);
    }
  }

  /** The value of the first field with that name in any case, or nothing. */
  function FirstNamed(fields: seq<Field>, name: seq<Byte>): (v: seq<Byte>) {
    if fields == [] then []
    else if SameText(fields[0].name, name) then fields[0].value
    else FirstNamed(fields[1..], name)
  }

  /** http_field_lookup finds it, in whatever case the two names are written. */
  lemma {:induction false} LookupReads(
      s: seq<Byte>, headers: seq<Header>, fields: seq<Field>, name: seq<Byte>, asked: seq<Byte>)
    requires HeadersWithin(headers, |s|) && |headers| == |fields| && SameText(name, asked)
    requires forall k :: 0 <= k < |fields| ==> Reads(s, headers[k], fields[k])
    ensures var v := Lookup(s, headers, asked); Within(v, |s|) && Text(s, v) == FirstNamed(fields, name)
    decreases |headers|
  {
    hide SameText, EqualCase;
    if headers != [] {
      assert HeaderWithin(headers[0], |s|) && Reads(s, headers[0], fields[0]);
      SameTextTwice(fields[0].name, name, asked);
      EqualCaseIff(fields[0].name, asked);
      LookupReads(s, headers[1..], fields[1..], name, asked);
    }
  }

  // ---------------------------------------------------------------- whole requests

  /** What can be written as a head. */
  predicate HeadOk(verb: seq<Byte>, path: seq<Byte>, fields: seq<Field>, max: nat) {
    && Visible(verb) && Visible(path) && FieldsOk(fields)
    && |fields| <= max && |RequestText(verb, path, fields)| <= INT_MAX
  }

  lemma HeadIsRead(verb: seq<Byte>, path: seq<Byte>, fields: seq<Field>, rest: seq<Byte>, max: nat)
    returns (s: seq<Byte>, n: nat, head: Request)
    requires HeadOk(verb, path, fields, max)
    ensures s == RequestText(verb, path, fields) + rest && n == |RequestText(verb, path, fields)| && s[n..] == rest
    ensures ParseRequest(s, max) == Done(n, head) && HeadersWithin(head.headers, |s|) && AllDelimited(s, head.headers)
    ensures Within(head.verb, |s|) && Text(s, head.verb) == verb
    ensures var v := Lookup(s, head.headers, TransferEncoding());
            Within(v, |s|) && Text(s, v) == FirstNamed(fields, CodingName())
    ensures var v := Lookup(s, head.headers, ContentLength());
            Within(v, |s|) && Text(s, v) == FirstNamed(fields, LengthName())
  {
    hide ParseRequest, RequestText, HeadersWithin, AllDelimited, Visible, FieldsOk, Reads, FirstNamed, Lookup,
         SameText, LengthName, CodingName, ChunkedName;
    s, n := RequestText(verb, path, fields) + rest, |RequestText(verb, path, fields)|;
    assert s[0..n] == RequestText(verb, path, fields);
    RequestHeadAt(s, verb, path, fields, max);
    RequestSpans(s, max);
    head := ParseRequest(s, max).value;
    WordsOfTheCode();
    LookupReads(s, head.headers, fields, CodingName(), TransferEncoding());
    LookupReads(s, head.headers, fields, LengthName(), ContentLength());
  }

  /**
   A GET is read up to the end of its head. Anything else is refused if it has both framings or
   none, or a transfer coding other than chunked, in whatever case these words are written.
   */
  lemma FramingIsRead(verb: seq<Byte>, path: seq<Byte>, fields: seq<Field>, rest: seq<Byte>, max: nat)
    requires HeadOk(verb, path, fields, max)
    ensures var s, n := RequestText(verb, path, fields) + rest, |RequestText(verb, path, fields)|;
            var length, coding := FirstNamed(fields, LengthName()), FirstNamed(fields, CodingName());
            && ParseRequest(s, max).Done?
            && (verb == Ascii("GET") ==>
                  CodeRead(s, max) == Returned(n, Some(Message(ParseRequest(s, max).value, NoBody))))
            && (verb != Ascii("GET") && (length == [] <==> coding == []) ==> CodeRead(s, max) == ERROR)
            && (verb != Ascii("GET") && length == [] && coding != [] && !SameText(coding, ChunkedName()) ==>
                  CodeRead(s, max) == ERROR)
  {
    hide ParseRequest, RequestText, HeadersWithin, AllDelimited, HeadOk, FirstNamed, Lookup, SameText, Text, CodeBody,
         CodeRead, ToInt, Ascii, LengthName, CodingName, ChunkedName;
    var s, n, head := HeadIsRead(verb, path, fields, rest, max);
    HeadFits(verb, path, fields, max);
    WordsOfTheCode();
    CodeReadStep(s, max, n, head);
    WrongFraming(s, n, head);
  }

  lemma CodeReadStep(s: seq<Byte>, max: nat, n: nat, head: Request)
    requires ParseRequest(s, max) == Done(n, head) && n <= INT_MAX
    ensures n <= |s| && Within(head.verb, |s|) && HeadersWithin(head.headers, |s|)
    ensures CodeRead(s, max) ==
            if Text(s, head.verb) == GET then Returned(n, Some(Message(head, NoBody))) else CodeBody(s, n, head)
  {
    hide ParseRequest, HeadersWithin, CodeBody;
    RequestSpans(s, max);
  }

  lemma WrongFraming(s: seq<Byte>, n: nat, head: Request)
    requires n <= |s| && HeadersWithin(head.headers, |s|)
    requires Within(Lookup(s, head.headers, ContentLength()), |s|)
    requires Within(Lookup(s, head.headers, TransferEncoding()), |s|)
    ensures var length := Text(s, Lookup(s, head.headers, ContentLength()));
            var coding := Text(s, Lookup(s, head.headers, TransferEncoding()));
            && ((length == [] <==> coding == []) ==> CodeBody(s, n, head) == ERROR)
            && (length == [] && coding != [] && !SameText(coding, ChunkedName()) ==> CodeBody(s, n, head) == ERROR)
  {
    hide HeadersWithin, Lookup, SameText, EqualCase, Text, Ascii, LengthName, CodingName, ChunkedName, ContentLength,
         TransferEncoding, Chunked, Named, LengthReply, ChunkedReply;
    var coding := Lookup(s, head.headers, TransferEncoding());
    NoText(s, coding);
    NoText(s, Lookup(s, head.headers, ContentLength()));
    EqualCaseIff(Text(s, coding), Chunked());
    WordsOfTheCode();
    SameTextTwice(Text(s, coding), ChunkedName(), Chunked());
  }

  lemma HeadFits(verb: seq<Byte>, path: seq<Byte>, fields: seq<Field>, max: nat)
    requires HeadOk(verb, path, fields, max)
    ensures |RequestText(verb, path, fields)| <= INT_MAX
  {
  }

  /** The length in the field is read to its end. */
  lemma LengthAt(s: seq<Byte>, headers: seq<Header>, size: Word)
    requires HeadersWithin(headers, |s|) && AllDelimited(s, headers)
    requires var v := Lookup(s, headers, ContentLength()); Within(v, |s|) && Writes(Text(s, v), size, 10)
    ensures var v := Lookup(s, headers, ContentLength()); v.len > 0 && StrToUll(s[v.start..], 10) == size
  {
    hide Writes, StrToUll, IsSpace, Lookup, Ascii, EqualCase;
    var v := Lookup(s, headers, ContentLength());
    WritesStep(Text(s, v), size, 10);
    var h :| h in headers && HeaderWithin(h, |s|) && h.value == v && Named(s, h, ContentLength());
    assert h.name.Some? by { assert |ContentLength()| == 14; }
    assert Delimited(s, h);
    NumberAt(s, v, size);
  }

  lemma NumberAt(s: seq<Byte>, v: Span, size: Word)
    requires v.start + v.len < |s| && IsSpace(s[v.start + v.len]) && Writes(Text(s, v), size, 10)
    ensures StrToUll(s[v.start..], 10) == size
  {
    hide Writes, StrToUll, IsSpace, Follows;
    var d, t := Text(s, v), s[v.start + v.len..];
    assert s[v.start..] == d + t;
    SpaceFollows(t);
    WrittenNumber([], [], [], d, t, size, 10);
    assert [] + ([] + ([] + (d + t))) == d + t;
  }

  lemma SpaceFollows(t: seq<Byte>)
    requires t != [] && IsSpace(t[0])
    ensures Follows(t, 10)
  {
    DigitIff(t[0], 10);
    SpecialCharacters();
  }

  /** A body of the declared length is what follows the head, as soon as all of it is there. */
  lemma LengthIsRead(verb: seq<Byte>, path: seq<Byte>, fields: seq<Field>, rest: seq<Byte>, max: nat, size: nat)
    requires HeadOk(verb, path, fields, max) && verb != Ascii("GET") && FirstNamed(fields, CodingName()) == []
    requires Writes(FirstNamed(fields, LengthName()), size, 10)
    requires |RequestText(verb, path, fields)| + size < WORD_SIZE
    ensures var s, n := RequestText(verb, path, fields) + rest, |RequestText(verb, path, fields)|;
            && ParseRequest(s, max).Done?
            && CodeRead(s, max) ==
               if |rest| < size then MORE
               else Returned(ToInt(n + size), Some(Message(ParseRequest(s, max).value, Inside(rest[..size]))))
  {
    hide ParseRequest, RequestText, HeadersWithin, AllDelimited, HeadOk, FirstNamed, Lookup, Writes, Text, CodeRead,
         CodeBody, ToInt, LengthName, CodingName;
    var s, n, head := HeadIsRead(verb, path, fields, rest, max);
    HeadFits(verb, path, fields, max);
    WordsOfTheCode();
    CodeReadStep(s, max, n, head);
    LengthBody(s, n, head, size);
    if size <= |rest| {
      assert s[n..n + size] == rest[..size];
    }
  }

  lemma LengthBody(s: seq<Byte>, n: nat, head: Request, size: Word)
    requires n <= |s| && HeadersWithin(head.headers, |s|) && AllDelimited(s, head.headers)
    requires var v := Lookup(s, head.headers, ContentLength()); Within(v, |s|) && Writes(Text(s, v), size, 10)
    requires var v := Lookup(s, head.headers, TransferEncoding()); Within(v, |s|) && Text(s, v) == []
    ensures CodeBody(s, n, head) == LengthReply(s, n, size, head)
  {
    hide HeadersWithin, AllDelimited, Lookup, Writes, Text, StrToUll, LengthReply, ChunkedReply, ContentLength,
         TransferEncoding;
    LengthAt(s, head.headers, size);
    NoText(s, Lookup(s, head.headers, TransferEncoding()));
  }

  lemma NoText(s: seq<Byte>, v: Span)
    requires Within(v, |s|)
    ensures |Text(s, v)| == v.len
  {
  }

  /** A body written in chunks is given back as the data joined, whatever follows it. */
  lemma ChunkedIsRead(verb: seq<Byte>, path: seq<Byte>, fields: seq<Field>, max: nat,
                      data: seq<seq<Byte>>, sizes: seq<seq<Byte>>, zero: seq<Byte>, more: seq<Byte>)
    requires HeadOk(verb, path, fields, max) && verb != Ascii("GET") && FirstNamed(fields, LengthName()) == []
    requires SameText(FirstNamed(fields, CodingName()), ChunkedName()) && Written(data, sizes, zero)
    requires |RequestText(verb, path, fields) + (BodyText(data, sizes, zero) + more)| < HALF_WORD
    ensures var s := RequestText(verb, path, fields) + (BodyText(data, sizes, zero) + more);
            var n := |RequestText(verb, path, fields)| + |BodyText(data, sizes, zero)|;
            && ParseRequest(s, max).Done?
            && CodeRead(s, max) == Returned(ToInt(n), Some(Message(ParseRequest(s, max).value, Inside(Flatten(data)))))
  {
    hide ParseRequest, RequestText, HeadersWithin, AllDelimited, HeadOk, FirstNamed, Lookup, H.Dechunk, CodeRead,
         CodeBody, ToInt, SameText, Text, BodyText, Written, LengthName, CodingName, ChunkedName, ChunkedReply, Flatten;
    WrittenShape(data, sizes, zero);
    var s, n, head := HeadIsRead(verb, path, fields, BodyText(data, sizes, zero) + more, max);
    HeadFits(verb, path, fields, max);
    WordsOfTheCode();
    CodeReadStep(s, max, n, head);
    ChunkedBody(s, n, head);
    WrittenBodyIsRead(data, sizes, zero, more);
    NoWrap(|BodyText(data, sizes, zero)|, Flatten(data), n, head);
  }

  lemma NoWrap(k: nat, body: seq<Byte>, n: nat, head: Request)
    requires n + k < WORD_SIZE
    ensures ChunkedReply(H.Complete(k, body), n, head) == Returned(ToInt(n + k), Some(Message(head, Inside(body))))
  {
  }

  lemma ChunkedBody(s: seq<Byte>, n: nat, head: Request)
    requires n <= |s| && HeadersWithin(head.headers, |s|)
    requires var v := Lookup(s, head.headers, ContentLength()); Within(v, |s|) && Text(s, v) == []
    requires var v := Lookup(s, head.headers, TransferEncoding()); Within(v, |s|) && SameText(Text(s, v), ChunkedName())
    ensures CodeBody(s, n, head) == ChunkedReply(H.Dechunk(s[n..], H.Wrapping), n, head)
  {
    hide HeadersWithin, Lookup, Text, SameText, EqualCase, LengthReply, ChunkedReply, H.Dechunk, ContentLength,
         TransferEncoding, ChunkedName, Chunked;
    var coding := Lookup(s, head.headers, TransferEncoding());
    WordsOfTheCode();
    EqualCaseIff(Text(s, coding), Chunked());
    SameTextTwice(Text(s, coding), ChunkedName(), Chunked());
    SameSize(Text(s, coding));
    NoText(s, coding);
    NoText(s, Lookup(s, head.headers, ContentLength()));
  }

  lemma WrittenShape(data: seq<seq<Byte>>, sizes: seq<seq<Byte>>, zero: seq<Byte>)
    requires Written(data, sizes, zero)
    ensures |sizes| == |data|
  {
  }

  lemma SameSize(text: seq<Byte>)
    requires SameText(text, ChunkedName())
    ensures |text| == 7
  {
  }
}
