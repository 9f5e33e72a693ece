/**
 Printing and parsing undo each other: header fields written by http_push_field are read back by
 the header parser, and a response written by http_write_response by the response parser.
 */
module RoundTrip {
  import opened Bytes
  import opened Alphabet
  import opened Words
  import opened Decimal
  import opened HttpSyntax
  import opened HttpGrammar
  import opened HttpRequests
  import opened HttpWriter
  import opened Options

  /** Text without blanks around it. */
  predicate ValueOk(v: seq<Byte>) {
    && (forall i :: 0 <= i < |v| ==> IsText(v[i]))
    && (v != [] ==> !In(v[0], " \t") && !In(v[|v| - 1], " \t"))
  }

  /** A field that can be written and read back: a token, and a value. */
  predicate FieldOk(f: Field) {
    f.name != [] && (forall i :: 0 <= i < |f.name| ==> IsTokenChar(f.name[i])) && ValueOk(f.value)
  }

  predicate FieldsOk(fields: seq<Field>) {
    forall i :: 0 <= i < |fields| ==> FieldOk(fields[i])
  }

  /** The header's name and value are the field's. */
  predicate Reads(s: seq<Byte>, h: Header, f: Field) {
    && h.name.Some? && Within(h.name.value, |s|) && Within(h.value, |s|)
    && Text(s, h.name.value) == f.name && Text(s, h.value) == f.value
  }

  /** `text` stands at position i. */
  predicate At(s: seq<Byte>, i: nat, text: seq<Byte>) {
    i + |text| <= |s| && s[i..i + |text|] == text
  }

  lemma AtParts(s: seq<Byte>, i: nat, a: seq<Byte>, b: seq<Byte>)
    requires At(s, i, a + b)
    ensures At(s, i, a) && At(s, i + |a|, b)
  {
    assert s[i..i + |a|] == (a + b)[..|a|];
    assert s[i + |a|..i + |a| + |b|] == (a + b)[|a|..];
  }

  /** A value at position i with its line end is read in full. */
  lemma ValueTextAt(s: seq<Byte>, i: nat, v: seq<Byte>)
    requires At(s, i, v) && At(s, i + |v|, CRLF)
    requires forall k :: 0 <= k < |v| ==> !EndsValue(v[k])
    requires v != [] ==> !Blank(v[|v| - 1])
    ensures Value(s, i) == Done(i + |v| + 2, Span(i, |v|))
  {
    var e := i + |v|;
    assert s[e] == s[e..e + 2][0] == CR && s[e + 1] == s[e..e + 2][1] == LF;
    assert forall k :: i <= k < e ==> s[k] == v[k - i];
    FindEndIs(s, i, e);
    assert v != [] ==> s[e - 1] == v[|v| - 1];
  }

  /** Where the parts of a written field stand. */
  lemma FieldParts(s: seq<Byte>, i: nat, f: Field)
    requires At(s, i, FieldText(f))
    ensures var c := i + |f.name|; var v := c + 2;
            At(s, i, f.name) && At(s, c, SEPARATOR) && At(s, v, f.value) && At(s, v + |f.value|, CRLF)
    ensures |FieldText(f)| == |f.name| + |f.value| + 4
  {
    AtParts(s, i, f.name + SEPARATOR + f.value, CRLF);
    AtParts(s, i, f.name + SEPARATOR, f.value);
    AtParts(s, i, f.name, SEPARATOR);
  }

  lemma FieldAt(s: seq<Byte>, i: nat, f: Field, first: bool)
    requires FieldOk(f) && At(s, i, FieldText(f))
    ensures i < |s| && HeaderLine(s, i, first).Done?
    ensures HeaderLine(s, i, first).pos == i + |FieldText(f)| && Reads(s, HeaderLine(s, i, first).value, f)
    ensures s[i] != CR && s[i] != LF
  {
    hide Name, Value, SkipBlanks, FieldText, TokenChar, At, Reads, FieldOk;
    FieldTrimmed(f);
    FieldParts(s, i, f);
    FieldNameAt(s, i, f);
    ValueTextAt(s, i + |f.name| + 2, f.value);
    SeparatorSkipped(s, i + |f.name|, f.value);
    ReadsAt(s, i, i + |f.name| + 2, f);
  }

  lemma FieldTrimmed(f: Field)
    requires FieldOk(f)
    ensures f.name != [] && (forall k :: 0 <= k < |f.name| ==> TokenChar(f.name[k]) && f.name[k] != COLON)
    ensures (forall k :: 0 <= k < |f.value| ==> !EndsValue(f.value[k]))
    ensures f.value != [] ==> !Blank(f.value[0]) && !Blank(f.value[|f.value| - 1])
  {
    hide IsTokenChar, IsText, In, EndsValue, TokenChar;
    Characters();
    ColonIsNoToken(f.name);
  }

  lemma ReadsAt(s: seq<Byte>, i: nat, v: nat, f: Field)
    requires At(s, i, f.name) && At(s, v, f.value)
    ensures Reads(s, Header(Some(Span(i, |f.name|)), Span(v, |f.value|)), f)
  {
  }

  lemma FieldNameAt(s: seq<Byte>, i: nat, f: Field)
    requires FieldOk(f) && At(s, i, f.name) && At(s, i + |f.name|, SEPARATOR)
    ensures Name(s, i, i) == Done(i + |f.name|, Span(i, |f.name|))
    ensures i + |f.name| + 2 <= |s| && s[i + |f.name| + 1] == SP && !Blank(s[i]) && s[i] != CR && s[i] != LF
  {
    hide FieldOk, TokenChar;
    FieldTrimmed(f);
    var c := i + |f.name|;
    assert s[c] == s[c..c + 2][0] == COLON && s[c + 1] == s[c..c + 2][1] == SP;
    assert forall k :: i <= k < c ==> s[k] == s[i..c][k - i] == f.name[k - i];
    NameIff(s, i, i, c);
    TokenStart(s[i]);
  }

  lemma TokenStart(b: Byte)
    ensures TokenChar(b) ==> !Blank(b) && b != CR && b != LF
  {
  }

  lemma SeparatorSkipped(s: seq<Byte>, c: nat, value: seq<Byte>)
    requires c + 2 <= |s| && s[c + 1] == SP && At(s, c + 2, value) && At(s, c + 2 + |value|, CRLF)
    requires value != [] ==> !Blank(value[0])
    ensures SkipBlanks(s, c + 1) == c + 2
  {
    var v := c + 2;
    assert !Blank(s[v]) by {
      if value != [] { assert s[v] == s[v..v + |value|][0]; } else { assert s[v] == s[v..v + 2][0]; }
    }
    assert SkipBlanks(s, v) == v;
  }

  lemma ReadsAll(s: seq<Byte>, headers: seq<Header>, first: Header, all: seq<Header>, fields: seq<Field>)
    requires |fields| > 0 && |all| == |headers| + |fields| && all[..|headers| + 1] == headers + [first]
             && Reads(s, first, fields[0])
    requires forall k :: 0 <= k < |fields[1..]| ==> Reads(s, all[|headers| + 1 + k], fields[1..][k])
    ensures all[..|headers|] == headers && forall k :: 0 <= k < |fields| ==> Reads(s, all[|headers| + k], fields[k])
  {
    hide Reads;
    assert all[..|headers|] == all[..|headers| + 1][..|headers|];
    assert all[|headers|] == all[..|headers| + 1][|headers|];
    forall k | 0 < k < |fields|
      ensures Reads(s, all[|headers| + k], fields[k])
    {
      assert fields[k] == fields[1..][k - 1] && all[|headers| + k] == all[|headers| + 1 + (k - 1)];
    }
  }

  /** Any list of valid fields, written one after the other and closed by an empty line, is read back. */
  lemma {:induction false} FieldsAt(s: seq<Byte>, i: nat, fields: seq<Field>, headers: seq<Header>, max: nat)
    requires FieldsOk(fields) && At(s, i, FieldsText(fields) + CRLF) && |headers| + |fields| <= max
    ensures var r := Headers(s, i, headers, max);
            && r.Done? && r.pos == i + |FieldsText(fields)| + 2
            && |r.value| == |headers| + |fields| && r.value[..|headers|] == headers
            && forall k :: 0 <= k < |fields| ==> Reads(s, r.value[|headers| + k], fields[k])
    decreases |fields|
  {
    hide FieldText, HeaderLine, Reads, FieldOk;
    if fields == [] {
      assert FieldsText(fields) + CRLF == CRLF;
      assert s[i] == s[i..i + 2][0] && s[i + 1] == s[i..i + 2][1];
    } else {
      var f, rest := fields[0], fields[1..];
      assert FieldsText(fields) + CRLF == FieldText(f) + (FieldsText(rest) + CRLF);
      AtParts(s, i, FieldText(f), FieldsText(rest) + CRLF);
      FieldAt(s, i, f, headers == []);
      var line := HeaderLine(s, i, headers == []);
      FieldsAt(s, line.pos, rest, headers + [line.value], max);
      var r := Headers(s, i, headers, max);
      ReadsAll(s, headers, line.value, r.value, fields);
    }
  }

  /** More fields than there are slots for are refused. */
  lemma {:induction false} TooManyAt(s: seq<Byte>, i: nat, fields: seq<Field>, headers: seq<Header>, max: nat)
    requires FieldsOk(fields) && At(s, i, FieldsText(fields) + CRLF) && |headers| <= max < |headers| + |fields|
    ensures i <= |s| && Headers(s, i, headers, max).Invalid?
    decreases |fields|
  {
    hide FieldText, HeaderLine, Reads, FieldOk;
    var f, rest := fields[0], fields[1..];
    assert FieldsText(fields) + CRLF == FieldText(f) + (FieldsText(rest) + CRLF);
    AtParts(s, i, FieldText(f), FieldsText(rest) + CRLF);
    FieldAt(s, i, f, headers == []);
    if |headers| < max {
      var line := HeaderLine(s, i, headers == []);
      TooManyAt(s, line.pos, rest, headers + [line.value], max);
    }
  }

  // ---------------------------------------------------------------- responses

  /** "200 OK": three digits, and a reason phrase that is set off by a space. */
  predicate StatusOk(status: seq<Byte>) {
    && |status| >= 3 && DigitsOnly(status[..3])
    && (forall i :: 0 <= i < |status| ==> IsText(status[i]))
    && (|status| > 3 ==> status[3] == SP)
  }

  /** The number that the three digits denote. */
  function StatusCode(status: seq<Byte>): nat
    requires StatusOk(status)
  {
    Denotes(status[..3])
  }

  /** The reason phrase without the spaces before it. */
  function Reason(status: seq<Byte>): seq<Byte>
    requires StatusOk(status)
  {
    status[SkipSp(status, 3)..]
  }

  lemma {:induction false} SkipSpAt(s: seq<Byte>, i: nat, text: seq<Byte>, k: nat)
    requires At(s, i, text) && k <= |text| && i + |text| < |s| && s[i + |text|] != SP
    ensures SkipSp(s, i + k) == i + SkipSp(text, k)
    decreases |text| - k
  {
    if k < |text| {
      assert s[i + k] == s[i..i + |text|][k];
      SkipSpAt(s, i, text, k + 1);
    }
  }

  lemma VersionTextAt(s: seq<Byte>)
    requires At(s, 0, VersionText())
    ensures HttpVersion(s, 0) == Done(8, 1) && s[8] == SP
  {
    assert s[0..7] == s[0..9][..7] == VersionText()[..7];
    assert s[7] == s[0..9][7] && s[8] == s[0..9][8];
  }

  lemma StatusTextAt(s: seq<Byte>, i: nat, status: seq<Byte>)
    requires StatusOk(status) && At(s, i, status) && i + |status| < |s|
    ensures SkipSp(s, i) == i && Status(s, i) == Done(i + 3, StatusCode(status))
  {
    hide IsText, Denotes;
    assert s[i] == s[i..i + |status|][0] && s[i + 1] == s[i..i + |status|][1] && s[i + 2] == s[i..i + |status|][2];
    assert status[..3] == [s[i], s[i + 1], s[i + 2]];
    assert status[..3][0] == s[i] && status[..3][1] == s[i + 1] && status[..3][2] == s[i + 2];
    ThreeDigits(status[..3]);
  }

  lemma ReasonTextAt(s: seq<Byte>, i: nat, status: seq<Byte>)
    requires StatusOk(status) && At(s, i, status) && At(s, i + |status|, CRLF)
    ensures ReasonPhrase(s, i + 3).Done? && ReasonPhrase(s, i + 3).pos == i + |status| + 2
    ensures var span := ReasonPhrase(s, i + 3).value; Within(span, |s|) && Text(s, span) == Reason(status)
  {
    hide SkipSp, FindEnd, EndsValue, IsText, DigitsOnly;
    var e := i + |status|;
    RestOfLine(s, i, status);
    if |status| > 3 {
      SkipSpAt(s, i, status, 4);
      SkipSpStep(status, 3);
      var start := SkipSp(s, i + 4);
      assert s[start..e] == s[i..e][start - i..];
    } else {
      SkipSpStep(status, 3);
    }
  }

  lemma RestOfLine(s: seq<Byte>, i: nat, status: seq<Byte>)
    requires StatusOk(status) && At(s, i, status) && At(s, i + |status|, CRLF)
    ensures ToEol(s, i + 3) == Done(i + |status| + 2, Span(i + 3, |status| - 3))
    ensures s[i + |status|] != SP && (|status| > 3 ==> s[i + 3] == SP)
  {
    var e := i + |status|;
    hide IsText, EndsValue;
    Characters();
    assert s[e] == s[e..e + 2][0] == CR && s[e + 1] == s[e..e + 2][1] == LF;
    assert EndsValue(CR) by { EndsValueIff(CR); VisibleRange(CR); }
    assert forall k :: i <= k < e ==> s[k] == s[i..e][k - i] == status[k - i];
    FindEndIs(s, i + 3, e);
  }

  lemma SkipSpStep(text: seq<Byte>, i: nat)
    requires i <= |text|
    ensures SkipSp(text, i) == if i < |text| && text[i] == SP then SkipSp(text, i + 1) else i
  {
  }

  lemma StatusLineParts(s: seq<Byte>, status: seq<Byte>)
    requires At(s, 0, VersionText() + status + CRLF)
    ensures At(s, 0, VersionText()) && At(s, 9, status) && At(s, 9 + |status|, CRLF) && |s| >= 11 + |status|
  {
    hide VersionText;
    AtParts(s, 0, VersionText() + status, CRLF);
    AtParts(s, 0, VersionText(), status);
  }

  lemma StatusLineTextAt(s: seq<Byte>, status: seq<Byte>)
    requires StatusOk(status) && At(s, 0, VersionText() + status + CRLF)
    ensures HttpVersion(s, 0) == Done(8, 1) && s[8] == SP && SkipSp(s, 9) == 9
    ensures Status(s, 9) == Done(12, StatusCode(status))
    ensures ReasonPhrase(s, 12).Done? && ReasonPhrase(s, 12).pos == 11 + |status|
    ensures Within(ReasonPhrase(s, 12).value, |s|) && Text(s, ReasonPhrase(s, 12).value) == Reason(status)
  {
    hide HttpVersion, SkipSp, Status, ReasonPhrase, VersionText, StatusOk, StatusCode, Reason, At, Text;
    StatusLineParts(s, status);
    VersionTextAt(s);
    StatusTextAt(s, 9, status);
    ReasonTextAt(s, 9, status);
  }

  lemma {:induction false} DigitsAreOk(n: nat)
    ensures ValueOk(Digits(n))
  {
    hide IsText, In, EndsValue, Blank, Digits;
    Characters();
    DigitsDenote(n);
    DigitBytes(Digits(n));
  }

  lemma DigitBytes(d: seq<Byte>)
    requires DigitsOnly(d)
    ensures forall i :: 0 <= i < |d| ==> !EndsValue(d[i]) && !Blank(d[i])
  {
  }

  lemma NamesAreTokens()
    ensures FieldOk(ServerField())
    ensures forall i :: 0 <= i < 4 ==> IsTokenChar(Ascii("Date")[i])
    ensures forall i :: 0 <= i < 12 ==> IsTokenChar(Ascii("Content-Type")[i])
    ensures forall i :: 0 <= i < 14 ==> IsTokenChar(Ascii("Content-Length")[i])
  {
    hide IsTokenChar, IsText, In;
    Characters();
  }

  lemma ResponseFieldsOk(date: seq<Byte>, kind: seq<Byte>, body: seq<Byte>)
    requires |date| >= 29 && ValueOk(date[..29]) && ValueOk(kind)
    ensures FieldsOk(ResponseFields(date, kind, body))
  {
    hide IsText, IsTokenChar, In, Ascii, Digits, ValueOk;
    NamesAreTokens();
    NameSizes();
    DigitsAreOk(|body| % U32_SIZE);
  }

  lemma NameSizes()
    ensures |Ascii("Date")| == 4 && |Ascii("Content-Type")| == 12 && |Ascii("Content-Length")| == 14
  {
  }

  /**
   Parsing a written response gives back the status code, the reason, the fields in order, and the
   length of everything but the body.
   */
  lemma ResponseRoundTrip(status: seq<Byte>, date: seq<Byte>, kind: seq<Byte>, body: seq<Byte>, max: nat)
    requires StatusOk(status) && |date| >= 29 && ValueOk(date[..29]) && ValueOk(kind)
    requires |ResponseFields(date, kind, body)| <= max
    ensures var s, fields := ResponseText(status, date, kind, body), ResponseFields(date, kind, body);
            var r := ParseResponse(s, max);
            && r.Done? && r.pos == |s| - |body| && s[r.pos..] == body
            && r.value.minorVersion == 1 && r.value.status == StatusCode(status)
            && Within(r.value.message, |s|) && Text(s, r.value.message) == Reason(status)
            && |r.value.headers| == |fields|
            && forall k :: 0 <= k < |fields| ==> Reads(s, r.value.headers[k], fields[k])
  {
    hide HttpVersion, Status, ReasonPhrase, Headers, SkipSp, ResponseFields, FieldsText, VersionText, Reads, FieldsOk,
         StatusOk;
    var s, fields := ResponseText(status, date, kind, body), ResponseFields(date, kind, body);
    var head, block := VersionText() + status + CRLF, FieldsText(fields) + CRLF;
    assert s == head + (block + body);
    assert At(s, 0, head + (block + body));
    AtParts(s, 0, head, block + body);
    AtParts(s, |head|, block, body);
    StatusLineTextAt(s, status);
    ResponseFieldsOk(date, kind, body);
    FieldsAt(s, |head|, fields, [], max);
  }

  /** The Content-Length that is sent is the size of the body exactly if that fits 32 bits. */
  lemma LengthIsBodySizeIff(body: seq<Byte>)
    ensures DigitsOnly(LengthField(body).value)
    ensures Denotes(LengthField(body).value) == |body| <==> |body| < U32_SIZE
  {
    DigitsDenote(|body| % U32_SIZE);
  }
}
