/**
 The heads that the parser accepts, written down as a grammar over literal character classes (the
 request line and status line of RFC 9112, field lines of its section 5): the parser succeeds
 exactly on them, with exactly those spans. It is more liberal than the RFC: one line end may come
 first, a line feed alone ends a line, several spaces may stand where one does, and a field value
 may be folded.
 */
module HttpGrammar {
  import opened Bytes
  import opened Alphabet
  import opened Decimal
  import opened HttpSyntax
  import opened Options

  // ---------------------------------------------------------------- the grammar

  predicate EolAt(s: seq<Byte>, i: nat, j: nat) {
    i <= j <= |s| && (s[i..j] == Ascii("\r\n") || s[i..j] == Ascii("\n"))
  }

  /** One space or more. */
  predicate SpacesAt(s: seq<Byte>, i: nat, j: nat) {
    i < j <= |s| && forall k :: i <= k < j ==> In(s[k], " ")
  }

  predicate BlanksAt(s: seq<Byte>, i: nat, j: nat) {
    i <= j <= |s| && forall k :: i <= k < j ==> In(s[k], " \t")
  }

  function End(span: Span): nat {
    span.start + span.len
  }

  /** A method or a target. */
  predicate WordAt(s: seq<Byte>, span: Span) {
    span.len > 0 && End(span) <= |s| && forall k :: span.start <= k < End(span) ==> IsVisible(s[k])
  }

  predicate VersionAt(s: seq<Byte>, i: nat, minor: nat) {
    i + 8 <= |s| && s[i..i + 7] == Ascii("HTTP/1.") && minor < 10 && s[i + 7] == DECIMAL[minor] as int
  }

  /** The value, blanks that do not belong to it, and the line end behind them, which ends at j. */
  ghost predicate ValueAt(s: seq<Byte>, v: Span, j: nat) {
    && End(v) < j <= |s|
    && (forall k :: v.start <= k < End(v) ==> IsText(s[k]))
    && (v.len > 0 ==> !In(s[End(v) - 1], " \t"))
    && exists e :: End(v) <= e < j && BlanksAt(s, End(v), e) && EolAt(s, e, j)
  }

  /** name ":" blanks value blanks, and the line end. */
  ghost predicate FieldLineAt(s: seq<Byte>, i: nat, j: nat, h: Header) {
    && h.name.Some? && h.name.value.start == i && h.name.value.len > 0
    && var c := End(h.name.value);
       && c < |s| && (forall k :: i <= k < c ==> IsTokenChar(s[k])) && In(s[c], ":")
       && BlanksAt(s, c + 1, h.value.start) && ValueAt(s, h.value, j)
       && (h.value.start < |s| ==> !In(s[h.value.start], " \t"))
  }

  /** A line that continues the value before it starts with a blank. */
  ghost predicate FoldedLineAt(s: seq<Byte>, i: nat, j: nat, h: Header) {
    h.name.None? && h.value.start == i < |s| && In(s[i], " \t") && ValueAt(s, h.value, j)
  }

  ghost predicate LineAt(s: seq<Byte>, i: nat, j: nat, h: Header, first: bool) {
    FieldLineAt(s, i, j, h) || (!first && FoldedLineAt(s, i, j, h))
  }

  /** Lines from i on, and the empty line, which ends at n. */
  ghost predicate LinesAt(s: seq<Byte>, i: nat, n: nat, hs: seq<Header>, first: bool)
    decreases |hs|
  {
    if hs == [] then EolAt(s, i, n)
    else exists j :: i < j <= |s| && LineAt(s, i, j, hs[0], first) && LinesAt(s, j, n, hs[1..], false)
  }

  /** Spaces from i on, the version, the line end, and the lines of the head. */
  ghost predicate VersionAndLinesAt(s: seq<Byte>, i: nat, j: nat, k: nat, n: nat, r: Request) {
    SpacesAt(s, i, j) && VersionAt(s, j, r.minorVersion) && EolAt(s, j + 8, k) && LinesAt(s, k, n, r.headers, true)
  }

  ghost predicate RequestAt(s: seq<Byte>, n: nat, r: Request) {
    && (r.verb.start == 0 || EolAt(s, 0, r.verb.start)) && WordAt(s, r.verb)
    && SpacesAt(s, End(r.verb), r.path.start) && WordAt(s, r.path)
    && exists j, k :: VersionAndLinesAt(s, End(r.path), j, k, n, r)
  }

  // ---------------------------------------------------------------- the classes as the code tests them

  lemma TokenCharIff(b: Byte)
    ensures TokenChar(b) <==> IsTokenChar(b)
  {
    LetterRange(b);
    TokenRange(b);
  }

  lemma EndsValueIff(b: Byte)
    ensures EndsValue(b) <==> !IsText(b)
  {
    VisibleRange(b);
  }

  lemma BlankIff(b: Byte)
    ensures Blank(b) <==> In(b, " \t")
  {
    BlankRange(b);
  }

  lemma Characters()
    ensures forall b: Byte :: In(b, " ") <==> b == SP
    ensures forall b: Byte :: In(b, ":") <==> b == COLON
    ensures forall b: Byte :: In(b, " \t") <==> Blank(b)
    ensures forall b: Byte :: IsText(b) <==> !EndsValue(b)
    ensures forall b: Byte :: IsTokenChar(b) <==> TokenChar(b)
    ensures forall b: Byte :: IsVisible(b) <==> b > SP && b != DEL
  {
    hide IsText, EndsValue, IsTokenChar, TokenChar, Blank, IsVisible;
    forall b: Byte
      ensures In(b, " \t") <==> Blank(b)
      ensures IsText(b) <==> !EndsValue(b)
      ensures IsTokenChar(b) <==> TokenChar(b)
      ensures IsVisible(b) <==> b > SP && b != DEL
    {
      BlankIff(b);
      EndsValueIff(b);
      TokenCharIff(b);
      VisibleRange(b);
    }
  }

  // ---------------------------------------------------------------- the scanning functions

  /** A token stops at the first space, and holds only visible characters. */
  lemma {:induction false} TokenIff(s: seq<Byte>, start: nat, i: nat, e: nat)
    requires start <= i <= e < |s|
    ensures Token(s, start, i) == Done(e, Span(start, e - start)) <==>
            s[e] == SP && forall k :: i <= k < e ==> s[k] > SP && s[k] != DEL
    decreases |s| - i
  {
    if i < e {
      TokenIff(s, start, i + 1, e);
    } else if s[i] != SP && s[i] >= 32 && s[i] != DEL {
      assert Token(s, start, i) == Token(s, start, i + 1);
    }
  }

  lemma {:induction false} NameIff(s: seq<Byte>, start: nat, i: nat, e: nat)
    requires start <= i <= e < |s| && start < e
    ensures Name(s, start, i) == Done(e, Span(start, e - start)) <==>
            s[e] == COLON && forall k :: i <= k < e ==> s[k] != COLON && TokenChar(s[k])
    decreases |s| - i
  {
    hide TokenChar;
    if i < e {
      NameIff(s, start, i + 1, e);
    }
  }

  lemma {:induction false} SkipSpIs(s: seq<Byte>, i: nat, e: nat)
    requires i <= e <= |s| && (e < |s| ==> s[e] != SP) && forall k :: i <= k < e ==> s[k] == SP
    ensures SkipSp(s, i) == e
    decreases e - i
  {
    if i < e {
      SkipSpIs(s, i + 1, e);
    }
  }

  lemma {:induction false} SkipBlanksIff(s: seq<Byte>, i: nat, e: nat)
    requires i <= e <= |s|
    ensures SkipBlanks(s, i) == e <==> (e < |s| ==> !Blank(s[e])) && forall k :: i <= k < e ==> Blank(s[k])
    decreases |s| - i
  {
    if i < e {
      SkipBlanksIff(s, i + 1, e);
    }
  }

  lemma {:induction false} FindEndIs(s: seq<Byte>, i: nat, e: nat)
    requires i <= e < |s| && EndsValue(s[e]) && forall k :: i <= k < e ==> !EndsValue(s[k])
    ensures FindEnd(s, i) == e
    decreases e - i
  {
    if i < e {
      FindEndIs(s, i + 1, e);
    }
  }

  lemma {:induction false} TrimEndIff(s: seq<Byte>, start: nat, len: nat, n: nat)
    requires start + len <= |s| && n <= len
    ensures TrimEnd(s, start, len) == n <==>
            (n > 0 ==> !Blank(s[start + n - 1])) && forall k :: start + n <= k < start + len ==> Blank(s[k])
    decreases len
  {
    hide Blank;
    if len > 0 {
      if n < len {
        TrimEndIff(s, start, len - 1, n);
      }
    }
  }

  lemma EolIff(s: seq<Byte>, i: nat, j: nat)
    requires i <= |s|
    ensures LineEnd(s, i).Done? && LineEnd(s, i).pos == j <==> EolAt(s, i, j)
  {
    NamedCharacters();
    if i <= j <= |s| {
      if j == i + 2 {
        assert s[i..j] == [s[i], s[i + 1]];
      } else if j == i + 1 {
        assert s[i..j] == [s[i]];
      } else {
        assert |s[i..j]| == j - i;
      }
    }
  }

  lemma EolStarts(s: seq<Byte>, i: nat, j: nat)
    requires EolAt(s, i, j)
    ensures i < j && EndsValue(s[i]) && (s[i] == CR || s[i] == LF) && !Blank(s[i])
  {
    EolIff(s, i, j);
  }

  // ---------------------------------------------------------------- field lines

  lemma ValueIsRead(s: seq<Byte>, v: Span, j: nat)
    requires ValueAt(s, v, j)
    ensures Value(s, v.start) == Done(j, v)
  {
    hide EndsValue, Blank, LineEnd, EolAt, FindEnd, TrimEnd, IsText, In;
    Characters();
    var e :| End(v) <= e < j && BlanksAt(s, End(v), e) && EolAt(s, e, j);
    EolStarts(s, e, j);
    BlanksAreText(s, End(v), e);
    FindEndIs(s, v.start, e);
    EolIff(s, e, j);
    TrimEndIff(s, v.start, e - v.start, v.len);
  }

  lemma ReadIsValue(s: seq<Byte>, i: nat)
    requires i <= |s| && Value(s, i).Done?
    ensures var r := Value(s, i); r.value.start == i && ValueAt(s, r.value, r.pos)
  {
    hide EndsValue, Blank, LineEnd, EolAt, TrimEnd, IsText, In;
    Characters();
    var r, e := Value(s, i), FindEnd(s, i);
    EolIff(s, e, r.pos);
    TrimEndIff(s, i, e - i, r.value.len);
    assert BlanksAt(s, End(r.value), e);
  }

  lemma ValueIff(s: seq<Byte>, v: Span, j: nat)
    requires v.start <= |s|
    ensures Value(s, v.start) == Done(j, v) <==> ValueAt(s, v, j)
  {
    hide Value, ValueAt;
    if ValueAt(s, v, j) {
      ValueIsRead(s, v, j);
    }
    if Value(s, v.start) == Done(j, v) {
      ReadIsValue(s, v.start);
    }
  }

  lemma BlanksAreText(s: seq<Byte>, i: nat, e: nat)
    requires BlanksAt(s, i, e)
    ensures forall k :: i <= k < e ==> !EndsValue(s[k])
  {
    Characters();
  }

  lemma FieldLineIff(s: seq<Byte>, i: nat, j: nat, h: Header)
    requires i < |s| && h.name.Some?
    ensures HeaderLine(s, i, true) == Done(j, h) <==> FieldLineAt(s, i, j, h)
  {
    hide EndsValue, Blank, IsText, IsTokenChar, In, Value, ValueAt, SkipBlanks, Name, TokenChar;
    Characters();
    var name, v := h.name.value, h.value;
    if FieldLineAt(s, i, j, h) {
      ColonIsNoToken(s);
      NameIff(s, i, i, End(name));
      SkipBlanksIff(s, End(name) + 1, v.start);
      ValueIff(s, v, j);
      ValueInside(s, v, j);
    } else if HeaderLine(s, i, true) == Done(j, h) {
      NameIff(s, i, i, End(name));
      SkipBlanksIff(s, End(name) + 1, v.start);
      ValueIff(s, v, j);
    }
  }

  lemma ValueInside(s: seq<Byte>, v: Span, j: nat)
    requires ValueAt(s, v, j)
    ensures v.start < j <= |s|
  {
  }

  lemma ColonIsNoToken(s: seq<Byte>)
    ensures forall k :: 0 <= k < |s| && TokenChar(s[k]) ==> s[k] != COLON
  {
  }

  /** A field line starts with a token character, so where it starts does not matter. */
  lemma FieldLineStart(s: seq<Byte>, i: nat, h: Header, j: nat)
    requires FieldLineAt(s, i, j, h)
    ensures i < |s| && !Blank(s[i]) && s[i] != CR && s[i] != LF
  {
    hide ValueAt;
    Characters();
    assert TokenChar(s[i]);
  }

  lemma LineIff(s: seq<Byte>, i: nat, j: nat, h: Header, first: bool)
    requires i < |s|
    ensures HeaderLine(s, i, first) == Done(j, h) <==> LineAt(s, i, j, h, first)
  {
    hide EndsValue, Blank, IsText, IsTokenChar, In, Value, ValueAt, SkipBlanks, Name, FieldLineAt;
    Characters();
    if FieldLineAt(s, i, j, h) {
      FieldLineStart(s, i, h, j);
      FieldLineName(s, i, j, h);
      FieldLineIff(s, i, j, h);
    } else if !first && Blank(s[i]) {
      if h.value.start == i {
        ValueIff(s, h.value, j);
      }
    } else if h.name.Some? {
      FieldLineIff(s, i, j, h);
    }
  }

  lemma FieldLineName(s: seq<Byte>, i: nat, j: nat, h: Header)
    requires FieldLineAt(s, i, j, h)
    ensures h.name.Some?
  {
  }

  /** No line starts with a line end. */
  lemma LineStart(s: seq<Byte>, i: nat, j: nat, h: Header, first: bool)
    requires LineAt(s, i, j, h, first)
    ensures i < |s| && s[i] != CR && s[i] != LF && i < j <= |s|
  {
    hide ValueAt, FieldLineAt;
    Characters();
    if FieldLineAt(s, i, j, h) {
      FieldLineStart(s, i, h, j);
      FieldLineName(s, i, j, h);
      FieldLineIff(s, i, j, h);
    } else {
      ValueInside(s, h.value, j);
    }
  }

  /** Lines of the grammar are read as its headers. */
  lemma {:induction false} LinesAreRead(
      s: seq<Byte>, i: nat, n: nat, before: seq<Header>, hs: seq<Header>, max: nat)
    requires LinesAt(s, i, n, hs, before == []) && |before| + |hs| <= max
    ensures i <= |s| && Headers(s, i, before, max) == Done(n, before + hs)
    decreases |hs|
  {
    hide LineAt, HeaderLine, LineEnd, EolAt;
    if hs == [] {
      assert before + hs == before;
      EolInside(s, i, n);
      EolIff(s, i, n);
    } else {
      var j :| i < j <= |s| && LineAt(s, i, j, hs[0], before == []) && LinesAt(s, j, n, hs[1..], false);
      LineStart(s, i, j, hs[0], before == []);
      LineIff(s, i, j, hs[0], before == []);
      LinesAreRead(s, j, n, before + [hs[0]], hs[1..], max);
      assert before + hs == (before + [hs[0]]) + hs[1..];
    }
  }

  lemma EolInside(s: seq<Byte>, i: nat, j: nat)
    requires EolAt(s, i, j)
    ensures i < |s| && (s[i] == CR || s[i] == LF)
  {
    EolStarts(s, i, j);
  }

  /** What is read as headers are lines of the grammar. */
  lemma {:induction false} ReadAreLines(s: seq<Byte>, i: nat, before: seq<Header>, max: nat)
    requires i <= |s| && |before| <= max && Headers(s, i, before, max).Done?
    ensures var r := Headers(s, i, before, max); LinesAt(s, i, r.pos, r.value[|before|..], before == [])
    decreases |s| - i
  {
    hide LineAt, HeaderLine, LineEnd, EolAt;
    var r := Headers(s, i, before, max);
    if s[i] == CR || s[i] == LF {
      assert r.value == before;
      EolIff(s, i, r.pos);
    } else {
      var line := HeaderLine(s, i, before == []);
      LineIff(s, i, line.pos, line.value, before == []);
      ReadAreLines(s, line.pos, before + [line.value], max);
      var hs := r.value[|before|..];
      assert hs[0] == line.value && hs[1..] == r.value[|before + [line.value]|..];
    }
  }

  // ---------------------------------------------------------------- requests

  lemma StartIff(s: seq<Byte>, i: nat)
    ensures Start(s).Done? && Start(s).pos == i ==> i == 0 || EolAt(s, 0, i)
    ensures EolAt(s, 0, i) ==> Start(s).Done? && Start(s).pos == i
    ensures i == 0 && s != [] && s[0] != CR && s[0] != LF ==> Start(s).Done? && Start(s).pos == 0
  {
    EolIff(s, 0, i);
    if EolAt(s, 0, i) {
      EolStarts(s, 0, i);
    }
  }

  lemma WordIff(s: seq<Byte>, span: Span)
    requires End(span) < |s| && s[End(span)] == SP
    ensures Token(s, span.start, span.start) == Done(End(span), span) && span.len > 0 <==> WordAt(s, span)
  {
    hide IsVisible;
    Characters();
    TokenIff(s, span.start, span.start, End(span));
  }

  /** The spaces behind a word end before the next word. */
  lemma SpacesRead(s: seq<Byte>, i: nat, j: nat)
    requires SpacesAt(s, i, j) && j < |s| && s[j] != SP
    ensures s[i] == SP && SkipSp(s, i + 1) == j
  {
    Characters();
    SkipSpIs(s, i + 1, j);
  }

  lemma SpacesSkipped(s: seq<Byte>, i: nat)
    requires i < |s| && s[i] == SP
    ensures SpacesAt(s, i, SkipSp(s, i + 1))
  {
    Characters();
  }

  lemma WordStart(s: seq<Byte>, span: Span)
    requires WordAt(s, span)
    ensures span.start < |s| && s[span.start] > SP && s[span.start] != CR && s[span.start] != LF
  {
    Characters();
  }

  lemma DigitText(b: Byte, d: nat)
    requires d < 10
    ensures b == DECIMAL[d] as int <==> b == 48 + d
  {
  }

  lemma VersionIff(s: seq<Byte>, i: nat, minor: nat)
    requires i + 9 <= |s|
    ensures HttpVersion(s, i) == Done(i + 8, minor) <==> VersionAt(s, i, minor)
  {
    assert Ascii("HTTP/1.") == [72, 84, 84, 80, 47, 49, 46];
    if minor < 10 {
      DigitText(s[i + 7], minor);
    }
  }

  lemma VersionStart(s: seq<Byte>, i: nat, minor: nat)
    requires VersionAt(s, i, minor)
    ensures i < |s| && s[i] == 72
  {
    assert s[i] == s[i..i + 7][0] == Ascii("HTTP/1.")[0];
  }

  lemma RestIsRead(s: seq<Byte>, i: nat, j: nat, k: nat, n: nat, r: Request, max: nat)
    requires VersionAndLinesAt(s, i, j, k, n, r) && |r.headers| <= max
    ensures i < j < |s| && s[i] == SP && SkipSp(s, i + 1) == j
    ensures RequestRest(s, j, (r.verb, r.path), max) == Done(n, r)
  {
    hide LinesAt, VersionAt, EolAt, HttpVersion, Headers, LineEnd;
    VersionStart(s, j, r.minorVersion);
    EolInside(s, j + 8, k);
    EolIff(s, j + 8, k);
    VersionIff(s, j, r.minorVersion);
    SpacesRead(s, i, j);
    LinesAreRead(s, k, n, [], r.headers, max);
    assert [] + r.headers == r.headers;
  }

  /** Every request head of the grammar is accepted, with its spans and its length, whatever follows. */
  lemma GrammarIsRead(s: seq<Byte>, n: nat, r: Request, max: nat)
    requires RequestAt(s, n, r) && |r.headers| <= max
    ensures ParseRequest(s, max) == Done(n, r)
  {
    hide WordAt, EolAt, Start, Token, SkipSp, RequestRest, VersionAndLinesAt;
    var v, p := r.verb, r.path;
    var j, k :| VersionAndLinesAt(s, End(p), j, k, n, r);
    RestIsRead(s, End(p), j, k, n, r, max);
    WordStart(s, v);
    WordStart(s, p);
    SpacesRead(s, End(v), p.start);
    StartIff(s, v.start);
    WordIff(s, v);
    WordIff(s, p);
    WordLength(s, v);
    WordLength(s, p);
  }

  lemma WordLength(s: seq<Byte>, span: Span)
    requires WordAt(s, span)
    ensures span.len > 0
  {
  }

  lemma TargetIsWords(s: seq<Byte>, i: nat)
    requires i <= |s| && Target(s, i).Done?
    ensures var t := Target(s, i);
            var (verb, path) := t.value;
            && verb.start == i && WordAt(s, verb) && SpacesAt(s, End(verb), path.start) && WordAt(s, path)
            && SpacesAt(s, End(path), t.pos)
  {
    hide WordAt, Token, SkipSp, SpacesAt;
    var (verb, path) := Target(s, i).value;
    WordIff(s, verb);
    WordIff(s, path);
    SpacesSkipped(s, End(verb));
    SpacesSkipped(s, End(path));
  }

  lemma RestIsLines(s: seq<Byte>, j: nat, target: (Span, Span), max: nat)
    requires j <= |s| && RequestRest(s, j, target, max).Done?
    ensures var r := RequestRest(s, j, target, max);
            && VersionAt(s, j, r.value.minorVersion) && |r.value.headers| <= max
            && (r.value.verb, r.value.path) == target
            && exists k :: EolAt(s, j + 8, k) && LinesAt(s, k, r.pos, r.value.headers, true)
  {
    hide LinesAt, VersionAt, EolAt, HttpVersion, Headers, LineEnd;
    var r := RequestRest(s, j, target, max);
    VersionIff(s, j, r.value.minorVersion);
    var k := LineEnd(s, j + 8).pos;
    EolIff(s, j + 8, k);
    ReadAreLines(s, k, [], max);
    assert Headers(s, k, [], max) == Done(r.pos, r.value.headers);
    assert r.value.headers[0..] == r.value.headers;
  }

  /** And the parser accepts nothing else. */
  lemma ReadIsGrammar(s: seq<Byte>, max: nat)
    requires ParseRequest(s, max).Done?
    ensures var r := ParseRequest(s, max); RequestAt(s, r.pos, r.value) && |r.value.headers| <= max
  {
    hide WordAt, EolAt, Start, Target, SpacesAt, RequestRest, VersionAt, LinesAt;
    var start := Start(s).pos;
    StartIff(s, start);
    TargetIsWords(s, start);
    var t := Target(s, start);
    RestIsLines(s, t.pos, t.value, max);
    var r := ParseRequest(s, max);
    var k :| EolAt(s, t.pos + 8, k) && LinesAt(s, k, r.pos, r.value.headers, true);
    assert VersionAndLinesAt(s, End(r.value.path), t.pos, k, r.pos, r.value);
  }

  /** phr_parse_request succeeds exactly on the request heads of the grammar. */
  lemma ParseRequestIff(s: seq<Byte>, n: nat, r: Request, max: nat)
    ensures ParseRequest(s, max) == Done(n, r) <==> RequestAt(s, n, r) && |r.headers| <= max
  {
    hide ParseRequest, RequestAt;
    if ParseRequest(s, max) == Done(n, r) {
      ReadIsGrammar(s, max);
    }
    if RequestAt(s, n, r) && |r.headers| <= max {
      GrammarIsRead(s, n, r, max);
    }
  }

  // ---------------------------------------------------------------- responses

  predicate DecimalText(s: seq<Byte>) {
    forall i :: 0 <= i < |s| ==> In(s[i], DECIMAL)
  }

  /** Three decimal digits that denote the status code. */
  predicate StatusAt(s: seq<Byte>, i: nat, status: nat) {
    i + 3 <= |s| && DecimalText(s[i..i + 3]) && DigitsOnly(s[i..i + 3]) && status == Denotes(s[i..i + 3])
  }

  /** The reason, which is empty or set off by spaces, and the line end at e. */
  predicate ReasonAt(s: seq<Byte>, i: nat, reason: Span, e: nat, j: nat) {
    && i <= reason.start && End(reason) == e <= |s| && EolAt(s, e, j)
    && (forall k :: i <= k < e ==> IsText(s[k]))
    && (i < e ==> SpacesAt(s, i, reason.start))
    && (reason.len > 0 ==> !In(s[reason.start], " "))
  }

  ghost predicate StatusLineAt(s: seq<Byte>, i: nat, e: nat, j: nat, n: nat, r: Response) {
    && SpacesAt(s, 8, i) && StatusAt(s, i, r.status) && ReasonAt(s, i + 3, r.message, e, j)
    && LinesAt(s, j, n, r.headers, true)
  }

  ghost predicate ResponseAt(s: seq<Byte>, n: nat, r: Response) {
    VersionAt(s, 0, r.minorVersion) && exists i: nat, e: nat, j: nat :: StatusLineAt(s, i, e, j, n, r)
  }

  lemma DecimalIff(b: Byte)
    ensures In(b, DECIMAL) <==> DigitByte(b)
  {
    TokenRange(b);
  }

  lemma ThreeDigits(s: seq<Byte>)
    requires |s| == 3 && DigitsOnly(s)
    ensures Denotes(s) == 100 * (s[0] - 48) as int + 10 * (s[1] - 48) as int + (s[2] - 48) as int
  {
    assert s[..2][..1] == [s[0]] && s[..2][1] == s[1] && [s[0]][..0] == [];
    assert Denotes([s[0]]) == s[0] - 48;
    assert Denotes(s[..2]) == Denotes([s[0]]) * 10 + (s[1] - 48);
  }

  lemma StatusIff(s: seq<Byte>, i: nat, status: nat)
    requires i + 4 <= |s|
    ensures Status(s, i) == Done(i + 3, status) <==> StatusAt(s, i, status)
  {
    hide In;
    var t := s[i..i + 3];
    DecimalIff(s[i]);
    DecimalIff(s[i + 1]);
    DecimalIff(s[i + 2]);
    assert t == [s[i], s[i + 1], s[i + 2]];
    if DigitByte(s[i]) && DigitByte(s[i + 1]) && DigitByte(s[i + 2]) {
      assert DigitsOnly(t);
      ThreeDigits(t);
    } else {
      assert t[0] == s[i] && t[1] == s[i + 1] && t[2] == s[i + 2];
    }
  }

  lemma ReasonIsRead(s: seq<Byte>, i: nat, reason: Span, e: nat, j: nat)
    requires ReasonAt(s, i, reason, e, j)
    ensures i <= |s| && ReasonPhrase(s, i) == Done(j, reason)
  {
    hide EndsValue, IsText, In, LineEnd, EolAt, FindEnd, SkipSp;
    Characters();
    EolStarts(s, e, j);
    EolIff(s, e, j);
    FindEndIs(s, i, e);
    if i < e {
      assert s[reason.start] != SP;
      SpacesRead(s, i, reason.start);
    }
  }

  lemma ReadIsReason(s: seq<Byte>, i: nat)
    requires i <= |s| && ReasonPhrase(s, i).Done?
    ensures var r := ReasonPhrase(s, i); exists e :: ReasonAt(s, i, r.value, e, r.pos)
  {
    hide EndsValue, IsText, In, LineEnd, EolAt, FindEnd, SkipSp;
    Characters();
    var r, e := ReasonPhrase(s, i), FindEnd(s, i);
    EolIff(s, e, r.pos);
    EolStarts(s, e, r.pos);
    if i < e {
      SpacesSkipped(s, i);
      SpacesBefore(s, i, e);
    }
    assert ReasonAt(s, i, r.value, e, r.pos);
  }

  lemma SpacesBefore(s: seq<Byte>, i: nat, e: nat)
    requires i < e < |s| && s[e] != SP
    ensures SkipSp(s, i + 1) <= e
  {
  }

  lemma LineEndFirst(s: seq<Byte>, i: nat, status: nat)
    requires StatusAt(s, i, status)
    ensures i + 3 <= |s| && s[i] != SP
  {
    assert In(s[i..i + 3][0], DECIMAL);
    DecimalIff(s[i]);
  }

  lemma ReasonInside(s: seq<Byte>, i: nat, reason: Span, e: nat, j: nat)
    requires ReasonAt(s, i, reason, e, j)
    ensures i < |s| && i < j <= |s|
  {
    EolStarts(s, e, j);
  }

  lemma ResponseIsRead(s: seq<Byte>, n: nat, r: Response, max: nat)
    requires ResponseAt(s, n, r) && |r.headers| <= max
    ensures ParseResponse(s, max) == Done(n, r)
  {
    hide VersionAt, StatusAt, ReasonAt, LinesAt, SpacesAt, HttpVersion, Status, ReasonPhrase, Headers, SkipSp;
    var i: nat, e: nat, j: nat :| StatusLineAt(s, i, e, j, n, r);
    LineEndFirst(s, i, r.status);
    ReasonInside(s, i + 3, r.message, e, j);
    SpacesInside(s, 8, i);
    SpacesRead(s, 8, i);
    VersionIff(s, 0, r.minorVersion);
    StatusIff(s, i, r.status);
    ReasonIsRead(s, i + 3, r.message, e, j);
    LinesAreRead(s, j, n, [], r.headers, max);
    assert [] + r.headers == r.headers;
  }

  lemma SpacesInside(s: seq<Byte>, i: nat, j: nat)
    requires SpacesAt(s, i, j)
    ensures i < j <= |s|
  {
  }

  lemma ReadIsResponse(s: seq<Byte>, max: nat)
    requires ParseResponse(s, max).Done?
    ensures var r := ParseResponse(s, max); ResponseAt(s, r.pos, r.value) && |r.value.headers| <= max
  {
    hide VersionAt, StatusAt, ReasonAt, LinesAt, SpacesAt, HttpVersion, Status, ReasonPhrase, Headers, SkipSp;
    var r := ParseResponse(s, max);
    var i := SkipSp(s, 9);
    VersionIff(s, 0, r.value.minorVersion);
    SpacesSkipped(s, 8);
    StatusIff(s, i, r.value.status);
    ReadIsReason(s, i + 3);
    var reason := ReasonPhrase(s, i + 3);
    var e :| ReasonAt(s, i + 3, reason.value, e, reason.pos);
    ReadAreLines(s, reason.pos, [], max);
    assert r.value.headers[0..] == r.value.headers;
    assert StatusLineAt(s, i, e, reason.pos, r.pos, r.value);
  }

  /** phr_parse_response succeeds exactly on the response heads of the grammar. */
  lemma ParseResponseIff(s: seq<Byte>, n: nat, r: Response, max: nat)
    ensures ParseResponse(s, max) == Done(n, r) <==> ResponseAt(s, n, r) && |r.headers| <= max
  {
    hide ParseResponse, ResponseAt;
    if ParseResponse(s, max) == Done(n, r) {
      ReadIsResponse(s, max);
    }
    if ResponseAt(s, n, r) && |r.headers| <= max {
      ResponseIsRead(s, n, r, max);
    }
  }

  // ---------------------------------------------------------------- the quick check

  /** Two line ends in a row from i on, the second of which ends at p; or just one, if one stood before i. */
  ghost predicate EmptyLineTo(s: seq<Byte>, i: nat, count: nat, p: nat) {
    || (count == 1 && EolAt(s, i, p))
    || exists j: nat, k: nat :: i <= j && EolAt(s, j, k) && EolAt(s, k, p)
  }

  /** Every carriage return from i to p is followed by a line feed. */
  predicate ReturnsFed(s: seq<Byte>, i: nat, p: nat) {
    forall k :: i <= k < p && k < |s| && s[k] == CR ==> k + 1 < |s| && s[k + 1] == LF
  }

  ghost predicate FirstEmptyLine(s: seq<Byte>, i: nat, count: nat, p: nat) {
    EmptyLineTo(s, i, count, p) && ReturnsFed(s, i, p) && forall q: nat :: q < p ==> !EmptyLineTo(s, i, count, q)
  }

  lemma EolShape(s: seq<Byte>, j: nat, k: nat)
    ensures EolAt(s, j, k) <==>
            || (k == j + 1 <= |s| && s[j] == LF)
            || (k == j + 2 <= |s| && s[j] == CR && s[j + 1] == LF)
  {
    if j <= |s| {
      EolIff(s, j, k);
    }
  }

  /** An empty line that starts at or behind i ends behind i. */
  lemma EmptyLineAfter(s: seq<Byte>, i: nat, count: nat, p: nat)
    requires EmptyLineTo(s, i, count, p)
    ensures i < p <= |s|
  {
    hide EolAt;
    EolShape(s, i, p);
    if !(count == 1 && EolAt(s, i, p)) {
      var j: nat, k: nat :| i <= j && EolAt(s, j, k) && EolAt(s, k, p);
      EolShape(s, j, k);
      EolShape(s, k, p);
    }
  }

  /** Passing a byte that is no line end. */
  lemma NoLineEndPassed(s: seq<Byte>, i: nat, count: nat, p: nat)
    requires i < |s| && s[i] != CR && s[i] != LF
    ensures EmptyLineTo(s, i, count, p) <==> EmptyLineTo(s, i + 1, 0, p)
  {
    hide EolAt;
    EolShape(s, i, p);
    if EmptyLineTo(s, i, count, p) {
      var j: nat, k: nat :| i <= j && EolAt(s, j, k) && EolAt(s, k, p);
      EolShape(s, j, k);
    }
  }

  /** Passing a line end. */
  lemma LineEndPassed(s: seq<Byte>, i: nat, next: nat, p: nat)
    requires EolAt(s, i, next)
    ensures EmptyLineTo(s, i, 0, p) <==> EmptyLineTo(s, next, 1, p)
  {
    hide EolAt;
    EolShape(s, i, next);
    if EmptyLineTo(s, i, 0, p) {
      var j: nat, k: nat :| i <= j && EolAt(s, j, k) && EolAt(s, k, p);
      EolShape(s, j, k);
    }
  }

  lemma LineEndCounts(s: seq<Byte>, i: nat, next: nat, p: nat)
    requires EolAt(s, i, next)
    ensures FirstEmptyLine(s, i, 1, p) <==> p == next
  {
    hide EolAt;
    EolShape(s, i, next);
    assert EmptyLineTo(s, i, 1, next);
    forall q: nat | EmptyLineTo(s, i, 1, q)
      ensures q >= next
    {
      EolShape(s, i, q);
      if !EolAt(s, i, q) {
        var j: nat, k: nat :| i <= j && EolAt(s, j, k) && EolAt(s, k, q);
        EolShape(s, j, k);
        EolShape(s, k, q);
      }
    }
  }

  lemma FirstBehindByte(s: seq<Byte>, i: nat, count: nat, next: nat, p: nat)
    requires i < |s| && s[i] != CR && s[i] != LF && next == i + 1
    ensures FirstEmptyLine(s, i, count, p) <==> FirstEmptyLine(s, next, 0, p)
  {
    hide EmptyLineTo;
    forall q: nat
      ensures EmptyLineTo(s, i, count, q) <==> EmptyLineTo(s, next, 0, q)
    {
      NoLineEndPassed(s, i, count, q);
    }
  }

  lemma FirstBehindLineEnd(s: seq<Byte>, i: nat, next: nat, p: nat)
    requires EolAt(s, i, next)
    ensures FirstEmptyLine(s, i, 0, p) <==> FirstEmptyLine(s, next, 1, p)
  {
    hide EmptyLineTo, EolAt;
    EolShape(s, i, next);
    forall q: nat
      ensures EmptyLineTo(s, i, 0, q) <==> EmptyLineTo(s, next, 1, q)
    {
      LineEndPassed(s, i, next, q);
    }
  }

  lemma LoneReturn(s: seq<Byte>, i: nat, count: nat, p: nat)
    requires i < |s| && s[i] == CR && (i + 1 < |s| ==> s[i + 1] != LF)
    ensures !FirstEmptyLine(s, i, count, p)
  {
    hide EmptyLineTo;
    if EmptyLineTo(s, i, count, p) {
      EmptyLineAfter(s, i, count, p);
    }
  }

  /** The scan ends behind the first empty line, if every carriage return before is followed by a line feed. */
  lemma {:induction false} BlankLineIff(s: seq<Byte>, i: nat, count: nat, p: nat)
    requires i <= |s| && count < 2
    ensures BlankLine(s, i, count).Done? && BlankLine(s, i, count).pos == p <==> FirstEmptyLine(s, i, count, p)
    decreases |s| - i
  {
    hide FirstEmptyLine, EolAt;
    if i == |s| {
      NothingBehind(s, count, p);
    } else if s[i] != CR && s[i] != LF {
      FirstBehindByte(s, i, count, i + 1, p);
      BlankLineIff(s, i + 1, 0, p);
    } else if LineEnd(s, i).Done? {
      var next := LineEnd(s, i).pos;
      EolIff(s, i, next);
      if count == 1 {
        LineEndCounts(s, i, next, p);
      } else {
        FirstBehindLineEnd(s, i, next, p);
        BlankLineIff(s, next, 1, p);
      }
    } else {
      LoneReturn(s, i, count, p);
    }
  }

  lemma NothingBehind(s: seq<Byte>, count: nat, p: nat)
    ensures !FirstEmptyLine(s, |s|, count, p)
  {
    hide EmptyLineTo;
    if EmptyLineTo(s, |s|, count, p) {
      EmptyLineAfter(s, |s|, count, p);
    }
  }

  /** is_complete: from three bytes before the last length, the first empty line, or none. */
  lemma IsCompleteIff(s: seq<Byte>, lastLen: nat, p: nat)
    requires lastLen <= |s|
    ensures IsComplete(s, lastLen).Done? && IsComplete(s, lastLen).pos == p <==>
            FirstEmptyLine(s, if lastLen < 3 then 0 else lastLen - 3, 0, p)
  {
    BlankLineIff(s, if lastLen < 3 then 0 else lastLen - 3, 0, p);
  }
}
