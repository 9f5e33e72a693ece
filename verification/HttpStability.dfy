/**
 Prefix stability: what the parser has decided about some bytes, it decides about every extension
 of them, and a success looks at no byte beyond the ones it consumes.
 */
module HttpStability {
  import opened Bytes
  import opened HttpSyntax

  /** A verdict other than "more input wanted" is final. */
  ghost predicate Keeps<T>(r: Parse<T>, r': Parse<T>) {
    (r.Done? ==> r' == r) && (r.Invalid? ==> r'.Invalid?)
  }

  // ---------------------------------------------------------------- extensions

  lemma LineEndKeeps(s: seq<Byte>, t: seq<Byte>, i: nat)
    requires i <= |s|
    ensures Keeps(LineEnd(s, i), LineEnd(s + t, i))
  {
  }

  lemma {:induction false} TokenKeeps(s: seq<Byte>, t: seq<Byte>, start: nat, i: nat)
    requires start <= i <= |s|
    ensures Keeps(Token(s, start, i), Token(s + t, start, i))
    decreases |s| - i
  {
    if i < |s| {
      TokenKeeps(s, t, start, i + 1);
    }
  }

  lemma {:induction false} SkipSpKeeps(s: seq<Byte>, t: seq<Byte>, i: nat)
    requires i <= |s|
    ensures SkipSp(s, i) < |s| ==> SkipSp(s + t, i) == SkipSp(s, i)
    ensures SkipSp(s, i) == |s| ==> SkipSp(s + t, i) >= |s|
    decreases |s| - i
  {
    if i < |s| {
      SkipSpKeeps(s, t, i + 1);
    }
  }

  lemma {:induction false} SkipBlanksKeeps(s: seq<Byte>, t: seq<Byte>, i: nat)
    requires i <= |s|
    ensures SkipBlanks(s, i) < |s| ==> SkipBlanks(s + t, i) == SkipBlanks(s, i)
    decreases |s| - i
  {
    if i < |s| {
      SkipBlanksKeeps(s, t, i + 1);
    }
  }

  lemma HttpVersionKeeps(s: seq<Byte>, t: seq<Byte>, i: nat)
    requires i <= |s|
    ensures Keeps(HttpVersion(s, i), HttpVersion(s + t, i))
  {
    if i + 9 <= |s| {
      assert (s + t)[i..i + 7] == s[i..i + 7];
    }
  }

  lemma {:induction false} FindEndKeeps(s: seq<Byte>, t: seq<Byte>, i: nat)
    requires i <= |s|
    ensures FindEnd(s, i) < |s| ==> FindEnd(s + t, i) == FindEnd(s, i)
    decreases |s| - i
  {
    if i < |s| {
      FindEndKeeps(s, t, i + 1);
    }
  }

  lemma ToEolKeeps(s: seq<Byte>, t: seq<Byte>, i: nat)
    requires i <= |s|
    ensures Keeps(ToEol(s, i), ToEol(s + t, i))
  {
    FindEndKeeps(s, t, i);
    LineEndKeeps(s, t, FindEnd(s, i));
  }

  lemma {:induction false} NameKeeps(s: seq<Byte>, t: seq<Byte>, start: nat, i: nat)
    requires start <= i <= |s|
    ensures Keeps(Name(s, start, i), Name(s + t, start, i))
    decreases |s| - i
  {
    if i < |s| {
      NameKeeps(s, t, start, i + 1);
    }
  }

  lemma {:induction false} TrimEndKeeps(s: seq<Byte>, t: seq<Byte>, start: nat, len: nat)
    requires start + len <= |s|
    ensures TrimEnd(s + t, start, len) == TrimEnd(s, start, len)
  {
    if len > 0 {
      TrimEndKeeps(s, t, start, len - 1);
    }
  }

  lemma ValueKeeps(s: seq<Byte>, t: seq<Byte>, i: nat)
    requires i <= |s|
    ensures Keeps(Value(s, i), Value(s + t, i))
  {
    ToEolKeeps(s, t, i);
    if ToEol(s, i).Done? {
      TrimEndKeeps(s, t, i, ToEol(s, i).value.len);
    }
  }

  lemma HeaderLineKeeps(s: seq<Byte>, t: seq<Byte>, i: nat, first: bool)
    requires i < |s|
    ensures Keeps(HeaderLine(s, i, first), HeaderLine(s + t, i, first))
  {
    hide Name, Value, SkipBlanks;
    ValueKeeps(s, t, i);
    NameKeeps(s, t, i, i);
    if Name(s, i, i).Done? {
      var colon := Name(s, i, i).pos;
      SkipBlanksKeeps(s, t, colon + 1);
      if SkipBlanks(s, colon + 1) < |s| {
        ValueKeeps(s, t, SkipBlanks(s, colon + 1));
      }
    }
  }

  lemma {:induction false} HeadersKeep(s: seq<Byte>, t: seq<Byte>, i: nat, headers: seq<Header>, max: nat)
    requires i <= |s| && |headers| <= max
    ensures Keeps(Headers(s, i, headers, max), Headers(s + t, i, headers, max))
    decreases |s| - i
  {
    hide HeaderLine, LineEnd;
    if i < |s| {
      LineEndKeeps(s, t, i);
      HeaderLineKeeps(s, t, i, headers == []);
      var line := HeaderLine(s, i, headers == []);
      if line.Done? && |headers| < max {
        HeadersKeep(s, t, line.pos, headers + [line.value], max);
      }
    }
  }

  lemma TargetKeeps(s: seq<Byte>, t: seq<Byte>, i: nat)
    requires i <= |s|
    ensures Target(s, i).Invalid? ==> Target(s + t, i).Invalid?
    ensures Target(s, i).Done? ==> Target(s + t, i).Done? && Target(s + t, i).value == Target(s, i).value
    ensures Target(s, i).Done? && Target(s, i).pos < |s| ==> Target(s + t, i) == Target(s, i)
  {
    hide Token, SkipSp;
    TokenKeeps(s, t, i, i);
    if Token(s, i, i).Done? {
      var end := Token(s, i, i).pos;
      SkipSpKeeps(s, t, end + 1);
      var start := SkipSp(s, end + 1);
      TokenAtEnd(s);
      if start < |s| {
        TokenKeeps(s, t, start, start);
        if Token(s, start, start).Done? {
          SkipSpKeeps(s, t, Token(s, start, start).pos + 1);
        }
      }
    }
  }

  lemma TokenAtEnd(s: seq<Byte>)
    ensures Token(s, |s|, |s|).Partial?
  {
  }

  lemma StartKeeps(s: seq<Byte>, t: seq<Byte>)
    ensures Keeps(Start(s), Start(s + t))
  {
    if s != [] {
      assert (s + t)[0] == s[0];
      LineEndKeeps(s, t, 0);
    }
  }

  /** A decision about a request stands, whatever arrives after it. */
  lemma RequestKeeps(s: seq<Byte>, t: seq<Byte>, max: nat)
    ensures Keeps(ParseRequest(s, max), ParseRequest(s + t, max))
  {
    hide Start, Target, HttpVersion, LineEnd, Headers;
    StartKeeps(s, t);
    if Start(s).Done? {
      var start := Start(s).pos;
      TargetKeeps(s, t, start);
      if Target(s, start).Done? && Target(s, start).pos < |s| {
        var i := Target(s, start).pos;
        HttpVersionKeeps(s, t, i);
        if HttpVersion(s, i).Done? {
          var j := HttpVersion(s, i).pos;
          LineEndKeeps(s, t, j);
          if LineEnd(s, j).Done? {
            HeadersKeep(s, t, LineEnd(s, j).pos, [], max);
          }
        }
      }
      VersionAtEnd(s);
    }
  }

  lemma VersionAtEnd(s: seq<Byte>)
    ensures HttpVersion(s, |s|).Partial?
  {
  }

  lemma StatusKeeps(s: seq<Byte>, t: seq<Byte>, i: nat)
    requires i <= |s|
    ensures Keeps(Status(s, i), Status(s + t, i))
    ensures i == |s| ==> Status(s, i).Partial?
  {
  }

  lemma ReasonKeeps(s: seq<Byte>, t: seq<Byte>, i: nat)
    requires i <= |s|
    ensures Keeps(ReasonPhrase(s, i), ReasonPhrase(s + t, i))
  {
    ToEolKeeps(s, t, i);
    if ToEol(s, i).Done? && s[i] == SP {
      ReasonStops(s, i);
      SkipSpKeeps(s, t, i + 1);
    }
  }

  /** The spaces before a reason phrase end on its line. */
  lemma ReasonStops(s: seq<Byte>, i: nat)
    requires i <= |s| && ToEol(s, i).Done? && s[i] == SP
    ensures SkipSp(s, i + 1) <= FindEnd(s, i) < |s|
  {
    assert EndsValue(s[FindEnd(s, i)]);
  }

  lemma ResponseKeeps(s: seq<Byte>, t: seq<Byte>, max: nat)
    ensures Keeps(ParseResponse(s, max), ParseResponse(s + t, max))
  {
    hide HttpVersion, SkipSp, Status, ReasonPhrase, Headers;
    HttpVersionKeeps(s, t, 0);
    if HttpVersion(s, 0).Done? {
      var j := HttpVersion(s, 0).pos;
      SkipSpKeeps(s, t, j + 1);
      var i := SkipSp(s, j + 1);
      StatusKeeps(s, t, i);
      if Status(s, i).Done? {
        var k := Status(s, i).pos;
        ReasonKeeps(s, t, k);
        if ReasonPhrase(s, k).Done? {
          HeadersKeep(s, t, ReasonPhrase(s, k).pos, [], max);
        }
      }
    }
  }

  // ---------------------------------------------------------------- a success needs only what it consumes

  lemma {:induction false} TokenLocal(s: seq<Byte>, m: nat, start: nat, i: nat)
    requires start <= i <= |s| && m <= |s| && Token(s, start, i).Done? && Token(s, start, i).pos < m
    ensures Token(s[..m], start, i) == Token(s, start, i)
    decreases |s| - i
  {
    if s[i] != SP {
      TokenLocal(s, m, start, i + 1);
    }
  }

  lemma {:induction false} SkipSpLocal(s: seq<Byte>, m: nat, i: nat)
    requires i <= |s| && SkipSp(s, i) < m <= |s|
    ensures SkipSp(s[..m], i) == SkipSp(s, i)
    decreases |s| - i
  {
    if s[i] == SP {
      SkipSpLocal(s, m, i + 1);
    }
  }

  lemma {:induction false} SkipBlanksLocal(s: seq<Byte>, m: nat, i: nat)
    requires i <= |s| && SkipBlanks(s, i) < m <= |s|
    ensures SkipBlanks(s[..m], i) == SkipBlanks(s, i)
    decreases |s| - i
  {
    if Blank(s[i]) {
      SkipBlanksLocal(s, m, i + 1);
    }
  }

  lemma HttpVersionLocal(s: seq<Byte>, m: nat, i: nat)
    requires i <= |s| && m <= |s| && HttpVersion(s, i).Done? && HttpVersion(s, i).pos < m
    ensures HttpVersion(s[..m], i) == HttpVersion(s, i)
  {
    assert s[..m][i..i + 7] == s[i..i + 7];
  }

  lemma {:induction false} FindEndLocal(s: seq<Byte>, m: nat, i: nat)
    requires i <= |s| && FindEnd(s, i) < m <= |s|
    ensures FindEnd(s[..m], i) == FindEnd(s, i)
    decreases |s| - i
  {
    if !EndsValue(s[i]) {
      FindEndLocal(s, m, i + 1);
    }
  }

  lemma ToEolLocal(s: seq<Byte>, m: nat, i: nat)
    requires i <= |s| && ToEol(s, i).Done? && ToEol(s, i).pos <= m <= |s|
    ensures ToEol(s[..m], i) == ToEol(s, i)
  {
    FindEndLocal(s, m, i);
  }

  lemma {:induction false} NameLocal(s: seq<Byte>, m: nat, start: nat, i: nat)
    requires start <= i <= |s| && m <= |s| && Name(s, start, i).Done? && Name(s, start, i).pos < m
    ensures Name(s[..m], start, i) == Name(s, start, i)
    decreases |s| - i
  {
    if s[i] != COLON {
      NameLocal(s, m, start, i + 1);
    }
  }

  lemma ValueLocal(s: seq<Byte>, m: nat, i: nat)
    requires i <= |s| && Value(s, i).Done? && Value(s, i).pos <= m <= |s|
    ensures Value(s[..m], i) == Value(s, i)
  {
    ToEolLocal(s, m, i);
    assert s == s[..m] + s[m..];
    TrimEndKeeps(s[..m], s[m..], i, ToEol(s, i).value.len);
  }

  lemma HeaderLineLocal(s: seq<Byte>, m: nat, i: nat, first: bool)
    requires i < |s| && HeaderLine(s, i, first).Done? && HeaderLine(s, i, first).pos <= m <= |s|
    ensures HeaderLine(s[..m], i, first) == HeaderLine(s, i, first)
  {
    hide Name, Value, SkipBlanks;
    if !first && Blank(s[i]) {
      ValueLocal(s, m, i);
    } else {
      var colon := Name(s, i, i).pos;
      NameLocal(s, m, i, i);
      SkipBlanksLocal(s, m, colon + 1);
      ValueLocal(s, m, SkipBlanks(s, colon + 1));
    }
  }

  lemma {:induction false} HeadersLocal(s: seq<Byte>, m: nat, i: nat, headers: seq<Header>, max: nat)
    requires i <= |s| && |headers| <= max
    requires Headers(s, i, headers, max).Done? && Headers(s, i, headers, max).pos <= m <= |s|
    ensures Headers(s[..m], i, headers, max) == Headers(s, i, headers, max)
    decreases |s| - i
  {
    hide HeaderLine;
    if s[i] != CR && s[i] != LF {
      var line := HeaderLine(s, i, headers == []);
      HeaderLineLocal(s, m, i, headers == []);
      HeadersLocal(s, m, line.pos, headers + [line.value], max);
    }
  }

  lemma TargetLocal(s: seq<Byte>, m: nat, i: nat)
    requires i <= |s| && m <= |s| && Target(s, i).Done? && Target(s, i).pos < m
    ensures Target(s[..m], i) == Target(s, i)
  {
    hide Token, SkipSp;
    TokenLocal(s, m, i, i);
    var start := SkipSp(s, Token(s, i, i).pos + 1);
    SkipSpLocal(s, m, Token(s, i, i).pos + 1);
    TokenLocal(s, m, start, start);
    SkipSpLocal(s, m, Token(s, start, start).pos + 1);
  }

  lemma RequestLocal(s: seq<Byte>, m: nat, max: nat)
    requires ParseRequest(s, max).Done? && ParseRequest(s, max).pos <= m <= |s|
    ensures ParseRequest(s[..m], max) == ParseRequest(s, max)
  {
    hide Target, HttpVersion, Headers;
    var start := Start(s).pos;
    var i := Target(s, start).pos;
    var j := HttpVersion(s, i).pos;
    assert Start(s[..m]) == Start(s);
    TargetLocal(s, m, start);
    HttpVersionLocal(s, m, i);
    assert LineEnd(s[..m], j) == LineEnd(s, j);
    HeadersLocal(s, m, LineEnd(s, j).pos, [], max);
  }

  /**
   The parser's verdict on every prefix of a byte stream that starts with a request of n bytes:
   -2 on each prefix that is shorter, and the same n and the same spans on all others.
   */
  lemma PrefixVerdicts(s: seq<Byte>, m: nat, max: nat)
    requires ParseRequest(s, max).Done? && m <= |s|
    ensures ParseRequest(s[..m], max) == if m < ParseRequest(s, max).pos then Partial else ParseRequest(s, max)
  {
    assert s == s[..m] + s[m..];
    RequestKeeps(s[..m], s[m..], max);
    if ParseRequest(s, max).pos <= m {
      RequestLocal(s, m, max);
    }
  }

  /** A proper prefix of a response head is never refused and never taken for a whole one. */
  lemma ResponsePrefixVerdicts(s: seq<Byte>, m: nat, max: nat)
    requires ParseResponse(s, max).Done? && m < ParseResponse(s, max).pos
    ensures ParseResponse(s[..m], max).Partial?
  {
    assert s == s[..m] + s[m..];
    ResponseKeeps(s[..m], s[m..], max);
  }
}
