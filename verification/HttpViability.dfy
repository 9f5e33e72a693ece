/**
 When input can still become a request: the parser refuses as soon as no continuation can be
 accepted, and asks for more only if one can, except that it looks at an empty method only behind
 the target, and at the version only when nine bytes of it are there.
 */
module HttpViability {
  import opened Bytes
  import opened HttpSyntax
  import opened HttpStability
  import opened HttpGrammar
  import opened Options

  /** Some continuation of s is accepted. */
  ghost predicate Viable(s: seq<Byte>, max: nat) {
    exists t :: ParseRequest(s + t, max).Done?
  }

  /** The request line starts with a space, so that its method is empty. */
  predicate NoMethod(s: seq<Byte>) {
    Start(s).Done? && Start(s).pos < |s| && s[Start(s).pos] == SP
  }

  /** The request line is there up to the version, and the version is not there yet. */
  predicate VersionPending(s: seq<Byte>) {
    Start(s).Done? && Target(s, Start(s).pos).Done? && |s| < Target(s, Start(s).pos).pos + 9
  }

  /** Eight bytes or fewer that may be the beginning of HTTP/1. and a digit. */
  predicate VersionBegins(u: seq<Byte>) {
    && |u| <= 8 && u[..if |u| < 7 then |u| else 7] == Ascii("HTTP/1.")[..if |u| < 7 then |u| else 7]
    && (|u| == 8 ==> DigitByte(u[7]))
  }

  /** What is there of the version, if it stops there, may begin one. */
  predicate VersionFits(s: seq<Byte>) {
    VersionPending(s) ==> VersionBegins(s[Target(s, Start(s).pos).pos..])
  }

  const VERSION := [72, 84, 84, 80, 47, 49, 46, 48]

  // ---------------------------------------------------------------- what is missing from each part

  lemma LineEndViable(s: seq<Byte>, i: nat)
    requires i <= |s| && LineEnd(s, i).Partial?
    ensures LineEnd(s + [LF], i).Done? && LineEnd(s + [LF], i).pos == |s| + 1
  {
  }

  lemma {:induction false} FindEndViable(s: seq<Byte>, i: nat)
    requires i <= |s|
    ensures FindEnd(s + [LF], i) == FindEnd(s, i)
    decreases |s| - i
  {
    if i < |s| {
      assert (s + [LF])[i] == s[i];
      if !EndsValue(s[i]) {
        FindEndViable(s, i + 1);
      }
    }
  }

  lemma ValueViable(s: seq<Byte>, i: nat)
    requires i <= |s| && Value(s, i).Partial?
    ensures Value(s + [LF], i).Done? && Value(s + [LF], i).pos == |s| + 1
  {
    hide EndsValue, LineEnd, FindEnd, TrimEnd;
    FindEndViable(s, i);
    LineEndViable(s, FindEnd(s, i));
  }

  lemma {:induction false} NameViable(s: seq<Byte>, t: seq<Byte>, start: nat, i: nat)
    requires start <= i <= |s| && Name(s, start, i).Partial?
    ensures Name(s + ([97, COLON] + t), start, i) == Done(|s| + 1, Span(start, |s| + 1 - start))
    decreases |s| - i
  {
    var r := s + ([97, COLON] + t);
    if i < |s| {
      assert r[i] == s[i];
      NameViable(s, t, start, i + 1);
    } else {
      assert r[i] == 97 && r[i + 1] == COLON;
      assert Name(r, start, i + 1) == Done(i + 1, Span(start, i + 1 - start));
    }
  }

  lemma {:induction false} SkipBlanksViable(s: seq<Byte>, t: seq<Byte>, i: nat)
    requires i <= |s| && SkipBlanks(s, i) == |s| && t != [] && !Blank(t[0])
    ensures SkipBlanks(s + t, i) == |s|
    decreases |s| - i
  {
    if i < |s| {
      SkipBlanksViable(s, t, i + 1);
    }
  }

  lemma EmptyValue(s: seq<Byte>)
    ensures Value(s + [LF], |s|).Done? && Value(s + [LF], |s|).pos == |s| + 1
  {
    assert (s + [LF])[|s|] == LF;
  }

  lemma HeaderLineViable(s: seq<Byte>, i: nat, first: bool) returns (t: seq<Byte>)
    requires i < |s| && HeaderLine(s, i, first).Partial?
    ensures HeaderLine(s + t, i, first).Done? && HeaderLine(s + t, i, first).pos == |s + t|
  {
    hide Name, Value, SkipBlanks;
    if !first && Blank(s[i]) {
      t := [LF];
      ValueViable(s, i);
    } else if Name(s, i, i).Partial? {
      t := [97, COLON] + [LF];
      NameViable(s, [LF], i, i);
      var r := s + [97, COLON];
      assert s + t == r + [LF];
      EmptyValue(r);
      NoBlanks(r + [LF], |r|);
    } else {
      t := [LF];
      NameKeeps(s, t, i, i);
      var start := SkipBlanks(s, Name(s, i, i).pos + 1);
      if start == |s| {
        SkipBlanksViable(s, t, Name(s, i, i).pos + 1);
        EmptyValue(s);
      } else {
        SkipBlanksKeeps(s, t, Name(s, i, i).pos + 1);
        ValueViable(s, start);
      }
    }
  }

  lemma NoBlanks(s: seq<Byte>, i: nat)
    requires i < |s| && !Blank(s[i])
    ensures SkipBlanks(s, i) == i
  {
  }

  lemma {:induction false} HeadersViable(s: seq<Byte>, i: nat, hs: seq<Header>, max: nat) returns (t: seq<Byte>)
    requires i <= |s| && |hs| <= max && Headers(s, i, hs, max).Partial?
    ensures Headers(s + t, i, hs, max).Done?
    decreases |s| - i
  {
    hide HeaderLine;
    t := [LF];
    if i < |s| && s[i] != CR && s[i] != LF {
      var line := HeaderLine(s, i, hs == []);
      if line.Done? {
        t := HeadersViable(s, line.pos, hs + [line.value], max);
        HeaderLineKeeps(s, t, i, hs == []);
      } else {
        var u := HeaderLineViable(s, i, hs == []);
        t := u + [LF];
        assert s + t == (s + u) + [LF];
        HeaderLineKeeps(s + u, [LF], i, hs == []);
        LastLine(s + u, hs + [HeaderLine(s + u, i, hs == []).value], max);
      }
      assert (s + t)[i] == s[i];
    }
  }

  lemma LastLine(s: seq<Byte>, hs: seq<Header>, max: nat)
    requires |hs| <= max
    ensures Headers(s + [LF], |s|, hs, max).Done?
  {
    assert (s + [LF])[|s|] == LF;
  }

  // ---------------------------------------------------------------- the request line

  lemma RestViable(s: seq<Byte>, j: nat, target: (Span, Span), max: nat) returns (t: seq<Byte>)
    requires j <= |s| && RequestRest(s, j, target, max).Partial? && (|s| < j + 9 ==> VersionBegins(s[j..]))
    ensures RequestRest(s + t, j, target, max).Done? && (j == |s| ==> t != [] && t[0] != SP)
  {
    hide Headers, LineEnd;
    if |s| < j + 9 {
      t := VERSION[|s| - j..] + [LF, LF];
      VersionCompletes(s, j);
      NewLine(s + VERSION[|s| - j..], [LF]);
      LastLine(s + VERSION[|s| - j..] + [LF], [], max);
      assert s + t == s + VERSION[|s| - j..] + [LF] + [LF];
      assert s + t == s + VERSION[|s| - j..] + ([LF] + [LF]);
    } else {
      var k := HttpVersion(s, j).pos;
      if LineEnd(s, k).Partial? {
        t := [LF, LF];
        HttpVersionKeeps(s, t, j);
        LineEndViable(s, k);
        LineEndKeeps(s + [LF], [LF], k);
        assert s + t == s + [LF] + [LF];
        LastLine(s + [LF], [], max);
      } else {
        t := HeadersViable(s, LineEnd(s, k).pos, [], max);
        HttpVersionKeeps(s, t, j);
        LineEndKeeps(s, t, k);
      }
    }
  }

  lemma NewLine(s: seq<Byte>, t: seq<Byte>)
    ensures LineEnd(s + ([LF] + t), |s|).Done? && LineEnd(s + ([LF] + t), |s|).pos == |s| + 1
  {
    assert (s + ([LF] + t))[|s|] == LF;
  }

  lemma VersionCompletes(s: seq<Byte>, j: nat)
    requires j <= |s| < j + 9 && VersionBegins(s[j..])
    ensures var r := s + (VERSION[|s| - j..] + [LF, LF]); HttpVersion(r, j).Done? && |s + VERSION[|s| - j..]| == j + 8
  {
    var u := s[j..];
    var v := u + VERSION[|u|..];
    var r := s + (VERSION[|u|..] + [LF, LF]);
    BeginsVersion(u);
    assert r[j..] == v + [LF, LF];
    assert r[j..j + 7] == v[..7];
    assert r[j + 7] == r[j..][7] == v[7];
  }

  lemma BeginsVersion(u: seq<Byte>)
    requires VersionBegins(u)
    ensures var v := u + VERSION[|u|..];
            |v| == 8 && v[..7] == [72, 84, 84, 80, 47, 49, 46] && DigitByte(v[7])
  {
    var m := if |u| < 7 then |u| else 7;
    assert Ascii("HTTP/1.") == VERSION[..7] == [72, 84, 84, 80, 47, 49, 46];
    assert u[..m] == VERSION[..7][..m] == VERSION[..m];
    assert forall k :: 0 <= k < m ==> u[k] == u[..m][k] == VERSION[..m][k] == VERSION[k];
    var v := u + VERSION[|u|..];
    assert forall k :: 0 <= k < 7 ==> v[k] == VERSION[k];
  }

  lemma {:induction false} TokenViable(s: seq<Byte>, t: seq<Byte>, start: nat, i: nat)
    requires start <= i <= |s| && Token(s, start, i).Partial?
    ensures Token(s + ([65, SP] + t), start, i) == Done(|s| + 1, Span(start, |s| + 1 - start))
    decreases |s| - i
  {
    var r := s + ([65, SP] + t);
    if i < |s| {
      assert r[i] == s[i];
      TokenViable(s, t, start, i + 1);
    } else {
      assert r[i] == 65 && r[i + 1] == SP;
      assert Token(r, start, i + 1) == Done(i + 1, Span(start, i + 1 - start));
    }
  }

  lemma {:induction false} SkipSpViable(s: seq<Byte>, t: seq<Byte>, i: nat)
    requires i <= |s| && SkipSp(s, i) == |s| && t != [] && t[0] != SP
    ensures SkipSp(s + t, i) == |s|
    decreases |s| - i
  {
    if i < |s| {
      SkipSpViable(s, t, i + 1);
    }
  }

  lemma NoSpace(s: seq<Byte>, i: nat)
    requires i < |s| && s[i] != SP
    ensures SkipSp(s, i) == i
  {
  }

  /** The target is completed by a path, or by a method and a path. */
  lemma TargetViable(s: seq<Byte>, i: nat) returns (t: seq<Byte>)
    requires i <= |s| && Target(s, i).Partial? && (i < |s| ==> s[i] != SP)
    ensures Target(s + t, i).Done? && Target(s + t, i).pos == |s + t|
  {
    hide Token, SkipSp;
    if Token(s, i, i).Partial? {
      t := [65, SP] + [65, SP];
      TokenViable(s, [65, SP], i, i);
      var r := s + [65, SP];
      assert s + t == r + ([65, SP] + []);
      NoSpace(s + t, |r|);
      AtEnd(r);
      TokenViable(r, [], |r|, |r|);
      AtEnd(s + t);
    } else {
      t := [65, SP];
      var end := Token(s, i, i).pos;
      TokenKeeps(s, t, i, i);
      NotEmpty(s, i);
      var start := SkipSp(s, end + 1);
      if start < |s| {
        SkipSpKeeps(s, t, end + 1);
      } else {
        SkipSpViable(s, t, end + 1);
        AtEnd(s);
      }
      assert t == [65, SP] + [];
      TokenViable(s, [], start, start);
      AtEnd(s + t);
    }
  }

  lemma AtEnd(s: seq<Byte>)
    ensures SkipSp(s, |s|) == |s| && Token(s, |s|, |s|).Partial?
  {
  }

  lemma NotEmpty(s: seq<Byte>, i: nat)
    requires i < |s| && s[i] != SP && Token(s, i, i).Done?
    ensures Token(s, i, i).value.len > 0
  {
  }

  /** A target that reaches to the end of the input stays as it is when the version follows. */
  lemma TargetStays(s: seq<Byte>, t: seq<Byte>, i: nat)
    requires i <= |s| && Target(s, i).Done? && Target(s, i).pos == |s| && t != [] && t[0] != SP
    ensures Target(s + t, i) == Target(s, i)
  {
    hide Token, SkipSp;
    TargetKeeps(s, t, i);
    var end := Token(s, i, i).pos;
    var start := SkipSp(s, end + 1);
    TokenKeeps(s, t, i, i);
    if start == |s| { AtEnd(s); }
    SkipSpKeeps(s, t, end + 1);
    TokenKeeps(s, t, start, start);
    SkipSpViable(s, t, Token(s, start, start).pos + 1);
  }

  // ---------------------------------------------------------------- the whole request

  lemma FromTarget(s: seq<Byte>, max: nat) returns (t: seq<Byte>)
    requires Start(s).Done? && Target(s, Start(s).pos).Done? && ParseRequest(s, max).Partial?
    requires VersionFits(s)
    ensures ParseRequest(s + t, max).Done?
  {
    hide Target, RequestRest, Start;
    var i := Start(s).pos;
    var r := Target(s, i);
    t := RestViable(s, r.pos, r.value, max);
    StartKeeps(s, t);
    if r.pos < |s| {
      TargetKeeps(s, t, i);
    } else {
      TargetStays(s, t, i);
    }
  }

  lemma FromStart(s: seq<Byte>, max: nat) returns (t: seq<Byte>)
    requires Start(s).Done? && Target(s, Start(s).pos).Partial? && !NoMethod(s)
    ensures ParseRequest(s + t, max).Done?
  {
    hide Target, RequestRest, Start;
    var i := Start(s).pos;
    var u := TargetViable(s, i);
    StartKeeps(s, u);
    var r := s + u;
    assert r[|r|..] == [];
    BeginsEmpty();
    VersionMissing(r, |r|, Target(r, i).value, max);
    var v := FromTarget(r, max);
    t := u + v;
    assert s + t == r + v;
  }

  lemma BeginsEmpty()
    ensures VersionBegins([])
  {
  }

  lemma VersionMissing(s: seq<Byte>, j: nat, target: (Span, Span), max: nat)
    requires j == |s|
    ensures RequestRest(s, j, target, max).Partial?
  {
  }

  /** More is asked for only where something can still come of it. */
  lemma PartialIsViable(s: seq<Byte>, max: nat) returns (t: seq<Byte>)
    requires ParseRequest(s, max).Partial? && !NoMethod(s)
    requires VersionFits(s)
    ensures ParseRequest(s + t, max).Done?
  {
    hide Target, RequestRest;
    if Start(s).Done? {
      if Target(s, Start(s).pos).Done? {
        t := FromTarget(s, max);
      } else {
        t := FromStart(s, max);
      }
    } else {
      var u := if s == [] then [65] else [LF];
      var r := s + u;
      OneMore(s, u);
      var v := FromStart(r, max);
      t := u + v;
      assert s + t == r + v;
    }
  }

  lemma OneMore(s: seq<Byte>, u: seq<Byte>)
    requires Start(s).Partial? && u == if s == [] then [65] else [LF]
    ensures var r := s + u; Start(r).Done? && Target(r, Start(r).pos).Partial? && !NoMethod(r)
  {
    var r := s + u;
    if s == [] {
      assert r == [65];
      assert Token(r, 0, 1).Partial?;
    } else {
      assert r == [CR, LF];
      AtEnd(r);
    }
  }

  /** What begins a version in a longer text begins it here. */
  lemma VersionWithin(s: seq<Byte>, t: seq<Byte>, j: nat)
    requires j <= |s| < j + 9 && HttpVersion(s + t, j).Done?
    ensures VersionBegins(s[j..])
  {
    var r, n := s + t, |s| - j;
    assert Ascii("HTTP/1.") == [72, 84, 84, 80, 47, 49, 46];
    assert r[j..j + 7] == Ascii("HTTP/1.");
    var m := if n < 7 then n else 7;
    assert s[j..][..m] == r[j..j + 7][..m];
    if n == 8 { assert s[j..][7] == r[j + 7]; }
  }

  lemma SpaceIsNoMethod(s: seq<Byte>, t: seq<Byte>, max: nat)
    requires NoMethod(s)
    ensures !ParseRequest(s + t, max).Done?
  {
    StartKeeps(s, t);
    var i := Start(s).pos;
    assert (s + t)[i] == SP;
    assert Token(s + t, i, i) == Done(i, Span(i, 0));
  }

  lemma DoneIsViable(s: seq<Byte>, t: seq<Byte>, max: nat)
    requires ParseRequest(s + t, max).Done?
    ensures VersionFits(s)
  {
    hide Target, HttpVersion, Headers, LineEnd;
    if !VersionPending(s) { return; }
    StartKeeps(s, t);
    var i := Start(s).pos;
    var j := Target(s, i).pos;
    if j < |s| {
      TargetKeeps(s, t, i);
      VersionWithin(s, t, j);
    } else {
      assert s[j..] == [];
      BeginsEmpty();
    }
  }

  /**
   Some continuation of the input is accepted exactly if the input is not refused, its request line
   does not start with a space, and what is there of the version, if it stops there, may begin one.
   */
  lemma ViableIff(s: seq<Byte>, max: nat)
    ensures Viable(s, max) <==> !ParseRequest(s, max).Invalid? && !NoMethod(s) && VersionFits(s)
  {
    hide ParseRequest, NoMethod, VersionFits;
    if t :| ParseRequest(s + t, max).Done? {
      RequestKeeps(s, t, max);
      if NoMethod(s) { SpaceIsNoMethod(s, t, max); }
      DoneIsViable(s, t, max);
    }
    if ParseRequest(s, max).Done? {
      assert s + [] == s;
      assert ParseRequest(s + [], max).Done?;
    } else if ParseRequest(s, max).Partial? && !NoMethod(s) && VersionFits(s) {
      var t := PartialIsViable(s, max);
    }
  }
}
