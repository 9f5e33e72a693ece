/**
 The quick check that a head is complete (is_complete) is transparent: it never turns away bytes
 that the full parser would accept, although it starts three bytes before the old end.
 */
module HttpComplete {
  import opened Bytes
  import opened HttpSyntax

  /** Within s[a..b] every CR is directly followed by LF. */
  ghost predicate Paired(s: seq<Byte>, a: nat, b: nat) {
    b <= |s| && forall k :: a <= k < b && s[k] == CR ==> k + 1 < b && s[k + 1] == LF
  }

  /** s[a..b] is made of whole lines. */
  ghost predicate Lines(s: seq<Byte>, a: nat, b: nat) {
    Paired(s, a, b) && (a < b ==> s[b - 1] == LF)
  }

  lemma {:induction false} TokenHasNoCr(s: seq<Byte>, start: nat, i: nat)
    requires start <= i <= |s| && Token(s, start, i).Done?
    ensures Paired(s, i, Token(s, start, i).pos)
    decreases |s| - i
  {
    if s[i] != SP {
      TokenHasNoCr(s, start, i + 1);
    }
  }

  lemma {:induction false} NameHasNoCr(s: seq<Byte>, start: nat, i: nat)
    requires start <= i <= |s| && Name(s, start, i).Done?
    ensures Paired(s, i, Name(s, start, i).pos)
    decreases |s| - i
  {
    if s[i] != COLON {
      NameHasNoCr(s, start, i + 1);
    }
  }

  lemma {:induction false} BlanksHaveNoCr(s: seq<Byte>, i: nat)
    requires i <= |s|
    ensures Paired(s, i, SkipBlanks(s, i))
    decreases |s| - i
  {
    if i < |s| && Blank(s[i]) {
      BlanksHaveNoCr(s, i + 1);
    }
  }

  lemma ValueIsLine(s: seq<Byte>, i: nat)
    requires i <= |s| && Value(s, i).Done?
    ensures Lines(s, i, Value(s, i).pos)
  {
    var k := FindEnd(s, i);
    assert forall j :: i <= j < k ==> !EndsValue(s[j]);
  }

  lemma HeaderIsLine(s: seq<Byte>, i: nat, first: bool)
    requires i < |s| && HeaderLine(s, i, first).Done?
    ensures Lines(s, i, HeaderLine(s, i, first).pos)
  {
    hide Name, SkipBlanks, Value;
    if !first && Blank(s[i]) {
      ValueIsLine(s, i);
    } else {
      NameHasNoCr(s, i, i);
      var colon := Name(s, i, i).pos;
      BlanksHaveNoCr(s, colon + 1);
      ValueIsLine(s, SkipBlanks(s, colon + 1));
    }
  }

  /** A header block is whole lines up to the blank line at q that ends it. */
  lemma {:induction false} HeadersAreLines(s: seq<Byte>, i: nat, headers: seq<Header>, max: nat) returns (q: nat)
    requires i <= |s| && |headers| <= max && Headers(s, i, headers, max).Done?
    ensures i <= q < |s| && Lines(s, i, q) && (q == i <==> Headers(s, i, headers, max).value == headers)
    ensures LineEnd(s, q).Done? && LineEnd(s, q).pos == Headers(s, i, headers, max).pos
    decreases |s| - i
  {
    hide HeaderLine;
    if s[i] == CR || s[i] == LF {
      q := i;
    } else {
      var line := HeaderLine(s, i, headers == []);
      HeaderIsLine(s, i, headers == []);
      q := HeadersAreLines(s, line.pos, headers + [line.value], max);
    }
  }

  /** The scan meets the blank line that follows whole lines, or an earlier one. */
  lemma {:induction false} ScanFinds(s: seq<Byte>, i: nat, count: nat, q: nat)
    requires i <= q < |s| && count < 2 && Lines(s, i, q) && LineEnd(s, q).Done? && (s[q] == CR || s[q] == LF)
    requires i == q ==> count == 1
    ensures BlankLine(s, i, count).Done?
    decreases q - i
  {
    if i < q {
      if s[i] == CR {
        ScanFinds(s, i + 2, 1, q);
      } else if s[i] == LF {
        ScanFinds(s, i + 1, 1, q);
      } else {
        ScanFinds(s, i + 1, 0, q);
      }
    }
  }

  /** A head of whole lines passes the check for every earlier length that was tried. */
  lemma LinesPass(s: seq<Byte>, q: nat, lastLen: nat)
    requires 0 < q < |s| && Lines(s, 0, q) && LineEnd(s, q).Done? && lastLen < LineEnd(s, q).pos
    ensures IsComplete(s, lastLen).Done?
  {
    ScanFinds(s, if lastLen < 3 then 0 else lastLen - 3, 0, q);
  }

  lemma TargetHasNoCr(s: seq<Byte>, start: nat)
    requires start <= |s| && Target(s, start).Done?
    ensures Paired(s, start, Target(s, start).pos)
  {
    hide Token, SkipSp;
    TokenHasNoCr(s, start, start);
    var end := Token(s, start, start).pos;
    var next := SkipSp(s, end + 1);
    TokenHasNoCr(s, next, next);
    assert Paired(s, end, next);
  }

  lemma RequestIsLines(s: seq<Byte>, max: nat) returns (q: nat)
    requires ParseRequest(s, max).Done?
    ensures 0 < q < |s| && Lines(s, 0, q) && LineEnd(s, q).Done? && LineEnd(s, q).pos == ParseRequest(s, max).pos
  {
    hide Target, HttpVersion, Headers;
    var start := Start(s).pos;
    TargetHasNoCr(s, start);
    var i := Target(s, start).pos;
    VersionHasNoCr(s, i);
    var k := LineEnd(s, i + 8).pos;
    assert Lines(s, 0, k);
    q := HeadersAreLines(s, k, [], max);
  }

  lemma VersionHasNoCr(s: seq<Byte>, i: nat)
    requires i <= |s| && HttpVersion(s, i).Done?
    ensures Paired(s, i, i + 8)
  {
    assert forall k :: i <= k < i + 7 ==> s[k] == s[i..i + 7][k - i];
  }

  lemma ReasonIsLine(s: seq<Byte>, i: nat)
    requires i <= |s| && ReasonPhrase(s, i).Done?
    ensures Lines(s, i, ReasonPhrase(s, i).pos)
  {
    var k := FindEnd(s, i);
    assert forall j :: i <= j < k ==> !EndsValue(s[j]);
  }

  lemma ResponseIsLines(s: seq<Byte>, max: nat) returns (q: nat)
    requires ParseResponse(s, max).Done?
    ensures 0 < q < |s| && Lines(s, 0, q) && LineEnd(s, q).Done? && LineEnd(s, q).pos == ParseResponse(s, max).pos
  {
    hide SkipSp, Headers, ReasonPhrase;
    VersionHasNoCr(s, 0);
    var i := SkipSp(s, 9);
    assert Paired(s, 8, i);
    ReasonIsLine(s, i + 3);
    var m := ReasonPhrase(s, i + 3).pos;
    assert Lines(s, 0, m);
    q := HeadersAreLines(s, m, [], max);
  }

  /** Trying again with an earlier length gives what a first try on all the bytes gives. */
  lemma RequestCheckIsTransparent(s: seq<Byte>, max: nat, lastLen: nat)
    requires ParseRequest(s, max).Done? && lastLen < ParseRequest(s, max).pos
    ensures ParseRequestAgain(s, max, lastLen) == ParseRequest(s, max)
  {
    hide ParseRequest, IsComplete;
    var q := RequestIsLines(s, max);
    LinesPass(s, q, lastLen);
  }

  lemma ResponseCheckIsTransparent(s: seq<Byte>, max: nat, lastLen: nat)
    requires ParseResponse(s, max).Done? && lastLen < ParseResponse(s, max).pos
    ensures ParseResponseAgain(s, max, lastLen) == ParseResponse(s, max)
  {
    hide ParseResponse, IsComplete;
    var q := ResponseIsLines(s, max);
    LinesPass(s, q, lastLen);
  }

  /** A line end at position i, or a blank line further on that the scan reaches: no CR is alone before it. */
  ghost predicate BlankLineAhead(s: seq<Byte>, i: nat)
    requires i <= |s|
  {
    LineEnd(s, i).Done? || exists q: nat :: i <= q && TwoLineEnds(s, i, q)
  }

  ghost predicate TwoLineEnds(s: seq<Byte>, i: nat, q: nat) {
    q < |s| && Paired(s, i, q) && LineEnd(s, q).Done? && LineEnd(s, LineEnd(s, q).pos).Done?
  }

  lemma {:induction false} ScanReaches(s: seq<Byte>, i: nat, count: nat, q: nat)
    requires i <= q && count < 2 && TwoLineEnds(s, i, q)
    ensures BlankLine(s, i, count).Done?
    decreases q - i
  {
    if i < q {
      if s[i] == CR {
        ScanReaches(s, i + 2, 1, q);
      } else {
        ScanReaches(s, i + 1, if s[i] == LF then 1 else 0, q);
      }
    }
  }

  /** A scan that succeeds has met a line end at once, if one came before it, or a blank line. */
  lemma {:induction false} ScanMet(s: seq<Byte>, i: nat, count: nat)
    requires i <= |s| && count < 2 && BlankLine(s, i, count).Done?
    ensures (count == 1 && LineEnd(s, i).Done?) || exists q: nat :: i <= q && TwoLineEnds(s, i, q)
    decreases |s| - i
  {
    if s[i] == CR || s[i] == LF {
      if count == 0 {
        var pos := LineEnd(s, i).pos;
        ScanMet(s, pos, 1);
        if LineEnd(s, pos).Done? {
          assert TwoLineEnds(s, i, i);
        } else {
          var q: nat :| pos <= q && TwoLineEnds(s, pos, q);
          assert TwoLineEnds(s, i, q);
        }
      }
    } else {
      ScanMet(s, i + 1, 0);
      var q: nat :| i + 1 <= q && TwoLineEnds(s, i + 1, q);
      assert TwoLineEnds(s, i, q);
    }
  }

  lemma BlankLineAheadIff(s: seq<Byte>, i: nat)
    requires i <= |s|
    ensures BlankLine(s, i, 1).Done? <==> BlankLineAhead(s, i)
  {
    if BlankLine(s, i, 1).Done? {
      ScanMet(s, i, 1);
    } else if !LineEnd(s, i).Done? {
      forall q: nat | i <= q
        ensures !TwoLineEnds(s, i, q)
      {
        if TwoLineEnds(s, i, q) {
          ScanReaches(s, i, 1, q);
        }
      }
    }
  }

  /**
   A bare header block has no line before it, so the check starts inside it. It is transparent
   exactly if the block holds a header, or, for the empty block CR LF, if another line end or a
   blank line follows.
   */
  lemma HeadersCheckIsTransparentIff(s: seq<Byte>, max: nat, lastLen: nat)
    requires Headers(s, 0, [], max).Done? && 0 < lastLen < Headers(s, 0, [], max).pos
    ensures ParseHeadersAgain(s, max, lastLen) == Headers(s, 0, [], max) <==>
            Headers(s, 0, [], max).value != [] || (2 <= |s| && BlankLineAhead(s, 2))
  {
    hide Headers, BlankLineAhead;
    var q := HeadersAreLines(s, 0, [], max);
    if q > 0 {
      LinesPass(s, q, lastLen);
    } else {
      assert |s| >= 2 && lastLen == 1 && s[0] == CR && s[1] == LF;
      assert BlankLine(s, 0, 0) == BlankLine(s, 2, 1);
      BlankLineAheadIff(s, 2);
    }
  }

  /** The empty block of which one byte was tried before: turned away alone, and when a letter follows. */
  lemma EmptyBlockTurnedAway(max: nat)
    ensures Headers([CR, LF], 0, [], max) == Done(2, []) && ParseHeadersAgain([CR, LF], max, 1) == Partial
    ensures Headers([CR, LF, 65], 0, [], max) == Done(2, []) && ParseHeadersAgain([CR, LF, 65], max, 1) == Partial
    ensures ParseHeadersAgain([CR, LF, CR, LF], max, 1) == Headers([CR, LF, CR, LF], 0, [], max)
  {
    var s, t, u := [CR, LF], [CR, LF, 65], [CR, LF, CR, LF];
    assert BlankLine(s, 2, 1).Partial? && BlankLine(s, 0, 0) == BlankLine(s, 2, 1);
    assert BlankLine(t, 3, 0).Partial? && BlankLine(t, 2, 1).Partial? && BlankLine(t, 0, 0) == BlankLine(t, 2, 1);
    assert BlankLine(u, 0, 0) == BlankLine(u, 2, 1);
  }
}
