/**
 The code's chunk reader against the exact one. http_chunk hands strtoull all that follows the
 size line, and adds up the end of the chunk modulo 2^64. Inputs are shorter than 2^63 bytes, as
 every object in memory is.
 */
module ChunkArithmetic {
  import opened Bytes
  import opened Words
  import opened Numbers
  import opened H = Dechunk

  // ---------------------------------------------------------------- when the wrap-around does not matter

  /** The end of the first chunk fits 64 bits, or wraps to something that is incomplete as well. */
  predicate SizeFits(s: seq<Byte>) {
    var e := Find(s, 0, LF);
    e < |s| ==>
      var end := e + 1 + StrToUll(s, 16) + 2;
      end <= WORD_SIZE || |s| < end - WORD_SIZE
  }

  /** The same at every size line that an exact walk meets. */
  predicate SizesFit(s: seq<Byte>)
    decreases |s|
  {
    var c := HttpChunk(s, Everything);
    SizeFits(s) && (c.n > 0 && c.size > 0 ==> SizesFit(s[c.n..]))
  }

  lemma ChunkIsExactIff(s: seq<Byte>)
    requires |s| < HALF_WORD
    ensures HttpChunk(s, Wrapping) == HttpChunk(s, Everything) <==> SizeFits(s)
  {
    hide StrToUll;
  }

  /** What remains when it does matter: the wrapped length is counted. */
  lemma WrappedChunk(s: seq<Byte>)
    requires |s| < HALF_WORD && !SizeFits(s)
    ensures var c := HttpChunk(s, Wrapping); c.n > 0 && c.size > 0 && !c.Exact()
    ensures HttpChunk(s, Everything).n == 0
  {
    hide StrToUll;
  }

  lemma {:induction false} SizesFitExact(s: seq<Byte>)
    requires |s| < HALF_WORD && SizesFit(s)
    ensures H.Dechunk(s, Wrapping) == H.Dechunk(s, Everything)
    decreases |s|
  {
    hide HttpChunk, H.Dechunk, SizeFits;
    ChunkIsExactIff(s);
    DechunkStep(s, Wrapping);
    DechunkStep(s, Everything);
    var c := HttpChunk(s, Everything);
    if c.n > 0 && c.size > 0 {
      SizesFitExact(s[c.n..]);
    }
  }

  lemma {:induction false} WrappedSize(s: seq<Byte>)
    requires |s| < HALF_WORD && !SizesFit(s)
    ensures !H.Dechunk(s, Wrapping).Complete? && H.Dechunk(s, Everything) == Incomplete
    decreases |s|
  {
    hide HttpChunk, H.Dechunk, SizeFits;
    DechunkStep(s, Wrapping);
    DechunkStep(s, Everything);
    if SizeFits(s) {
      ChunkIsExactIff(s);
      WrappedSize(s[HttpChunk(s, Everything).n..]);
    } else {
      WrappedChunk(s);
    }
  }

  /**
   http_dechunk computes what exact arithmetic would exactly if, once its first pass has found an
   end, no size on the way made a length wrap.
   */
  lemma DechunkIsExactIff(s: seq<Byte>)
    requires |s| < HALF_WORD
    ensures H.Dechunk(s, Wrapping) == H.Dechunk(s, Everything) <==> (Extent(s, Wrapping) > 0 ==> SizesFit(s))
  {
    hide H.Dechunk, Extent, SizesFit;
    ExtentIs(s, Wrapping);
    if SizesFit(s) {
      SizesFitExact(s);
    } else {
      WrappedSize(s);
    }
  }

  /** A complete body has no size that wrapped. */
  lemma CompleteIsExact(s: seq<Byte>)
    requires |s| < HALF_WORD
    ensures H.Dechunk(s, Wrapping).Complete? ==> H.Dechunk(s, Everything) == H.Dechunk(s, Wrapping)
    ensures H.Dechunk(s, Everything).Complete? ==> H.Dechunk(s, Wrapping) == H.Dechunk(s, Everything)
  {
    hide H.Dechunk, SizesFit;
    if SizesFit(s) {
      SizesFitExact(s);
    } else {
      WrappedSize(s);
    }
  }

  /** -1 is read as 2^64 - 1: a chunk of four bytes is counted that claims all of memory. */
  lemma MinusOneOverruns()
    ensures var s := [45, 49, LF, 65];
            && HttpChunk(s, Wrapping) == Span(4, 3, WORD_SIZE - 1)
            && HttpChunk(s, Everything) == Span(0, 3, WORD_SIZE - 1)
            && H.Dechunk(s, Wrapping) == Incomplete
            && H.Dechunk(s + [48, LF, CR, LF], Wrapping) == Overrun
            && H.Dechunk(s + [48, LF, CR, LF], Everything) == Incomplete
  {
    hide StrToUll, H.Dechunk, HttpChunk;
    var last := [48, LF, CR, LF];
    MinusOneChunk([]);
    MinusOneChunk(last);
    var s := [45, 49, LF, 65];
    assert s + [] == s;
    EmptyChunk();
    DechunkStep(s, Wrapping);
    DechunkStep(s + last, Wrapping);
    DechunkStep(s + last, Everything);
    DechunkStep([], Wrapping);
    DechunkStep(last, Wrapping);
    NoLineNoChunk([]);
    assert s[4..] == [] && (s + last)[4..] == last;
    assert HttpChunk([], Wrapping).n == 0;
  }

  lemma MinusOneChunk(t: seq<Byte>)
    requires |t| < 10
    ensures var s := [45, 49, LF, 65] + t;
            && HttpChunk(s, Wrapping) == Span(4, 3, WORD_SIZE - 1)
            && HttpChunk(s, Everything) == Span(0, 3, WORD_SIZE - 1)
  {
    var s := [45, 49, LF, 65] + t;
    assert s[0] == 45 && s[1] == 49 && s[2] == LF;
    assert SkipSpaces(s, 0) == 0 && NumberStart(s, 16) == 1 && Negative(s);
    assert SkipDigits(s, 2, 16) == 2 && SkipDigits(s, 1, 16) == 2;
    assert DigitsValue(s, 1, 1, 16) == 0 && DigitsValue(s, 1, 2, 16) == 1;
    assert StrToUll(s, 16) == WORD_SIZE - 1;
    assert Find(s, 2, LF) == 2 && Find(s, 1, LF) == 2 && Find(s, 0, LF) == 2;
  }

  lemma EmptyChunk()
    ensures HttpChunk([48, LF, CR, LF], Wrapping) == Span(4, 2, 0)
  {
    var s := [48, LF, CR, LF];
    assert SkipSpaces(s, 0) == 0 && NumberStart(s, 16) == 0;
    assert SkipDigits(s, 1, 16) == 1 && SkipDigits(s, 0, 16) == 1;
    assert DigitsValue(s, 0, 0, 16) == 0 && DigitsValue(s, 0, 1, 16) == 0;
    assert Find(s, 1, LF) == 1 && Find(s, 0, LF) == 1;
  }

  // ---------------------------------------------------------------- prefix stability of the code's reader

  /**
   A counted chunk is stable under every extension exactly if the size number ends inside the
   bytes that are there, or is so large that no further digit counts.
   */
  lemma ChunkStableIff(s: seq<Byte>)
    requires HttpChunk(s, Wrapping).n > 0
    ensures (forall t :: HttpChunk(s + t, Wrapping) == HttpChunk(s, Wrapping))
            <==> NumberEnd(s, 16) < |s| || Saturated(s)
  {
    hide StrToUll, NumberEnd, Find, Saturated;
    if NumberEnd(s, 16) < |s| || Saturated(s) {
      forall t
        ensures HttpChunk(s + t, Wrapping) == HttpChunk(s, Wrapping)
      {
        FindExtend(s, t, 0, LF);
        if NumberEnd(s, 16) < |s| {
          StrToUllExtend(s, t, 16);
        } else {
          SaturatedStays(s, t);
        }
      }
    } else {
      FindExtend(s, [49], 0, LF);
      LongerNumber(s);
      assert HttpChunk(s + [49], Wrapping).size != HttpChunk(s, Wrapping).size;
    }
  }

  lemma ChunkKeeps(s: seq<Byte>, t: seq<Byte>)
    requires HttpChunk(s, Wrapping).n > 0 && NumberEnd(s, 16) < |s|
    ensures HttpChunk(s + t, Wrapping) == HttpChunk(s, Wrapping)
  {
    hide HttpChunk, NumberEnd, Saturated;
    ChunkStableIff(s);
  }

  /** A coded body that is complete stays so under every extension if all its size numbers end. */
  lemma {:induction false} NumbersEndKeeps(s: seq<Byte>, t: seq<Byte>)
    requires |s| < HALF_WORD && H.Dechunk(s, Wrapping).Complete? && NumbersEnd(s)
    ensures H.Dechunk(s + t, Wrapping) == H.Dechunk(s, Wrapping)
    decreases |s|
  {
    hide HttpChunk, H.Dechunk, NumberEnd, SizeFits;
    CompleteIsExact(s);
    DechunkStep(s, Wrapping);
    DechunkStep(s, Everything);
    var c := HttpChunk(s, Wrapping);
    if !SizeFits(s) { WrappedChunk(s); }
    ChunkIsExactIff(s);
    ChunkKeeps(s, t);
    DechunkStep(s + t, Wrapping);
    if c.size > 0 {
      assert (s + t)[c.n..] == s[c.n..] + t;
      assert (s + t)[c.start..c.start + c.size] == s[c.start..c.start + c.size];
      NumbersEndKeeps(s[c.n..], t);
    }
  }

  /** Otherwise one more digit makes the body longer, or no body at all. */
  lemma NumbersRunOn(s: seq<Byte>)
    requires |s| < HALF_WORD - 1 && H.Dechunk(s, Wrapping).Complete? && !NumbersEnd(s)
    ensures var r := H.Dechunk(s + [49], Wrapping); r.Complete? ==> |r.body| > |H.Dechunk(s, Wrapping).body|
  {
    hide H.Dechunk, NumbersEnd;
    CompleteIsExact(s);
    CompleteIsExact(s + [49]);
    OneMoreDigit(s);
  }

  /** http_dechunk: a complete body is stable under every extension exactly if all its size numbers end. */
  lemma DechunkStableIff(s: seq<Byte>)
    requires |s| < HALF_WORD - 1 && H.Dechunk(s, Wrapping).Complete?
    ensures (forall t :: H.Dechunk(s + t, Wrapping) == H.Dechunk(s, Wrapping)) <==> NumbersEnd(s)
  {
    hide H.Dechunk, NumbersEnd;
    if NumbersEnd(s) {
      forall t
        ensures H.Dechunk(s + t, Wrapping) == H.Dechunk(s, Wrapping)
      {
        NumbersEndKeeps(s, t);
      }
    } else {
      NumbersRunOn(s);
    }
  }

  // ---------------------------------------------------------------- plain bodies

  /** No size line is blank, and every size fits. */
  ghost predicate PlainBody(s: seq<Byte>) {
    NoBlankLines(s) && SizesFit(s)
  }

  /** On those the code's reading is the exact reading of the size lines. */
  lemma PlainBodyExact(s: seq<Byte>)
    requires |s| < HALF_WORD && PlainBody(s)
    ensures H.Dechunk(s, Wrapping) == H.Dechunk(s, Line)
  {
    hide H.Dechunk, NoBlankLines, SizesFit;
    SizesFitExact(s);
    ReadingsAgree(s);
  }

  lemma {:induction false} SizesFitPrefix(s: seq<Byte>, t: seq<Byte>)
    requires NoBlankLines(s + t) && SizesFit(s + t)
    ensures SizesFit(s)
    decreases |s|
  {
    hide HttpChunk, SizeFits, NoBlankLines, Find;
    NoLineNoChunk(s);
    if Find(s, 0, LF) < |s| {
      NoBlankPrefix(s, t);
      FirstSizeKeeps(s, t);
      FirstSizeFits(s, t);
      var c := HttpChunk(s, Everything);
      if c.n > 0 && c.size > 0 {
        assert (s + t)[c.n..] == s[c.n..] + t;
        SizesFitPrefix(s[c.n..], t);
      }
    } else {
      NoSizeFits(s);
    }
  }

  lemma FirstSizeFits(s: seq<Byte>, t: seq<Byte>)
    requires Find(s + t, 0, LF) == Find(s, 0, LF) < |s| && StrToUll(s + t, 16) == StrToUll(s, 16) && SizeFits(s + t)
    ensures SizeFits(s)
  {
    hide Find, StrToUll;
  }

  lemma NoSizeFits(s: seq<Byte>)
    requires Find(s, 0, LF) == |s|
    ensures SizeFits(s)
  {
  }

  lemma FirstSizeKeeps(s: seq<Byte>, t: seq<Byte>)
    requires NoBlankLines(s) && NoBlankLines(s + t) && Find(s, 0, LF) < |s|
    ensures Find(s + t, 0, LF) == Find(s, 0, LF) && StrToUll(s + t, 16) == StrToUll(s, 16)
    ensures HttpChunk(s, Everything).n > 0 ==> HttpChunk(s + t, Everything) == HttpChunk(s, Everything)
    ensures HttpChunk(s, Everything).n > 0 && HttpChunk(s, Everything).size > 0 ==>
              NoBlankLines((s + t)[HttpChunk(s, Everything).n..])
  {
    hide HttpChunk, StrToUll, Find;
    FindExtend(s, t, 0, LF);
    NonBlankStep(s + t);
    var k :| 0 <= k < Find(s, 0, LF) && !IsSpace(s[k]);
    NonBlankLine(s, k);
    StrToUllExtend(s, t, 16);
    if HttpChunk(s, Everything).n > 0 {
      ChunkExtend(s, t);
      NonBlankStep(s);
    }
  }
}
