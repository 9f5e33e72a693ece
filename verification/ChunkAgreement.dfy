/**
 The two chunk readers on the chunked bodies of section 7.1 of RFC 9112 without a trailer section:
 each size line and each chunk ends in CR LF, and an extension starts with ; or white space.
 Both give the same body and use the same bytes exactly if no size is written with more than 16
 digits; the server's reader takes any number of leading zeros, the decoder does not.
 */
module ChunkAgreement {
  import opened Bytes
  import opened Words
  import opened Numbers
  import opened ChunkGrammar
  import D = ChunkDecoder
  import H = Dechunk
  import A = ChunkArithmetic

  /** What follows the size digits, up to and including the CR of the line end. */
  predicate RfcExt(ext: seq<Byte>) {
    && ext != [] && ext[|ext| - 1] == CR && LF !in ext
    && (|ext| > 1 ==> ext[0] == 59 || ext[0] == SP || ext[0] == HT)
  }

  predicate RfcSize(size: seq<Byte>) {
    size != [] && HexDigits(size) && HexValue(size) < WORD_SIZE
  }

  predicate RfcChunk(c: Chunk) {
    RfcSize(c.size) && RfcExt(c.ext) && |c.data| == HexValue(c.size) > 0 && c.crs == 1
  }

  predicate RfcBody(b: Body) {
    && (forall i :: 0 <= i < |b.chunks| ==> RfcChunk(b.chunks[i]))
    && RfcSize(b.lastSize) && HexValue(b.lastSize) == 0 && RfcExt(b.lastExt)
    && b.trailers == [] && b.crs == 1
  }

  predicate ShortSizes(b: Body) {
    |b.lastSize| <= 16 && forall i :: 0 <= i < |b.chunks| ==> |b.chunks[i].size| <= 16
  }

  lemma {:induction false} DigitsAreHex(s: seq<Byte>, h: nat)
    requires h <= |s| && HexDigits(s[..h])
    requires forall k :: 0 <= k < h ==> Digit(s[k], 16) != -1
    ensures DigitsValue(s, 0, h, 16) == HexValue(s[..h])
  {
    if h > 0 {
      assert s[..h][..h - 1] == s[..h - 1] && s[..h][h - 1] == s[h - 1];
      DigitsAreHex(s, h - 1);
    }
  }

  lemma {:induction false} DigitRun(s: seq<Byte>, i: nat, h: nat)
    requires i <= h < |s| && Digit(s[h], 16) == -1 && forall k :: i <= k < h ==> Digit(s[k], 16) != -1
    ensures SkipDigits(s, i, 16) == h
    decreases h - i
  {
    if i < h {
      DigitRun(s, i + 1, h);
    }
  }

  /** strtoull reads a size line as the grammar does. */
  lemma ReadsSize(s: seq<Byte>, h: nat)
    requires 0 < h < |s| && RfcSize(s[..h])
    requires DecodeHex(s[h]) == -1 && s[h] != 120 && s[h] != 88
    ensures StrToUll(s, 16) == HexValue(s[..h])
  {
    assert forall k :: 0 <= k < h ==> s[k] == s[..h][k] && Digit(s[k], 16) != -1;
    assert Digit(s[0], 16) != -1;
    assert SkipSpaces(s, 0) == 0 && !HexPrefix(s, 0) by {
      if h > 1 { assert Digit(s[1], 16) != -1; }
    }
    assert NumberStart(s, 16) == 0;
    DigitRun(s, 0, h);
    DigitsAreHex(s, h);
  }

  lemma {:induction false} FindAt(s: seq<Byte>, i: nat, e: nat)
    requires i <= e < |s| && s[e] == LF && forall k :: i <= k < e ==> s[k] != LF
    ensures Find(s, i, LF) == e
  {
  }

  /** http_chunk on text that starts with a size line of the RFC: h digits, the line feed at e. */
  lemma ReadsSizeLine(s: seq<Byte>, h: nat, e: nat, reach: H.Reach)
    requires !reach.Wrapping? && h <= e < |s| && RfcSize(s[..h]) && RfcExt(s[h..e]) && s[e] == LF
    ensures var n := e + 1 + HexValue(s[..h]) + 2;
            H.HttpChunk(s, reach) == H.Span(if |s| < n then 0 else n, e + 1, HexValue(s[..h]))
  {
    hide HexValue, StrToUll;
    assert s[h] == s[h..e][0];
    assert forall k :: 0 <= k < h ==> s[k] == s[..h][k];
    assert forall k :: h <= k < e ==> s[k] == s[h..e][k - h];
    FindAt(s, 0, e);
    ReadsSize(s, h);
    assert s[..e][..h] == s[..h];
    ReadsSize(s[..e], h);
  }

  lemma ReadsChunk(c: Chunk, s: seq<Byte>, reach: H.Reach)
    requires !reach.Wrapping? && RfcChunk(c) && RenderChunk(c) <= s
    ensures var k := H.HttpChunk(s, reach);
            k.n == |RenderChunk(c)| && k.size == |c.data| && s[k.start..k.start + k.size] == c.data
  {
    hide HexValue, HexDigits, H.HttpChunk;
    var r, h, v := RenderChunk(c), |c.size|, |c.data|;
    var e := h + |c.ext|;
    assert s[..|r|] == r;
    assert s[..h] == r[..h] == c.size && s[h..e] == r[h..e] == c.ext && s[e] == r[e];
    assert s[e + 1..e + 1 + v] == r[e + 1..e + 1 + v] == c.data;
    ReadsSizeLine(s, h, e, reach);
  }

  /** Exact readers take every such body, however its sizes are written. */
  lemma {:induction false} DechunksRendered(b: Body, s: seq<Byte>, reach: H.Reach)
    requires !reach.Wrapping? && RfcBody(b) && Render(b, true) <= s
    ensures H.Dechunk(s, reach) == H.Complete(|Render(b, true)|, Payload(b.chunks))
    decreases |b.chunks|
  {
    hide HexValue, HexDigits, H.HttpChunk, H.Dechunk, RenderChunk;
    if b.chunks == [] {
      LastDechunks(b, s, reach);
    } else {
      var c, b1 := b.chunks[0], b.(chunks := b.chunks[1..]);
      var n := |RenderChunk(c)|;
      FirstRendered(s, RenderChunk(c), Render(b1, true));
      ReadsChunk(c, s, reach);
      H.DechunkStep(s, reach);
      DechunksRendered(b1, s[n..], reach);
    }
  }

  lemma FirstRendered(s: seq<Byte>, first: seq<Byte>, rest: seq<Byte>)
    requires first + rest <= s
    ensures first <= s && rest <= s[|first|..]
  {
    assert s[..|first + rest|] == first + rest;
    assert s[|first|..][..|rest|] == (first + rest)[|first|..] == rest;
  }

  lemma LastDechunks(b: Body, s: seq<Byte>, reach: H.Reach)
    requires !reach.Wrapping? && RfcBody(b) && Render(b, true) <= s && b.chunks == []
    ensures H.Dechunk(s, reach) == H.Complete(|Render(b, true)|, [])
  {
    hide HexValue, HexDigits, H.HttpChunk;
    var r := Render(b, true);
    var h, e := |b.lastSize|, |b.lastSize| + |b.lastExt|;
    assert s[..|r|] == r;
    assert s[..h] == r[..h] == b.lastSize && s[h..e] == r[h..e] == b.lastExt && s[e] == r[e];
    ReadsSizeLine(s, h, e, reach);
  }

  lemma RfcBodyIsAccepted(b: Body)
    requires RfcBody(b) && ShortSizes(b)
    ensures BodyOk(b, true)
  {
    forall i | 0 <= i < |b.chunks|
      ensures ChunkOk(b.chunks[i])
    {
      assert RfcChunk(b.chunks[i]);
      RfcExtOk(b.chunks[i].ext);
    }
    RfcExtOk(b.lastExt);
  }

  lemma RfcExtOk(ext: seq<Byte>)
    requires RfcExt(ext)
    ensures ExtOk(ext)
  {
  }

  /** A size of more than 16 digits makes the decoder fail. */
  lemma {:induction false} LongSizesFail(b: Body, s: seq<Byte>)
    requires RfcBody(b) && Render(b, true) <= s && !ShortSizes(b)
    ensures D.Feed(D.Initial(true), s).verdict.Failed?
    decreases |b.chunks|
  {
    hide HexValue, HexDigits;
    var r := Render(b, true);
    assert s[..|r|] == r;
    var size := if b.chunks == [] then b.lastSize else b.chunks[0].size;
    if |size| > 16 {
      assert s[..|size|] == r[..|size|] == size;
      LongSizeAt(D.Initial(true), s, |size|);
    } else {
      var c, b1 := b.chunks[0], b.(chunks := b.chunks[1..]);
      var n := |RenderChunk(c)|;
      RfcExtOk(c.ext);
      assert RenderChunk(c) <= s && s[n..][..|r| - n] == r[n..] == Render(b1, true);
      RenderedChunkAt(c, true, s);
      LongSizesFail(b1, s[n..]);
    }
  }

  /** http_dechunk takes every such body that lies in memory: no length wraps. */
  lemma CodeDechunksRendered(b: Body, s: seq<Byte>)
    requires RfcBody(b) && Render(b, true) <= s && |s| < HALF_WORD
    ensures H.Dechunk(s, H.Wrapping) == H.Complete(|Render(b, true)|, Payload(b.chunks))
  {
    hide H.Dechunk;
    DechunksRendered(b, s, H.Everything);
    A.CompleteIsExact(s);
  }

  /** Same body, same bytes used. */
  ghost predicate Agree(s: seq<Byte>) {
    var o := D.Feed(D.Initial(true), s);
    o.verdict.Complete? && H.Dechunk(s, H.Wrapping) == H.Complete(o.used, o.out)
  }

  lemma DecodersAgree(b: Body, rest: seq<Byte>)
    requires RfcBody(b) && |Render(b, true) + rest| < HALF_WORD
    ensures Agree(Render(b, true) + rest) <==> ShortSizes(b)
    ensures H.Dechunk(Render(b, true) + rest, H.Wrapping) == H.Complete(|Render(b, true)|, Payload(b.chunks))
  {
    var s := Render(b, true) + rest;
    assert Render(b, true) <= s;
    CodeDechunksRendered(b, s);
    if ShortSizes(b) {
      RfcBodyIsAccepted(b);
      DecodesRendered(b, true, s);
    } else {
      LongSizesFail(b, s);
    }
  }

  function Zeros(n: nat): seq<Byte> {
    seq(n, _ => 48)
  }

  lemma {:induction false} ZerosAreZero(n: nat)
    ensures HexDigits(Zeros(n)) && HexValue(Zeros(n)) == 0
  {
    if n > 0 {
      assert Zeros(n)[..n - 1] == Zeros(n - 1);
      ZerosAreZero(n - 1);
    }
  }

  /** The empty body with its last size written as seventeen zeros: one reader takes it, the other does not. */
  lemma SeventeenZerosDisagree()
    ensures var b := Body([], Zeros(17), [CR], [], 1);
            && RfcBody(b) && !Agree(Render(b, true))
            && D.Feed(D.Initial(true), Render(b, true)).verdict.Failed?
            && H.Dechunk(Render(b, true), H.Wrapping) == H.Complete(21, [])
  {
    hide D.Feed, H.Dechunk;
    var b := Body([], Zeros(17), [CR], [], 1);
    ZerosAreZero(17);
    var s := Render(b, true);
    assert s == b.lastSize + (b.lastExt + [LF] + (Returns(1) + [LF]));
    LongSizesFail(b, s);
    CodeDechunksRendered(b, s);
  }
}
