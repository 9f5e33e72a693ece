/**
 Chunked bodies as a sender writes them: each size in hexadecimal digits found by division, in
 either case, on a line of its own, then the data. Both readers give back the data.
 */
module ChunkText {
  import opened Bytes
  import opened Alphabet
  import opened Words
  import opened Numbers
  import opened NumberText
  import opened ChunkGrammar
  import opened ChunkAgreement
  import D = ChunkDecoder
  import H = Dechunk
  import A = ChunkArithmetic

  /** Chunks of data behind their sizes, and the last chunk, whose size is written as `zero`. */
  function BodyText(data: seq<seq<Byte>>, sizes: seq<seq<Byte>>, zero: seq<Byte>): seq<Byte>
    requires |sizes| == |data|
  {
    if data == [] then zero + Ascii("\r\n") + Ascii("\r\n")
    else sizes[0] + Ascii("\r\n") + data[0] + Ascii("\r\n") + BodyText(data[1..], sizes[1..], zero)
  }

  predicate Written(data: seq<seq<Byte>>, sizes: seq<seq<Byte>>, zero: seq<Byte>) {
    && |sizes| == |data| && Writes(zero, 0, 16)
    && forall i :: 0 <= i < |data| ==> data[i] != [] && Writes(sizes[i], |data[i]|, 16)
  }

  /** Hexadecimal digits found by division denote their number. */
  lemma {:induction false} WrittenHex(d: seq<Byte>, n: nat)
    requires Writes(d, n, 16)
    ensures d != [] && HexDigits(d) && HexValue(d) == n
    decreases |d|
  {
    hide HexChar, DecodeHex;
    var h := |d| - 1;
    HexCharRange(d[h], n % 16);
    if h > 0 {
      WrittenHex(d[..h], n / 16);
      assert forall k :: 0 <= k < h ==> d[k] == d[..h][k];
    } else {
      assert HexValue(d[..0]) == 0;
    }
  }

  function Chunks(data: seq<seq<Byte>>, sizes: seq<seq<Byte>>): (cs: seq<Chunk>)
    requires |sizes| == |data|
    ensures |cs| == |data|
  {
    if data == [] then [] else [Chunk(sizes[0], [CR], data[0], 1)] + Chunks(data[1..], sizes[1..])
  }

  /** The text is that of a body of section 7.1 of RFC 9112. */
  lemma {:induction false} IsRfcBody(data: seq<seq<Byte>>, sizes: seq<seq<Byte>>, zero: seq<Byte>)
    requires Written(data, sizes, zero) && forall i :: 0 <= i < |data| ==> |data[i]| < WORD_SIZE
    ensures var b := Body(Chunks(data, sizes), zero, [CR], [], 1);
            RfcBody(b) && Render(b, true) == BodyText(data, sizes, zero) && Payload(b.chunks) == Flatten(data)
    ensures forall i :: 0 <= i < |data| ==> Chunks(data, sizes)[i].size == sizes[i]
    decreases |data|
  {
    hide Writes, HexValue, HexDigits, RfcChunk, RenderChunk;
    NamedCharacters();
    WrittenHex(zero, 0);
    assert Returns(1) == [CR];
    var b := Body(Chunks(data, sizes), zero, [CR], [], 1);
    if data == [] {
      assert Render(b, true) == zero + ([CR] + [LF] + ([CR] + [LF]));
    } else {
      IsRfcBody(data[1..], sizes[1..], zero);
      FirstChunk(data[0], sizes[0]);
      var b1 := Body(Chunks(data[1..], sizes[1..]), zero, [CR], [], 1);
      assert b.chunks == [Chunk(sizes[0], [CR], data[0], 1)] + b1.chunks;
      assert b.chunks[1..] == b1.chunks && b.(chunks := b1.chunks) == b1;
      assert forall i :: 0 < i < |data| ==> b.chunks[i] == b1.chunks[i - 1] && sizes[i] == sizes[1..][i - 1];
    }
  }

  lemma FirstChunk(data: seq<Byte>, size: seq<Byte>)
    requires data != [] && |data| < WORD_SIZE && Writes(size, |data|, 16)
    ensures var c := Chunk(size, [CR], data, 1);
            RfcChunk(c) && RenderChunk(c) == size + Ascii("\r\n") + data + Ascii("\r\n")
  {
    hide Writes, HexValue, HexDigits;
    NamedCharacters();
    WrittenHex(size, |data|);
    var c := Chunk(size, [CR], data, 1);
    assert Returns(1) == [CR] && [CR] + [LF] == [CR, LF];
    assert RenderChunk(c) == size + ([CR, LF] + (data + [CR, LF]));
  }

  lemma {:induction false} BodyTextSize(data: seq<seq<Byte>>, sizes: seq<seq<Byte>>, zero: seq<Byte>)
    requires |sizes| == |data|
    ensures forall i :: 0 <= i < |data| ==> |data[i]| <= |BodyText(data, sizes, zero)|
    decreases |data|
  {
    if data != [] {
      BodyTextSize(data[1..], sizes[1..], zero);
      assert forall i :: 0 < i < |data| ==> data[i] == data[1..][i - 1];
    }
  }

  /**
   A written body is read back by http_dechunk, whatever follows, and by phr_decode_chunked if its
   sizes have at most 16 digits: the data of the chunks joined, and the length of the body.
   */
  lemma WrittenBodyIsRead(data: seq<seq<Byte>>, sizes: seq<seq<Byte>>, zero: seq<Byte>, rest: seq<Byte>)
    requires Written(data, sizes, zero) && |BodyText(data, sizes, zero) + rest| < HALF_WORD
    ensures var s, n := BodyText(data, sizes, zero) + rest, |BodyText(data, sizes, zero)|;
            && H.Dechunk(s, H.Wrapping) == H.Complete(n, Flatten(data))
            && (|zero| <= 16 && (forall i :: 0 <= i < |sizes| ==> |sizes[i]| <= 16) ==>
                  var o := D.Feed(D.Initial(true), s);
                  o.verdict.Complete? && o.used == n && o.out == Flatten(data))
  {
    hide BodyText, Writes, RfcBody, Render, H.Dechunk, D.Feed;
    BodyTextSize(data, sizes, zero);
    IsRfcBody(data, sizes, zero);
    DecodersAgree(Body(Chunks(data, sizes), zero, [CR], [], 1), rest);
  }

  // ---------------------------------------------------------------- no blank lines, no wrapped sizes

  lemma {:induction false} RfcBodyNotBlank(b: Body, s: seq<Byte>)
    requires RfcBody(b) && Render(b, true) <= s
    ensures H.NoBlankLines(s)
    decreases |b.chunks|
  {
    hide HexValue, HexDigits, H.HttpChunk, RenderChunk, Find;
    var r := Render(b, true);
    assert s[..|r|] == r;
    if b.chunks == [] {
      FirstByte(s, b.lastSize, b.lastExt + [LF] + RenderTrailers(b.trailers, b.crs));
      LastHasNoSize(b, s);
    } else {
      var c, b1 := b.chunks[0], b.(chunks := b.chunks[1..]);
      FirstRendered(s, RenderChunk(c), Render(b1, true));
      ReadsChunk(c, s, H.Line);
      ChunkParts(c);
      assert s[..|RenderChunk(c)|] == RenderChunk(c);
      FirstByte(s, c.size, RenderChunk(c)[|c.size|..]);
      RfcBodyNotBlank(b1, s[|RenderChunk(c)|..]);
    }
  }

  lemma ChunkParts(c: Chunk)
    ensures |c.size| <= |RenderChunk(c)| && RenderChunk(c) == c.size + RenderChunk(c)[|c.size|..]
  {
  }

  /** A size line starts with a digit. */
  lemma FirstByte(s: seq<Byte>, size: seq<Byte>, rest: seq<Byte>)
    requires RfcSize(size) && size + rest <= s
    ensures s != [] && !IsSpace(s[0]) && (Find(s, 0, LF) < |s| ==> Find(s, 0, LF) > 0)
  {
    assert s[..|size + rest|] == size + rest;
    assert s[0] == size[0] && DecodeHex(size[0]) != -1;
  }

  lemma LastHasNoSize(b: Body, s: seq<Byte>)
    requires RfcBody(b) && Render(b, true) <= s && b.chunks == []
    ensures H.HttpChunk(s, H.Line).size == 0
  {
    hide HexValue, HexDigits, H.HttpChunk;
    var r := Render(b, true);
    var h, e := |b.lastSize|, |b.lastSize| + |b.lastExt|;
    assert s[..|r|] == r;
    assert s[..h] == r[..h] == b.lastSize && s[h..e] == r[h..e] == b.lastExt && s[e] == r[e];
    ReadsSizeLine(s, h, e, H.Line);
  }

  /** A written body has no blank size line, and no size in it makes a sum wrap. */
  lemma WrittenBodyIsPlain(data: seq<seq<Byte>>, sizes: seq<seq<Byte>>, zero: seq<Byte>, rest: seq<Byte>)
    requires Written(data, sizes, zero) && |BodyText(data, sizes, zero) + rest| < HALF_WORD
    ensures var s := BodyText(data, sizes, zero) + rest;
            A.PlainBody(s) && H.Dechunk(s, H.Line) == H.Complete(|BodyText(data, sizes, zero)|, Flatten(data))
  {
    hide BodyText, Writes, RfcBody, Render, H.Dechunk, H.NoBlankLines, A.SizesFit, H.Extent;
    var s := BodyText(data, sizes, zero) + rest;
    BodyTextSize(data, sizes, zero);
    IsRfcBody(data, sizes, zero);
    var b := Body(Chunks(data, sizes), zero, [CR], [], 1);
    assert Render(b, true) <= s;
    RfcBodyNotBlank(b, s);
    DechunksRendered(b, s, H.Line);
    DechunksRendered(b, s, H.Everything);
    CodeDechunksRendered(b, s);
    A.DechunkIsExactIff(s);
    H.ExtentIs(s, H.Wrapping);
  }
}
