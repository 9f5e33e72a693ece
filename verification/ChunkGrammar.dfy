/**
 The language of the chunk decoder, written down as a grammar in the manner of section 7.1 of
 RFC 9112, and the proof that the byte-at-a-time decoder accepts exactly that language.
 The decoder is more liberal than the RFC: any number of carriage returns, also none, may stand
 before the line feed that ends a chunk or the body.
 */
module ChunkGrammar {
  import opened Bytes
  import opened Words
  import opened ChunkDecoder

  /** size ext LF data CR* LF */
  datatype Chunk = Chunk(size: seq<Byte>, ext: seq<Byte>, data: seq<Byte>, crs: nat)

  /** CR* text LF, where the text does not start with CR or LF */
  datatype Trailer = Trailer(crs: nat, text: seq<Byte>)

  /** The chunks, the last chunk's size line, and for a consumed trailer its lines and CR* LF. */
  datatype Body = Body(chunks: seq<Chunk>, lastSize: seq<Byte>, lastExt: seq<Byte>, trailers: seq<Trailer>, crs: nat)

  predicate HexDigits(s: seq<Byte>) {
    forall i :: 0 <= i < |s| ==> DecodeHex(s[i]) != -1
  }

  function HexValue(s: seq<Byte>): (v: nat)
    requires HexDigits(s)
  {
    if s == [] then 0 else HexValue(s[..|s| - 1]) * 16 + DecodeHex(s[|s| - 1])
  }

  /** A chunk-size: at least one digit, and no more than a 64-bit size has. */
  predicate SizeOk(size: seq<Byte>) {
    1 <= |size| <= 16 && HexDigits(size)
  }

  predicate ExtOk(ext: seq<Byte>) {
    LF !in ext && (ext != [] ==> DecodeHex(ext[0]) == -1)
  }

  predicate ChunkOk(c: Chunk) {
    SizeOk(c.size) && ExtOk(c.ext) && |c.data| == HexValue(c.size) > 0
  }

  predicate TrailerOk(t: Trailer) {
    t.text != [] && t.text[0] != CR && LF !in t.text
  }

  predicate BodyOk(b: Body, consumeTrailer: bool) {
    && (forall i :: 0 <= i < |b.chunks| ==> ChunkOk(b.chunks[i]))
    && SizeOk(b.lastSize) && ExtOk(b.lastExt) && HexValue(b.lastSize) == 0
    && (forall i :: 0 <= i < |b.trailers| ==> TrailerOk(b.trailers[i]))
    && (!consumeTrailer ==> b.trailers == [] && b.crs == 0)
  }

  function Returns(n: nat): (s: seq<Byte>) {
    seq(n, _ => CR)
  }

  function RenderChunk(c: Chunk): seq<Byte> {
    c.size + (c.ext + [LF] + (c.data + (Returns(c.crs) + [LF])))
  }

  function RenderTrailers(ts: seq<Trailer>, crs: nat): seq<Byte> {
    if ts == [] then Returns(crs) + [LF]
    else (Returns(ts[0].crs) + (ts[0].text + [LF])) + RenderTrailers(ts[1..], crs)
  }

  function Render(b: Body, consumeTrailer: bool): seq<Byte>
    decreases |b.chunks|
  {
    if b.chunks != [] then RenderChunk(b.chunks[0]) + Render(b.(chunks := b.chunks[1..]), consumeTrailer)
    else b.lastSize + (b.lastExt + [LF] + (if consumeTrailer then RenderTrailers(b.trailers, b.crs) else []))
  }

  function Payload(chunks: seq<Chunk>): seq<Byte> {
    if chunks == [] then [] else chunks[0].data + Payload(chunks[1..])
  }

  // ---------------------------------------------------------------- what the decoder does with each part

  lemma {:induction false} SizeAt(d: State, s: seq<Byte>, h: nat)
    requires d.phase.InChunkSize? && d.bytesLeft == 0 && d.hexCount == 0
    requires h <= |s| && h <= 16 && HexDigits(s[..h])
    ensures Runs(d, s, d.(bytesLeft := HexValue(s[..h]), hexCount := h), [], h, Next)
  {
    hide Runs;
    RunsStart(d, s);
    if h > 0 {
      assert s[..h][..h - 1] == s[..h - 1];
      SizeAt(d, s, h - 1);
      RunsByte(d, s, d.(bytesLeft := HexValue(s[..h - 1]), hexCount := h - 1), h - 1);
    }
  }

  lemma LongSizeAt(d: State, s: seq<Byte>, h: nat)
    requires d.phase.InChunkSize? && d.bytesLeft == 0 && d.hexCount == 0
    requires 16 < h <= |s| && HexDigits(s[..h])
    ensures Feed(d, s).verdict.Failed?
  {
    assert HexDigits(s[..16]) && DecodeHex(s[16]) != -1 by {
      assert s[..h][16] == s[16];
      assert s[..16] == s[..h][..16];
    }
    SizeAt(d, s, 16);
    RunsLast(d, s, d.(bytesLeft := HexValue(s[..16]), hexCount := 16), 16);
  }

  /** A state in which the rest of a size line, starting with `first`, comes next. */
  predicate AtExt(d: State, first: Byte) {
    d.phase.InChunkExt? || (d.phase.InChunkSize? && d.hexCount > 0 && DecodeHex(first) == -1)
  }

  function InExt(d: State): State {
    d.(phase := InChunkExt, hexCount := if d.phase.InChunkSize? then 0 else d.hexCount)
  }

  function AfterLine(d: State): State {
    InExt(d).(phase := if d.bytesLeft > 0 then InChunkData else InTrailersLineHead)
  }

  lemma {:induction false} ExtAt(d: State, s: seq<Byte>, e: nat)
    requires 0 < e <= |s| && LF !in s[..e] && AtExt(d, s[0])
    ensures Runs(d, s, InExt(d), [], e, Next)
  {
    hide Runs;
    assert s[e - 1] in s[..e];
    RunsStart(d, s);
    if e == 1 {
      RunsByte(d, s, d, 0);
    } else {
      assert s[..e - 1] == s[..e][..e - 1];
      ExtAt(d, s, e - 1);
      RunsByte(d, s, InExt(d), e - 1);
    }
  }

  lemma LineAt(d: State, s: seq<Byte>, e: nat)
    requires e < |s| && LF !in s[..e] && s[e] == LF && AtExt(d, s[0])
    ensures if d.bytesLeft > 0 || d.consumeTrailer then Runs(d, s, AfterLine(d), [], e + 1, Next)
            else Runs(d, s, InExt(d), [], e + 1, Exit(Complete))
  {
    hide Runs;
    RunsStart(d, s);
    if e > 0 {
      ExtAt(d, s, e);
    }
    var d1 := if e > 0 then InExt(d) else d;
    if d.bytesLeft > 0 || d.consumeTrailer {
      RunsByte(d, s, d1, e);
    } else {
      RunsLast(d, s, d1, e);
    }
  }

  lemma {:induction false} CrsAt(d: State, s: seq<Byte>, n: nat)
    requires (d.phase.InChunkCrlf? || d.phase.InTrailersLineHead?) && n <= |s| && s[..n] == Returns(n)
    ensures Runs(d, s, d, [], n, Next)
  {
    hide Runs;
    RunsStart(d, s);
    if n > 0 {
      assert s[..n - 1] == s[..n][..n - 1] == Returns(n)[..n - 1] == Returns(n - 1);
      assert s[n - 1] == s[..n][n - 1] == CR;
      CrsAt(d, s, n - 1);
      RunsByte(d, s, d, n - 1);
    }
  }

  lemma ChunkEndAt(d: State, s: seq<Byte>, n: nat)
    requires d.phase.InChunkCrlf? && n < |s| && s[..n] == Returns(n) && s[n] == LF
    ensures Runs(d, s, d.(phase := InChunkSize), [], n + 1, Next)
  {
    hide Runs;
    CrsAt(d, s, n);
    RunsByte(d, s, d, n);
  }

  lemma BodyEndAt(d: State, s: seq<Byte>, n: nat)
    requires d.phase.InTrailersLineHead? && n < |s| && s[..n] == Returns(n) && s[n] == LF
    ensures Runs(d, s, d, [], n + 1, Exit(Complete))
  {
    hide Runs;
    CrsAt(d, s, n);
    RunsLast(d, s, d, n);
  }

  lemma {:induction false} TextAt(d: State, s: seq<Byte>, n: nat, e: nat)
    requires d.phase.InTrailersLineHead? && n < e <= |s| && s[..n] == Returns(n)
    requires s[n] != CR && forall i :: n <= i < e ==> s[i] != LF
    ensures Runs(d, s, d.(phase := InTrailersLineMiddle), [], e, Next)
    decreases e
  {
    hide Runs;
    if e == n + 1 {
      CrsAt(d, s, n);
      RunsByte(d, s, d, n);
    } else {
      TextAt(d, s, n, e - 1);
      RunsByte(d, s, d.(phase := InTrailersLineMiddle), e - 1);
    }
  }

  lemma TrailerAt(d: State, s: seq<Byte>, n: nat, e: nat)
    requires d.phase.InTrailersLineHead? && n < e < |s| && s[..n] == Returns(n)
    requires s[n] != CR && s[e] == LF && forall i :: n <= i < e ==> s[i] != LF
    ensures Runs(d, s, d, [], e + 1, Next)
  {
    hide Runs;
    TextAt(d, s, n, e);
    RunsByte(d, s, d.(phase := InTrailersLineMiddle), e);
  }

  /** One whole chunk, at positions h (end of the size), e (the line feed), the data and n returns. */
  lemma ChunkAt(s: seq<Byte>, consumeTrailer: bool, h: nat, e: nat, v: nat, n: nat)
    requires h <= e < e + 1 + v + n < |s| && SizeOk(s[..h]) && ExtOk(s[h..e]) && s[e] == LF && HexValue(s[..h]) == v > 0
    requires s[e + 1 + v..e + 1 + v + n] == Returns(n) && s[e + 1 + v + n] == LF
    ensures Runs(Initial(consumeTrailer), s, Initial(consumeTrailer), s[e + 1..e + 1 + v], e + 1 + v + n + 1, Next)
  {
    hide Runs, HexValue, HexDigits;
    var d, rest, data := Initial(consumeTrailer), s[e + 1..], s[e + 1..e + 1 + v];
    var d2 := SizeLineAt(s, consumeTrailer, h, e);
    RunsData(d2, rest, v);
    assert rest[..v] == data;
    RunsThen(d, s, d2, [], e + 1, d2.(phase := InChunkCrlf, bytesLeft := 0), data, v, Next);
    assert [] + data == data;
    var end := s[e + 1 + v..];
    assert end[..n] == Returns(n);
    ChunkEndAt(d2.(phase := InChunkCrlf, bytesLeft := 0), end, n);
    RunsThen(d, s, d2.(phase := InChunkCrlf, bytesLeft := 0), data, e + 1 + v, d, [], n + 1, Next);
    assert data + [] == data;
  }

  lemma SizeLineAt(s: seq<Byte>, consumeTrailer: bool, h: nat, e: nat) returns (d2: State)
    requires h <= e < |s| && SizeOk(s[..h]) && ExtOk(s[h..e]) && s[e] == LF
    ensures d2 == AfterLine(Initial(consumeTrailer).(bytesLeft := HexValue(s[..h]), hexCount := h))
    ensures HexValue(s[..h]) > 0 || consumeTrailer ==> Runs(Initial(consumeTrailer), s, d2, [], e + 1, Next)
    ensures HexValue(s[..h]) == 0 && !consumeTrailer
            ==> Runs(Initial(consumeTrailer), s, InExt(d2), [], e + 1, Exit(Complete))
  {
    hide Runs, HexValue;
    var d := Initial(consumeTrailer);
    var d1 := d.(bytesLeft := HexValue(s[..h]), hexCount := h);
    d2 := AfterLine(d1);
    SizeAt(d, s, h);
    var rest := s[h..];
    assert rest[..e - h] == s[h..e] && rest[e - h] == LF;
    assert AtExt(d1, rest[0]) by { if e > h { assert rest[0] == s[h..e][0]; } }
    LineAt(d1, rest, e - h);
    if HexValue(s[..h]) > 0 || consumeTrailer {
      RunsOn(d, s, d1, h, d2, e + 1 - h, Next);
    } else {
      RunsOn(d, s, d1, h, InExt(d1), e + 1 - h, Exit(Complete));
    }
  }

  // ---------------------------------------------------------------- every body of the grammar is accepted

  lemma TrailerLine(s: seq<Byte>, t: Trailer, more: seq<Byte>)
    requires TrailerOk(t) && Returns(t.crs) + (t.text + [LF]) + more <= s
    ensures var n, e := t.crs, t.crs + |t.text|;
            && e < |s| && s[..n] == Returns(n) && s[n..e] == t.text && s[e] == LF && more <= s[e + 1..]
            && s[n] == t.text[0] && forall i :: n <= i < e ==> s[i] == t.text[i - n]
  {
    var n, e := t.crs, t.crs + |t.text|;
    var line := Returns(n) + (t.text + [LF]);
    assert s[..|line|] == line && s[..n] == line[..n] && s[n..e] == line[n..e] && s[e] == line[e];
    assert forall i :: n <= i < e ==> s[i] == s[n..e][i - n];
    assert s[|line|..][..|more|] == (line + more)[|line|..] == more;
  }

  lemma {:induction false} TrailersAt(d: State, s: seq<Byte>, ts: seq<Trailer>, crs: nat)
    requires d.phase.InTrailersLineHead? && forall i :: 0 <= i < |ts| ==> TrailerOk(ts[i])
    requires RenderTrailers(ts, crs) <= s
    ensures Runs(d, s, d, [], |RenderTrailers(ts, crs)|, Exit(Complete))
    decreases |ts|
  {
    hide Runs;
    if ts == [] {
      assert s[..crs] == RenderTrailers(ts, crs)[..crs] == Returns(crs) && s[crs] == LF;
      BodyEndAt(d, s, crs);
    } else {
      var t, more := ts[0], RenderTrailers(ts[1..], crs);
      var n, e := t.crs, t.crs + |t.text|;
      TrailerLine(s, t, more);
      TrailerAt(d, s, n, e);
      TrailersAt(d, s[e + 1..], ts[1..], crs);
      RunsOn(d, s, d, e + 1, d, |more|, Exit(Complete));
    }
  }

  lemma RenderedChunkAt(c: Chunk, consumeTrailer: bool, s: seq<Byte>)
    requires ChunkOk(c) && RenderChunk(c) <= s
    ensures Runs(Initial(consumeTrailer), s, Initial(consumeTrailer), c.data, |RenderChunk(c)|, Next)
  {
    hide Runs, HexValue, HexDigits;
    var h, v, n := |c.size|, |c.data|, c.crs;
    var e := h + |c.ext|;
    var r := RenderChunk(c);
    assert s[..|r|] == r;
    assert s[..h] == r[..h] == c.size && s[h..e] == r[h..e] == c.ext && s[e] == r[e] == LF;
    assert s[e + 1..e + 1 + v] == r[e + 1..e + 1 + v] == c.data;
    assert s[e + 1 + v..e + 1 + v + n] == r[e + 1 + v..e + 1 + v + n] == Returns(n)
           && s[e + 1 + v + n] == r[e + 1 + v + n];
    ChunkAt(s, consumeTrailer, h, e, v, n);
  }

  /** Decoding undoes rendering, whatever follows the body. */
  lemma {:induction false} DecodesRendered(b: Body, consumeTrailer: bool, s: seq<Byte>)
    requires BodyOk(b, consumeTrailer) && Render(b, consumeTrailer) <= s
    ensures var o := Feed(Initial(consumeTrailer), s);
            o.verdict.Complete? && o.out == Payload(b.chunks) && o.used == |Render(b, consumeTrailer)|
    decreases |b.chunks|
  {
    var d, r := Initial(consumeTrailer), Render(b, consumeTrailer);
    if b.chunks != [] {
      var c, b1 := b.chunks[0], b.(chunks := b.chunks[1..]);
      var n := |RenderChunk(c)|;
      assert RenderChunk(c) <= s && s[n..][..|r| - n] == r[n..] == Render(b1, consumeTrailer);
      RenderedChunkAt(c, consumeTrailer, s);
      DecodesRendered(b1, consumeTrailer, s[n..]);
    } else {
      LastChunkAt(b, consumeTrailer, s);
    }
  }

  lemma LastChunkAt(b: Body, consumeTrailer: bool, s: seq<Byte>)
    requires BodyOk(b, consumeTrailer) && Render(b, consumeTrailer) <= s && b.chunks == []
    ensures var o := Feed(Initial(consumeTrailer), s);
            o.verdict.Complete? && o.out == [] && o.used == |Render(b, consumeTrailer)|
  {
    hide Feed;
    var r := Render(b, consumeTrailer);
    var h := |b.lastSize|;
    var e := h + |b.lastExt|;
    assert s[..|r|] == r;
    assert s[..h] == r[..h] == b.lastSize && s[h..e] == r[h..e] == b.lastExt && s[e] == r[e] == LF;
    var d2 := SizeLineAt(s, consumeTrailer, h, e);
    if consumeTrailer {
      assert s[e + 1..][..|r| - e - 1] == r[e + 1..] == RenderTrailers(b.trailers, b.crs);
      TrailersAt(d2, s[e + 1..], b.trailers, b.crs);
    }
  }

  // ---------------------------------------------------------------- nothing else is

  function HexRun(s: seq<Byte>): (h: nat)
    ensures h <= |s| && HexDigits(s[..h]) && (h < |s| ==> DecodeHex(s[h]) == -1)
    decreases |s|
  {
    if s == [] || DecodeHex(s[0]) == -1 then 0
    else
      var h := HexRun(s[1..]);
      assert forall i :: 1 <= i < h + 1 ==> s[i] == s[1..][..h][i - 1];
      h + 1
  }

  function ReturnRun(s: seq<Byte>): (n: nat)
    ensures n <= |s| && s[..n] == Returns(n) && (n < |s| ==> s[n] != CR)
    decreases |s|
  {
    if s == [] || s[0] != CR then 0
    else
      var n := ReturnRun(s[1..]);
      assert s[..n + 1] == [CR] + s[1..][..n];
      n + 1
  }

  /** An accepted input starts with a size line. */
  lemma AcceptedSizeLine(s: seq<Byte>, consumeTrailer: bool) returns (h: nat, e: nat)
    requires Feed(Initial(consumeTrailer), s).verdict.Complete?
    ensures h <= e < |s| && SizeOk(s[..h]) && ExtOk(s[h..e]) && s[e] == LF
  {
    hide HexValue;
    var d := Initial(consumeTrailer);
    h := HexRun(s);
    if h > 16 {
      LongSizeAt(d, s, h);
    }
    SizeAt(d, s, h);
    var d1 := d.(bytesLeft := HexValue(s[..h]), hexCount := h);
    assert h < |s| && h > 0;
    e := Find(s, h, LF);
    if e == |s| {
      assert LF !in s[h..];
      assert s[h..][..|s| - h] == s[h..];
      ExtAt(d1, s[h..], |s| - h);
    }
  }

  /** An accepted trailer starts with a line: n returns, and text from n to its line feed at e. */
  lemma AcceptedTrailerLine(d: State, s: seq<Byte>) returns (n: nat, e: nat)
    requires d.phase.InTrailersLineHead? && Feed(d, s).verdict.Complete?
    ensures n <= e < |s| && s[..n] == Returns(n) && s[n] != CR && s[e] == LF && forall i :: n <= i < e ==> s[i] != LF
  {
    hide Returns;
    n := ReturnRun(s);
    CrsAt(d, s, n);
    assert n < |s|;
    e := Find(s, n, LF);
    if e == |s| {
      TextAt(d, s, n, e);
    }
  }

  lemma {:induction false} AcceptedTrailers(d: State, s: seq<Byte>) returns (ts: seq<Trailer>, crs: nat)
    requires d.phase.InTrailersLineHead? && Feed(d, s).verdict.Complete?
    ensures forall i :: 0 <= i < |ts| ==> TrailerOk(ts[i])
    ensures RenderTrailers(ts, crs) == s[..Feed(d, s).used] && Feed(d, s).out == []
    decreases |s|
  {
    hide Feed, Returns;
    var n, e := AcceptedTrailerLine(d, s);
    if n == e {
      BodyEndAt(d, s, n);
      ts, crs := [], n;
      assert s[..n + 1] == Returns(n) + [LF];
    } else {
      TrailerAt(d, s, n, e);
      var rest := s[e + 1..];
      ts, crs := AcceptedTrailers(d, rest);
      var t, used := Trailer(n, s[n..e]), Feed(d, rest).used;
      assert s[..n] + s[n..e] == s[..e];
      assert s[..e + 1 + used] == (s[..n] + (t.text + [LF])) + rest[..used];
      RenderTrailersCons(t, ts, crs);
      ts := [t] + ts;
    }
  }

  lemma RenderTrailersCons(t: Trailer, ts: seq<Trailer>, crs: nat)
    ensures RenderTrailers([t] + ts, crs) == (Returns(t.crs) + (t.text + [LF])) + RenderTrailers(ts, crs)
  {
    assert ([t] + ts)[1..] == ts;
  }

  /** The data and the line end of an accepted chunk. */
  lemma AcceptedChunk(s: seq<Byte>, consumeTrailer: bool, h: nat, e: nat) returns (n: nat)
    requires Feed(Initial(consumeTrailer), s).verdict.Complete?
    requires h <= e < |s| && SizeOk(s[..h]) && ExtOk(s[h..e]) && s[e] == LF && HexValue(s[..h]) > 0
    ensures var v := HexValue(s[..h]);
            e + 1 + v + n < |s| && s[e + 1 + v..e + 1 + v + n] == Returns(n) && s[e + 1 + v + n] == LF
  {
    hide HexValue, HexDigits;
    var v := HexValue(s[..h]);
    var d2 := SizeLineAt(s, consumeTrailer, h, e);
    var rest := s[e + 1..];
    if |rest| < v {
      RunsData(d2, rest, |rest|);
    }
    RunsData(d2, rest, v);
    var end := rest[v..];
    n := ReturnRun(end);
    CrsAt(d2.(phase := InChunkCrlf, bytesLeft := 0), end, n);
    assert n < |end| && end[n] == LF;
    assert end[..n] == s[e + 1 + v..e + 1 + v + n] && end[n] == s[e + 1 + v + n];
  }

  /** Every input on which the decoder completes starts with a body of the grammar, decoded to its payload. */
  lemma {:induction false} AcceptedIsRendered(s: seq<Byte>, consumeTrailer: bool) returns (b: Body)
    requires Feed(Initial(consumeTrailer), s).verdict.Complete?
    ensures BodyOk(b, consumeTrailer)
    ensures Feed(Initial(consumeTrailer), s).out == Payload(b.chunks)
    ensures Render(b, consumeTrailer) == s[..Feed(Initial(consumeTrailer), s).used]
    decreases |s|
  {
    hide Feed, HexValue, HexDigits, Returns, RenderTrailers;
    var d := Initial(consumeTrailer);
    var h, e := AcceptedSizeLine(s, consumeTrailer);
    var v := HexValue(s[..h]);
    if v == 0 {
      b := AcceptedLast(s, consumeTrailer, h, e);
    } else {
      var n := AcceptedChunk(s, consumeTrailer, h, e);
      ChunkAt(s, consumeTrailer, h, e, v, n);
      var c := Chunk(s[..h], s[h..e], s[e + 1..e + 1 + v], n);
      var k := e + 1 + v + n + 1;
      ChunkText(s, h, e, v, n);
      assert ChunkOk(c);
      var more := AcceptedIsRendered(s[k..], consumeTrailer);
      assert s[..Feed(d, s).used] == s[..k] + s[k..][..Feed(d, s[k..]).used];
      b := more.(chunks := [c] + more.chunks);
      assert b.chunks[1..] == more.chunks && b.(chunks := more.chunks) == more;
      assert BodyOk(b, consumeTrailer);
    }
  }

  lemma ChunkText(s: seq<Byte>, h: nat, e: nat, v: nat, n: nat)
    requires h <= e < e + 1 + v + n < |s| && s[e] == LF
    requires s[e + 1 + v..e + 1 + v + n] == Returns(n) && s[e + 1 + v + n] == LF
    ensures s[..e + 1 + v + n + 1] == RenderChunk(Chunk(s[..h], s[h..e], s[e + 1..e + 1 + v], n))
  {
    hide Returns;
  }

  lemma AcceptedLast(s: seq<Byte>, consumeTrailer: bool, h: nat, e: nat) returns (b: Body)
    requires Feed(Initial(consumeTrailer), s).verdict.Complete?
    requires h <= e < |s| && SizeOk(s[..h]) && ExtOk(s[h..e]) && s[e] == LF && HexValue(s[..h]) == 0
    ensures BodyOk(b, consumeTrailer) && b.chunks == [] && Feed(Initial(consumeTrailer), s).out == []
    ensures Render(b, consumeTrailer) == s[..Feed(Initial(consumeTrailer), s).used]
  {
    hide Feed, HexValue, HexDigits, RenderTrailers, Returns, SizeOk, ExtOk, TrailerOk;
    var d2 := SizeLineAt(s, consumeTrailer, h, e);
    var rest := s[e + 1..];
    var ts, crs := [], 0;
    var end: seq<Byte> := [];
    if consumeTrailer {
      ts, crs := AcceptedTrailers(d2, rest);
      end := rest[..Feed(d2, rest).used];
    }
    b := Body([], s[..h], s[h..e], ts, crs);
    LastText(s, h, e, |end|);
  }

  lemma LastText(s: seq<Byte>, h: nat, e: nat, n: nat)
    requires h <= e < |s| && s[e] == LF && e + 1 + n <= |s|
    ensures s[..e + 1 + n] == s[..h] + (s[h..e] + [LF] + s[e + 1..][..n])
  {
  }
}
