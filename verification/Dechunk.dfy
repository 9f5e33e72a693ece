/**
 The server's own chunk reader (http_chunk, http_dechunk): one pass to see that the body is
 complete, a second one that moves the chunk bodies together in place. `Wrapping` is the code's
 arithmetic; the other two readings are exact and serve as references.
 */
module Dechunk {
  import opened Bytes
  import opened Words
  import opened Numbers

  /** What http_chunk reports: n bytes in all (0 for an incomplete chunk), the body at start. */
  datatype Span = Span(n: nat, start: nat, size: nat)
  {
    /** The body and its line end are the bytes counted by n; otherwise the sum wrapped. */
    predicate Exact() {
      n == start + size + 2
    }
  }

  /**
   The size is read from the bytes of the size line only, or from all that follows; the end of the
   chunk is computed exactly, or modulo 2^64.
   */
  datatype Reach = Line | Everything | Wrapping

  function HttpChunk(s: seq<Byte>, reach: Reach): (c: Span)
    ensures c.n <= |s| && (c.n > 0 ==> 0 < c.start <= |s|)
    ensures !reach.Wrapping? && c.n > 0 ==> c.Exact()
  {
    var end := Find(s, 0, LF);
    if end == |s| then Span(0, 0, 0)
    else
      var size := StrToUll(if reach.Line? then s[..end] else s, 16);
      var n := if reach.Wrapping? then (end + 1 + size + 2) % WORD_SIZE else end + 1 + size + 2;
      if |s| < n then Span(0, end + 1, size) else Span(n, end + 1, size)
  }

  /** Overrun: a chunk is counted whose body does not lie inside the input. */
  datatype Result = Incomplete | Complete(n: nat, body: seq<Byte>) | Overrun
  {
    /** The same result when m bytes came before, which held `before`. */
    function After(m: nat, before: seq<Byte>): Result {
      match this
      case Incomplete => Incomplete
      case Complete(n, body) => Complete(m + n, before + body)
      case Overrun => Overrun
    }
  }

  /**
   The chunk bodies joined up to and including the first empty chunk. A chunk whose length wrapped
   matters once the first pass has found the end: the second pass then moves its size in bytes.
   */
  function Dechunk(s: seq<Byte>, reach: Reach): (r: Result)
    ensures r.Complete? ==> 0 < r.n <= |s| && |r.body| <= r.n
    ensures !reach.Wrapping? ==> !r.Overrun?
    decreases |s|
  {
    var c := HttpChunk(s, reach);
    if c.n == 0 then Incomplete
    else if c.size == 0 then Complete(c.n, [])
    else
      var rest := Dechunk(s[c.n..], reach);
      if c.Exact() then rest.After(c.n, s[c.start..c.start + c.size])
      else if rest.Incomplete? then Incomplete
      else Overrun
  }

  lemma DechunkStep(s: seq<Byte>, reach: Reach)
    ensures var c := HttpChunk(s, reach);
            Dechunk(s, reach) ==
            if c.n == 0 then Incomplete
            else if c.size == 0 then Complete(c.n, [])
            else if c.Exact() then Dechunk(s[c.n..], reach).After(c.n, s[c.start..c.start + c.size])
            else if Dechunk(s[c.n..], reach).Incomplete? then Incomplete
            else Overrun
  {
  }

  /** The first pass alone: the number of bytes walked over, 0 for incomplete. */
  function Extent(s: seq<Byte>, reach: Reach): (n: nat)
    ensures n <= |s|
    decreases |s|
  {
    var c := HttpChunk(s, reach);
    if c.n == 0 then 0
    else if c.size == 0 then c.n
    else
      var m := Extent(s[c.n..], reach);
      if m == 0 then 0 else c.n + m
  }

  lemma ExtentStep(s: seq<Byte>, reach: Reach)
    ensures var c := HttpChunk(s, reach);
            Extent(s, reach) ==
            if c.n == 0 then 0
            else if c.size == 0 then c.n
            else (var m := Extent(s[c.n..], reach); if m == 0 then 0 else c.n + m)
  {
  }

  lemma {:induction false} ExtentIs(s: seq<Byte>, reach: Reach)
    ensures Extent(s, reach) == 0 <==> Dechunk(s, reach).Incomplete?
    ensures Dechunk(s, reach).Complete? ==> Extent(s, reach) == Dechunk(s, reach).n
    decreases |s|
  {
    hide HttpChunk;
    var c := HttpChunk(s, reach);
    if c.n > 0 && c.size > 0 {
      ExtentIs(s[c.n..], reach);
    }
  }

  /** What is left to do after `before` was joined from the first `offset` bytes. */
  function Continue(s: seq<Byte>, offset: nat, before: seq<Byte>, reach: Reach): Result
    requires offset <= |s|
  {
    Dechunk(s[offset..], reach).After(offset, before)
  }

  lemma ContinueStart(s: seq<Byte>, reach: Reach)
    ensures Continue(s, 0, [], reach) == Dechunk(s, reach)
  {
    hide Dechunk;
    assert s[0..] == s;
  }

  lemma ContinueChunk(s: seq<Byte>, offset: nat, before: seq<Byte>, reach: Reach)
    requires offset <= |s|
    ensures var c := HttpChunk(s[offset..], reach);
            && (c.n == 0 ==> Continue(s, offset, before, reach) == Incomplete)
            && (c.n > 0 && c.size == 0 ==> Continue(s, offset, before, reach) == Complete(offset + c.n, before))
            && (c.n > 0 && c.size > 0 && c.Exact() ==>
                  Continue(s, offset, before, reach) ==
                  Continue(s, offset + c.n, before + s[offset + c.start..offset + c.start + c.size], reach))
            && (c.n > 0 && c.size > 0 && !c.Exact() ==> !Continue(s, offset, before, reach).Complete?)
  {
    hide HttpChunk, Dechunk;
    var rest := s[offset..];
    DechunkStep(rest, reach);
    var c := HttpChunk(rest, reach);
    assert before + [] == before;
    if c.n > 0 && c.size > 0 && c.Exact() {
      SliceOfTail(s, offset, c.start, c.start + c.size);
      SliceOfTail(s, offset, 0, c.n);
      AfterAfter(Dechunk(rest[c.n..], reach), c.n, rest[c.start..c.start + c.size], offset, before);
    }
  }

  lemma AfterAfter(r: Result, n: nat, data: seq<Byte>, m: nat, before: seq<Byte>)
    ensures r.After(n, data).After(m, before) == r.After(m + n, before + data)
  {
    if r.Complete? {
      assert before + (data + r.body) == (before + data) + r.body;
    }
  }

  /** The byte behind the input ends every number, so that strtoull, which knows no length, stops there. */
  predicate Sentinel(buf: array<Byte>, hi: nat)
    reads buf
  {
    hi < buf.Length && NoNumberByte(buf[hi])
  }

  /** http_chunk on buf[lo..hi]: strtoull is handed all of the buffer from lo on. */
  method ChunkAt(buf: array<Byte>, lo: nat, hi: nat, reach: Reach) returns (c: Span)
    requires lo <= hi && Sentinel(buf, hi)
    ensures c == HttpChunk(buf[lo..hi], reach)
  {
    hide StrToUll, NoNumberByte, Find, HttpChunk;
    ghost var s := buf[lo..hi];
    var end := lo;
    FindStart(s);
    HttpChunkStep(s, reach);
    while end < hi && buf[end] != LF
      invariant lo <= end <= hi && Find(s, 0, LF) == Find(s, end - lo, LF)
    {
      FindStep(s, end - lo);
      end := end + 1;
    }
    FindStep(s, end - lo);
    if end == hi {
      return Span(0, 0, 0);
    }
    SizeStopsAt(buf[..], lo, end, hi);
    var size := if reach.Line? then StrToUll(buf[lo..end], 16) else StrToUll(buf[lo..], 16);
    var total := end - lo + 1 + size + 2;
    var n := if reach.Wrapping? then total % WORD_SIZE else total;
    c := Span(if hi - lo < n then 0 else n, end - lo + 1, size);
  }

  lemma HttpChunkStep(s: seq<Byte>, reach: Reach)
    ensures var end := Find(s, 0, LF);
            HttpChunk(s, reach) ==
            if end == |s| then Span(0, 0, 0)
            else
              var size := StrToUll(if reach.Line? then s[..end] else s, 16);
              var total := end + 1 + size + 2;
              var n := if reach.Wrapping? then total % WORD_SIZE else total;
              Span(if |s| < n then 0 else n, end + 1, size)
  {
  }

  lemma SizeStopsAt(b: seq<Byte>, lo: nat, end: nat, hi: nat)
    requires lo <= end <= hi < |b| && NoNumberByte(b[hi])
    ensures StrToUll(b[lo..], 16) == StrToUll(b[lo..hi], 16) && b[lo..hi][..end - lo] == b[lo..end]
  {
    hide StrToUll, NoNumberByte;
    assert b[lo..] == b[lo..hi] + b[hi..];
    NumberStopsAt(b[lo..hi], b[hi..], 16);
  }

  lemma FindStart(s: seq<Byte>)
    ensures 0 <= Find(s, 0, LF) <= |s|
  {
  }

  lemma FindStep(s: seq<Byte>, i: nat)
    requires i <= |s|
    ensures Find(s, i, LF) == if i == |s| || s[i] == LF then i else Find(s, i + 1, LF)
  {
  }

  /**
   Joins the chunk bodies of buf[lo..hi] at lo. An incomplete input is left as it is; otherwise
   n bytes are consumed and the joined bodies are all that is written, unless a chunk's length
   wrapped: at that chunk the code moves more bytes than there are, and the model stops.
   */
  method HttpDechunk(buf: array<Byte>, lo: nat, hi: nat, reach: Reach) returns (n: nat, size: nat, overrun: bool)
    requires lo <= hi && Sentinel(buf, hi)
    modifies buf
    ensures overrun <==> Dechunk(old(buf[lo..hi]), reach).Overrun?
    ensures match Dechunk(old(buf[lo..hi]), reach)
            case Incomplete => n == 0 && buf[..] == old(buf[..])
            case Complete(used, body) =>
              && n == used && size == |body|
              && buf[..lo] == old(buf[..lo]) && buf[lo..lo + size] == body && buf[lo + size..] == old(buf[lo + size..])
            case Overrun => buf[..lo] == old(buf[..lo])
  {
    hide Dechunk, Continue, Moved, HttpChunk, Extent, Span.Exact;
    ghost var input, original := buf[lo..hi], buf[..];
    var offset := FirstPass(buf, lo, hi, reach);
    ExtentIs(input, reach);
    size := 0;
    if offset == 0 {
      return 0, 0, false;
    }
    ContinueStart(input, reach);
    assert buf[lo..lo + size] == [];
    offset := 0;
    var more := true;
    while more
      invariant size <= offset <= hi - lo
      invariant buf[..lo] == original[..lo] && buf[lo + size..] == original[lo + size..]
      invariant Dechunk(input, reach) ==
                if more then Continue(input, offset, buf[lo..lo + size], reach)
                  else Complete(offset, buf[lo..lo + size])
      decreases hi - lo - offset, more
    {
      TailSlice(buf[..], original, lo, lo + size, lo + offset, hi);
      ContinueChunk(input, offset, buf[lo..lo + size], reach);
      var chunk := ChunkAt(buf, lo + offset, hi, reach);
      if chunk.size > 0 && !chunk.Exact() {
        return offset, size, true;
      }
      offset, size, more := JoinOne(buf, lo, hi, offset, size, chunk, reach, input, original);
    }
    return offset, size, false;
  }

  /**
   One round of the second pass, at a chunk whose header is the one the first pass read: its body
   moves down to the end of those already joined.
   */
  method JoinOne(buf: array<Byte>, lo: nat, hi: nat, from: nat, joined: nat, chunk: Span,
                 ghost reach: Reach, ghost input: seq<Byte>, ghost original: seq<Byte>)
    returns (offset: nat, size: nat, more: bool)
    requires lo <= hi < buf.Length == |original| && input == original[lo..hi] && joined <= from <= hi - lo
    requires buf[..lo] == original[..lo] && buf[lo + joined..] == original[lo + joined..]
    requires chunk == HttpChunk(input[from..], reach) && chunk.n > 0 && (chunk.size > 0 ==> chunk.Exact())
    modifies buf
    ensures offset == from + chunk.n <= hi - lo && size == joined + chunk.size <= offset && more == (chunk.size > 0)
    ensures buf[..lo] == original[..lo] && buf[lo + size..] == original[lo + size..]
    ensures Continue(input, from, old(buf[lo..lo + joined]), reach) ==
            if more then Continue(input, offset, buf[lo..lo + size], reach) else Complete(offset, buf[lo..lo + size])
  {
    hide HttpChunk, Continue, Dechunk, Moved;
    var start := lo + from + chunk.start;
    ghost var s := buf[..];
    ContinueChunk(input, from, s[lo..lo + joined], reach);
    JoinedParts(s, original, lo, hi, from, joined, chunk);
    Memmove(buf, lo + joined, start, chunk.size);
    offset, size, more := from + chunk.n, joined + chunk.size, chunk.size > 0;
  }

  /** The parts of the buffer after such a move. */
  lemma JoinedParts(s: seq<Byte>, original: seq<Byte>, lo: nat, hi: nat, from: nat, joined: nat, chunk: Span)
    requires lo <= hi <= |s| == |original| && joined <= from && lo + from + chunk.start + chunk.size <= hi
    requires s[..lo] == original[..lo] && s[lo + joined..] == original[lo + joined..]
    ensures var t := Moved(s, lo + joined, lo + from + chunk.start, chunk.size);
            var k := lo + joined + chunk.size;
            && |t| == |s| && t[..lo] == original[..lo] && t[k..] == original[k..]
            && t[lo..k] == s[lo..lo + joined] + original[lo..hi][from + chunk.start..from + chunk.start + chunk.size]
            && (chunk.size == 0 ==> t[lo..k] == s[lo..lo + joined])
  {
    hide Moved;
    var first := from + chunk.start;
    SliceOfSlice(original, lo, hi, first, first + chunk.size);
    MovedBelow(s, lo, lo + joined, lo + first, chunk.size);
    SameSlice(s, original, lo + joined, lo + first, chunk.size);
    SameTail(s, original, lo + joined, chunk.size);
    assert s[lo..lo + joined] + [] == s[lo..lo + joined];
  }

  lemma SameSlice(s: seq<Byte>, t: seq<Byte>, k: nat, i: nat, n: nat)
    requires k <= i && i + n <= |s| == |t| && s[k..] == t[k..]
    ensures s[i..i + n] == t[i..i + n]
  {
    SliceOfTail(s, k, i - k, i - k + n);
    SliceOfTail(t, k, i - k, i - k + n);
  }

  lemma SameTail(s: seq<Byte>, t: seq<Byte>, k: nat, n: nat)
    requires k + n <= |s| == |t| && s[k..] == t[k..]
    ensures s[k + n..] == t[k + n..]
  {
    SliceOfTail(s, k, n, n);
    SliceOfTail(t, k, n, n);
  }

  lemma MovedBelow(s: seq<Byte>, lo: nat, dst: nat, src: nat, n: nat)
    requires lo <= dst <= src && src + n <= |s|
    ensures var t := Moved(s, dst, src, n);
            && |t| == |s| && t[..lo] == s[..lo] && t[dst + n..] == s[dst + n..]
            && t[lo..dst + n] == s[lo..dst] + s[src..src + n]
  {
  }

  lemma TailSlice(s: seq<Byte>, t: seq<Byte>, lo: nat, k: nat, from: nat, hi: nat)
    requires lo <= k <= from <= hi < |s| == |t| && s[k..] == t[k..]
    ensures s[from..hi] == t[lo..hi][from - lo..] && s[hi] == t[hi]
  {
    SliceOfTail(s, k, from - k, hi - k);
    SliceOfTail(t, k, from - k, hi - k);
    SliceOfSlice(t, lo, hi, from - lo, hi - lo);
    assert s[hi] == s[k..][hi - k] && t[hi] == t[k..][hi - k];
  }

  /** http.c:99-106: walk over the chunks without touching them. */
  method FirstPass(buf: array<Byte>, lo: nat, hi: nat, reach: Reach) returns (offset: nat)
    requires lo <= hi && Sentinel(buf, hi)
    ensures offset == Extent(buf[lo..hi], reach)
  {
    hide HttpChunk, Extent;
    ghost var input := buf[lo..hi];
    offset := 0;
    assert input[0..] == input;
    while true
      invariant offset <= hi - lo
      invariant Extent(input, reach) == var m := Extent(input[offset..], reach); if m == 0 then 0 else offset + m
      decreases hi - lo - offset
    {
      assert buf[lo + offset..hi] == input[offset..];
      ExtentStep(input[offset..], reach);
      var chunk := ChunkAt(buf, lo + offset, hi, reach);
      if chunk.n == 0 {
        return 0;
      }
      assert input[offset..][chunk.n..] == input[offset + chunk.n..];
      offset := offset + chunk.n;
      if chunk.size == 0 {
        break;
      }
    }
  }

  // ---------------------------------------------------------------- prefix stability

  lemma {:induction false} FindExtend(s: seq<Byte>, t: seq<Byte>, i: nat, b: Byte)
    requires i <= |s|
    ensures Find(s, i, b) < |s| ==> Find(s + t, i, b) == Find(s, i, b)
    ensures Find(s, i, b) == |s| ==> Find(s + t, i, b) >= |s|
    decreases |s| - i
  {
    if i < |s| && s[i] != b {
      FindExtend(s, t, i + 1, b);
    }
  }

  /** Read from the size line alone, a complete chunk stays what it is when more bytes arrive. */
  lemma LineChunkStable(s: seq<Byte>, t: seq<Byte>)
    requires HttpChunk(s, Line).n > 0
    ensures HttpChunk(s + t, Line) == HttpChunk(s, Line)
  {
    FindExtend(s, t, 0, LF);
    var e := Find(s, 0, LF);
    assert (s + t)[..e] == s[..e];
  }

  lemma {:induction false} LineDechunkStable(s: seq<Byte>, t: seq<Byte>)
    requires Dechunk(s, Line).Complete?
    ensures Dechunk(s + t, Line) == Dechunk(s, Line)
    decreases |s|
  {
    hide HttpChunk, Dechunk;
    DechunkStep(s, Line);
    LineChunkStable(s, t);
    DechunkStep(s + t, Line);
    var c := HttpChunk(s, Line);
    if c.size > 0 {
      assert (s + t)[c.n..] == s[c.n..] + t;
      assert (s + t)[c.start..c.start + c.size] == s[c.start..c.start + c.size];
      LineDechunkStable(s[c.n..], t);
    }
  }

  /** Every size number that the walk meets ends inside the bytes that are there. */
  ghost predicate NumbersEnd(s: seq<Byte>)
    decreases |s|
  {
    var c := HttpChunk(s, Everything);
    NumberEnd(s, 16) < |s| && (c.n > 0 && c.size > 0 ==> NumbersEnd(s[c.n..]))
  }

  lemma ChunkExtend(s: seq<Byte>, t: seq<Byte>)
    requires HttpChunk(s, Everything).n > 0 && NumberEnd(s, 16) < |s|
    ensures HttpChunk(s + t, Everything) == HttpChunk(s, Everything)
  {
    hide StrToUll, NumberEnd, Find;
    FindExtend(s, t, 0, LF);
    StrToUllExtend(s, t, 16);
  }

  /** A chunk whose number runs to the end of the bytes is followed by no last chunk. */
  lemma {:induction false} RunsOut(s: seq<Byte>)
    requires NumberEnd(s, 16) == |s| && HttpChunk(s, Everything).n > 0 && HttpChunk(s, Everything).size > 0
    ensures Dechunk(s, Everything).Incomplete?
    decreases |s|
  {
    hide HttpChunk, Dechunk, NumberEnd, StrToUll;
    var c := HttpChunk(s, Everything);
    var rest := s[c.n..];
    DechunkStep(s, Everything);
    DechunkStep(rest, Everything);
    NoLineNoChunk(rest);
    var e := Find(rest, 0, LF);
    if e < |rest| {
      assert s[c.n + e] == LF;
      LineFeedBefore(s, c.n + e);
      TailNumber(s, c.n, 16);
      SizeIsNumber(s);
      SizeIsNumber(rest);
      if HttpChunk(rest, Everything).n > 0 {
        RunsOut(rest);
      }
    }
  }

  lemma SizeIsNumber(s: seq<Byte>)
    ensures HttpChunk(s, Everything).n > 0 ==> HttpChunk(s, Everything).size == StrToUll(s, 16)
  {
  }

  /** Where some number does not end, one more digit gives a longer body, or none. */
  lemma {:induction false} OneMoreDigit(s: seq<Byte>)
    requires |s| < HALF_WORD && Dechunk(s, Everything).Complete? && !NumbersEnd(s)
    ensures var r := Dechunk(s + [49], Everything); r.Complete? ==> |r.body| > |Dechunk(s, Everything).body|
    decreases |s|
  {
    hide HttpChunk, Dechunk, NumberEnd;
    var c := HttpChunk(s, Everything);
    DechunkStep(s, Everything);
    DechunkStep(s + [49], Everything);
    if NumberEnd(s, 16) < |s| {
      ChunkExtend(s, [49]);
      var rest := s[c.n..];
      OneMoreDigit(rest);
      assert (s + [49])[c.n..] == rest + [49];
    } else if c.size > 0 {
      RunsOut(s);
    } else {
      LastChunkGrows(s);
    }
  }

  lemma LastChunkGrows(s: seq<Byte>)
    requires HttpChunk(s, Everything).n > 0 && HttpChunk(s, Everything).size == 0 && NumberEnd(s, 16) == |s|
    ensures HttpChunk(s + [49], Everything).n == 0 || HttpChunk(s + [49], Everything).size > 0
  {
    hide StrToUll, NumberEnd;
    FindExtend(s, [49], 0, LF);
    ZeroIsNotSaturated(s);
    LongerNumber(s);
  }

  /** A size line with some byte that is no white space bounds the number, so both readings agree. */
  lemma NonBlankLine(s: seq<Byte>, k: nat)
    requires k < Find(s, 0, LF) < |s| && !IsSpace(s[k])
    ensures HttpChunk(s, Everything) == HttpChunk(s, Line) && NumberEnd(s, 16) < |s|
  {
    var e := Find(s, 0, LF);
    var line, rest := s[..e], s[e..];
    assert s == line + rest && rest[0] == LF;
    LineEndsNumber(line, rest, k);
  }

  lemma LineEndsNumber(line: seq<Byte>, rest: seq<Byte>, k: nat)
    requires k < |line| && !IsSpace(line[k]) && rest != [] && rest[0] == LF
    ensures StrToUll(line + rest, 16) == StrToUll(line, 16)
    ensures NumberEnd(line + rest, 16) <= |line|
  {
    var i, s := SkipSpaces(line, 0), line + rest;
    assert i <= k;
    SkipSpacesExtend(line, rest, 0);
    assert s[|line|] == LF && NumberStart(s, 16) == NumberStart(line, 16);
    SkipDigitsExtend(line, rest, NumberStart(line, 16), 16);
    DigitsValueExtend(line, rest, NumberStart(line, 16), NumberEnd(line, 16), 16);
  }

  /** Every size line that the walk meets has a byte that is no white space. */
  ghost predicate NoBlankLines(s: seq<Byte>)
    decreases |s|
  {
    var e := Find(s, 0, LF);
    e < |s| ==>
      && (exists k :: 0 <= k < e && !IsSpace(s[k]))
      && (var c := HttpChunk(s, Line); c.n > 0 && c.size > 0 ==> NoBlankLines(s[c.n..]))
  }

  /** One step of the walk. */
  lemma NonBlankStep(s: seq<Byte>)
    requires NoBlankLines(s)
    ensures HttpChunk(s, Everything).n == HttpChunk(s, Line).n
    ensures HttpChunk(s, Line).n > 0 ==> HttpChunk(s, Everything) == HttpChunk(s, Line)
    ensures HttpChunk(s, Line).n > 0 && HttpChunk(s, Line).size > 0 ==> NoBlankLines(s[HttpChunk(s, Line).n..])
  {
    hide StrToUll, HttpChunk;
    var e := Find(s, 0, LF);
    NoLineNoChunk(s);
    if e < |s| {
      var k :| 0 <= k < e && !IsSpace(s[k]);
      NonBlankLine(s, k);
    }
  }

  lemma {:induction false} ReadingsAgree(s: seq<Byte>)
    requires NoBlankLines(s)
    ensures Dechunk(s, Everything) == Dechunk(s, Line)
    decreases |s|
  {
    hide HttpChunk, Find, NoBlankLines, Dechunk;
    NonBlankStep(s);
    DechunkStep(s, Line);
    DechunkStep(s, Everything);
    var c := HttpChunk(s, Line);
    if c.n > 0 && c.size > 0 {
      ReadingsAgree(s[c.n..]);
    }
  }

  lemma {:induction false} NoBlankNumbersEnd(s: seq<Byte>)
    requires NoBlankLines(s) && Dechunk(s, Everything).Complete?
    ensures NumbersEnd(s)
    decreases |s|
  {
    hide HttpChunk, Dechunk, NumberEnd;
    DechunkStep(s, Everything);
    NoLineNoChunk(s);
    NonBlankStep(s);
    var k :| 0 <= k < Find(s, 0, LF) && !IsSpace(s[k]);
    NonBlankLine(s, k);
    var c := HttpChunk(s, Everything);
    if c.size > 0 {
      NoBlankNumbersEnd(s[c.n..]);
    }
  }

  /** Fewer bytes show no more size lines. */
  lemma {:induction false} NoBlankPrefix(s: seq<Byte>, t: seq<Byte>)
    requires NoBlankLines(s + t)
    ensures NoBlankLines(s)
    decreases |s|
  {
    hide HttpChunk;
    var e := Find(s, 0, LF);
    if e < |s| {
      FindExtend(s, t, 0, LF);
      var k :| 0 <= k < e && !IsSpace((s + t)[k]);
      assert !IsSpace(s[k]);
      var c := HttpChunk(s, Line);
      if c.n > 0 && c.size > 0 {
        LineChunkStable(s, t);
        assert (s + t)[c.n..] == s[c.n..] + t;
        NoBlankPrefix(s[c.n..], t);
      }
    }
  }

  lemma NoLineNoChunk(s: seq<Byte>)
    ensures Find(s, 0, LF) == |s| ==> HttpChunk(s, Line).n == 0 == HttpChunk(s, Everything).n
  {
  }

  /** A blank size line: the same four bytes are a chunk of no bytes, or of five once a 5 follows. */
  lemma BlankLineUnstable(reach: Reach)
    requires !reach.Line?
    ensures var s := [SP, LF, 48, 48];
            && HttpChunk(s, reach) == Span(4, 2, 0)
            && HttpChunk(s + [53], reach) == Span(0, 2, 5)
  {
    hide StrToUll;
    BlankLineNumbers();
    var s, t := [SP, LF, 48, 48], [SP, LF, 48, 48, 53];
    assert s + [53] == t;
    assert Find(s, 0, LF) == 1 && Find(t, 0, LF) == 1;
  }

  lemma BlankLineNumbers()
    ensures StrToUll([SP, LF, 48, 48], 16) == 0 && StrToUll([SP, LF, 48, 48, 53], 16) == 5
  {
    var s, t := [SP, LF, 48, 48], [SP, LF, 48, 48, 53];
    assert SkipSpaces(s, 2) == 2 && SkipSpaces(t, 2) == 2;
    assert SkipSpaces(s, 1) == 2 && SkipSpaces(t, 1) == 2;
    assert SkipSpaces(s, 0) == 2 && SkipSpaces(t, 0) == 2;
    assert SkipDigits(s, 3, 16) == 4 && SkipDigits(t, 4, 16) == 5 && SkipDigits(t, 3, 16) == 5;
    assert SkipDigits(s, 2, 16) == 4 && SkipDigits(t, 2, 16) == 5;
    assert DigitsValue(s, 2, 3, 16) == 0 && DigitsValue(t, 2, 3, 16) == 0;
    assert DigitsValue(s, 2, 4, 16) == 0;
    assert DigitsValue(t, 2, 4, 16) == 0 && DigitsValue(t, 2, 5, 16) == 5;
  }
}
