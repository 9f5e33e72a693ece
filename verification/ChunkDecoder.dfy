/**
 The resumable, in-place decoder of the chunked transfer coding (section 7.1 of RFC 9112): a state
 machine that eats one byte at a time, and the buffer-rewriting method that runs it in bulk.
 */
module ChunkDecoder {
  import opened Bytes
  import opened Words

  datatype Phase = InChunkSize | InChunkExt | InChunkData | InChunkCrlf | InTrailersLineHead | InTrailersLineMiddle

  datatype State = State(phase: Phase, bytesLeft: nat, hexCount: nat, consumeTrailer: bool)
  {
    /** What every call keeps, starting from a zero-filled decoder. */
    predicate Valid() {
      && hexCount <= 16 && bytesLeft < WORD_SIZE
      && (phase.InChunkSize? ==> bytesLeft < Power16(hexCount))
      && (!phase.InChunkSize? ==> hexCount == 0)
      && (phase.InChunkData? ==> bytesLeft > 0)
      && (phase.InChunkCrlf? || phase.InTrailersLineHead? || phase.InTrailersLineMiddle? ==> bytesLeft == 0)
    }
  }

  function Initial(consumeTrailer: bool): State {
    State(InChunkSize, 0, 0, consumeTrailer)
  }

  function Power16(n: nat): (p: nat)
    ensures p >= 1
  {
    if n == 0 then 1 else 16 * Power16(n - 1)
  }

  lemma Power16Word()
    ensures Power16(16) == WORD_SIZE
  {
    assert Power16(4) == 0x1_0000 && Power16(8) == 0x1_0000_0000 && Power16(12) == 0x1_0000_0000_0000;
  }

  datatype Verdict = Incomplete | Complete | Failed

  /** One byte: consumed (with the byte passed on or not), the end of the body, or an error. */
  datatype Step = Consume(next: State, emit: bool) | Finish | Reject

  function StepByte(d: State, b: Byte): Step {
    match d.phase
    case InChunkSize =>
      var v := DecodeHex(b);
      if v == -1 then
        if d.hexCount == 0 then Reject else StepExt(d.(phase := InChunkExt, hexCount := 0), b)
      else if d.hexCount == 16 then Reject
      else Consume(d.(bytesLeft := d.bytesLeft * 16 + v, hexCount := d.hexCount + 1), false)
    case InChunkExt => StepExt(d, b)
    case InChunkData =>
      var left := d.bytesLeft - 1;
      if left < 0 then Reject
      else Consume(d.(bytesLeft := left, phase := if left == 0 then InChunkCrlf else InChunkData), true)
    case InChunkCrlf =>
      if b == CR then Consume(d, false)
      else if b == LF then Consume(d.(phase := InChunkSize), false)
      else Reject
    case InTrailersLineHead =>
      if b == CR then Consume(d, false)
      else if b == LF then Finish
      else Consume(d.(phase := InTrailersLineMiddle), false)
    case InTrailersLineMiddle =>
      Consume(if b == LF then d.(phase := InTrailersLineHead) else d, false)
  }

  function StepExt(d: State, b: Byte): Step {
    if b != LF then Consume(d, false)
    else if d.bytesLeft > 0 then Consume(d.(phase := InChunkData), false)
    else if d.consumeTrailer then Consume(d.(phase := InTrailersLineHead), false)
    else Finish
  }

  /** `used` input bytes have produced the output `out`; the decoder stands at `state`. */
  datatype Outcome = Outcome(state: State, out: seq<Byte>, verdict: Verdict, used: nat)
  {
    /** The same outcome for a run that had already used n bytes and produced `before`. */
    function After(before: seq<Byte>, n: nat): Outcome {
      this.(out := before + out, used := n + used)
    }
  }

  /** The phase a finished decoder is left in. */
  function Finished(d: State): State {
    if d.phase.InChunkSize? then d.(phase := InChunkExt, hexCount := 0) else d
  }

  function Feed(d: State, s: seq<Byte>): (o: Outcome)
    ensures o.used <= |s|
    ensures o.verdict.Incomplete? ==> o.used == |s|
    decreases |s|
  {
    if s == [] then Outcome(d, [], Incomplete, 0)
    else
      match StepByte(d, s[0])
      case Reject => Outcome(d, [], Failed, 0)
      case Finish => Outcome(Finished(d), [], Complete, 1)
      case Consume(next, emit) => Feed(next, s[1..]).After(if emit then [s[0]] else [], 1)
  }

  lemma {:induction false} StepKeepsValid(d: State, b: Byte)
    requires d.Valid()
    ensures StepByte(d, b).Consume?
            ==> StepByte(d, b).next.Valid() && StepByte(d, b).next.consumeTrailer == d.consumeTrailer
    ensures Finished(d).Valid()
  {
    hide Power16, DecodeHex;
    if d.phase.InChunkSize? && d.hexCount < 16 && DecodeHex(b) != -1 {
      SizeFitsWord(d.bytesLeft, d.hexCount, DecodeHex(b));
    }
  }

  lemma SizeFitsWord(left: nat, digits: nat, v: nat)
    requires left < Power16(digits) && digits < 16 && v < 16
    ensures left * 16 + v < Power16(digits + 1) <= WORD_SIZE
  {
    Power16Word();
    Power16Monotone(digits + 1, 16);
  }

  lemma {:induction false} Power16Monotone(a: nat, b: nat)
    requires a <= b
    ensures Power16(a) <= Power16(b)
  {
    if a < b {
      Power16Monotone(a, b - 1);
    }
  }

  /** The size accumulator never wraps and the phases keep their meaning, over any input. */
  lemma {:induction false} FeedKeepsValid(d: State, s: seq<Byte>)
    requires d.Valid()
    ensures Feed(d, s).state.Valid() && |Feed(d, s).out| <= Feed(d, s).used
    decreases |s|
  {
    if s != [] {
      StepKeepsValid(d, s[0]);
      var step := StepByte(d, s[0]);
      if step.Consume? {
        FeedKeepsValid(step.next, s[1..]);
      }
    }
  }

  // ---------------------------------------------------------------- split invariance

  /** Cutting the input in two changes nothing: resume on the second piece if the first ran out. */
  lemma {:induction false} FeedSplit(d: State, a: seq<Byte>, b: seq<Byte>)
    ensures Feed(d, a + b) ==
            if Feed(d, a).verdict.Incomplete? then Feed(Feed(d, a).state, b).After(Feed(d, a).out, |a|) else Feed(d, a)
    decreases |a|
  {
    if a == [] {
      assert a + b == b;
      assert Feed(d, b).After([], 0) == Feed(d, b);
    } else {
      var step := StepByte(d, a[0]);
      assert (a + b)[0] == a[0] && (a + b)[1..] == a[1..] + b;
      if step.Consume? {
        FeedSplit(step.next, a[1..], b);
        var first := if step.emit then [a[0]] else [];
        var rest := Feed(step.next, a[1..]);
        if rest.verdict.Incomplete? {
          var tail := Feed(rest.state, b);
          assert first + (rest.out + tail.out) == (first + rest.out) + tail.out;
        }
      }
    }
  }

  /** The caller's loop: hand over the pieces one by one until the decoder no longer wants more. */
  function FeedPieces(d: State, pieces: seq<seq<Byte>>): Outcome
    decreases |pieces|
  {
    if pieces == [] then Outcome(d, [], Incomplete, 0)
    else
      var o := Feed(d, pieces[0]);
      if o.verdict.Incomplete? then FeedPieces(o.state, pieces[1..]).After(o.out, |pieces[0]|) else o
  }

  /** However a stream is cut up, output, final state, verdict and bytes used are those of one call. */
  lemma {:induction false} SplitInvariance(d: State, pieces: seq<seq<Byte>>)
    ensures FeedPieces(d, pieces) == Feed(d, Flatten(pieces))
    decreases |pieces|
  {
    if pieces != [] {
      FeedSplit(d, pieces[0], Flatten(pieces[1..]));
      SplitInvariance(Feed(d, pieces[0]).state, pieces[1..]);
    }
  }

  // ---------------------------------------------------------------- the decoder as the code runs it

  /** How one part of the code ends: fall through to the next phase, or leave with a verdict. */
  datatype Signal = Next | Exit(verdict: Verdict)

  /** From d, the first n bytes of `rest` lead to d' and the output `out`; `signal` says what follows. */
  ghost predicate Runs(d: State, rest: seq<Byte>, d': State, out: seq<Byte>, n: nat, signal: Signal) {
    && n <= |rest|
    && match signal
       case Next => Feed(d, rest) == Feed(d', rest[n..]).After(out, n)
       case Exit(verdict) => Feed(d, rest) == Outcome(d', out, verdict, n)
  }

  lemma RunsStart(d: State, rest: seq<Byte>)
    ensures Runs(d, rest, d, [], 0, Next)
  {
    assert rest[0..] == rest;
    assert Feed(d, rest).After([], 0) == Feed(d, rest);
  }

  lemma RunsOut(d: State, rest: seq<Byte>, d': State, out: seq<Byte>)
    requires Runs(d, rest, d', out, |rest|, Next)
    ensures Runs(d, rest, d', out, |rest|, Exit(Incomplete))
  {
    assert rest[|rest|..] == [];
  }

  lemma RunsThen(d: State, rest: seq<Byte>, d1: State, out1: seq<Byte>, n1: nat, d2: State, out2: seq<Byte>,
      n2: nat, signal: Signal)
    requires Runs(d, rest, d1, out1, n1, Next) && Runs(d1, rest[n1..], d2, out2, n2, signal)
    ensures Runs(d, rest, d2, out1 + out2, n1 + n2, signal)
  {
    assert rest[n1..][n2..] == rest[n1 + n2..];
    var o := Feed(d2, rest[n1 + n2..]);
    assert out1 + (out2 + o.out) == (out1 + out2) + o.out;
  }

  lemma RunsOn(d: State, rest: seq<Byte>, d1: State, n1: nat, d2: State, n2: nat, signal: Signal)
    requires Runs(d, rest, d1, [], n1, Next) && Runs(d1, rest[n1..], d2, [], n2, signal)
    ensures Runs(d, rest, d2, [], n1 + n2, signal)
  {
    RunsThen(d, rest, d1, [], n1, d2, [], n2, signal);
  }

  /** One consumed byte that is not passed on. */
  lemma RunsByte(d: State, rest: seq<Byte>, d1: State, n: nat)
    requires n < |rest| && Runs(d, rest, d1, [], n, Next) && StepByte(d1, rest[n]).Consume?
             && !StepByte(d1, rest[n]).emit
    ensures Runs(d, rest, StepByte(d1, rest[n]).next, [], n + 1, Next)
  {
    assert rest[n..][0] == rest[n] && rest[n..][1..] == rest[n + 1..];
  }

  /** The byte that completes the body, or is refused. */
  lemma RunsLast(d: State, rest: seq<Byte>, d1: State, n: nat)
    requires n < |rest| && Runs(d, rest, d1, [], n, Next)
    ensures StepByte(d1, rest[n]).Finish? ==> Runs(d, rest, Finished(d1), [], n + 1, Exit(Complete))
    ensures StepByte(d1, rest[n]).Reject? ==> Runs(d, rest, d1, [], n, Exit(Failed))
  {
  }

  lemma RunsSizeDone(d: State, rest: seq<Byte>, d1: State, n: nat)
    requires n < |rest| && Runs(d, rest, d1, [], n, Next)
    requires d1.phase.InChunkSize? && d1.hexCount > 0 && DecodeHex(rest[n]) == -1
    ensures Runs(d, rest, d1.(phase := InChunkExt, hexCount := 0), [], n, Next)
  {
  }

  /** Bulk copying of chunk data is the same as passing its bytes on one at a time. */
  lemma {:induction false} RunsData(d: State, rest: seq<Byte>, n: nat)
    requires d.phase.InChunkData? && n <= d.bytesLeft && n <= |rest| && d.bytesLeft > 0
    ensures var phase := if n == d.bytesLeft then InChunkCrlf else InChunkData;
            Runs(d, rest, d.(phase := phase, bytesLeft := d.bytesLeft - n), rest[..n], n, Next)
  {
    hide Runs;
    if n == 0 {
      RunsStart(d, rest);
      assert rest[..0] == [];
    } else {
      RunsData(d, rest, n - 1);
      var d1 := d.(bytesLeft := d.bytesLeft - (n - 1));
      RunsEmit(d, rest, d1, rest[..n - 1], n - 1);
      assert rest[..n - 1] + [rest[n - 1]] == rest[..n];
    }
  }

  lemma RunsEmit(d: State, rest: seq<Byte>, d1: State, out: seq<Byte>, n: nat)
    requires n < |rest| && Runs(d, rest, d1, out, n, Next) && StepByte(d1, rest[n]).Consume?
             && StepByte(d1, rest[n]).emit
    ensures Runs(d, rest, StepByte(d1, rest[n]).next, out + [rest[n]], n + 1, Next)
  {
    assert rest[n..][0] == rest[n] && rest[n..][1..] == rest[n + 1..];
    var o := Feed(StepByte(d1, rest[n]).next, rest[n + 1..]);
    assert out + ([rest[n]] + o.out) == (out + [rest[n]]) + o.out;
  }

  class Decoder {
    var bytesLeftInChunk: nat
    var consumeTrailer: bool
    var hexCount: nat
    var phase: Phase

    ghost function Abstract(): State
      reads this
    {
      State(phase, bytesLeftInChunk, hexCount, consumeTrailer)
    }

    /** A zero-filled decoder. */
    constructor (consumeTrailer: bool)
      ensures Abstract() == Initial(consumeTrailer) && Abstract().Valid()
    {
      bytesLeftInChunk, hexCount, phase := 0, 0, InChunkSize;
      this.consumeTrailer := consumeTrailer;
    }

    /** picohttpparser.c:531-550: hex digits up to the first other byte. */
    method ScanSize(buf: array<Byte>, bufsz: nat, from: nat) returns (src: nat, signal: Signal)
      requires phase.InChunkSize? && hexCount <= 16 && from <= bufsz <= buf.Length
      modifies `phase, `hexCount, `bytesLeftInChunk
      ensures from <= src <= bufsz && hexCount <= 16
      ensures Runs(old(Abstract()), buf[from..bufsz], Abstract(), [], src - from, signal)
      ensures if signal.Next? then phase.InChunkExt? else phase.InChunkSize?
    {
      hide Runs;
      ghost var d, rest := Abstract(), buf[from..bufsz];
      RunsStart(d, rest);
      src := from;
      while true
        invariant from <= src <= bufsz && phase.InChunkSize? && hexCount <= 16
        invariant Runs(d, rest, Abstract(), [], src - from, Next)
        decreases bufsz - src
      {
        if src == bufsz {
          RunsOut(d, rest, Abstract(), []);
          return src, Exit(Incomplete);
        }
        RunsLast(d, rest, Abstract(), src - from);
        var v := DecodeHex(buf[src]);
        if v == -1 {
          if hexCount == 0 {
            return src, Exit(Failed);
          }
          break;
        }
        if hexCount == 16 {
          return src, Exit(Failed);
        }
        RunsByte(d, rest, Abstract(), src - from);
        bytesLeftInChunk := bytesLeftInChunk * 16 + v;
        hexCount := hexCount + 1;
        src := src + 1;
      }
      RunsSizeDone(d, rest, Abstract(), src - from);
      hexCount := 0;
      phase := InChunkExt;
      signal := Next;
    }

    /** picohttpparser.c:554-569: the rest of the size line, up to its line feed. */
    method ScanExt(buf: array<Byte>, bufsz: nat, from: nat) returns (src: nat, signal: Signal)
      requires phase.InChunkExt? && from <= bufsz <= buf.Length
      modifies `phase
      ensures from <= src <= bufsz
      ensures Runs(old(Abstract()), buf[from..bufsz], Abstract(), [], src - from, signal)
      ensures signal.Next? ==> from < src && phase == if bytesLeftInChunk > 0 then InChunkData else InTrailersLineHead
      ensures signal.Exit? ==> phase.InChunkExt?
    {
      hide Runs;
      ghost var d, rest := Abstract(), buf[from..bufsz];
      RunsStart(d, rest);
      src := from;
      while true
        invariant from <= src <= bufsz && phase.InChunkExt?
        invariant Runs(d, rest, d, [], src - from, Next)
        decreases bufsz - src
      {
        if src == bufsz {
          RunsOut(d, rest, d, []);
          return src, Exit(Incomplete);
        }
        if buf[src] == LF {
          break;
        }
        RunsByte(d, rest, d, src - from);
        src := src + 1;
      }
      RunsLast(d, rest, d, src - from);
      src := src + 1;
      signal := Next;
      if bytesLeftInChunk == 0 {
        if !consumeTrailer {
          return src, Exit(Complete);
        }
        RunsByte(d, rest, d, src - from - 1);
        phase := InTrailersLineHead;
      } else {
        RunsByte(d, rest, d, src - from - 1);
        phase := InChunkData;
      }
    }

    /** picohttpparser.c:571-587: move as much of the chunk down as the buffer holds. */
    method CopyData(buf: array<Byte>, bufsz: nat, to: nat, from: nat) returns (dst: nat, src: nat, signal: Signal)
      requires phase.InChunkData? && bytesLeftInChunk > 0 && to <= from <= bufsz <= buf.Length
      modifies `phase, `bytesLeftInChunk, buf
      ensures to <= dst <= src <= bufsz && from <= src && dst - to == src - from
      ensures buf[..to] == old(buf[..to]) && buf[to..dst] == old(buf[from..src]) && buf[src..] == old(buf[src..])
      ensures Runs(old(Abstract()), old(buf[from..bufsz]), Abstract(), old(buf[from..src]), src - from, signal)
      ensures phase.InChunkData? ==> bytesLeftInChunk > 0
      ensures signal.Next? ==> phase.InChunkCrlf?
    {
      hide Runs, Moved;
      ghost var d, rest, before := Abstract(), buf[from..bufsz], buf[..];
      dst, src := to, from;
      var avail := bufsz - src;
      var size := if avail < bytesLeftInChunk then avail else bytesLeftInChunk;
      RunsData(d, rest, size);
      MovedDown(before, dst, src, size);
      assert rest[..size] == before[src..src + size];
      if dst != src {
        Memmove(buf, dst, src, size);
      }
      assert buf[..][..dst] == before[..dst] && buf[..][dst..dst + size] == before[src..src + size];
      assert buf[..][src + size..] == before[src + size..];
      src, dst := src + size, dst + size;
      bytesLeftInChunk := bytesLeftInChunk - size;
      if bytesLeftInChunk > 0 {
        RunsOut(d, rest, Abstract(), rest[..size]);
        return dst, src, Exit(Incomplete);
      }
      phase := InChunkCrlf;
      signal := Next;
    }

    /** picohttpparser.c:590-602: carriage returns, then the line feed that ends the chunk. */
    method SkipCrlf(buf: array<Byte>, bufsz: nat, from: nat) returns (src: nat, signal: Signal)
      requires phase.InChunkCrlf? && from <= bufsz <= buf.Length
      modifies `phase
      ensures from <= src <= bufsz
      ensures Runs(old(Abstract()), buf[from..bufsz], Abstract(), [], src - from, signal)
      ensures !phase.InChunkData? && (signal.Next? ==> phase.InChunkSize? && from < src)
    {
      hide Runs;
      ghost var d, rest := Abstract(), buf[from..bufsz];
      RunsStart(d, rest);
      src := from;
      while true
        invariant from <= src <= bufsz && phase.InChunkCrlf?
        invariant Runs(d, rest, d, [], src - from, Next)
        decreases bufsz - src
      {
        if src == bufsz {
          RunsOut(d, rest, d, []);
          return src, Exit(Incomplete);
        }
        if buf[src] != CR {
          break;
        }
        RunsByte(d, rest, d, src - from);
        src := src + 1;
      }
      if buf[src] != LF {
        RunsLast(d, rest, d, src - from);
        return src, Exit(Failed);
      }
      RunsByte(d, rest, d, src - from);
      src := src + 1;
      phase := InChunkSize;
      signal := Next;
    }

    /** picohttpparser.c:604-612: the start of a trailer line, or the blank line that ends the body. */
    method LineHead(buf: array<Byte>, bufsz: nat, from: nat) returns (src: nat, signal: Signal)
      requires phase.InTrailersLineHead? && from <= bufsz <= buf.Length
      modifies `phase
      ensures from <= src <= bufsz
      ensures Runs(old(Abstract()), buf[from..bufsz], Abstract(), [], src - from, signal)
      ensures !phase.InChunkData? && (signal.Next? ==> phase.InTrailersLineMiddle? && from < src)
    {
      hide Runs;
      ghost var d, rest := Abstract(), buf[from..bufsz];
      RunsStart(d, rest);
      src := from;
      while true
        invariant from <= src <= bufsz && phase.InTrailersLineHead?
        invariant Runs(d, rest, d, [], src - from, Next)
        decreases bufsz - src
      {
        if src == bufsz {
          RunsOut(d, rest, d, []);
          return src, Exit(Incomplete);
        }
        if buf[src] != CR {
          break;
        }
        RunsByte(d, rest, d, src - from);
        src := src + 1;
      }
      RunsLast(d, rest, d, src - from);
      src := src + 1;
      if buf[src - 1] == LF {
        return src, Exit(Complete);
      }
      RunsByte(d, rest, d, src - from - 1);
      phase := InTrailersLineMiddle;
      signal := Next;
    }

    /** picohttpparser.c:615-623: the rest of a trailer line. */
    method LineMiddle(buf: array<Byte>, bufsz: nat, from: nat) returns (src: nat, signal: Signal)
      requires phase.InTrailersLineMiddle? && from <= bufsz <= buf.Length
      modifies `phase
      ensures from <= src <= bufsz
      ensures Runs(old(Abstract()), buf[from..bufsz], Abstract(), [], src - from, signal)
      ensures !phase.InChunkData? && (signal.Next? ==> phase.InTrailersLineHead? && from < src)
    {
      hide Runs;
      ghost var d, rest := Abstract(), buf[from..bufsz];
      RunsStart(d, rest);
      src := from;
      while true
        invariant from <= src <= bufsz && phase.InTrailersLineMiddle?
        invariant Runs(d, rest, d, [], src - from, Next)
        decreases bufsz - src
      {
        if src == bufsz {
          RunsOut(d, rest, d, []);
          return src, Exit(Incomplete);
        }
        if buf[src] == LF {
          break;
        }
        RunsByte(d, rest, d, src - from);
        src := src + 1;
      }
      RunsByte(d, rest, d, src - from);
      src := src + 1;
      phase := InTrailersLineHead;
      signal := Next;
    }

    /** The size line: its digits, if not all are in yet, and what follows them. */
    method SizeLine(buf: array<Byte>, bufsz: nat, from: nat) returns (src: nat, signal: Signal)
      requires (phase.InChunkSize? || phase.InChunkExt?) && hexCount <= 16 && from <= bufsz <= buf.Length
      modifies `phase, `hexCount, `bytesLeftInChunk
      ensures from <= src <= bufsz && hexCount <= 16
      ensures Runs(old(Abstract()), buf[from..bufsz], Abstract(), [], src - from, signal)
      ensures signal.Next? ==> from < src && phase == if bytesLeftInChunk > 0 then InChunkData else InTrailersLineHead
      ensures signal.Exit? ==> !phase.InChunkData?
    {
      hide Runs;
      ghost var d, rest := Abstract(), buf[from..bufsz];
      RunsStart(d, rest);
      src := from;
      if phase.InChunkSize? {
        src, signal := ScanSize(buf, bufsz, src);
        if signal.Exit? {
          return;
        }
      }
      ghost var d1, n := Abstract(), src - from;
      assert buf[src..bufsz] == rest[n..];
      src, signal := ScanExt(buf, bufsz, src);
      RunsOn(d, rest, d1, n, Abstract(), src - from - n, signal);
    }

    /** A trailer line, from its head or from its middle. */
    method TrailerLine(buf: array<Byte>, bufsz: nat, from: nat) returns (src: nat, signal: Signal)
      requires (phase.InTrailersLineHead? || phase.InTrailersLineMiddle?) && from <= bufsz <= buf.Length
      modifies `phase
      ensures from <= src <= bufsz && !phase.InChunkData?
      ensures Runs(old(Abstract()), buf[from..bufsz], Abstract(), [], src - from, signal)
      ensures signal.Next? ==> from < src
    {
      hide Runs;
      ghost var d, rest := Abstract(), buf[from..bufsz];
      RunsStart(d, rest);
      src := from;
      if phase.InTrailersLineHead? {
        src, signal := LineHead(buf, bufsz, src);
        if signal.Exit? {
          return;
        }
      }
      ghost var d1, n := Abstract(), src - from;
      assert buf[src..bufsz] == rest[n..];
      src, signal := LineMiddle(buf, bufsz, src);
      RunsOn(d, rest, d1, n, Abstract(), src - from - n, signal);
    }

    /** What is left of a chunk's data, and its line end. */
    method Data(buf: array<Byte>, bufsz: nat, to: nat, from: nat) returns (dst: nat, src: nat, signal: Signal)
      requires (phase.InChunkData? || phase.InChunkCrlf?) && Ready() && to <= from <= bufsz <= buf.Length
      modifies `phase, `bytesLeftInChunk, buf
      ensures to <= dst <= src <= bufsz && from <= src && Ready()
      ensures buf[..to] == old(buf[..to]) && buf[src..] == old(buf[src..])
      ensures Runs(old(Abstract()), old(buf[from..bufsz]), Abstract(), buf[to..dst], src - from, signal)
      ensures signal.Next? ==> from < src
    {
      hide Runs;
      ghost var d, rest := Abstract(), buf[from..bufsz];
      dst, src := to, from;
      RunsStart(d, rest);
      assert buf[to..to] == [];
      if phase.InChunkData? {
        dst, src, signal := CopyData(buf, bufsz, dst, src);
        if signal.Exit? {
          return;
        }
      }
      ghost var d1, n, out := Abstract(), src - from, buf[to..dst];
      assert buf[src..bufsz] == rest[n..] && out + [] == out;
      src, signal := SkipCrlf(buf, bufsz, src);
      RunsThen(d, rest, d1, out, n, Abstract(), [], src - from - n, signal);
    }

    /** One turn of the switch: the current phase, and those its code falls through to. */
    method Turn(buf: array<Byte>, bufsz: nat, to: nat, from: nat) returns (dst: nat, src: nat, signal: Signal)
      requires to <= from <= bufsz <= buf.Length && Ready()
      modifies `phase, `hexCount, `bytesLeftInChunk, buf
      ensures to <= dst <= src <= bufsz && from <= src && Ready()
      ensures buf[..to] == old(buf[..to]) && buf[src..] == old(buf[src..])
      ensures Runs(old(Abstract()), old(buf[from..bufsz]), Abstract(), buf[to..dst], src - from, signal)
      ensures signal.Next? ==> from < src
    {
      hide Runs;
      ghost var d, rest := Abstract(), buf[from..bufsz];
      dst, src, signal := to, from, Next;
      assert buf[to..to] == [];
      if phase.InTrailersLineHead? || phase.InTrailersLineMiddle? {
        src, signal := TrailerLine(buf, bufsz, src);
        return;
      }
      RunsStart(d, rest);
      if phase.InChunkSize? || phase.InChunkExt? {
        src, signal := SizeLine(buf, bufsz, src);
        if signal.Exit? || phase.InTrailersLineHead? {
          return;
        }
      }
      dst, src, signal := DataAfter(buf, bufsz, to, from, src, d, rest);
    }

    /** The chunk data, after a size line that ended at `middle`, if there was one. */
    method DataAfter(buf: array<Byte>, bufsz: nat, to: nat, from: nat, middle: nat, ghost d: State,
        ghost rest: seq<Byte>)
      returns (dst: nat, src: nat, signal: Signal)
      requires (phase.InChunkData? || phase.InChunkCrlf?) && Ready() && to <= from <= middle <= bufsz <= buf.Length
      requires rest == buf[from..bufsz] && Runs(d, rest, Abstract(), [], middle - from, Next)
      modifies `phase, `bytesLeftInChunk, buf
      ensures to <= dst <= src <= bufsz && middle <= src && Ready()
      ensures buf[..to] == old(buf[..to]) && buf[src..] == old(buf[src..])
      ensures Runs(d, rest, Abstract(), buf[to..dst], src - from, signal)
      ensures signal.Next? ==> middle < src
    {
      hide Runs;
      ghost var d1, n := Abstract(), middle - from;
      assert buf[middle..bufsz] == rest[n..];
      dst, src, signal := Data(buf, bufsz, to, middle);
      RunsThen(d, rest, d1, [], n, Abstract(), buf[to..dst], src - middle, signal);
      assert [] + buf[to..dst] == buf[to..dst];
    }

    predicate Ready()
      reads this
    {
      hexCount <= 16 && (phase.InChunkData? ==> bytesLeftInChunk > 0)
    }

    /**
     Rewrites the first `bufsz` bytes in place. The decoded bytes come first and the undecoded tail
     follows them directly; `size` is the decoded length, and `ret` is -2 for more input wanted,
     -1 for an error, or the length of the tail once the body is complete.
     */
    method Decode(buf: array<Byte>, bufsz: nat) returns (ret: int, size: nat)
      requires Abstract().Valid() && bufsz <= buf.Length
      modifies this, buf
      ensures Abstract().Valid()
      ensures var o := Feed(old(Abstract()), old(buf[..bufsz]));
              && Abstract() == o.state && size == |o.out| <= o.used
              && ret == Code(o, bufsz)
              && buf[..size] == o.out
              && buf[size..size + bufsz - o.used] == old(buf[o.used..bufsz])
              && buf[bufsz..] == old(buf[bufsz..])
    {
      hide Feed, Power16;
      ghost var d, input := Abstract(), buf[..bufsz];
      FeedKeepsValid(d, input);
      var dst, src, verdict := Turns(buf, bufsz);
      ret := match verdict case Incomplete => -2 case Failed => -1 case Complete => bufsz - src;
      CloseGap(buf, bufsz, dst, src);
      size := dst;
    }

    /** The loop of picohttpparser.c:528-627, up to the Complete and Exit labels. */
    method Turns(buf: array<Byte>, bufsz: nat) returns (dst: nat, src: nat, verdict: Verdict)
      requires bufsz <= buf.Length && Ready()
      modifies this, buf
      ensures dst <= src <= bufsz && buf[src..bufsz] == old(buf[src..bufsz]) && buf[bufsz..] == old(buf[bufsz..])
      ensures Feed(old(Abstract()), old(buf[..bufsz])) == Outcome(Abstract(), buf[..dst], verdict, src)
    {
      hide Runs;
      ghost var d, input := Abstract(), buf[..bufsz];
      RunsStart(d, input);
      var signal := Next;
      dst, src := 0, 0;
      while signal.Next?
        invariant dst <= src <= bufsz && buf[src..] == old(buf[src..]) && Ready()
        invariant Runs(d, input, Abstract(), buf[..dst], src, signal)
        decreases bufsz - src, if signal.Next? then 1 else 0
      {
        ghost var d1, n, m := Abstract(), src, dst;
        ghost var out := buf[..dst];
        assert buf[src..bufsz] == buf[src..][..bufsz - src] == input[src..];
        dst, src, signal := Turn(buf, bufsz, dst, src);
        RunsThen(d, input, d1, out, n, Abstract(), buf[m..dst], src - n, signal);
        assert buf[..dst] == out + buf[m..dst];
        assert buf[src..] == old(buf[n..])[src - n..];
      }
      verdict := signal.verdict;
      RunsEnd(d, input, Abstract(), buf[..dst], src, verdict);
      TailParts(buf[..], old(buf[..]), src, bufsz);
    }
  }

  lemma RunsEnd(d: State, rest: seq<Byte>, d': State, out: seq<Byte>, n: nat, verdict: Verdict)
    requires Runs(d, rest, d', out, n, Exit(verdict))
    ensures Feed(d, rest) == Outcome(d', out, verdict, n)
  {
  }

  /** picohttpparser.c:632-633: the undecoded tail moves down to the end of the output. */
  method CloseGap(buf: array<Byte>, bufsz: nat, dst: nat, src: nat)
    requires dst <= src <= bufsz <= buf.Length
    modifies buf
    ensures buf[..dst] == old(buf[..dst])
    ensures buf[dst..dst + bufsz - src] == old(buf[src..bufsz])
    ensures buf[bufsz..] == old(buf[bufsz..])
  {
    hide Moved;
    if dst != src {
      ghost var before := buf[..];
      MovedDown(before, dst, src, bufsz - src);
      Memmove(buf, dst, src, bufsz - src);
      assert buf[..dst] == buf[..][..dst] && buf[dst..dst + bufsz - src] == buf[..][dst..dst + bufsz - src];
      assert buf[bufsz..] == buf[..][bufsz..];
    }
  }

  /** The C return value of an outcome. */
  function Code(o: Outcome, bufsz: nat): int
    requires o.used <= bufsz
  {
    match o.verdict case Incomplete => -2 case Failed => -1 case Complete => bufsz - o.used
  }
}
