/**
 One connection of the HTTP server, over its stream: read, parse, dispatch, respond, flush, and
 around again, with pipelined requests. The parser enters as a function with its prefix-stability
 contract, the user's callback as an arbitrary function from the number of the request to what the
 callback does with it. Histories record what came in, was dispatched and was answered.
 */
module Server {
  import opened Bytes
  import opened HttpSyntax
  import opened HttpStability
  import S = Stream

  /** What the user's callback does before it returns. A held request is answered later. */
  datatype Action = Answer(response: seq<Byte>) | Hold | Hangup | AnswerAndHangup(response: seq<Byte>)

  /** `image` is the buffer as the parser leaves it; it may rewrite the bytes of the request. */
  datatype Env<!Q> = Env(parse: seq<Byte> -> Parse<Q>, image: seq<Byte> -> seq<Byte>, user: nat -> Action)

  /** Prefix stability, progress, and no write outside the request. */
  ghost predicate ParserOk<Q(!new)>(env: Env<Q>) {
    && env.parse([]).Partial?
    && (forall s, t :: Keeps(env.parse(s), env.parse(s + t)))
    && (forall s :: env.parse(s).Done? ==>
          0 < env.parse(s).pos <= |s| == |env.image(s)| && env.image(s)[env.parse(s).pos..] == s[env.parse(s).pos..])
  }

  /** The same along one input: progress, and no write outside a request, at each request of s in turn. */
  ghost predicate Sound<Q>(s: seq<Byte>, env: Env<Q>)
    decreases |s|
  {
    && env.parse([]).Partial?
    && var r := env.parse(s);
       r.Done? ==>
         && 0 < r.pos <= |s| == |env.image(s)| && env.image(s)[r.pos..] == s[r.pos..]
         && Sound(s[r.pos..], env)
  }

  /** Each request of s in turn, and what comes after the last, keeps its verdict when t follows. */
  ghost predicate Stable<Q>(s: seq<Byte>, t: seq<Byte>, env: Env<Q>)
    decreases |s|
  {
    && Keeps(env.parse(s), env.parse(s + t))
    && (env.parse(s).Done? && 0 < env.parse(s).pos <= |s| ==> Stable(s[env.parse(s).pos..], t, env))
  }

  lemma {:induction false} ParserOkSound<Q(!new)>(s: seq<Byte>, env: Env<Q>)
    requires ParserOk(env)
    ensures Sound(s, env)
    decreases |s|
  {
    if env.parse(s).Done? {
      ParserOkSound(s[env.parse(s).pos..], env);
    }
  }

  lemma {:induction false} ParserOkStable<Q(!new)>(s: seq<Byte>, t: seq<Byte>, env: Env<Q>)
    requires ParserOk(env)
    ensures Stable(s, t, env)
    decreases |s|
  {
    if env.parse(s).Done? {
      ParserOkStable(s[env.parse(s).pos..], t, env);
    }
  }

  /** A response always has a head, so it is never empty. */
  ghost predicate UserOk<Q>(env: Env<Q>) {
    forall k :: env.user(k).Answer? ==> env.user(k).response != []
  }

  datatype Conn<!Q> = Conn(
    open: bool, stream: S.State, offset: nat, inProgress: bool,
    received: seq<Byte>, consumed: nat, dispatched: seq<Q>, responses: seq<seq<Byte>>, held: seq<Byte>)

  function Disconnect<Q>(c: Conn<Q>): Conn<Q> {
    c.(open := false)
  }

  /** server_read */
  function StartReading<Q>(c: Conn<Q>): Conn<Q>
    requires c.offset <= |c.stream.input|
  {
    c.(stream := S.ReadStep(S.ConsumeStep(c.stream, c.offset)), offset := 0)
  }

  function FlushOutput<Q>(c: Conn<Q>): Conn<Q> {
    c.(stream := S.FlushStep(c.stream))
  }

  /** server_io */
  function Io<Q>(c: Conn<Q>): Conn<Q>
    requires c.offset <= |c.stream.input|
  {
    if !c.stream.Flushed() then FlushOutput(c) else StartReading(c)
  }

  /** server_respond, without the flush that follows it outside the callback. */
  function PutResponse<Q>(c: Conn<Q>, response: seq<Byte>): Conn<Q> {
    c.(inProgress := false, stream := S.WriteStep(c.stream, response), responses := c.responses + [response])
  }

  /** A request of n bytes at the offset is handed to the user. */
  function Dispatch<Q>(c: Conn<Q>, n: nat, request: Q, image: seq<Byte>): Conn<Q>
    requires c.offset <= |c.stream.input| && n <= |image|
  {
    c.(stream := c.stream.(input := c.stream.input[..c.offset] + image), offset := c.offset + n, inProgress := true,
       consumed := c.consumed + n, dispatched := c.dispatched + [request], held := image[..n])
  }

  /** server_parse */
  function ParseInput<Q>(c: Conn<Q>, env: Env<Q>): Conn<Q>
    requires c.offset <= |c.stream.input|
    decreases |c.stream.input| - c.offset
  {
    var rest := c.stream.input[c.offset..];
    match env.parse(rest)
    case Invalid => Disconnect(c)
    case Partial => Io(c)
    case Done(n, request) =>
      var image := env.image(rest);
      if !(0 < n <= |rest| == |image|) then c
      else
        var c1 := Dispatch(c, n, request, image);
        match env.user(|c1.dispatched|)
        case Hangup => Disconnect(c1)
        case AnswerAndHangup(response) => Disconnect(PutResponse(c1, response))
        case Hold => FlushOutput(c1)
        case Answer(response) => ParseInput(PutResponse(c1, response), env)
  }

  /** server_stream_callback */
  function OnStreamEvent<Q>(c: Conn<Q>, event: S.Event, env: Env<Q>): Conn<Q>
    requires c.offset <= |c.stream.input|
  {
    match event
    case Nothing => c
    case Read => ParseInput(c, env)
    case AllFlushed =>
      if c.inProgress then c
      else if |c.stream.input| == c.offset then StartReading(c)
      else ParseInput(c, env)
    case _ => Disconnect(c)
  }

  /** server_accept */
  function Accepted<Q>(): Conn<Q> {
    StartReading(Conn(true, S.EMPTY, 0, false, [], 0, [], [], []))
  }

  /** The kernel completes a receive or a send, or the user answers a held request or hangs up. */
  datatype Step =
    | Received(result: int, bytes: seq<Byte>) | Sent(result: int)
    | Respond(response: seq<Byte>) | UserHangup

  ghost predicate Enabled<Q>(c: Conn<Q>, step: Step) {
    c.open &&
    match step
    case Received(result, bytes) => c.stream.reading && (result > 0 ==> |bytes| == result)
    case Sent(result) => c.stream.sending && c.stream.partialWrite <= |c.stream.data| && result <= |c.stream.Unsent()|
    case Respond(response) => c.inProgress && response != []
    case UserHangup => true
  }

  function Take<Q>(c: Conn<Q>, step: Step, env: Env<Q>): Conn<Q>
    requires Enabled(c, step) && c.offset <= |c.stream.input|
  {
    match step
    case Received(result, bytes) =>
      var (stream, event) := S.RecvStep(c.stream, result, bytes);
      OnStreamEvent(c.(stream := stream, received := if result > 0 then c.received + bytes else c.received), event, env)
    case Sent(result) =>
      var (stream, event) := S.SendStep(c.stream, result);
      OnStreamEvent(c.(stream := stream), event, env)
    case Respond(response) => FlushOutput(PutResponse(c, response))
    case UserHangup => Disconnect(c)
  }

  // ---------------------------------------------------------------- parsing everything in one go

  /** The requests that the bytes hold, up to the first incomplete or invalid one. */
  function Requests<Q>(s: seq<Byte>, env: Env<Q>): seq<Q>
    decreases |s|
  {
    match env.parse(s)
    case Done(n, request) => if 0 < n <= |s| then [request] + Requests(s[n..], env) else []
    case _ => []
  }

  /** The first `pos` bytes are exactly the requests `done`. */
  ghost predicate Consists<Q>(s: seq<Byte>, done: seq<Q>, pos: nat, env: Env<Q>)
    decreases |s|
  {
    if done == [] then pos == 0
    else
      var r := env.parse(s);
      r.Done? && 0 < r.pos <= |s| && r.value == done[0] && r.pos <= pos
        && Consists(s[r.pos..], done[1..], pos - r.pos, env)
  }

  lemma {:induction false} ConsistsBounds<Q>(s: seq<Byte>, done: seq<Q>, pos: nat, env: Env<Q>)
    requires Consists(s, done, pos, env)
    ensures pos <= |s| && Requests(s, env) == done + Requests(s[pos..], env)
    decreases |s|
  {
    if done == [] {
      assert s[0..] == s;
    } else {
      var n := env.parse(s).pos;
      ConsistsBounds(s[n..], done[1..], pos - n, env);
      assert s[n..][pos - n..] == s[pos..];
      assert done == [done[0]] + done[1..];
    }
  }

  /** Stability carries over from one request to any number of them. */
  lemma {:induction false} ConsistsKeeps<Q(!new)>(s: seq<Byte>, t: seq<Byte>, done: seq<Q>, pos: nat, env: Env<Q>)
    requires Stable(s, t, env) && Consists(s, done, pos, env)
    ensures Consists(s + t, done, pos, env)
    decreases |s|
  {
    if done != [] {
      var n := env.parse(s).pos;
      assert (s + t)[n..] == s[n..] + t;
      ConsistsKeeps(s[n..], t, done[1..], pos - n, env);
    }
  }

  lemma {:induction false} ConsistsSnoc<Q>(s: seq<Byte>, done: seq<Q>, pos: nat, env: Env<Q>)
    requires Consists(s, done, pos, env) && pos <= |s|
    requires var r := env.parse(s[pos..]); r.Done? && 0 < r.pos <= |s| - pos
    ensures var r := env.parse(s[pos..]); Consists(s, done + [r.value], pos + r.pos, env)
    decreases |s|
  {
    var r := env.parse(s[pos..]);
    if done == [] {
      assert s[0..] == s;
      assert (done + [r.value])[1..] == [];
    } else {
      var n := env.parse(s).pos;
      ConsistsBounds(s[n..], done[1..], pos - n, env);
      assert s[n..][pos - n..] == s[pos..];
      ConsistsSnoc(s[n..], done[1..], pos - n, env);
      assert (done + [r.value])[1..] == done[1..] + [r.value];
    }
  }

  /** More input never takes back a request. */
  lemma {:induction false} RequestsGrow<Q>(s: seq<Byte>, t: seq<Byte>, env: Env<Q>)
    requires Stable(s, t, env)
    ensures Requests(s, env) <= Requests(s + t, env)
    decreases |s|
  {
    if env.parse(s).Done? && 0 < env.parse(s).pos <= |s| {
      var n := env.parse(s).pos;
      assert (s + t)[n..] == s[n..] + t;
      RequestsGrow(s[n..], t, env);
    }
  }

  /** What is left behind whole requests of a sound input is sound. */
  lemma {:induction false} SoundRest<Q>(s: seq<Byte>, done: seq<Q>, pos: nat, env: Env<Q>)
    requires Sound(s, env) && Consists(s, done, pos, env)
    ensures pos <= |s| && Sound(s[pos..], env)
    decreases |s|
  {
    if done == [] {
      assert s[0..] == s;
    } else {
      var n := env.parse(s).pos;
      SoundRest(s[n..], done[1..], pos - n, env);
      assert s[n..][pos - n..] == s[pos..];
    }
  }

  // ---------------------------------------------------------------- what holds at every moment

  /** Input and dispatch: the unconsumed bytes are untouched, everything before them is dispatched. */
  ghost predicate InputOk<Q>(c: Conn<Q>, env: Env<Q>) {
    && c.offset <= |c.stream.input|
    && c.consumed <= |c.received| && c.received[c.consumed..] == c.stream.input[c.offset..]
    && Consists(c.received, c.dispatched, c.consumed, env)
  }

  /** Output: the responses to all dispatched requests but one in progress, in order. */
  ghost predicate OutputOk<Q>(c: Conn<Q>) {
    && c.stream.Ok()
    && c.stream.written == Flatten(c.responses)
    && |c.dispatched| == |c.responses| + (if c.inProgress then 1 else 0)
  }

  /** The bytes behind the spans of a request in progress are as the parser left them. */
  ghost predicate HeldOk<Q>(c: Conn<Q>) {
    c.inProgress ==>
      && |c.held| <= c.offset <= |c.stream.input|
      && c.stream.input[c.offset - |c.held|..c.offset] == c.held
  }

  /** Reading, sending and a request in progress: always one of them, reading only alone, and output moves. */
  ghost predicate PhaseOk<Q>(c: Conn<Q>, env: Env<Q>) {
    && (c.stream.reading || c.stream.sending || c.inProgress)
    && (c.stream.Flushed() || c.stream.sending)
    && (c.stream.reading ==> c.stream.Flushed() && !c.inProgress && c.offset == 0 && env.parse(c.stream.input).Partial?)
  }

  ghost predicate Inv<Q>(c: Conn<Q>, env: Env<Q>) {
    && InputOk(c, env)
    && (c.open ==> OutputOk(c) && HeldOk(c) && PhaseOk(c, env))
  }

  lemma AcceptedInv<Q(!new)>(env: Env<Q>)
    requires env.parse([]).Partial?
    ensures Inv(Accepted<Q>(), env) && Accepted<Q>().open
  {
  }

  /** Reading starts again only when nothing is left to parse, in progress or to send. */
  lemma StartReadingInv<Q(!new)>(c: Conn<Q>, env: Env<Q>)
    requires InputOk(c, env) && OutputOk(c) && c.stream.Flushed() && !c.inProgress
    requires env.parse(c.stream.input[c.offset..]).Partial?
    ensures Inv(StartReading(c), env)
  {
    var input := c.stream.input[c.offset..];
    assert input[0..] == input;
  }

  lemma FlushInv<Q(!new)>(c: Conn<Q>, env: Env<Q>)
    requires InputOk(c, env) && OutputOk(c) && HeldOk(c) && !c.stream.reading
    requires c.inProgress || !c.stream.Flushed()
    ensures Inv(FlushOutput(c), env)
  {
    S.FlushKeepsOk(c.stream);
  }

  lemma PutResponseOk<Q(!new)>(c: Conn<Q>, response: seq<Byte>, env: Env<Q>)
    requires InputOk(c, env) && OutputOk(c) && c.inProgress
    ensures InputOk(PutResponse(c, response), env) && OutputOk(PutResponse(c, response))
            && HeldOk(PutResponse(c, response))
  {
    S.WriteKeepsOk(c.stream, response);
    FlattenSnoc(c.responses, response);
  }

  lemma DispatchOk<Q(!new)>(c: Conn<Q>, env: Env<Q>)
    requires InputOk(c, env) && OutputOk(c) && !c.inProgress
    requires Sound(c.stream.input[c.offset..], env) && env.parse(c.stream.input[c.offset..]).Done?
    ensures var rest := c.stream.input[c.offset..];
            var r := env.parse(rest);
            && 0 < r.pos <= |rest| == |env.image(rest)|
            && var c1 := Dispatch(c, r.pos, r.value, env.image(rest));
               InputOk(c1, env) && OutputOk(c1) && HeldOk(c1)
               && c1.offset == c.offset + r.pos && |c1.stream.input| == |c.stream.input|
               && Sound(c1.stream.input[c1.offset..], env)
  {
    var rest := c.stream.input[c.offset..];
    var n, image := env.parse(rest).pos, env.image(rest);
    var c1 := Dispatch(c, n, env.parse(rest).value, image);
    assert c.received[c.consumed..] == rest;
    ConsistsSnoc(c.received, c.dispatched, c.consumed, env);
    assert c.received[c.consumed + n..] == rest[n..];
    assert c1.stream.input[c1.offset..] == image[n..];
    assert c1.stream.input[c.offset..c1.offset] == image[..n];
  }

  /** Parsing ends with a read, a send or a held request, whatever the user does meanwhile. */
  lemma {:induction false} ParseInputInv<Q(!new)>(c: Conn<Q>, env: Env<Q>)
    requires UserOk(env) && Sound(if c.offset <= |c.stream.input| then c.stream.input[c.offset..] else [], env)
    requires InputOk(c, env) && OutputOk(c) && !c.inProgress && !c.stream.reading
    ensures Inv(ParseInput(c, env), env)
    decreases |c.stream.input| - c.offset
  {
    hide InputOk, OutputOk, HeldOk;
    CursorOk(c, env);
    var rest := c.stream.input[c.offset..];
    match env.parse(rest)
    case Invalid =>
      DisconnectOk(c, env);
    case Partial =>
      if c.stream.Flushed() {
        StartReadingInv(c, env);
      } else {
        NotInProgress(c);
        FlushInv(c, env);
      }
    case Done(n, request) =>
      DispatchOk(c, env);
      var c1 := Dispatch(c, n, request, env.image(rest));
      match env.user(|c1.dispatched|)
      case Hangup => DisconnectOk(c1, env);
      case AnswerAndHangup(response) => HangsUp(c1, response, env);
      case Hold => FlushInv(c1, env);
      case Answer(response) =>
        PutResponseOk(c1, response, env);
        ParseInputInv(PutResponse(c1, response), env);
  }

  lemma CursorOk<Q(!new)>(c: Conn<Q>, env: Env<Q>)
    requires InputOk(c, env)
    ensures c.offset <= |c.stream.input|
  {
  }

  lemma NotInProgress<Q(!new)>(c: Conn<Q>)
    requires !c.inProgress
    ensures HeldOk(c)
  {
  }

  lemma DisconnectOk<Q(!new)>(c: Conn<Q>, env: Env<Q>)
    requires InputOk(c, env)
    ensures Inv(Disconnect(c), env)
  {
  }

  lemma HangsUp<Q(!new)>(c: Conn<Q>, response: seq<Byte>, env: Env<Q>)
    requires InputOk(c, env)
    ensures Inv(Disconnect(PutResponse(c, response)), env)
  {
  }

  /** What a step brings, if it brings anything. */
  function Brought(step: Step): seq<Byte> {
    if step.Received? && step.result > 0 then step.bytes else []
  }

  /** The parser does its part on the bytes of this step. */
  ghost predicate SoundStep<Q>(c: Conn<Q>, step: Step, env: Env<Q>) {
    Sound(c.received, env) && Sound(c.received + Brought(step), env) && Stable(c.received, Brought(step), env)
  }

  lemma ReceivedInv<Q(!new)>(c: Conn<Q>, result: int, bytes: seq<Byte>, env: Env<Q>)
    requires UserOk(env) && Inv(c, env) && Enabled(c, Received(result, bytes))
             && SoundStep(c, Received(result, bytes), env)
    ensures Inv(Take(c, Received(result, bytes), env), env)
  {
    if result > 0 {
      var c1 := c.(stream := S.RecvStep(c.stream, result, bytes).0, received := c.received + bytes);
      ConsistsKeeps(c.received, bytes, c.dispatched, c.consumed, env);
      SoundRest(c1.received, c.dispatched, c.consumed, env);
      assert c1.received[c1.consumed..] == c.received[c.consumed..] + bytes;
      assert c.stream.input[0..] == c.stream.input && c1.stream.input[0..] == c1.stream.input;
      ParseInputInv(c1, env);
    } else {
      var c1 := c.(stream := S.RecvStep(c.stream, result, bytes).0);
      DisconnectOk(c1, env);
    }
  }

  lemma SentInv<Q(!new)>(c: Conn<Q>, result: int, env: Env<Q>)
    requires UserOk(env) && Inv(c, env) && Enabled(c, Sent(result)) && SoundStep(c, Sent(result), env)
    ensures Inv(Take(c, Sent(result), env), env)
  {
    var (stream, event) := S.SendStep(c.stream, result);
    var c1 := c.(stream := stream);
    if result <= 0 {
      DisconnectOk(c1, env);
    } else {
      S.SendStepKeepsOk(c.stream, result);
      if event.AllFlushed? && !c.inProgress {
        if |c1.stream.input| == c1.offset {
          assert c1.stream.input[c1.offset..] == [];
          StartReadingInv(c1, env);
        } else {
          SoundRest(c.received, c.dispatched, c.consumed, env);
          ParseInputInv(c1, env);
        }
      }
    }
  }

  /** Every step of the kernel or the user keeps the whole invariant. */
  lemma TakeInv<Q(!new)>(c: Conn<Q>, step: Step, env: Env<Q>)
    requires UserOk(env) && Inv(c, env) && Enabled(c, step) && SoundStep(c, step, env)
    ensures Inv(Take(c, step, env), env)
  {
    match step
    case Received(result, bytes) => ReceivedInv(c, result, bytes, env);
    case Sent(result) => SentInv(c, result, env);
    case Respond(response) =>
      PutResponseOk(c, response, env);
      FlushInv(PutResponse(c, response), env);
    case UserHangup => DisconnectOk(c, env);
  }

  // ---------------------------------------------------------------- whole runs

  ghost predicate IsRun<Q>(conns: seq<Conn<Q>>, steps: seq<Step>, env: Env<Q>) {
    && |conns| == |steps| + 1 && conns[0] == Accepted()
    && forall i :: 0 <= i < |steps| ==>
         Enabled(conns[i], steps[i]) && conns[i].offset <= |conns[i].stream.input|
           && conns[i + 1] == Take(conns[i], steps[i], env)
  }

  /** What has been received grows by what a receive brings. */
  lemma {:induction false} ParseKeepsReceived<Q>(c: Conn<Q>, env: Env<Q>)
    requires c.offset <= |c.stream.input|
    ensures ParseInput(c, env).received == c.received
    decreases |c.stream.input| - c.offset
  {
    var rest := c.stream.input[c.offset..];
    var r := env.parse(rest);
    if r.Done? && 0 < r.pos <= |rest| == |env.image(rest)| {
      var c1 := Dispatch(c, r.pos, r.value, env.image(rest));
      if env.user(|c1.dispatched|).Answer? {
        ParseKeepsReceived(PutResponse(c1, env.user(|c1.dispatched|).response), env);
      }
    }
  }

  lemma TakeReceives<Q>(c: Conn<Q>, step: Step, env: Env<Q>)
    requires c.offset <= |c.stream.input| && Enabled(c, step)
    ensures Take(c, step, env).received == c.received + Brought(step)
  {
    hide ParseInput;
    match step
    case Received(result, bytes) =>
      ParseKeepsReceived(c.(stream := S.RecvStep(c.stream, result, bytes).0,
                            received := if result > 0 then c.received + bytes else c.received), env);
    case Sent(result) => ParseKeepsReceived(c.(stream := S.SendStep(c.stream, result).0), env);
    case _ =>
  }

  /** The parser does its part at every moment of the run. */
  ghost predicate WellParsed<Q>(conns: seq<Conn<Q>>, steps: seq<Step>, env: Env<Q>)
    requires |conns| == |steps| + 1
  {
    && (forall i :: 0 <= i < |conns| ==> Sound(conns[i].received, env))
    && (forall i :: 0 <= i < |steps| ==> Stable(conns[i].received, Brought(steps[i]), env))
  }

  /** A parser that keeps its contract on all inputs does its part in every run. */
  lemma ParserOkWellParsed<Q(!new)>(conns: seq<Conn<Q>>, steps: seq<Step>, env: Env<Q>)
    requires ParserOk(env) && |conns| == |steps| + 1
    ensures WellParsed(conns, steps, env)
  {
    hide ParserOk, Sound, Stable;
    forall i | 0 <= i < |conns|
      ensures Sound(conns[i].received, env)
    {
      ParserOkSound(conns[i].received, env);
    }
    forall i | 0 <= i < |steps|
      ensures Stable(conns[i].received, Brought(steps[i]), env)
    {
      ParserOkStable(conns[i].received, Brought(steps[i]), env);
    }
  }

  lemma {:induction false} RunInv<Q(!new)>(conns: seq<Conn<Q>>, steps: seq<Step>, env: Env<Q>)
    requires UserOk(env) && IsRun(conns, steps, env) && WellParsed(conns, steps, env)
    ensures Inv(conns[|steps|], env)
    decreases |steps|
  {
    hide Take, Enabled, Inv, Sound, Stable, UserOk;
    if steps == [] {
      EmptyInput(conns[0].received, env);
      AcceptedInv(env);
    } else {
      var n := |steps| - 1;
      RunInv(conns[..n + 1], steps[..n], env);
      TakeReceives(conns[n], steps[n], env);
      assert Sound(conns[n + 1].received, env);
      TakeInv(conns[n], steps[n], env);
    }
  }

  lemma EmptyInput<Q>(s: seq<Byte>, env: Env<Q>)
    requires Sound(s, env)
    ensures env.parse([]).Partial?
  {
  }

  /**
   However the input is cut into receives and whenever the user answers: what has been dispatched
   is a prefix of the requests in all the bytes received, now or ever, and all of them whenever a
   read is outstanding.
   */
  lemma DispatchesRequests<Q(!new)>(conns: seq<Conn<Q>>, steps: seq<Step>, more: seq<Byte>, env: Env<Q>)
    requires UserOk(env) && IsRun(conns, steps, env) && WellParsed(conns, steps, env)
    requires Stable(conns[|steps|].received, more, env)
    ensures var c := conns[|steps|];
            && c.dispatched <= Requests(c.received + more, env)
            && (c.open && c.stream.reading ==> c.dispatched == Requests(c.received, env))
  {
    var c := conns[|steps|];
    RunInv(conns, steps, env);
    ConsistsBounds(c.received, c.dispatched, c.consumed, env);
    RequestsGrow(c.received, more, env);
    if c.open && c.stream.reading {
      assert c.stream.input[0..] == c.stream.input;
    }
  }

  /** Two connections that received the same bytes and are both waiting for more saw the same requests. */
  lemma CutsDoNotMatter<Q(!new)>(conns: seq<Conn<Q>>, steps: seq<Step>, conns': seq<Conn<Q>>, steps': seq<Step>,
      env: Env<Q>, user: nat -> Action)
    requires UserOk(env) && UserOk(env.(user := user))
    requires IsRun(conns, steps, env) && IsRun(conns', steps', env.(user := user))
    requires WellParsed(conns, steps, env) && WellParsed(conns', steps', env.(user := user))
    requires var c, c' := conns[|steps|], conns'[|steps'|];
             c.received == c'.received && c.open && c'.open && c.stream.reading && c'.stream.reading
    ensures conns[|steps|].dispatched == conns'[|steps'|].dispatched
  {
    NoMore(conns[|steps|].received, env);
    NoMore(conns[|steps|].received, env.(user := user));
    DispatchesRequests(conns, steps, [], env);
    DispatchesRequests(conns', steps', [], env.(user := user));
    SameParserSameRequests(conns[|steps|].received, env, user);
  }

  lemma {:induction false} NoMore<Q>(s: seq<Byte>, env: Env<Q>)
    ensures Stable(s, [], env)
    decreases |s|
  {
    assert s + [] == s;
    if env.parse(s).Done? && 0 < env.parse(s).pos <= |s| {
      NoMore(s[env.parse(s).pos..], env);
    }
  }

  lemma {:induction false} SameParserSameRequests<Q>(s: seq<Byte>, env: Env<Q>, user: nat -> Action)
    ensures Requests(s, env) == Requests(s, env.(user := user))
    decreases |s|
  {
    var r := env.parse(s);
    if r.Done? && 0 < r.pos <= |s| {
      SameParserSameRequests(s[r.pos..], env, user);
    }
  }

  /**
   A live connection never stalls and never overlaps its phases, output that is left is being sent,
   also while a request is held, and what the peer has been sent is the responses in the order of
   the requests: all of them once a read is outstanding.
   */
  lemma NeverStalls<Q(!new)>(conns: seq<Conn<Q>>, steps: seq<Step>, env: Env<Q>)
    requires UserOk(env) && IsRun(conns, steps, env) && WellParsed(conns, steps, env) && conns[|steps|].open
    ensures var c := conns[|steps|];
            && (c.stream.reading || c.stream.sending || c.inProgress)
            && (c.stream.reading ==> !c.stream.sending && !c.inProgress && |c.responses| == |c.dispatched|)
            && (c.stream.Flushed() || c.stream.sending)
            && c.stream.acked <= Flatten(c.responses)
            && (c.stream.reading ==> c.stream.acked == Flatten(c.responses))
  {
    hide InputOk, HeldOk, Take, Enabled, S.State.Ok;
    RunInv(conns, steps, env);
    SentInOrder(conns[|steps|].stream);
  }

  lemma SentInOrder(s: S.State)
    requires s.Ok()
    ensures s.acked <= s.written && (s.Flushed() ==> s.acked == s.written && !s.sending)
  {
    assert s.acked + s.Unsent() + s.dataNext == s.acked + (s.Unsent() + s.dataNext);
  }

  /** Until it is answered, nothing moves or overwrites the bytes that a held request points into. */
  lemma HeldUntilAnswered<Q(!new)>(conns: seq<Conn<Q>>, steps: seq<Step>, step: Step, env: Env<Q>)
    requires UserOk(env) && IsRun(conns, steps, env) && WellParsed(conns, steps, env)
    requires var c := conns[|steps|]; c.inProgress && Enabled(c, step) && c.offset <= |c.stream.input|
    ensures var c, c' := conns[|steps|], Take(conns[|steps|], step, env);
            && |c.held| <= c.offset && c.stream.input[c.offset - |c.held|..c.offset] == c.held
            && !step.Received?
            && (c'.open && !step.Respond?
               ==> c'.inProgress && c'.stream.input == c.stream.input && c'.offset == c.offset && c'.held == c.held)
  {
    RunInv(conns, steps, env);
    var c := conns[|steps|];
    if step.Sent? && step.result > 0 {
      S.SendStepKeepsOk(c.stream, step.result);
    }
  }
}
