/**
 What the peer is sent, and when the connection is closed, in terms of what the user's callback and
 the user's later answers say: nothing here looks at the histories that the server keeps.
 Requests are numbered from 1.
 */
module ServerAnswers {
  import opened Bytes
  import opened HttpSyntax
  import opened Server
  import S = Stream

  /** The answers to held requests, in the order in which they were given. */
  function Replies(steps: seq<Step>): seq<seq<Byte>> {
    if steps == [] then []
    else
      var last := steps[|steps| - 1];
      Replies(steps[..|steps| - 1]) + (if last.Respond? then [last.response] else [])
  }

  /** How many of the first n requests the callback holds. */
  function Holds(n: nat, user: nat -> Action): (h: nat)
    ensures h <= n
  {
    if n == 0 then 0 else Holds(n - 1, user) + (if user(n).Hold? then 1 else 0)
  }

  /** The answers to the first n requests: the callback's own, or the reply to a held one if there is one yet. */
  function Answers(n: nat, user: nat -> Action, replies: seq<seq<Byte>>): seq<seq<Byte>> {
    if n == 0 then []
    else
      Answers(n - 1, user, replies) +
      match user(n)
      case Answer(response) => [response]
      case AnswerAndHangup(response) => [response]
      case Hold => if Holds(n - 1, user) < |replies| then [replies[Holds(n - 1, user)]] else []
      case Hangup => []
  }

  predicate HangsUp(action: Action) {
    action.Hangup? || action.AnswerAndHangup?
  }

  /** The k-th answer is the one to request k. */
  lemma {:induction false} AnswerTo(n: nat, user: nat -> Action, replies: seq<seq<Byte>>, k: nat)
    requires 0 < k <= n && Holds(n, user) <= |replies| && forall i :: 0 < i <= n ==> !HangsUp(user(i))
    ensures |Answers(n, user, replies)| == n
    ensures user(k).Hold? ==>
              0 < Holds(k, user) <= |replies| && Answers(n, user, replies)[k - 1] == replies[Holds(k, user) - 1]
    ensures user(k).Answer? ==> Answers(n, user, replies)[k - 1] == user(k).response
    ensures user(k).Hold? || user(k).Answer?
    decreases n
  {
    hide Answers;
    AnswersStep(n, user, replies);
    if n > 1 {
      AnswerTo(n - 1, user, replies, if k < n then k else n - 1);
    } else {
      NoAnswers(user, replies);
    }
  }

  lemma NoAnswers(user: nat -> Action, replies: seq<seq<Byte>>)
    ensures Answers(0, user, replies) == []
  {
  }

  lemma AnswersStep(n: nat, user: nat -> Action, replies: seq<seq<Byte>>)
    requires 0 < n && Holds(n, user) <= |replies| && !HangsUp(user(n))
    ensures user(n).Hold? ==> Answers(n, user, replies) == Answers(n - 1, user, replies) + [replies[Holds(n, user) - 1]]
    ensures user(n).Answer? ==> Answers(n, user, replies) == Answers(n - 1, user, replies) + [user(n).response]
  {
  }

  /** A further reply changes nothing before the request that it answers. */
  lemma {:induction false} ReplyIsLast(n: nat, user: nat -> Action, replies: seq<seq<Byte>>, reply: seq<Byte>)
    requires Holds(n, user) <= |replies|
    ensures Answers(n, user, replies + [reply]) == Answers(n, user, replies)
  {
    if n > 0 {
      ReplyIsLast(n - 1, user, replies, reply);
    }
  }

  /** All answers given are in the responses, in order, and a request that waits for its answer is a held one. */
  ghost predicate AnswersOk<Q>(c: Conn<Q>, user: nat -> Action, replies: seq<seq<Byte>>) {
    var n := |c.dispatched|;
    && c.responses == Answers(n, user, replies)
    && (c.open ==>
          && Holds(n, user) == |replies| + (if c.inProgress then 1 else 0)
          && (c.inProgress ==> n > 0 && user(n).Hold?)
          && forall k :: 0 < k <= n ==> !HangsUp(user(k)))
  }

  /** What made the parse loop close the connection. */
  ghost predicate Refused<Q>(c: Conn<Q>, env: Env<Q>) {
    || (|c.dispatched| > 0 && HangsUp(env.user(|c.dispatched|)))
    || (c.offset <= |c.stream.input| && env.parse(c.stream.input[c.offset..]).Invalid? && !c.inProgress
        && !c.stream.sending)
  }

  lemma {:induction false} ParseAnswers<Q>(c: Conn<Q>, env: Env<Q>, replies: seq<seq<Byte>>)
    requires AnswersOk(c, env.user, replies) && c.open && !c.inProgress && c.offset <= |c.stream.input|
    ensures var d := ParseInput(c, env);
            && AnswersOk(d, env.user, replies)
            && (!d.open && !c.stream.sending ==> Refused(d, env))
    decreases |c.stream.input| - c.offset
  {
    hide S.FlushStep;
    var rest := c.stream.input[c.offset..];
    var r := env.parse(rest);
    if r.Done? && 0 < r.pos <= |rest| == |env.image(rest)| {
      var c1 := Dispatch(c, r.pos, r.value, env.image(rest));
      if env.user(|c1.dispatched|).Answer? {
        var c2 := PutResponse(c1, env.user(|c1.dispatched|).response);
        ParseAnswers(c2, env, replies);
      }
    }
  }

  /** The steps after which nobody is there to talk to. */
  predicate Fails(step: Step) {
    || (step.Received? && step.result <= 0)
    || (step.Sent? && step.result <= 0)
    || step.UserHangup?
  }

  lemma SentAnswers<Q>(c: Conn<Q>, result: int, env: Env<Q>, replies: seq<seq<Byte>>)
    requires AnswersOk(c, env.user, replies) && Enabled(c, Sent(result)) && c.offset <= |c.stream.input|
    requires c.stream.Ok()
    ensures var d := Take(c, Sent(result), env);
            && AnswersOk(d, env.user, replies)
            && (!d.open ==> result <= 0 || Refused(d, env)) && (result <= 0 ==> !d.open)
  {
    hide S.FlushStep, ParseInput, S.State.Ok, Refused;
    var (stream, event) := S.SendStep(c.stream, result);
    var c1 := c.(stream := stream);
    if result > 0 {
      S.SendStepKeepsOk(c.stream, result);
      if event.AllFlushed? && !c.inProgress && |c1.stream.input| != c1.offset {
        assert !c1.stream.sending;
        ParseAnswers(c1, env, replies);
      }
    }
  }

  lemma TakeAnswers<Q>(c: Conn<Q>, step: Step, env: Env<Q>, replies: seq<seq<Byte>>)
    requires AnswersOk(c, env.user, replies) && Enabled(c, step) && c.offset <= |c.stream.input| && c.stream.Ok()
    requires step.Received? ==> !c.inProgress && !c.stream.sending
    ensures var d := Take(c, step, env);
            && AnswersOk(d, env.user, replies + (if step.Respond? then [step.response] else []))
            && (!d.open ==> Fails(step) || Refused(d, env))
            && (Fails(step) ==> !d.open)
  {
    hide S.FlushStep, ParseInput, S.State.Ok, Refused;
    assert replies + [] == replies;
    match step
    case Received(result, bytes) =>
      if result > 0 {
        ParseAnswers(c.(stream := S.RecvStep(c.stream, result, bytes).0, received := c.received + bytes), env, replies);
      }
    case Sent(result) => SentAnswers(c, result, env, replies);
    case Respond(response) => ReplyIsLast(|c.dispatched| - 1, env.user, replies, response);
    case UserHangup =>
  }

  // ---------------------------------------------------------------- whole runs

  lemma OpenBefore<Q>(c: Conn<Q>, step: Step, env: Env<Q>)
    requires Inv(c, env) && Enabled(c, step)
    ensures c.open && c.stream.Ok() && (step.Received? ==> !c.inProgress && !c.stream.sending)
  {
  }

  lemma Prefix<Q>(conns: seq<Conn<Q>>, steps: seq<Step>, env: Env<Q>)
    requires IsRun(conns, steps, env) && WellParsed(conns, steps, env) && steps != []
    ensures var n := |steps| - 1;
            && IsRun(conns[..n + 1], steps[..n], env) && WellParsed(conns[..n + 1], steps[..n], env)
            && conns[..n + 1][n] == conns[n]
            && Enabled(conns[n], steps[n]) && conns[n].offset <= |conns[n].stream.input|
            && conns[n + 1] == Take(conns[n], steps[n], env)
  {
    hide Take, Enabled, Sound, Stable;
  }

  /** At every moment the responses are the answers, by the callback and the replies alone. */
  lemma {:induction false} RunAnswers<Q(!new)>(conns: seq<Conn<Q>>, steps: seq<Step>, env: Env<Q>)
    requires UserOk(env) && IsRun(conns, steps, env) && WellParsed(conns, steps, env)
    ensures AnswersOk(conns[|steps|], env.user, Replies(steps))
    decreases |steps|
  {
    hide Take, Enabled, Inv, Sound, Stable, UserOk, AnswersOk, WellParsed;
    if steps == [] {
      AcceptedAnswers(conns, env);
    } else {
      var n := |steps| - 1;
      Prefix(conns, steps, env);
      RunAnswers(conns[..n + 1], steps[..n], env);
      RunInv(conns[..n + 1], steps[..n], env);
      OpenBefore(conns[n], steps[n], env);
      TakeAnswers(conns[n], steps[n], env, Replies(steps[..n]));
      assert steps[n].Respond? ==> Replies(steps) == Replies(steps[..n]) + [steps[n].response];
    }
  }

  lemma AcceptedAnswers<Q>(conns: seq<Conn<Q>>, env: Env<Q>)
    requires IsRun(conns, [], env)
    ensures AnswersOk(conns[0], env.user, [])
  {
  }

  /**
   Over all runs: what the peer has been sent, what is being sent and what waits to be sent are the
   answers to the requests dispatched, in order, and nothing else; while a read is outstanding every
   request is answered and the peer has all of it.
   */
  lemma AnswersAreSent<Q(!new)>(conns: seq<Conn<Q>>, steps: seq<Step>, env: Env<Q>)
    requires UserOk(env) && IsRun(conns, steps, env) && WellParsed(conns, steps, env) && conns[|steps|].open
    ensures var c := conns[|steps|];
            var answers := Answers(|c.dispatched|, env.user, Replies(steps));
            && c.stream.partialWrite <= |c.stream.data|
            && c.stream.acked + c.stream.Unsent() + c.stream.dataNext == Flatten(answers)
            && (c.stream.Flushed() || c.stream.sending)
            && |answers| == |c.dispatched| - (if c.inProgress then 1 else 0)
            && (c.stream.reading ==>
                  c.stream.acked == Flatten(answers) && Holds(|c.dispatched|, env.user) == |Replies(steps)|)
  {
    hide Take, Enabled, WellParsed, InputOk, HeldOk, Answers, Replies;
    RunAnswers(conns, steps, env);
    RunInv(conns, steps, env);
    SentInOrder(conns[|steps|].stream);
  }

  /**
   A connection is closed exactly if the last step failed, the callback hung up in the last request,
   or the input goes on with something that is no request, once all before it is answered and sent.
   */
  lemma ClosedIff<Q(!new)>(conns: seq<Conn<Q>>, steps: seq<Step>, env: Env<Q>)
    requires UserOk(env) && IsRun(conns, steps, env) && WellParsed(conns, steps, env) && steps != []
    ensures var c := conns[|steps|];
            !c.open <==>
              || Fails(steps[|steps| - 1])
              || (|c.dispatched| > 0 && HangsUp(env.user(|c.dispatched|)))
              || (c.consumed <= |c.received| && env.parse(c.received[c.consumed..]).Invalid?
                  && !c.inProgress && !c.stream.sending)
  {
    hide Take, Enabled, WellParsed, OutputOk, HeldOk, Answers, Replies, Consists, Sound, Stable;
    var n := |steps| - 1;
    Prefix(conns, steps, env);
    RunAnswers(conns, steps, env);
    RunAnswers(conns[..n + 1], steps[..n], env);
    RunInv(conns, steps, env);
    RunInv(conns[..n + 1], steps[..n], env);
    OpenBefore(conns[n], steps[n], env);
    TakeAnswers(conns[n], steps[n], env, Replies(steps[..n]));
    var c := conns[|steps|];
    assert c.received[c.consumed..] == c.stream.input[c.offset..];
    if c.open && c.stream.reading {
      assert c.stream.input[0..] == c.stream.input;
    }
  }

  /** The bytes that have come in, by the receives alone. */
  function AllReceived(steps: seq<Step>): seq<Byte> {
    if steps == [] then []
    else
      var last := steps[|steps| - 1];
      AllReceived(steps[..|steps| - 1]) + (if last.Received? && last.result > 0 then last.bytes else [])
  }

  lemma {:induction false} ReceivedIsAll<Q>(conns: seq<Conn<Q>>, steps: seq<Step>, env: Env<Q>)
    requires IsRun(conns, steps, env)
    ensures conns[|steps|].received == AllReceived(steps)
    decreases |steps|
  {
    hide Take, Enabled;
    if steps != [] {
      var n := |steps| - 1;
      ReceivedIsAll(conns[..n + 1], steps[..n], env);
      TakeReceives(conns[n], steps[n], env);
    }
  }

  // ---------------------------------------------------------------- the bytes of a request in progress

  /** The held bytes are those of the last request, as the parser left them when it found it in `rest`. */
  ghost predicate HeldFrom<Q>(c: Conn<Q>, env: Env<Q>, rest: seq<Byte>) {
    c.inProgress ==>
      && c.dispatched != [] && env.parse(rest) == Done(|c.held|, c.dispatched[|c.dispatched| - 1])
      && |c.held| <= |env.image(rest)| == |rest| && c.held == env.image(rest)[..|c.held|]
  }

  lemma {:induction false} ParseHolds<Q>(c: Conn<Q>, env: Env<Q>) returns (rest: seq<Byte>)
    requires !c.inProgress && c.offset <= |c.stream.input|
    ensures HeldFrom(ParseInput(c, env), env, rest)
    decreases |c.stream.input| - c.offset
  {
    hide S.FlushStep;
    rest := c.stream.input[c.offset..];
    var r := env.parse(rest);
    if r.Done? && 0 < r.pos <= |rest| == |env.image(rest)| {
      var c1 := Dispatch(c, r.pos, r.value, env.image(rest));
      if env.user(|c1.dispatched|).Answer? {
        rest := ParseHolds(PutResponse(c1, env.user(|c1.dispatched|).response), env);
      }
    }
  }

  lemma TakeHolds<Q>(c: Conn<Q>, step: Step, env: Env<Q>, before: seq<Byte>) returns (rest: seq<Byte>)
    requires HeldFrom(c, env, before) && Enabled(c, step) && c.offset <= |c.stream.input| && c.stream.Ok()
    requires step.Received? ==> !c.inProgress && !c.stream.sending
    ensures HeldFrom(Take(c, step, env), env, rest)
  {
    hide S.FlushStep, ParseInput, S.State.Ok;
    rest := before;
    match step
    case Received(result, bytes) =>
      if result > 0 {
        rest := ParseHolds(c.(stream := S.RecvStep(c.stream, result, bytes).0, received := c.received + bytes), env);
      }
    case Sent(result) =>
      var (stream, event) := S.SendStep(c.stream, result);
      if result > 0 {
        S.SendStepKeepsOk(c.stream, result);
        if event.AllFlushed? && !c.inProgress && |stream.input| != c.offset {
          rest := ParseHolds(c.(stream := stream), env);
        }
      }
    case _ =>
  }

  lemma {:induction false} RunHolds<Q(!new)>(conns: seq<Conn<Q>>, steps: seq<Step>, env: Env<Q>)
    returns (rest: seq<Byte>)
    requires UserOk(env) && IsRun(conns, steps, env) && WellParsed(conns, steps, env)
    ensures HeldFrom(conns[|steps|], env, rest)
    decreases |steps|
  {
    hide Take, Enabled, Inv, Sound, Stable, UserOk, HeldFrom, WellParsed;
    if steps == [] {
      rest := [];
      NothingHeld(conns, env);
    } else {
      var n := |steps| - 1;
      Prefix(conns, steps, env);
      rest := RunHolds(conns[..n + 1], steps[..n], env);
      RunInv(conns[..n + 1], steps[..n], env);
      OpenBefore(conns[n], steps[n], env);
      rest := TakeHolds(conns[n], steps[n], env, rest);
    }
  }

  lemma NothingHeld<Q>(conns: seq<Conn<Q>>, env: Env<Q>)
    requires IsRun(conns, [], env)
    ensures HeldFrom(conns[0], env, [])
  {
  }
}
