/**
 The HTTP server with the request reader as the code computes it: module Server with CodeRead of
 module HttpReader. That reader is not stable on all inputs; the server's promises hold on every run
 in which it is, and the condition for that is one on the bytes.
 */
module HttpServerCode {
  import opened Bytes
  import opened Words
  import opened HttpSyntax
  import opened HttpStability
  import opened HttpRequests
  import opened HttpReader
  import opened Server
  import opened ServerAnswers
  import opened HttpServer
  import opened Options
  import H = Dechunk
  import S = Stream

  /**
   What server_parse makes of the int it gets. Where an assertion fails (the result is 0 or below
   -2) or the reader overruns the buffer, the process ends; the model closes the connection.
   */
  function CodeParse(s: seq<Byte>): Parse<Message> {
    match CodeRead(s, FIELDS)
    case Overrun => Invalid
    case Returned(ret, message) =>
      if ret == -2 then Partial
      else if ret > 0 && message.Some? then Done(ret, message.value)
      else Invalid
  }

  function CodeImage(s: seq<Byte>): (t: seq<Byte>)
    ensures |t| == |s|
  {
    hide CodeRead, ParseRequest, Rewritten;
    var r := CodeParse(s);
    if r.Done? then
      CodeReadFits(s, FIELDS);
      Rewritten(s, ToInt(ParseRequest(s, FIELDS).pos), r.value.body)
    else s
  }

  function CodeEnv(user: nat -> Action): Env<Message> {
    Env(CodeParse, CodeImage, user)
  }

  // ---------------------------------------------------------------- what the reader writes

  lemma CodeWritesInside(s: seq<Byte>)
    requires |s| < HALF_WORD && Short(s, FIELDS) && CodeParse(s).Done?
    ensures 0 < CodeParse(s).pos <= |s| == |CodeImage(s)| && CodeImage(s)[CodeParse(s).pos..] == s[CodeParse(s).pos..]
  {
    hide CodeRead, ParseRequest, Rewritten, Short;
    CodeReadInside(s, FIELDS);
    CodeReadFits(s, FIELDS);
  }

  lemma NothingIsPartial()
    ensures CodeParse([]) == Partial
  {
  }

  // ---------------------------------------------------------------- when the reader is stable along a stream

  /** Each request that the code finds in these bytes is settled and short, and so is what follows the last. */
  ghost predicate SettledStream(s: seq<Byte>)
    decreases |s|
  {
    && Settled(s, FIELDS) && Short(s, FIELDS)
    && (CodeParse(s).Done? && 0 < CodeParse(s).pos <= |s| ==> SettledStream(s[CodeParse(s).pos..]))
  }

  lemma SettledParseKeeps(s: seq<Byte>, t: seq<Byte>)
    requires |s| < HALF_WORD - 1 && Settled(s, FIELDS)
    ensures Keeps(CodeParse(s), CodeParse(s + t))
  {
    hide CodeRead, Settled;
    SettledKeeps(s, t, FIELDS);
  }

  lemma {:induction false} SettledIsStable(s: seq<Byte>, t: seq<Byte>, user: nat -> Action)
    requires |s| < HALF_WORD - 1 && SettledStream(s)
    ensures Stable(s, t, CodeEnv(user))
    decreases |s|
  {
    hide CodeParse, Settled;
    SettledParseKeeps(s, t);
    if CodeParse(s).Done? && 0 < CodeParse(s).pos <= |s| {
      SettledIsStable(s[CodeParse(s).pos..], t, user);
    }
  }

  /** On such bytes the reader makes progress and writes only inside the requests. */
  lemma {:induction false} SettledIsSound(s: seq<Byte>, user: nat -> Action)
    requires |s| < HALF_WORD && SettledStream(s)
    ensures Sound(s, CodeEnv(user))
    decreases |s|
  {
    hide CodeParse, CodeImage, Settled, Short;
    NothingIsPartial();
    if CodeParse(s).Done? {
      CodeWritesInside(s);
      SettledIsSound(s[CodeParse(s).pos..], user);
    }
  }

  // ---------------------------------------------------------------- runs

  lemma {:induction false} ReceivedBefore(conns: seq<Conn<Message>>, steps: seq<Step>, env: Env<Message>, i: nat)
    requires IsRun(conns, steps, env) && i <= |steps|
    ensures conns[i].received <= conns[|steps|].received
    decreases |steps|
  {
    hide Take, Enabled;
    if i < |steps| {
      var n := |steps| - 1;
      ReceivedBefore(conns[..n + 1], steps[..n], env, i);
      TakeReceives(conns[n], steps[n], env);
    }
  }

  /** At every moment of the run, what had arrived was settled. */
  ghost predicate SettledRun(conns: seq<Conn<Message>>) {
    forall i :: 0 <= i < |conns| ==> SettledStream(conns[i].received)
  }

  lemma SettledRunIsWellParsed(conns: seq<Conn<Message>>, steps: seq<Step>, user: nat -> Action)
    requires IsRun(conns, steps, CodeEnv(user)) && SettledRun(conns) && |conns[|steps|].received| < HALF_WORD - 1
    ensures WellParsed(conns, steps, CodeEnv(user))
  {
    hide Take, Enabled, SettledStream, Sound, Stable, CodeEnv;
    forall i | 0 <= i < |conns|
      ensures Sound(conns[i].received, CodeEnv(user))
    {
      ReceivedBefore(conns, steps, CodeEnv(user), i);
      SettledIsSound(conns[i].received, user);
    }
    forall i | 0 <= i < |steps|
      ensures Stable(conns[i].received, Brought(steps[i]), CodeEnv(user))
    {
      ReceivedBefore(conns, steps, CodeEnv(user), i);
      SettledIsStable(conns[i].received, Brought(steps[i]), user);
    }
  }

  /**
   The server's central promise for the code's own reader, in every run in which what has arrived
   is settled at each moment. It bounds each request, not what a connection receives over time.
   */
  lemma CodeServerDispatches(conns: seq<Conn<Message>>, steps: seq<Step>, more: seq<Byte>, user: nat -> Action)
    requires UserOk(CodeEnv(user)) && IsRun(conns, steps, CodeEnv(user))
    requires SettledRun(conns) && |conns[|steps|].received| < HALF_WORD - 1
    ensures var c := conns[|steps|];
            && c.dispatched <= Requests(c.received + more, CodeEnv(user))
            && (c.open && c.stream.reading ==>
                  && c.dispatched == Requests(c.received, CodeEnv(user))
                  && c.stream.acked == Flatten(c.responses) && |c.responses| == |c.dispatched|)
            && c.responses == Answers(|c.dispatched|, user, Replies(steps))
            && (c.open ==> c.stream.reading || c.stream.sending || c.inProgress)
  {
    hide Take, Enabled, SettledStream, Requests, CodeEnv, Sound, Stable, WellParsed, Answers, Replies;
    CodeUser(user);
    SettledRunIsWellParsed(conns, steps, user);
    SettledIsStable(conns[|steps|].received, more, user);
    DispatchesRequests(conns, steps, more, CodeEnv(user));
    if conns[|steps|].open {
      NeverStalls(conns, steps, CodeEnv(user));
    }
    RunAnswers(conns, steps, CodeEnv(user));
  }

  lemma CodeUser(user: nat -> Action)
    ensures CodeEnv(user).user == user
  {
  }

  /** After the reader has run, the head stands where it stood, and the body directly behind it. */
  lemma ImageHoldsBody(s: seq<Byte>)
    requires CodeParse(s).Done?
    ensures ParseRequest(s, FIELDS).Done? && |CodeImage(s)| == |s|
    ensures var n, body := ToInt(ParseRequest(s, FIELDS).pos), CodeParse(s).value.body;
            && 0 <= n <= |s| && CodeImage(s)[..n] == s[..n]
            && (body.Inside? ==>
                  && n + |body.bytes| <= |s| && CodeImage(s)[n..n + |body.bytes|] == body.bytes
                  && CodeImage(s)[n + |body.bytes|..] == s[n + |body.bytes|..])
            && (!body.Inside? ==> CodeImage(s) == s)
  {
    hide CodeRead, ParseRequest;
    CodeReadFits(s, FIELDS);
  }

  /** The bytes of a found request: its head as it came in, and the body that was found, as far as they reach. */
  predicate InPlace(held: seq<Byte>, rest: seq<Byte>, m: Message) {
    && CodeParse(rest) == Done(|held|, m) && ParseRequest(rest, FIELDS).Done?
    && var n := ToInt(ParseRequest(rest, FIELDS).pos);
       && 0 <= n <= |rest| && (n <= |held| ==> held[..n] == rest[..n])
       && (m.body.Inside? && n + |m.body.bytes| <= |held| ==> held[n..n + |m.body.bytes|] == m.body.bytes)
  }

  lemma HeldSlices(rest: seq<Byte>, held: seq<Byte>, m: Message)
    requires CodeParse(rest) == Done(|held|, m) && |held| <= |CodeImage(rest)| && held == CodeImage(rest)[..|held|]
    ensures InPlace(held, rest, m)
  {
    hide CodeParse, CodeImage, ParseRequest, ToInt;
    ImageHoldsBody(rest);
    var n := ToInt(ParseRequest(rest, FIELDS).pos);
    if n <= |held| {
      PrefixSlice(CodeImage(rest), held, 0, n);
      if m.body.Inside? && n + |m.body.bytes| <= |held| {
        PrefixSlice(CodeImage(rest), held, n, n + |m.body.bytes|);
      }
    }
  }

  /**
   While a request is in progress, the buffer in front of the offset holds its bytes: its head as it
   came in and behind it the body that the user was given.
   */
  lemma HeldRequestInPlace(conns: seq<Conn<Message>>, steps: seq<Step>, user: nat -> Action) returns (rest: seq<Byte>)
    requires UserOk(CodeEnv(user)) && IsRun(conns, steps, CodeEnv(user))
    requires SettledRun(conns) && |conns[|steps|].received| < HALF_WORD - 1
    requires conns[|steps|].open && conns[|steps|].inProgress
    ensures var c := conns[|steps|];
            && |c.held| <= c.offset <= |c.stream.input| && c.stream.input[c.offset - |c.held|..c.offset] == c.held
            && c.dispatched != [] && InPlace(c.held, rest, c.dispatched[|c.dispatched| - 1])
  {
    hide Take, Enabled, SettledStream, CodeParse, CodeImage, WellParsed, Inv, HeldFrom, CodeEnv, UserOk, InPlace;
    SettledRunIsWellParsed(conns, steps, user);
    rest := RunHolds(conns, steps, CodeEnv(user));
    RunInv(conns, steps, CodeEnv(user));
    CodeHeld(conns[|steps|], rest, user);
    HeldSlices(rest, conns[|steps|].held, CodeParse(rest).value);
  }

  lemma CodeHeld(c: Conn<Message>, rest: seq<Byte>, user: nat -> Action)
    requires HeldFrom(c, CodeEnv(user), rest) && Inv(c, CodeEnv(user)) && c.open && c.inProgress
    ensures c.dispatched != [] && CodeParse(rest) == Done(|c.held|, c.dispatched[|c.dispatched| - 1])
    ensures |c.held| <= c.offset <= |c.stream.input| && c.stream.input[c.offset - |c.held|..c.offset] == c.held
    ensures |c.held| <= |CodeImage(rest)| && c.held == CodeImage(rest)[..|c.held|]
  {
    hide CodeParse, CodeImage, InputOk, OutputOk, PhaseOk;
  }

  lemma PrefixSlice(t: seq<Byte>, held: seq<Byte>, i: nat, j: nat)
    requires |held| <= |t| && held == t[..|held|] && i <= j <= |held|
    ensures held[i..j] == t[i..j] && held[..j] == t[..j]
  {
  }

  // ---------------------------------------------------------------- streams on which every run is settled

  /** Every request of the stream is plain: its lengths fit and no chunk-size line is blank. */
  ghost predicate PlainStream(s: seq<Byte>)
    decreases |s|
  {
    && PlainRequest(s, FIELDS)
    && (CodeParse(s).Done? && 0 < CodeParse(s).pos <= |s| ==> PlainStream(s[CodeParse(s).pos..]))
  }

  /** However much of a plain stream has arrived, it is settled. */
  lemma {:induction false} PlainPrefixIsSettled(s: seq<Byte>, t: seq<Byte>)
    requires PlainStream(s + t)
    ensures SettledStream(s)
    decreases |s|
  {
    hide CodeParse, PlainRequest, Settled, Short;
    PlainRequestPrefix(s, t, FIELDS);
    PlainIsSettled(s, FIELDS);
    PlainIsShort(s, FIELDS);
    PlainInput(s + t);
    SettledParseKeeps(s, t);
    if CodeParse(s).Done? && 0 < CodeParse(s).pos <= |s| {
      var n := CodeParse(s).pos;
      assert (s + t)[n..] == s[n..] + t;
      PlainPrefixIsSettled(s[n..], t);
    }
  }

  lemma PlainInput(s: seq<Byte>)
    requires PlainRequest(s, FIELDS)
    ensures |s| < HALF_WORD - 1
  {
  }

  /** So the promise holds of every run on a plain stream, in whatever pieces it arrives. */
  lemma PlainServerDispatches(conns: seq<Conn<Message>>, steps: seq<Step>, more: seq<Byte>, user: nat -> Action)
    requires UserOk(CodeEnv(user)) && IsRun(conns, steps, CodeEnv(user))
    requires PlainStream(conns[|steps|].received + more) && |conns[|steps|].received| < HALF_WORD - 1
    ensures SettledRun(conns)
    ensures conns[|steps|].dispatched <= Requests(conns[|steps|].received + more, CodeEnv(user))
  {
    hide Take, Enabled, PlainStream, SettledStream, Requests, CodeEnv;
    var all := conns[|steps|].received;
    forall i | 0 <= i < |conns|
      ensures SettledStream(conns[i].received)
    {
      ReceivedBefore(conns, steps, CodeEnv(user), i);
      var k := |conns[i].received|;
      assert all + more == conns[i].received + (all[k..] + more);
      PlainPrefixIsSettled(conns[i].received, all[k..] + more);
    }
    CodeServerDispatches(conns, steps, more, user);
  }

  // ---------------------------------------------------------------- without the condition

  /** The connection that receives a whole request at once and whose user holds it. */
  function AfterOne(s: seq<Byte>, user: nat -> Action): Conn<Message> {
    Take(Accepted(), Received(|s|, s), CodeEnv(user))
  }

  lemma OneRequestRun(s: seq<Byte>, user: nat -> Action)
    requires |s| < HALF_WORD - 1 && CodeParse(s).Done? && Short(s, FIELDS) && user(1).Hold?
    ensures IsRun([Accepted(), AfterOne(s, user)], [Received(|s|, s)], CodeEnv(user))
    ensures AfterOne(s, user).dispatched == [CodeParse(s).value] && AfterOne(s, user).received == s
  {
    hide CodeParse, CodeImage, Short;
    CodeWritesInside(s);
    assert s[0..] == s && [] + s == s;
  }

  lemma FirstRequest(s: seq<Byte>, user: nat -> Action)
    ensures var all := Requests(s, CodeEnv(user));
            if CodeParse(s).Done? && 0 < CodeParse(s).pos <= |s|
            then all != [] && all[0] == CodeParse(s).value else all == []
  {
    hide CodeParse;
  }

  /** That run keeps the promise for every continuation exactly if the request is settled. */
  lemma OneRequestSafeIff(s: seq<Byte>, user: nat -> Action)
    requires |s| < HALF_WORD - 1 && CodeParse(s).Done? && Short(s, FIELDS) && user(1).Hold?
    ensures IsRun([Accepted(), AfterOne(s, user)], [Received(|s|, s)], CodeEnv(user))
    ensures (forall more :: AfterOne(s, user).dispatched <= Requests(s + more, CodeEnv(user))) <==> Settled(s, FIELDS)
  {
    hide CodeParse, Settled, Short, Requests, CodeEnv, AfterOne;
    OneRequestRun(s, user);
    CodeWritesInside(s);
    if Settled(s, FIELDS) {
      forall more
        ensures AfterOne(s, user).dispatched <= Requests(s + more, CodeEnv(user))
      {
        SettledParseKeeps(s, more);
        FirstRequest(s + more, user);
      }
    } else {
      OtherMessage(s);
      FirstRequest(s + [49], user);
      assert !(AfterOne(s, user).dispatched <= Requests(s + [49], CodeEnv(user)));
    }
  }

  lemma OtherMessage(s: seq<Byte>)
    requires |s| < HALF_WORD - 1 && CodeParse(s).Done? && !Settled(s, FIELDS)
    ensures CodeParse(s + [49]).Done? ==> CodeParse(s + [49]).value != CodeParse(s).value
  {
    hide CodeRead, Settled;
    UnsettledDiffers(s, FIELDS);
  }
}
