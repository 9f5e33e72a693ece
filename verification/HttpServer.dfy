/**
 The HTTP server: module Server with the parser of module HttpRequests. The parser meets the
 contract that the connection needs, so every statement about runs holds of it.
 */
module HttpServer {
  import opened Bytes
  import opened HttpSyntax
  import opened HttpStability
  import opened HttpRequests
  import opened HttpReader
  import opened Server
  import opened ServerAnswers
  import H = Dechunk
  import S = Stream

  /** The number of fields a request has room for. */
  const FIELDS := 16

  function Parse(s: seq<Byte>): Parse<Message> {
    ReadRequest(s, FIELDS, H.Line)
  }

  /** The input buffer after http_read_request. */
  function Image(s: seq<Byte>): seq<Byte> {
    var r := Parse(s);
    if r.Done? then
      RequestFits(s, FIELDS, H.Line);
      Rewritten(s, ParseRequest(s, FIELDS).pos, r.value.body)
    else s
  }

  function HttpEnv(user: nat -> Action): Env<Message> {
    Env(Parse, Image, user)
  }

  lemma ImageKeepsRest(s: seq<Byte>)
    requires Parse(s).Done?
    ensures 0 < Parse(s).pos <= |s| == |Image(s)| && Image(s)[Parse(s).pos..] == s[Parse(s).pos..]
  {
    hide ReadRequest, ParseRequest;
    RequestFits(s, FIELDS, H.Line);
  }

  lemma HttpParserOk(user: nat -> Action)
    ensures ParserOk(HttpEnv(user))
  {
    hide Parse, Image;
    var env := HttpEnv(user);
    EmptyIsPartial();
    forall s, t
      ensures Keeps(env.parse(s), env.parse(s + t))
    {
      ParseKeeps(s, t);
    }
    forall s | env.parse(s).Done?
      ensures 0 < env.parse(s).pos <= |s| == |env.image(s)| && env.image(s)[env.parse(s).pos..] == s[env.parse(s).pos..]
    {
      ImageKeepsRest(s);
    }
  }

  lemma ParseKeeps(s: seq<Byte>, t: seq<Byte>)
    ensures Keeps(Parse(s), Parse(s + t))
  {
    ReadRequestKeeps(s, t, FIELDS);
  }

  lemma EmptyIsPartial()
    ensures Parse([]).Partial?
  {
  }

  /**
   The server's central promise: however the bytes of a connection are cut up and whenever the user
   answers, the requests dispatched are a prefix of those in the whole stream, and all of them
   whenever the server waits for more input; meanwhile it never stalls.
   */
  lemma HttpServerDispatches(conns: seq<Conn<Message>>, steps: seq<Step>, more: seq<Byte>, user: nat -> Action)
    requires UserOk(HttpEnv(user)) && IsRun(conns, steps, HttpEnv(user))
    ensures var c := conns[|steps|];
            && c.dispatched <= Requests(c.received + more, HttpEnv(user))
            && (c.open && c.stream.reading ==>
                  c.dispatched == Requests(c.received, HttpEnv(user)) && c.stream.acked == Flatten(c.responses)
                  && |c.responses| == |c.dispatched|)
            && c.responses == Answers(|c.dispatched|, user, Replies(steps))
            && (c.open ==> c.stream.reading || c.stream.sending || c.inProgress)
  {
    hide HttpEnv, Answers, Replies;
    HttpUser(user);
    HttpParserOk(user);
    ParserOkWellParsed(conns, steps, HttpEnv(user));
    ParserOkStable(conns[|steps|].received, more, HttpEnv(user));
    DispatchesRequests(conns, steps, more, HttpEnv(user));
    if conns[|steps|].open {
      NeverStalls(conns, steps, HttpEnv(user));
    }
    RunAnswers(conns, steps, HttpEnv(user));
  }

  lemma HttpUser(user: nat -> Action)
    ensures HttpEnv(user).user == user
  {
  }
}
