/**
 From the client's side: requests written one after the other on one connection. However the bytes
 are cut up on their way, the server dispatches these requests, with these bodies, in this order, and
 sends the user's answers to them.
 */
module ServedRequests {
  import opened Bytes
  import opened Alphabet
  import opened Words
  import opened Numbers
  import opened NumberText
  import opened HttpSyntax
  import opened HttpGrammar
  import opened HttpStability
  import opened HttpRequests
  import opened HttpReader
  import opened HttpWriter
  import opened RoundTrip
  import opened WrittenRequests
  import opened ChunkText
  import opened Server
  import opened ServerAnswers
  import opened HttpServer
  import opened HttpServerCode
  import opened Options
  import A = ChunkArithmetic
  import H = Dechunk

  /** How the end of the body is told (section 6.3 of RFC 9112). */
  datatype Framing =
    | NoBodyAtAll
    | Declared(body: seq<Byte>)
    | InChunks(data: seq<seq<Byte>>, sizes: seq<seq<Byte>>, zero: seq<Byte>)

  datatype WrittenRequest = WrittenRequest(verb: seq<Byte>, path: seq<Byte>, fields: seq<Field>, framing: Framing)
  {
    function Head(): seq<Byte> {
      RequestText(verb, path, fields)
    }

    /** A GET, or the fields say how the body is framed, in whatever case they are written. */
    predicate Ok() {
      && HeadOk(verb, path, fields, 16)
      && match framing
         case NoBodyAtAll => verb == Ascii("GET")
         case Declared(body) =>
           && verb != Ascii("GET") && FirstNamed(fields, CodingName()) == []
           && Writes(FirstNamed(fields, LengthName()), |body|, 10) && |Head() + body| <= INT_MAX
         case InChunks(data, sizes, zero) =>
           && verb != Ascii("GET") && FirstNamed(fields, LengthName()) == []
           && SameText(FirstNamed(fields, CodingName()), ChunkedName())
           && Written(data, sizes, zero) && |Head() + BodyText(data, sizes, zero)| <= INT_MAX
    }

    function BodyBytes(): seq<Byte>
      requires Ok()
    {
      match framing
      case NoBodyAtAll => []
      case Declared(body) => body
      case InChunks(data, sizes, zero) => BodyText(data, sizes, zero)
    }

    /** The request as it goes over the line. */
    function Wire(): seq<Byte>
      requires Ok()
    {
      Head() + BodyBytes()
    }

    function Body(): Content
      requires Ok()
    {
      match framing
      case NoBodyAtAll => NoBody
      case Declared(body) => Inside(body)
      case InChunks(data, _, _) => Inside(Flatten(data))
    }
  }

  /** What the user is handed for the request. */
  function MessageOf(w: WrittenRequest): Message
    requires w.Ok()
  {
    HeadParses(w, []);
    Message(ParseRequest(w.Wire(), FIELDS).value, w.Body())
  }

  lemma HeadParses(w: WrittenRequest, rest: seq<Byte>)
    requires w.Ok()
    ensures ParseRequest(w.Wire(), FIELDS).Done?
    ensures ParseRequest(w.Wire() + rest, FIELDS) == ParseRequest(w.Wire(), FIELDS)
    ensures ParseRequest(w.Wire(), FIELDS).pos == |w.Head()| <= INT_MAX
  {
    hide ParseRequest, RequestText, HeadOk, Written, BodyText, FirstNamed, Writes, SameText;
    HeadFits(w.verb, w.path, w.fields, FIELDS);
    var s, n, head := HeadIsRead(w.verb, w.path, w.fields, w.BodyBytes(), FIELDS);
    RequestKeeps(w.Wire(), rest, FIELDS);
  }

  /** The head that the user is handed has the method, the target and the fields that were written. */
  lemma MessageIsWritten(w: WrittenRequest)
    requires w.Ok()
    ensures var s, head := w.Wire(), MessageOf(w).head;
            && Within(head.verb, |s|) && Text(s, head.verb) == w.verb
            && Within(head.path, |s|) && Text(s, head.path) == w.path
            && |head.headers| == |w.fields|
            && forall k :: 0 <= k < |w.fields| ==> Reads(s, head.headers[k], w.fields[k])
  {
    hide ParseRequest, RequestText, Written, BodyText, FirstNamed, Writes, SameText, Reads, Visible, FieldsOk;
    var s := w.Wire();
    assert s[0..|w.Head()|] == w.Head();
    RequestHeadAt(s, w.verb, w.path, w.fields, FIELDS);
    HeadSize(w.verb, w.path, w.fields);
  }

  lemma HeadSize(verb: seq<Byte>, path: seq<Byte>, fields: seq<Field>)
    ensures |RequestText(verb, path, fields)| > |verb| + 1 + |path|
  {
  }

  /** The reader takes exactly the request, and asks for nothing behind it. */
  lemma WireIsRead(w: WrittenRequest, rest: seq<Byte>)
    requires w.Ok() && |w.Wire() + rest| < HALF_WORD
    ensures CodeParse(w.Wire() + rest) == Done(|w.Wire()|, MessageOf(w)) && |w.Wire()| > 0
  {
    hide ParseRequest, RequestText, HeadOk, Written, BodyText, FirstNamed, Writes, SameText, CodeRead;
    HeadParses(w, rest);
    var s := w.Wire() + rest;
    match w.framing
    case NoBodyAtAll =>
      assert w.Head() + [] == w.Head();
      FramingIsRead(w.verb, w.path, w.fields, rest, FIELDS);
    case Declared(body) =>
      assert s == w.Head() + (body + rest) && (body + rest)[..|body|] == body;
      LengthIsRead(w.verb, w.path, w.fields, body + rest, FIELDS, |body|);
    case InChunks(data, sizes, zero) =>
      WrittenShape(data, sizes, zero);
      Three(w.Head(), w.BodyBytes(), rest);
      ChunkedIsRead(w.verb, w.path, w.fields, FIELDS, data, sizes, zero, rest);
  }

  lemma Three(a: seq<Byte>, b: seq<Byte>, c: seq<Byte>)
    ensures a + b + c == a + (b + c)
  {
  }

  /** The request is plain: its lengths fit, and none of its size lines is blank. */
  lemma WireIsPlain(w: WrittenRequest, rest: seq<Byte>)
    requires w.Ok() && |w.Wire() + rest| < HALF_WORD - 1
    ensures PlainRequest(w.Wire() + rest, FIELDS)
  {
    hide ParseRequest, RequestText, HeadOk, Written, BodyText, FirstNamed, Writes, SameText, HeadersWithin, Lookup,
         StrToUll, A.PlainBody, H.Dechunk, EqualCase, AllDelimited, LengthName, CodingName, ChunkedName;
    var body := w.BodyBytes();
    Three(w.Head(), body, rest);
    HeadFits(w.verb, w.path, w.fields, FIELDS);
    var s, n, head := HeadIsRead(w.verb, w.path, w.fields, body + rest, FIELDS);
    WordsOfTheCode();
    NoText(s, Lookup(s, head.headers, TransferEncoding()));
    NoText(s, Lookup(s, head.headers, ContentLength()));
    match w.framing
    case NoBodyAtAll =>
    case Declared(b) => LengthAt(s, head.headers, |b|);
    case InChunks(data, sizes, zero) => WrittenBodyIsPlain(data, sizes, zero, rest);
  }

  // ---------------------------------------------------------------- requests one after the other

  predicate AllOk(ws: seq<WrittenRequest>) {
    forall i :: 0 <= i < |ws| ==> ws[i].Ok()
  }

  function WireOf(ws: seq<WrittenRequest>): seq<Byte>
    requires AllOk(ws)
  {
    if ws == [] then [] else ws[0].Wire() + WireOf(ws[1..])
  }

  function MessagesOf(ws: seq<WrittenRequest>): (ms: seq<Message>)
    requires AllOk(ws)
    ensures |ms| == |ws|
  {
    if ws == [] then [] else [MessageOf(ws[0])] + MessagesOf(ws[1..])
  }

  /** The stream holds exactly these requests, and all of them are plain. */
  lemma {:induction false} WireIsStream(ws: seq<WrittenRequest>, user: nat -> Action)
    requires AllOk(ws) && |WireOf(ws)| < HALF_WORD - 1
    ensures Requests(WireOf(ws), CodeEnv(user)) == MessagesOf(ws) && PlainStream(WireOf(ws))
    decreases |ws|
  {
    hide CodeParse, PlainRequest, WrittenRequest.Ok, WrittenRequest.Wire, MessageOf;
    if ws == [] {
      NothingIsPlain();
      NothingIsPartial();
    } else {
      var w, rest := ws[0], WireOf(ws[1..]);
      WireIsRead(w, rest);
      WireIsPlain(w, rest);
      assert (w.Wire() + rest)[|w.Wire()|..] == rest;
      WireIsStream(ws[1..], user);
    }
  }

  lemma NothingIsPlain()
    ensures PlainRequest([], FIELDS)
  {
  }

  /**
   A connection on which these requests come in, cut up anyhow, with any answers at any time: the
   requests dispatched are the first of them, in order; and when all has come in and the server
   waits for more, they are all of them, and the peer has been sent exactly the answers to them.
   */
  lemma WrittenRequestsAreServed(ws: seq<WrittenRequest>, conns: seq<Conn<Message>>, steps: seq<Step>, more: seq<Byte>,
                                 user: nat -> Action)
    requires AllOk(ws) && |WireOf(ws)| < HALF_WORD - 1
    requires UserOk(CodeEnv(user)) && IsRun(conns, steps, CodeEnv(user))
    requires AllReceived(steps) + more == WireOf(ws)
    ensures var c := conns[|steps|];
            && c.dispatched <= MessagesOf(ws)
            && (c.open && c.stream.reading && more == [] ==>
                  && c.dispatched == MessagesOf(ws)
                  && c.stream.acked == Flatten(Answers(|ws|, user, Replies(steps))))
  {
    hide Take, Enabled, CodeEnv, PlainStream, SettledStream, Requests, Answers, Replies, AllOk, WireOf, MessagesOf,
         UserOk, AllReceived;
    ReceivedIsAll(conns, steps, CodeEnv(user));
    WireIsStream(ws, user);
    PlainServerDispatches(conns, steps, more, user);
    CodeServerDispatches(conns, steps, more, user);
    if more == [] {
      assert AllReceived(steps) + more == AllReceived(steps);
    }
  }

  /** The connection that receives something that is no request is closed, and nothing is dispatched or sent. */
  lemma InvalidIsClosed(s: seq<Byte>, user: nat -> Action)
    requires s != [] && CodeParse(s) == Invalid
    ensures var c := Take(Accepted(), Received(|s|, s), CodeEnv(user));
            && IsRun([Accepted(), c], [Received(|s|, s)], CodeEnv(user))
            && !c.open && c.dispatched == [] && c.stream.acked == []
  {
    hide CodeParse, CodeImage;
    assert s[0..] == s && [] + s == s;
  }

  /** A request with two framings, with none, or with an unknown coding is refused in this way. */
  lemma RefusedIsClosed(verb: seq<Byte>, path: seq<Byte>, fields: seq<Field>, rest: seq<Byte>, user: nat -> Action)
    requires HeadOk(verb, path, fields, 16) && verb != Ascii("GET")
    requires var length, coding := FirstNamed(fields, LengthName()), FirstNamed(fields, CodingName());
             (length == [] <==> coding == []) || (length == [] && !SameText(coding, ChunkedName()))
    ensures var s := RequestText(verb, path, fields) + rest;
            var c := Take(Accepted(), Received(|s|, s), CodeEnv(user));
            && s != [] && IsRun([Accepted(), c], [Received(|s|, s)], CodeEnv(user))
            && !c.open && c.dispatched == [] && c.stream.acked == []
  {
    hide ParseRequest, RequestText, HeadOk, FirstNamed, SameText, CodeRead, CodeImage, Take, IsRun, CodeEnv, LengthName,
         CodingName, ChunkedName;
    var s := RequestText(verb, path, fields) + rest;
    FramingIsRead(verb, path, fields, rest, FIELDS);
    HeadSize(verb, path, fields);
    InvalidIsClosed(s, user);
  }

  /** So is a request with more than sixteen fields. */
  lemma SeventeenFieldsAreClosed(
      verb: seq<Byte>, path: seq<Byte>, fields: seq<Field>, rest: seq<Byte>, user: nat -> Action)
    requires Visible(verb) && Visible(path) && FieldsOk(fields) && |fields| > 16
    ensures var s := RequestText(verb, path, fields) + rest;
            var c := Take(Accepted(), Received(|s|, s), CodeEnv(user));
            && s != [] && IsRun([Accepted(), c], [Received(|s|, s)], CodeEnv(user))
            && !c.open && c.dispatched == [] && c.stream.acked == []
  {
    hide ParseRequest, RequestText, Visible, FieldsOk, CodeImage, Take, IsRun, CodeEnv;
    var s := RequestText(verb, path, fields) + rest;
    assert s[0..|RequestText(verb, path, fields)|] == RequestText(verb, path, fields);
    TooManyFields(s, verb, path, fields, FIELDS);
    HeadSize(verb, path, fields);
    InvalidIsClosed(s, user);
  }

  // ---------------------------------------------------------------- a request of the repository's own tests

  /** test/http.c:81-89: a POST of four bytes in one chunk. */
  function TestRequest(): WrittenRequest {
    WrittenRequest(
      Ascii("POST"), Ascii("/"),
      [Field(Ascii("Host"), Ascii("localhost")), Field(Ascii("Transfer-Encoding"), Ascii("chunked"))],
      InChunks([Ascii("test")], [Ascii("4")], Ascii("0")))
  }

  lemma TestBody()
    ensures |BodyText([Ascii("test")], [Ascii("4")], Ascii("0"))| == 14
    ensures Written([Ascii("test")], [Ascii("4")], Ascii("0")) && Flatten([Ascii("test")]) == Ascii("test")
  {
    hide HexChar;
    assert |Ascii("test")| == 4 && Ascii("4") == [52] && Ascii("0") == [48];
    HexCharRange(52, 4);
    HexCharRange(48, 0);
    OneChunk(Ascii("test"), Ascii("4"), Ascii("0"));
  }

  lemma OneChunk(data: seq<Byte>, size: seq<Byte>, zero: seq<Byte>)
    ensures |BodyText([data], [size], zero)| == |size| + 2 + |data| + 2 + |zero| + 4 && Flatten([data]) == data
  {
    assert [data][1..] == [] && [size][1..] == [];
    assert Flatten([data][1..]) == [];
  }

  lemma TestFields()
    ensures FieldsOk(TestRequest().fields) && Visible(Ascii("POST")) && Visible(Ascii("/"))
  {
    hide IsTokenChar, IsText, In, IsVisible, FieldOk;
    Characters();
    HostField();
    CodingField();
  }

  lemma HostField()
    ensures FieldOk(Field(Ascii("Host"), Ascii("localhost")))
  {
    hide IsTokenChar, IsText, In;
    Characters();
  }

  lemma CodingField()
    ensures FieldOk(Field(Ascii("Transfer-Encoding"), Ascii("chunked")))
  {
    hide IsTokenChar, IsText, In;
    Characters();
  }

  lemma TestHeadSize()
    ensures |TestRequest().Head()| == 64
  {
    var f, g := TestRequest().fields[0], TestRequest().fields[1];
    assert |FieldText(f)| == 4 + 9 + 4 && |FieldText(g)| == 17 + 7 + 4;
    assert TestRequest().fields[1..] == [g] && [g][1..] == [];
    assert |FieldsText([g])| == 28;
    assert |FieldsText(TestRequest().fields)| == 45;
  }

  lemma TestNames()
    ensures FirstNamed(TestRequest().fields, LengthName()) == []
    ensures FirstNamed(TestRequest().fields, CodingName()) == Ascii("chunked") == ChunkedName()
    ensures SameText(ChunkedName(), ChunkedName())
  {
    hide SameLetter;
    var f, g := TestRequest().fields[0], TestRequest().fields[1];
    assert TestRequest().fields[1..] == [g] && [g][1..] == [];
    assert |f.name| == 4 && |g.name| == 17 && |LengthName()| == 14;
    forall i | 0 <= i < 17 ensures SameLetter(g.name[i], CodingName()[i]) {
      SameLetterRange(g.name[i], CodingName()[i]);
    }
    forall i | 0 <= i < 7 ensures SameLetter(ChunkedName()[i], ChunkedName()[i]) {
      SameLetterRange(ChunkedName()[i], ChunkedName()[i]);
    }
  }

  /** The test's request is one of those that are served, and its body is what the test expects. */
  lemma TestRequestIsRead(rest: seq<Byte>)
    requires |rest| < HALF_WORD - 100
    ensures TestRequest().Ok() && |TestRequest().Wire()| == 78
    ensures CodeParse(TestRequest().Wire() + rest).Done? && CodeParse(TestRequest().Wire() + rest).pos == 78
    ensures CodeParse(TestRequest().Wire() + rest).value.body == Inside(Ascii("test"))
  {
    hide RequestText, BodyText, Written, FirstNamed, FieldsOk, Visible, SameText, CodeParse, ParseRequest;
    TestBody();
    TestFields();
    TestHeadSize();
    TestNames();
    WireIsRead(TestRequest(), rest);
  }
}
