/**
 The connection as server.c runs it: fields that callbacks update. Each method is proved to take
 the connection to the state that module Server describes, so what is proved there of every run
 holds of these methods.
 */
module ServerRequest {
  import opened Bytes
  import opened HttpSyntax
  import opened Server
  import S = Stream

  class Request<!Q(!new)> {
    const env: Env<Q>
    const stream: S.Connection
    var open: bool
    var streamOffset: nat
    var inProgress: bool
    var dispatched: seq<Q>
    ghost var received: seq<Byte>
    ghost var consumed: nat
    ghost var responses: seq<seq<Byte>>
    ghost var held: seq<Byte>

    ghost function Abstract(): Conn<Q>
      reads this, stream
    {
      Conn(open, stream.Abstract(), streamOffset, inProgress, received, consumed, dispatched, responses, held)
    }

    ghost predicate InBounds()
      reads this, stream
    {
      streamOffset <= |stream.input|
    }

    /** server_accept */
    constructor (env: Env<Q>)
      ensures Abstract() == Accepted() && fresh(stream) && this.env == env
    {
      this.env := env;
      stream := new S.Connection();
      open, streamOffset, inProgress, dispatched := true, 0, false, [];
      received, consumed, responses, held := [], 0, [], [];
      new;
      ServerRead();
    }

    method ServerFlush()
      modifies stream
      ensures Abstract() == FlushOutput(old(Abstract()))
    {
      stream.Flush();
    }

    method ServerRead()
      requires InBounds() && !stream.reading
      modifies this`streamOffset, stream
      ensures Abstract() == StartReading(old(Abstract()))
    {
      stream.Consume(streamOffset);
      streamOffset := 0;
      stream.StartRead();
    }

    method ServerIo()
      requires InBounds() && !stream.reading
      modifies this`streamOffset, stream
      ensures Abstract() == Io(old(Abstract()))
    {
      var flushed := stream.Flushed();
      if !flushed {
        ServerFlush();
      } else {
        ServerRead();
      }
    }

    method ServerDisconnect()
      modifies this`open
      ensures Abstract() == Disconnect(old(Abstract()))
    {
      open := false;
    }

    /** server.c:62-65: the request is in progress, and the reader may have rewritten its bytes. */
    method DispatchNext(n: nat, request: Q, image: seq<Byte>)
      requires InBounds() && n <= |image| == |stream.input| - streamOffset
      modifies this`streamOffset, this`inProgress, this`dispatched, this`consumed, this`held, stream
      ensures Abstract() == Dispatch(old(Abstract()), n, request, image)
      ensures InBounds() && stream.input[streamOffset..] == image[n..]
    {
      stream.input := stream.input[..streamOffset] + image;
      streamOffset := streamOffset + n;
      inProgress := true;
      consumed, dispatched, held := consumed + n, dispatched + [request], image[..n];
      assert stream.input[streamOffset..] == image[n..];
    }

    /** server_parse, with the user's callback in the middle. */
    method ServerParse()
      requires InBounds() && !stream.reading && Sound(stream.input[streamOffset..], env)
      modifies this, stream
      ensures Abstract() == ParseInput(old(Abstract()), env)
      decreases |stream.input| - streamOffset
    {
      hide S.FlushStep, Sound, Io;
      var rest := stream.input[streamOffset..];
      match env.parse(rest)
      case Invalid =>
        ServerDisconnect();
      case Partial =>
        ServerIo();
      case Done(n, request) =>
        ImageFits(env, rest);
        var image := env.image(rest);
        DispatchNext(n, request, image);
        match env.user(|dispatched|)
        case Hangup =>
          ServerDisconnect();
        case AnswerAndHangup(response) =>
          WriteResponse(response);
          ServerDisconnect();
        case Hold =>
          ServerFlush();
        case Answer(response) =>
          WriteResponse(response);
          ServerParse();
    }

    /** The part of server_respond that does not depend on being inside the callback. */
    method WriteResponse(response: seq<Byte>)
      modifies this`inProgress, this`responses, stream
      ensures Abstract() == PutResponse(old(Abstract()), response)
    {
      inProgress := false;
      responses := responses + [response];
      stream.Write(response);
    }

    /** server_respond after the callback has returned. */
    method ServerRespond(response: seq<Byte>)
      requires inProgress && open && response != [] && InBounds()
      modifies this, stream
      ensures Abstract() == Take(old(Abstract()), Respond(response), env)
    {
      WriteResponse(response);
      ServerFlush();
    }

    /** server_stream_callback */
    method OnEvent(event: S.Event)
      requires InBounds() && !stream.reading && Sound(stream.input[streamOffset..], env)
      modifies this, stream
      ensures Abstract() == OnStreamEvent(old(Abstract()), event, env)
    {
      hide Sound, ParseInput;
      match event
      case Nothing =>
      case Read =>
        ServerParse();
      case AllFlushed =>
        if inProgress {
          return;
        }
        if |stream.input| == streamOffset {
          ServerRead();
        } else {
          ServerParse();
        }
      case _ =>
        ServerDisconnect();
    }

    /** The kernel completes the outstanding receive. */
    method OnReceived(result: int, bytes: seq<Byte>)
      requires InBounds() && Enabled(Abstract(), Received(result, bytes))
      requires Sound(stream.input[streamOffset..] + Brought(Received(result, bytes)), env)
      modifies this, stream
      ensures Abstract() == Take(old(Abstract()), Received(result, bytes), env)
    {
      hide Sound, OnStreamEvent;
      received := if result > 0 then received + bytes else received;
      ghost var rest := stream.input[streamOffset..];
      var event := stream.OnRecv(result, bytes);
      assert stream.input[streamOffset..] == rest + Brought(Received(result, bytes));
      OnEvent(event);
    }

    /** The kernel completes the outstanding send; nothing is being received then. */
    method OnSent(result: int)
      requires InBounds() && Enabled(Abstract(), Sent(result)) && !stream.reading
      requires Sound(stream.input[streamOffset..], env)
      modifies this, stream
      ensures Abstract() == Take(old(Abstract()), Sent(result), env)
    {
      hide Sound, OnStreamEvent;
      var event := stream.OnSend(result);
      OnEvent(event);
    }
  }

  lemma ImageFits<Q(!new)>(env: Env<Q>, rest: seq<Byte>)
    requires Sound(rest, env) && env.parse(rest).Done?
    ensures 0 < env.parse(rest).pos <= |rest| == |env.image(rest)|
    ensures env.image(rest)[env.parse(rest).pos..] == rest[env.parse(rest).pos..]
            && Sound(rest[env.parse(rest).pos..], env)
  {
  }
}
