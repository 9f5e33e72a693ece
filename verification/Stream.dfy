/**
 The socket stream: one input buffer, and an output that is written into `dataNext` while `data`
 is being sent. The transitions are functions on a state; the class below performs them on its
 fields. `written` and `acked` record what was put into the stream and what the kernel took.
 A callback that ends by reporting an event to the stream's owner returns that event.
 */
module Stream {
  import opened Bytes

  datatype State = State(
    input: seq<Byte>, reading: bool,
    data: seq<Byte>, dataNext: seq<Byte>, partialWrite: nat, sending: bool,
    written: seq<Byte>, acked: seq<Byte>)
  {
    predicate Flushed() {
      data == [] && dataNext == []
    }

    /** What holds between any two events. */
    predicate Ok() {
      && partialWrite <= |data|
      && written == acked + data[partialWrite..] + dataNext
      && (sending <==> data != [])
      && (sending ==> partialWrite < |data|)
      && (!sending ==> partialWrite == 0)
    }

    /** The bytes handed to the kernel by the outstanding send. */
    function Unsent(): seq<Byte>
      requires partialWrite <= |data|
    {
      data[partialWrite..]
    }
  }

  datatype Event = Nothing | Error | Closed | Read | AllFlushed

  const EMPTY := State([], false, [], [], 0, false, [], [])

  function WriteStep(s: State, d: seq<Byte>): State {
    s.(dataNext := s.dataNext + d, written := s.written + d)
  }

  /** stream_flush: start sending unless nothing is left or a send is outstanding. */
  function FlushStep(s: State): State {
    if s.Flushed() || s.sending then s
    else s.(data := s.dataNext, dataNext := s.data, sending := true)
  }

  /** stream_send_callback after the kernel took `result` bytes, or none for a result of at most 0. */
  function SendStep(s: State, result: int): (State, Event)
    requires s.sending && s.partialWrite <= |s.data| && result <= |s.Unsent()|
  {
    if result <= 0 then (s.(sending := false), Error)
    else
      var taken := s.(acked := s.acked + s.Unsent()[..result]);
      if |s.data| - s.partialWrite != result then (taken.(partialWrite := s.partialWrite + result), Nothing)
      else
        var next := FlushStep(taken.(partialWrite := 0, data := [], sending := false));
        (next, if next.Flushed() then AllFlushed else Nothing)
  }

  /** stream_recv_callback: bytes, the end of the input, or an error. */
  function RecvStep(s: State, result: int, bytes: seq<Byte>): (State, Event) {
    if result == 0 then (s.(reading := false), Closed)
    else if result < 0 then (s.(reading := false), Error)
    else (s.(reading := false, input := s.input + bytes), Read)
  }

  function ReadStep(s: State): State {
    s.(reading := true)
  }

  function ConsumeStep(s: State, size: nat): State
    requires size <= |s.input|
  {
    s.(input := s.input[size..])
  }

  lemma WriteKeepsOk(s: State, d: seq<Byte>)
    requires s.Ok()
    ensures WriteStep(s, d).Ok()
  {
    assert s.acked + s.data[s.partialWrite..] + (s.dataNext + d) == s.acked + s.data[s.partialWrite..] + s.dataNext + d;
  }

  /** Flushing loses nothing, and a stream with output left is sending afterwards. */
  lemma FlushKeepsOk(s: State)
    requires s.Ok()
    ensures FlushStep(s).Ok() && (!s.Flushed() ==> FlushStep(s).sending) && FlushStep(s).Flushed() == s.Flushed()
  {
    if !s.Flushed() && !s.sending {
      assert s.data[0..] == [] && s.dataNext[0..] == s.dataNext;
      assert s.acked + [] + s.dataNext == s.acked + s.dataNext + [];
    }
  }

  /**
   Whatever part of the outstanding bytes the kernel takes, acknowledged, unsent and waiting bytes
   stay what was written, in order; the flushed event means that all of it is acknowledged.
   */
  lemma SendStepKeepsOk(s: State, result: int)
    requires s.Ok() && s.sending && 0 < result <= |s.Unsent()|
    ensures var (s', event) := SendStep(s, result);
            && s'.Ok() && s'.written == s.written
            && s'.acked == s.acked + s.Unsent()[..result]
            && (event == AllFlushed <==> s'.acked == s.written)
            && (event == Nothing <==> s'.sending) && (event == AllFlushed <==> s'.Flushed())
            && s'.input == s.input && s'.reading == s.reading
  {
    if result < |s.Unsent()| {
      PartOfSend(s, result);
    } else {
      RestOfSend(s);
    }
  }

  lemma PartOfSend(s: State, result: int)
    requires s.Ok() && s.sending && 0 < result < |s.Unsent()|
    ensures var s' := s.(acked := s.acked + s.Unsent()[..result], partialWrite := s.partialWrite + result);
            s'.Ok() && s'.acked != s.written && !s'.Flushed()
  {
    var unsent := s.Unsent();
    assert s.data[s.partialWrite + result..] == unsent[result..];
    assert unsent == unsent[..result] + unsent[result..];
  }

  /** With the last byte acknowledged the buffers are swapped and the next send begins. */
  lemma RestOfSend(s: State)
    requires s.Ok() && s.sending
    ensures var next := s.(acked := s.acked + s.Unsent(), partialWrite := 0, data := [], sending := false);
            && s.Unsent()[..|s.Unsent()|] == s.Unsent() && next.Ok()
            && FlushStep(next).Ok() && (FlushStep(next).Flushed() <==> next.acked == s.written)
            && (FlushStep(next).sending <==> !FlushStep(next).Flushed())
  {
    var next := s.(acked := s.acked + s.Unsent(), partialWrite := 0, data := [], sending := false);
    assert s.acked + s.Unsent() + next.data[0..] + s.dataNext == s.acked + s.Unsent() + s.dataNext;
    FlushKeepsOk(next);
  }

  // ---------------------------------------------------------------- whole runs of a stream

  /** What an owner and the kernel may do with a live stream. */
  datatype Operation =
    | Write(d: seq<Byte>) | Flush | Sent(count: nat)
    | Received(bytes: seq<Byte>) | StartRead | Consume(size: nat)
  {
    predicate Enabled(s: State) {
      match this
      case Sent(count) => s.sending && s.partialWrite <= |s.data| && 0 < count <= |s.Unsent()|
      case Received(bytes) => s.reading && bytes != []
      case StartRead => !s.reading
      case Consume(size) => size <= |s.input|
      case _ => true
    }

    function Apply(s: State): State
      requires Enabled(s)
    {
      match this
      case Write(d) => WriteStep(s, d)
      case Flush => FlushStep(s)
      case Sent(count) => SendStep(s, count).0
      case Received(bytes) => RecvStep(s, |bytes|, bytes).0
      case StartRead => ReadStep(s)
      case Consume(size) => ConsumeStep(s, size)
    }
  }

  ghost predicate IsRun(states: seq<State>, ops: seq<Operation>) {
    && |states| == |ops| + 1 && states[0] == EMPTY
    && forall i :: 0 <= i < |ops| ==> ops[i].Enabled(states[i]) && states[i + 1] == ops[i].Apply(states[i])
  }

  /** The bytes of an outstanding send stay where they are until the kernel has taken all of them. */
  lemma OutstandingDataStays(s: State, op: Operation)
    requires s.Ok() && s.sending && op.Enabled(s)
    ensures op.Apply(s).data == s.data || (op.Sent? && op.count == |s.Unsent()|)
  {
  }

  function AllWritten(ops: seq<Operation>): seq<Byte> {
    if ops == [] then []
    else AllWritten(ops[..|ops| - 1]) + (if ops[|ops| - 1].Write? then ops[|ops| - 1].d else [])
  }

  /** Over any run: acknowledged, unsent and waiting output are what was written, in that order. */
  lemma {:induction false} OutputConserved(states: seq<State>, ops: seq<Operation>)
    requires IsRun(states, ops)
    ensures var s := states[|ops|];
            s.Ok() && s.acked + s.Unsent() + s.dataNext == AllWritten(ops)
    decreases |ops|
  {
    if ops != [] {
      var n := |ops| - 1;
      OutputConserved(states[..n + 1], ops[..n]);
      ApplyKeepsOk(states[n], ops[n]);
    }
  }

  function AllReceived(ops: seq<Operation>): seq<Byte> {
    if ops == [] then []
    else AllReceived(ops[..|ops| - 1]) + (if ops[|ops| - 1].Received? then ops[|ops| - 1].bytes else [])
  }

  function AllConsumed(ops: seq<Operation>): nat {
    if ops == [] then 0
    else AllConsumed(ops[..|ops| - 1]) + (if ops[|ops| - 1].Consume? then ops[|ops| - 1].size else 0)
  }

  /** Over any run: the input is what was received, in order, without the bytes that were consumed. */
  lemma {:induction false} InputConserved(states: seq<State>, ops: seq<Operation>)
    requires IsRun(states, ops)
    ensures AllConsumed(ops) <= |AllReceived(ops)| && states[|ops|].input == AllReceived(ops)[AllConsumed(ops)..]
    decreases |ops|
  {
    hide Operation.Enabled, Operation.Apply;
    if ops != [] {
      var n := |ops| - 1;
      InputConserved(states[..n + 1], ops[..n]);
      InputStep(states[n], ops[n]);
      var all, k := AllReceived(ops[..n]), AllConsumed(ops[..n]);
      if ops[n].Consume? {
        assert all + [] == all && all[k..][ops[n].size..] == all[k + ops[n].size..];
      } else {
        assert ops[n].Received? ==> (all + ops[n].bytes)[k..] == all[k..] + ops[n].bytes;
        assert all + [] == all;
      }
    }
  }

  lemma InputStep(s: State, op: Operation)
    requires op.Enabled(s)
    ensures op.Consume? ==> op.size <= |s.input| && op.Apply(s).input == s.input[op.size..]
    ensures !op.Consume? ==> op.Apply(s).input == s.input + (if op.Received? then op.bytes else [])
  {
  }

  lemma ApplyKeepsOk(s: State, op: Operation)
    requires s.Ok() && op.Enabled(s)
    ensures op.Apply(s).Ok() && op.Apply(s).written == s.written + (if op.Write? then op.d else [])
  {
    match op
    case Write(d) => WriteKeepsOk(s, d);
    case Flush => FlushKeepsOk(s);
    case Sent(count) => SendStepKeepsOk(s, count);
    case _ =>
  }

  class Connection {
    var input: seq<Byte>
    var reading: bool
    var data: seq<Byte>
    var dataNext: seq<Byte>
    var partialWrite: nat
    var sending: bool
    ghost var written: seq<Byte>
    ghost var acked: seq<Byte>

    ghost function Abstract(): State
      reads this
    {
      State(input, reading, data, dataNext, partialWrite, sending, written, acked)
    }

    constructor ()
      ensures Abstract() == EMPTY
    {
      input, reading, data, dataNext, partialWrite, sending := [], false, [], [], 0, false;
      written, acked := [], [];
    }

    method Write(d: seq<Byte>)
      modifies this
      ensures Abstract() == WriteStep(old(Abstract()), d)
    {
      dataNext := dataNext + d;
      written := written + d;
    }

    method Flushed() returns (b: bool)
      ensures b == Abstract().Flushed()
    {
      b := |data| == 0 && |dataNext| == 0;
    }

    method Flush()
      modifies this
      ensures Abstract() == FlushStep(old(Abstract()))
    {
      var flushed := Flushed();
      if flushed {
        return;
      }
      if sending {
        return;
      }
      data, dataNext := dataNext, data;
      Send();
    }

    /** stream_send: the kernel now holds data[partialWrite..]. */
    method Send()
      modifies `sending
      ensures sending
    {
      sending := true;
    }

    method OnSend(result: int) returns (event: Event)
      requires sending && partialWrite <= |data| && result <= |data| - partialWrite
      modifies this
      ensures (Abstract(), event) == SendStep(old(Abstract()), result)
    {
      sending := false;
      if result <= 0 {
        return Error;
      }
      acked := acked + data[partialWrite..][..result];
      if |data| - partialWrite != result {
        partialWrite := partialWrite + result;
        Send();
        return Nothing;
      }
      partialWrite := 0;
      data := [];
      Flush();
      var flushed := Flushed();
      event := if flushed then AllFlushed else Nothing;
    }

    method OnRecv(result: int, bytes: seq<Byte>) returns (event: Event)
      modifies this
      ensures (Abstract(), event) == RecvStep(old(Abstract()), result, bytes)
      ensures !reading && input == old(input) + (if result > 0 then bytes else [])
      ensures event == if result == 0 then Closed else if result < 0 then Error else Read
    {
      reading := false;
      if result == 0 {
        return Closed;
      }
      if result < 0 {
        return Error;
      }
      input := input + bytes;
      event := Read;
    }

    method StartRead()
      requires !reading
      modifies `reading
      ensures Abstract() == ReadStep(old(Abstract()))
    {
      reading := true;
    }

    method Consume(size: nat)
      requires size <= |input|
      modifies `input
      ensures Abstract() == ConsumeStep(old(Abstract()), size)
    {
      input := input[size..];
    }
  }
}
