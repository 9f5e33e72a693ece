/**
 A run of the queue in which an element is lost and another is in two places: one producer, one
 consumer that reads up to two elements at a time, and a callback that asks for the next read.
 */
module QueueDisturbance {
  import opened Options
  import opened Queue
  import opened QueueRuns

  const E0 := Element(0, 0)
  const E1 := Element(0, 1)
  const E2 := Element(0, 2)

  function Sender(output: seq<Element>, offset: nat, queued: seq<Element>, write: Option<WriteOp>): Producer<Element> {
    Producer(true, output, offset, queued, write, [])
  }

  function Receiver(read: Option<ReadOp<Element>>, batch: Option<seq<Element>>): Consumer<Element> {
    Consumer(true, 2, read, batch, 0, false)
  }

  function At(p: Producer<Element>, c: Consumer<Element>, pipe: seq<Element>, pushed: nat,
      entered: seq<Element>): System {
    System([p], [c], pipe, [pushed], entered, [], [])
  }

  const WRITING := Some(WriteOp(1, None))
  const MOVED := Some(WriteOp(1, Some(1)))
  const IDLE := Receiver(None, None)
  const HANDING := Receiver(None, Some([E0, E1]))
  const ASKED := Receiver(Some(Waiting), Some([E0, E1]))

  const S0 := At(Sender([], 0, [], None), IDLE, [], 0, [])
  const S1 := At(Sender([E0], 0, [], WRITING), IDLE, [], 1, [])
  const S2 := At(Sender([E0], 0, [E1], WRITING), IDLE, [], 2, [])
  const S3 := At(Sender([E0], 0, [E1], MOVED), IDLE, [E0], 2, [E0])
  const S4 := At(Sender([E1], 0, [], WRITING), IDLE, [E0], 2, [E0])
  const S5 := At(Sender([E1], 0, [], MOVED), IDLE, [E0, E1], 2, [E0, E1])
  const S6 := At(Sender([E1], 0, [], MOVED), Receiver(Some(Waiting), None), [E0, E1], 2, [E0, E1])
  const S7 := At(Sender([E1], 0, [], MOVED), Receiver(Some(Filled([E0, E1])), None), [], 2, [E0, E1])
  const S8 := At(Sender([E1], 0, [], MOVED), HANDING, [], 2, [E0, E1])
  const S9 := At(Sender([E1], 0, [], MOVED), ASKED, [], 2, [E0, E1])
  const S10 := At(Sender([], 0, [], None), ASKED, [], 2, [E0, E1])
  const S11 := At(Sender([E2], 0, [], WRITING), ASKED, [], 3, [E0, E1])
  const S12 := At(Sender([E2], 0, [], MOVED), ASKED, [E2], 3, [E0, E1, E2])

  /** E0 is nowhere any more, and E2 is both in what is left of the batch and in the read. */
  const S13 := At(Sender([E2], 0, [], MOVED), Receiver(Some(Filled([E2])), Some([E2, E1])), [], 3, [E0, E1, E2])

  ghost predicate Leads(s: System, step: Step, t: System) {
    Shape(s) && Enabled(s, step) && Take(s, step) == t
  }

  lemma Starts()
    ensures S0 == Initial(1, [2])
  {
  }

  lemma PushesFirst()
    ensures Leads(S0, QueueRuns.Push(0), S1)
  {
    assert [] + [E0] == [E0] && S0.pushed[0 := 1] == [1];
  }

  lemma PushesSecond()
    ensures Leads(S1, QueueRuns.Push(0), S2)
  {
    assert [] + [E1] == [E1] && S1.pushed[0 := 2] == [2];
  }

  lemma WritesFirst()
    ensures Leads(S2, KernelWrite(0, 1), S3)
  {
  }

  lemma CompletesFirst()
    ensures Leads(S3, WriteDone(0), S4)
  {
  }

  lemma WritesSecond()
    ensures Leads(S4, KernelWrite(0, 1), S5)
  {
  }

  lemma Asks()
    ensures Leads(S5, QueueRuns.Pop(0), S6)
  {
  }

  lemma ReadsBoth()
    ensures Leads(S6, KernelRead(0, 2), S7)
  {
    assert [E0, E1][..2] == [E0, E1] && [E0, E1][2..] == [];
  }

  lemma HandsOver()
    ensures Leads(S7, ReadDone(0), S8)
  {
  }

  lemma AsksAgain()
    ensures Leads(S8, QueueRuns.Pop(0), S9)
  {
  }

  lemma CompletesSecond()
    ensures Leads(S9, WriteDone(0), S10)
  {
  }

  lemma PushesThird()
    ensures Leads(S10, QueueRuns.Push(0), S11)
  {
    assert [] + [E2] == [E2] && S10.pushed[0 := 3] == [3];
  }

  lemma WritesThird()
    ensures Leads(S11, KernelWrite(0, 1), S12)
  {
  }

  lemma Overwritten()
    ensures Leads(S12, KernelRead(0, 1), S13) && Disturbs(S12, KernelRead(0, 1))
  {
    assert [E2][..1] == [E2] && [E2][1..] == [];
    assert Fill(ASKED, [E2]).batch.value == [E2, E1];
  }

  function Steps(): seq<Step> {
    [QueueRuns.Push(0), QueueRuns.Push(0), KernelWrite(0, 1), WriteDone(0), KernelWrite(0, 1), QueueRuns.Pop(0),
     KernelRead(0, 2), ReadDone(0), QueueRuns.Pop(0), WriteDone(0), QueueRuns.Push(0), KernelWrite(0, 1),
     KernelRead(0, 1)]
  }

  function States(): seq<System> {
    [S0, S1, S2, S3, S4, S5, S6, S7, S8, S9, S10, S11, S12, S13]
  }

  lemma IsOneRun()
    ensures IsRun(States(), Steps(), 1, [2])
  {
    hide Shape, Enabled, Take;
    Starts();
    PushesFirst();
    PushesSecond();
    WritesFirst();
    CompletesFirst();
    WritesSecond();
    Asks();
    ReadsBoth();
    HandsOver();
    AsksAgain();
    CompletesSecond();
    PushesThird();
    WritesThird();
    Overwritten();
  }

  /** Nothing was disturbed before the last step. */
  lemma QuietBefore()
    ensures Undisturbed(States()[..13], Steps()[..12])
  {
    assert !Disturbs(S6, KernelRead(0, 2));
  }

  /** That is a run of the queue; its last read overwrites an element, which is nowhere any more. */
  lemma DisturbedRun()
    ensures IsRun(States(), Steps(), 1, [2]) && !Undisturbed(States(), Steps()) && !AllOnce(S13)
    ensures E0 !in S13.producers[0].Held() + S13.pipe + S13.consumers[0].Held() + S13.delivered + S13.dropped
  {
    hide Shape, Enabled, Take, Disturbs, AllOnce, Inv;
    IsOneRun();
    QuietBefore();
    Overwritten();
    assert Disturbs(States()[12], Steps()[12]);
    RunInv(States()[..13], Steps()[..12], 1, [2]);
    DisturbingReadBreaks(S12, KernelRead(0, 1));
  }
}
