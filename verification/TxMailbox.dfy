/** The hand-over from the L1 receive thread to the L1 transmit thread (wakeup_tx, L1_thread_tx): one slot,
    and the sender blocks while it is taken. Both threads wait on the same condition variable, so the
    machine below keeps the set of sleeping threads: a signal that nobody sleeps for is lost. */
module TxMailbox {
  import opened Tdd
  import opened SubframeTime

  datatype Job = Job(frameRx: int, subframeRx: int, frameTx: int, subframeTx: nat, timestampTx: int)

  // ---------------------------------------------------------------- the locked regions

  class L1ProcTx {
    var instanceCnt: int
    var frameRx: int
    var subframeRx: int
    var frameTx: int
    var subframeTx: nat
    var timestampTx: int

    /** init_eNB_proc */
    constructor ()
      ensures instanceCnt == -1
    {
      instanceCnt := -1;
      frameRx, subframeRx, frameTx, subframeTx, timestampTx := 0, 0, 0, 0, 0;
    }

    ghost predicate Represents(s: State)
      reads this
    {
      s.cnt == instanceCnt && s.fields == Job(frameRx, subframeRx, frameTx, subframeTx, timestampTx)
    }

    /** wakeup_tx under the mutex: one test of the counter, and the store when the slot is free. */
    method SendTest(duplex: Duplex, job: Job, ghost s: State) returns (stored: bool)
      requires Represents(s) && s.sender == AtTest(job)
      modifies this
      ensures Represents(Apply(duplex, s, Step.SendTest))
      ensures stored == Apply(duplex, s, Step.SendTest).sender.Outside?
      ensures stored ==> instanceCnt == 0 && frameRx == job.frameRx && subframeRx == job.subframeRx
                         && frameTx == job.frameTx && subframeTx == job.subframeTx && timestampTx == job.timestampTx
    {
      stored := false;
      if instanceCnt != 0 {
        instanceCnt := 0;
        subframeRx := job.subframeRx;
        frameRx := job.frameRx;
        subframeTx := job.subframeTx;
        frameTx := job.frameTx;
        timestampTx := job.timestampTx;
        stored := true;
      }
    }

    /** L1_thread_tx in wait_on_condition, under the mutex: one test of the counter and of oai_exit. */
    method ReceiveTest(duplex: Duplex, oaiExit: bool, ghost s: State) returns (sleep: bool, stop: bool)
      requires Represents(s) && s.receiver.RxAtTest? && s.exit == oaiExit
      ensures sleep == Apply(duplex, s, Step.ReceiveTest).receiver.RxAsleep?
      ensures stop == Apply(duplex, s, Step.ReceiveTest).receiver.Ended?
      ensures !sleep && !stop ==> instanceCnt >= 0
    {
      sleep := instanceCnt < 0 && !oaiExit;
      stop := !sleep && oaiExit;
    }

    /** L1_thread_tx under the mutex after processing: what it passes on to the fronthaul. */
    method Finish(duplex: Duplex, ghost s: State) returns (frame: int, subframe: int, timestamp: int)
      requires Represents(s) && s.receiver.Processing?
      modifies this`instanceCnt
      ensures Represents(Apply(duplex, s, Step.Finish))
      ensures OneSlotQueue(duplex, s) ==>
                var job := s.handed[|s.handed| - 1];
                job == s.receiver.seen
                && frame == job.frameTx && subframe == job.subframeTx && timestamp == job.timestampTx
    {
      subframe := subframeTx;
      frame := frameTx;
      timestamp := timestampTx;
      instanceCnt := -1;
    }
  }

  // ---------------------------------------------------------------- all interleavings

  /** The receive thread, in wakeup_tx: not in it; about to take the mutex and test the counter; asleep. */
  datatype Sender = Outside | AtTest(job: Job) | Asleep(waiting: Job)

  /** The transmit thread: about to take the mutex and test the counter; asleep; processing with the fields it
      saw when it woke; ended. */
  datatype Receiver = RxAtTest | RxAsleep | Processing(seen: Job) | Ended

  /** calls: arguments of every wakeup_tx call, in order; handed: jobs stored in the slot; done: for every
      completion the fields at its start and those read at its end. */
  datatype State = State(cnt: int, fields: Job, sender: Sender, receiver: Receiver, exit: bool,
                         calls: seq<Job>, handed: seq<Job>, done: seq<(Job, Job)>)

  datatype Step =
    | Call(job: Job)   // L1_thread calls wakeup_tx
    | SendTest         // wakeup_tx: test of the counter, under the mutex; store and signal, or sleep
    | ReceiveTest      // L1_thread_tx: test of the counter, under the mutex; go on, or sleep
    | Break            // L1_thread_tx: oai_exit was set after that test, no processing
    | Finish           // L1_thread_tx: after phy_procedures_eNB_TX, under the mutex; copy, free, signal
    | WakeSender       // a spurious wake-up
    | WakeReceiver
    | Exit             // oai_exit is set

  predicate IsUplink(duplex: Duplex, job: Job) {
    SubframeSelect(duplex, job.subframeTx) == Some(SF_UL)
  }

  /** ... which are those in uplink subframes of the standard's pattern, wherever subframe_select returns. */
  lemma UplinkByPattern(duplex: Duplex, job: Job)
    requires job.subframeTx < 10 && Supported(duplex)
    ensures IsUplink(duplex, job) <==> Pattern(duplex, job.subframeTx) == SF_UL
  {
    SelectFollowsTable(duplex, job.subframeTx);
    hide SubframeSelect, Pattern;
  }

  predicate Enabled(s: State, step: Step) {
    match step
    case Call(_) => s.sender.Outside?
    case SendTest => s.sender.AtTest?
    case ReceiveTest => s.receiver.RxAtTest?
    case Break => s.receiver.Processing? && s.exit
    case Finish => s.receiver.Processing?
    case WakeSender => s.sender.Asleep?
    case WakeReceiver => s.receiver.RxAsleep?
    case Exit => true
  }

  function Roused(sender: Sender): Sender {
    if sender.Asleep? then AtTest(sender.waiting) else sender
  }

  function RousedRx(receiver: Receiver): Receiver {
    if receiver.RxAsleep? then RxAtTest else receiver
  }

  function Apply(duplex: Duplex, s: State, step: Step): State
    requires Enabled(s, step)
  {
    match step
    case Call(job) => s.(calls := s.calls + [job], sender := if IsUplink(duplex, job) then Outside else AtTest(job))
    case SendTest =>
      if s.cnt == 0 then s.(sender := Asleep(s.sender.job))
      else s.(cnt := 0, fields := s.sender.job, handed := s.handed + [s.sender.job],
              receiver := RousedRx(s.receiver), sender := Outside)
    case ReceiveTest =>
      if s.exit then s.(receiver := Ended)
      else if s.cnt < 0 then s.(receiver := RxAsleep)
      else s.(receiver := Processing(s.fields))
    case Break => s.(receiver := Ended)
    case Finish =>
      s.(done := s.done + [(s.receiver.seen, s.fields)], cnt := -1,
         sender := Roused(s.sender), receiver := if s.exit then Ended else RxAtTest)
    case WakeSender => s.(sender := Roused(s.sender))
    case WakeReceiver => s.(receiver := RousedRx(s.receiver))
    case Exit => s.(exit := true)
  }

  const NO_JOB := Job(0, 0, 0, 0, 0)

  function Initial(): State { State(-1, NO_JOB, Outside, RxAtTest, false, [], [], []) }

  ghost predicate Possible(duplex: Duplex, s: State, steps: seq<Step>)
    decreases |steps|
  {
    steps == [] || (Enabled(s, steps[0]) && Possible(duplex, Apply(duplex, s, steps[0]), steps[1..]))
  }

  function RunSteps(duplex: Duplex, s: State, steps: seq<Step>): State
    requires Possible(duplex, s, steps)
    decreases |steps|
  {
    if steps == [] then s else RunSteps(duplex, Apply(duplex, s, steps[0]), steps[1..])
  }

  /** The calls that carry a transmission. */
  function NotUplink(duplex: Duplex, calls: seq<Job>): seq<Job> {
    if calls == [] then []
    else
      var last := calls[|calls| - 1];
      NotUplink(duplex, calls[..|calls| - 1]) + if IsUplink(duplex, last) then [] else [last]
  }

  function InCall(sender: Sender): seq<Job> {
    match sender
    case Outside => []
    case AtTest(job) => [job]
    case Asleep(job) => [job]
  }

  /** The hand-over is a one-slot queue: of all calls in order, those that are not uplink have been handed over,
      but for the one still in the call; those handed over have been completed in order, but for at most
      one, and with fields that did not change meanwhile; and the two threads never sleep together. */
  ghost predicate OneSlotQueue(duplex: Duplex, s: State) {
    && s.cnt in {-1, 0}
    && NotUplink(duplex, s.calls) == s.handed + InCall(s.sender)
    && |s.handed| == |s.done| + (s.cnt + 1)
    && (forall i | 0 <= i < |s.done| :: s.done[i] == (s.handed[i], s.handed[i]))
    && (s.cnt == 0 ==> s.fields == s.handed[|s.handed| - 1])
    && (s.receiver.Processing? ==> s.cnt == 0 && s.receiver.seen == s.fields)
    && (s.sender.Asleep? ==> s.cnt == 0 && !s.receiver.RxAsleep?)
    && (s.receiver.RxAsleep? ==> s.cnt == -1)
  }

  lemma StepKeepsQueue(duplex: Duplex, s: State, step: Step)
    requires OneSlotQueue(duplex, s) && Enabled(s, step)
    ensures OneSlotQueue(duplex, Apply(duplex, s, step))
  {
    hide NotUplink, IsUplink;
    if step.Call? {
      NotUplinkSnoc(duplex, s.calls, step.job);
    }
  }

  lemma NotUplinkSnoc(duplex: Duplex, calls: seq<Job>, job: Job)
    ensures NotUplink(duplex, calls + [job])
            == NotUplink(duplex, calls) + if IsUplink(duplex, job) then [] else [job]
  {
    assert (calls + [job])[..|calls|] == calls;
  }

  lemma {:induction false} RunKeepsQueue(duplex: Duplex, s: State, steps: seq<Step>)
    requires OneSlotQueue(duplex, s) && Possible(duplex, s, steps)
    ensures OneSlotQueue(duplex, RunSteps(duplex, s, steps))
    decreases |steps|
  {
    if steps != [] {
      hide OneSlotQueue;
      StepKeepsQueue(duplex, s, steps[0]);
      RunKeepsQueue(duplex, Apply(duplex, s, steps[0]), steps[1..]);
    }
  }

  /** Over every interleaving, spurious wake-ups and shutdown included. */
  lemma HandOver(duplex: Duplex, steps: seq<Step>)
    requires Possible(duplex, Initial(), steps)
    ensures OneSlotQueue(duplex, RunSteps(duplex, Initial(), steps))
    ensures var s := RunSteps(duplex, Initial(), steps);
            forall i | 0 <= i < |s.handed| && s.handed[i].subframeTx < 10 && Supported(duplex) ::
              Pattern(duplex, s.handed[i].subframeTx) != SF_UL
  {
    RunKeepsQueue(duplex, Initial(), steps);
    var s := RunSteps(duplex, Initial(), steps);
    NoUplink(duplex, s.calls);
    forall i | 0 <= i < |s.handed| && s.handed[i].subframeTx < 10 && Supported(duplex)
      ensures Pattern(duplex, s.handed[i].subframeTx) != SF_UL
    {
      assert s.handed[i] == NotUplink(duplex, s.calls)[i];
      hide Pattern;
      UplinkByPattern(duplex, s.handed[i]);
    }
  }

  lemma {:induction false} NoUplink(duplex: Duplex, calls: seq<Job>)
    ensures forall i | 0 <= i < |NotUplink(duplex, calls)| :: !IsUplink(duplex, NotUplink(duplex, calls)[i])
  {
    if calls != [] {
      NoUplink(duplex, calls[..|calls| - 1]);
    }
  }

  /** The steps a thread makes of its own accord: no spurious wake-up, no shutdown, no further call. */
  ghost predicate Progress(step: Step) {
    step in {SendTest, ReceiveTest, Finish}
  }

  /** No wake-up is ever lost: until shutdown, whenever a subframe is in a call or in the slot, some thread can
      step by itself. */
  lemma NeverStuck(duplex: Duplex, s: State)
    requires OneSlotQueue(duplex, s) && !s.receiver.Ended?
    requires !s.sender.Outside? || s.cnt == 0
    ensures exists step :: Progress(step) && Enabled(s, step)
  {
    if s.sender.AtTest? {
      assert Progress(SendTest) && Enabled(s, SendTest);
    } else if s.receiver.RxAtTest? {
      assert Progress(ReceiveTest) && Enabled(s, ReceiveTest);
    } else {
      assert Progress(Finish) && Enabled(s, Finish);
    }
  }

  /** How much the two threads have left to do by themselves. */
  function Work(s: State): nat {
    (match s.sender case Outside => 0 case AtTest(_) => 6 case Asleep(_) => 5)
    + (match s.receiver case RxAtTest => if s.cnt == 0 then 4 else 1 case RxAsleep => 0
       case Processing(_) => 3 case Ended => 0)
  }

  /** With no further call every step of theirs leaves less to do. */
  lemma WorkShrinks(duplex: Duplex, s: State, step: Step)
    requires OneSlotQueue(duplex, s) && Progress(step) && Enabled(s, step) && !s.exit
    ensures Work(Apply(duplex, s, step)) < Work(s)
  {
  }

  ghost predicate OwnSteps(steps: seq<Step>) {
    forall i | 0 <= i < |steps| :: Progress(steps[i])
  }

  /** ... so that they make finitely many of them, without ending and without taking on more. */
  lemma {:induction false} OwnStepsEnd(duplex: Duplex, s: State, steps: seq<Step>)
    requires OneSlotQueue(duplex, s) && !s.exit && !s.receiver.Ended? && Possible(duplex, s, steps) && OwnSteps(steps)
    ensures |steps| <= Work(s)
    ensures var e := RunSteps(duplex, s, steps);
            OneSlotQueue(duplex, e) && !e.receiver.Ended? && e.calls == s.calls
    decreases |steps|
  {
    if steps != [] {
      hide OneSlotQueue, Work;
      assert Progress(steps[0]);
      assert OwnSteps(steps[1..]) by {
        assert forall i | 0 <= i < |steps| - 1 :: steps[1..][i] == steps[i + 1];
      }
      WorkShrinks(duplex, s, steps[0]);
      StepKeepsQueue(duplex, s, steps[0]);
      OwnStepsEnd(duplex, Apply(duplex, s, steps[0]), steps[1..]);
    }
  }

  /** Neither thread can step by itself. */
  ghost predicate Quiet(s: State) {
    forall step | Progress(step) :: !Enabled(s, step)
  }

  /** The hand-over ends: before shutdown, from any reachable state, the threads by themselves make no more than
      Work(s) steps, and when they can make no more, every call that is not uplink has been handed over and
      everything handed over is done. */
  lemma HandOverEnds(duplex: Duplex, s: State, steps: seq<Step>)
    requires OneSlotQueue(duplex, s) && !s.exit && !s.receiver.Ended? && Possible(duplex, s, steps) && OwnSteps(steps)
    ensures |steps| <= Work(s)
    ensures var e := RunSteps(duplex, s, steps);
            Quiet(e) ==> NotUplink(duplex, s.calls) == e.handed && |e.done| == |e.handed|
  {
    hide Work;
    OwnStepsEnd(duplex, s, steps);
    var e := RunSteps(duplex, s, steps);
    if Quiet(e) {
      if !e.sender.Outside? || e.cnt == 0 {
        NeverStuck(duplex, e);
      }
      assert e.handed + [] == e.handed;
    }
  }

  /** Once oai_exit is set the transmit thread starts nothing more: it finishes at most what it was processing, and
      after its next test or completion it has ended. */
  lemma {:induction false} Shutdown(duplex: Duplex, s: State, steps: seq<Step>)
    requires s.exit && Possible(duplex, s, steps)
    ensures var e := RunSteps(duplex, s, steps);
            && e.exit && (e.receiver.Processing? ==> s.receiver.Processing?)
            && |e.done| + (if e.receiver.Processing? then 1 else 0)
               <= |s.done| + (if s.receiver.Processing? then 1 else 0)
            && ((exists i :: 0 <= i < |steps| && steps[i] in {ReceiveTest, Break, Finish}) ==> e.receiver.Ended?)
    decreases |steps|
  {
    if steps != [] {
      var s' := Apply(duplex, s, steps[0]);
      Shutdown(duplex, s', steps[1..]);
      if s.receiver.Ended? || steps[0] in {ReceiveTest, Break, Finish} {
        EndedStays(duplex, s', steps[1..]);
      }
      assert forall i | 1 <= i < |steps| :: steps[i] == steps[1..][i - 1];
    }
  }

  lemma {:induction false} EndedStays(duplex: Duplex, s: State, steps: seq<Step>)
    requires s.receiver.Ended? && Possible(duplex, s, steps)
    ensures RunSteps(duplex, s, steps).receiver.Ended?
    decreases |steps|
  {
    if steps != [] {
      EndedStays(duplex, Apply(duplex, s, steps[0]), steps[1..]);
    }
  }
}
