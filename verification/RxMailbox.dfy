/** The mailbox from the radio unit threads to the L1 receive thread (wakeup_rxtx, L1_thread): a counter,
    -1 idle and 0 busy, and the time fields it guards. A subframe that finds L1 busy is dropped. */
module RxMailbox {
  import opened SubframeTime

  /** The time fields of L1_proc. */
  datatype Job = Job(timestampTx: int, frameRx: int, subframeRx: int, frameTx: int, subframeTx: int)

  /** What wakeup_rxtx stores for a received subframe. */
  function JobFor(timestampRx: int, frameRx: int, ttiRx: int, ahead: int, spt: int): Job {
    Job(timestampRx + Samples(ahead, spt), frameRx, ttiRx,
        AheadFrame(frameRx, ttiRx, ahead), AheadSubframe(ttiRx, ahead))
  }

  /** A job is that of the subframe received at time t: its frame and subframe numbers, and those and the time of
      the subframe `ahead` later. */
  ghost predicate IsJobOf(job: Job, t: nat, ahead: nat, spt: int)
    requires spt > 0
  {
    var n := Index(t, spt);
    && job.frameRx == FrameAt(n) && job.subframeRx == SubframeAt(n)
    && job.timestampTx == t + ahead * spt
    && job.frameTx == FrameAt(n + ahead) && job.subframeTx == SubframeAt(n + ahead)
  }

  /** What wakeup_rxtx stores for a subframe received at non-negative time is its job, and the transmit numbers are
      the decoded ones of the transmit time. */
  lemma JobDecodes(t: nat, ahead: int, spt: int)
    requires spt > 0 && 0 <= ahead <= 10
    ensures var job := JobFor(t, FrameOf(t, spt), SubframeOf(t, spt), ahead, spt);
            && IsJobOf(job, t, ahead, spt)
            && job.frameTx == FrameOf(job.timestampTx, spt) && job.subframeTx == SubframeOf(job.timestampTx, spt)
  {
    hide FrameOf, SubframeOf, AheadFrame, AheadSubframe, FrameAt, SubframeAt, Index;
    DecodeAt(t, spt);
    AheadAt(Index(t, spt), ahead);
    LookAhead(t, spt, ahead);
  }

  // ---------------------------------------------------------------- the locked regions

  class L1Proc {
    var instanceCnt: int
    var timestampTx: int
    var frameRx: int
    var subframeRx: int
    var frameTx: int
    var subframeTx: int

    /** init_eNB_proc */
    constructor ()
      ensures instanceCnt == -1
    {
      instanceCnt := -1;
      timestampTx, frameRx, subframeRx, frameTx, subframeTx := 0, 0, 0, 0, 0;
    }

    ghost function Fields(): Job
      reads this
    {
      Job(timestampTx, frameRx, subframeRx, frameTx, subframeTx)
    }

    ghost predicate Represents(s: State)
      reads this
    {
      s.cnt == instanceCnt && s.fields == Fields()
    }

    /** wakeup_rxtx between lock and unlock. */
    method WakeupRxtx(ruTimestampRx: int, ruFrameRx: int, ruTtiRx: int, ahead: int, spt: int, ghost s: State)
      returns (accepted: bool)
      requires Represents(s)
      modifies this
      ensures Represents(Apply(s, Call(JobFor(ruTimestampRx, ruFrameRx, ruTtiRx, ahead, spt))))
      ensures accepted == (old(instanceCnt) != 0)
      ensures instanceCnt == if accepted then old(instanceCnt) + 1 else 0
      ensures accepted ==>
                && frameRx == ruFrameRx && subframeRx == ruTtiRx && timestampTx == ruTimestampRx + ahead * spt
                && frameTx == AheadFrame(ruFrameRx, ruTtiRx, ahead) && subframeTx == AheadSubframe(ruTtiRx, ahead)
      ensures !accepted ==> Fields() == old(Fields())
    {
      if instanceCnt == 0 {
        return false;
      }
      instanceCnt := instanceCnt + 1;
      timestampTx := ruTimestampRx + Samples(ahead, spt);
      frameRx := ruFrameRx;
      subframeRx := ruTtiRx;
      frameTx := if subframeRx > 9 - ahead then Low10(frameRx + 1) else frameRx;
      subframeTx := TruncMod(subframeRx + ahead, 10);
      return true;
    }

    /** L1_thread in wait_on_condition: one look at the counter and at oai_exit. It sleeps, or the wait ends; then
        the thread goes on to process, or leaves its loop. */
    method MayStart(oaiExit: bool, ghost s: State) returns (sleep: bool, stop: bool)
      requires Represents(s) && s.receiver.Waiting?
      ensures sleep == (!oaiExit && !Enabled(s, Start))
      ensures stop == oaiExit
      ensures stop ==> Enabled(s, Break)
      ensures !sleep && !stop ==> Enabled(s, Start)
    {
      sleep := instanceCnt < 0 && !oaiExit;
      stop := !sleep && oaiExit;
    }

    /** release_thread */
    method ReleaseThread(ghost s: State)
      requires Represents(s) && s.receiver.Processing?
      modifies this`instanceCnt
      ensures Represents(Apply(s, Release))
    {
      instanceCnt := -1;
    }
  }

  // ---------------------------------------------------------------- all interleavings

  /** The receive thread: waiting, processing with the fields it saw when it started, or ended. */
  datatype Receiver = Waiting | Processing(seen: Job) | Ended

  /** log: every call of wakeup_rxtx with its job and whether it was accepted; done: for every release, the
      fields at its start and at its end. */
  datatype State = State(cnt: int, fields: Job, receiver: Receiver, log: seq<(Job, bool)>, done: seq<(Job, Job)>)

  datatype Step =
    | Call(job: Job)   // some radio unit thread calls wakeup_rxtx
    | Start            // wait_on_condition returns with the counter at or above 0
    | Release          // rxtx has returned, release_thread
    | Break            // oai_exit, or rxtx failed: the thread leaves its loop without release

  predicate Enabled(s: State, step: Step) {
    match step
    case Call(_) => true
    case Start => s.receiver.Waiting? && s.cnt >= 0
    case Release => s.receiver.Processing?
    case Break => !s.receiver.Ended?
  }

  function Apply(s: State, step: Step): State
    requires Enabled(s, step)
  {
    match step
    case Call(job) =>
      if s.cnt == 0 then s.(log := s.log + [(job, false)])
      else s.(cnt := s.cnt + 1, fields := job, log := s.log + [(job, true)])
    case Start => s.(receiver := Processing(s.fields))
    case Release => s.(cnt := -1, receiver := Waiting, done := s.done + [(s.receiver.seen, s.fields)])
    case Break => s.(receiver := Ended)
  }

  const NO_JOB := Job(0, 0, 0, 0, 0)

  function Initial(): State { State(-1, NO_JOB, Waiting, [], []) }

  ghost predicate Possible(s: State, steps: seq<Step>)
    decreases |steps|
  {
    steps == [] || (Enabled(s, steps[0]) && Possible(Apply(s, steps[0]), steps[1..]))
  }

  function RunSteps(s: State, steps: seq<Step>): State
    requires Possible(s, steps)
    decreases |steps|
  {
    if steps == [] then s else RunSteps(Apply(s, steps[0]), steps[1..])
  }

  /** The jobs accepted, in order, and the number dropped. */
  function Accepted(log: seq<(Job, bool)>): seq<Job> {
    if log == [] then []
    else Accepted(log[..|log| - 1]) + if log[|log| - 1].1 then [log[|log| - 1].0] else []
  }

  function Dropped(log: seq<(Job, bool)>): nat {
    if log == [] then 0
    else Dropped(log[..|log| - 1]) + if log[|log| - 1].1 then 0 else 1
  }

  /** Work is conserved: the counter is -1 or 0; calls are processed, dropped or pending; what is accepted is
      processed once and in order, from fields that stay the same from start to release. */
  ghost predicate Conserved(s: State) {
    var accepted := Accepted(s.log);
    && s.cnt in {-1, 0}
    && |accepted| == |s.done| + (s.cnt + 1)
    && |s.log| == |s.done| + Dropped(s.log) + (s.cnt + 1)
    && (forall i | 0 <= i < |s.done| :: s.done[i] == (accepted[i], accepted[i]))
    && (s.cnt == 0 ==> s.fields == accepted[|accepted| - 1])
    && (s.receiver.Processing? ==> s.cnt == 0 && s.receiver.seen == s.fields)
  }

  lemma StepConserves(s: State, step: Step)
    requires Conserved(s) && Enabled(s, step)
    ensures Conserved(Apply(s, step))
  {
    var s' := Apply(s, step);
    if step.Call? {
      assert s'.log[..|s'.log| - 1] == s.log;
    }
  }

  lemma {:induction false} RunConserves(s: State, steps: seq<Step>)
    requires Conserved(s) && Possible(s, steps)
    ensures Conserved(RunSteps(s, steps))
    decreases |steps|
  {
    if steps != [] {
      hide Conserved;
      StepConserves(s, steps[0]);
      RunConserves(Apply(s, steps[0]), steps[1..]);
    }
  }

  /** Over every interleaving of calls from any number of threads with the receive thread. */
  lemma MailboxConserves(steps: seq<Step>)
    requires Possible(Initial(), steps)
    ensures Conserved(RunSteps(Initial(), steps))
  {
    RunConserves(Initial(), steps);
  }

  /** A call is dropped exactly while an accepted subframe is still unprocessed. */
  lemma DropsExactly(s: State, job: Job)
    requires Conserved(s)
    ensures Dropped(Apply(s, Call(job)).log) == Dropped(s.log) + (if |Accepted(s.log)| > |s.done| then 1 else 0)
  {
    var s' := Apply(s, Call(job));
    assert s'.log[..|s'.log| - 1] == s.log;
  }

  // ---------------------------------------------------------------- what is processed

  /** Which calls were accepted. */
  function AcceptedAt(log: seq<(Job, bool)>): seq<nat> {
    if log == [] then []
    else
      var k := |log| - 1;
      AcceptedAt(log[..k]) + if log[k].1 then [k] else []
  }

  lemma {:induction false} AcceptedAre(log: seq<(Job, bool)>)
    ensures |AcceptedAt(log)| == |Accepted(log)|
    ensures forall i | 0 <= i < |Accepted(log)| ::
              AcceptedAt(log)[i] < |log| && Accepted(log)[i] == log[AcceptedAt(log)[i]].0
    ensures forall i, j | 0 <= i < j < |AcceptedAt(log)| :: AcceptedAt(log)[i] < AcceptedAt(log)[j]
  {
    if log != [] {
      AcceptedAre(log[..|log| - 1]);
    }
  }

  /** The calls are made with the fields of radio units that received subframes at these times. */
  ghost predicate CallsFor(log: seq<(Job, bool)>, times: seq<nat>, ahead: nat, spt: int)
    requires spt > 0
  {
    |log| == |times|
    && forall i | 0 <= i < |log| ::
         log[i].0 == JobFor(times[i], FrameOf(times[i], spt), SubframeOf(times[i], spt), ahead, spt)
  }

  /** What L1 processes, over every interleaving: of the subframes received, one after the other and each at most
      once, with their own frame and subframe numbers and transmit times, from start to release. */
  lemma ProcessedAreReceived(steps: seq<Step>, times: seq<nat>, ahead: nat, spt: int)
    requires spt > 0 && ahead <= 10 && Possible(Initial(), steps)
    requires CallsFor(RunSteps(Initial(), steps).log, times, ahead, spt)
    ensures var s := RunSteps(Initial(), steps);
            var at := AcceptedAt(s.log);
            && |s.done| <= |at| <= |times|
            && (forall i | 0 <= i < |at| :: at[i] < |times|)
            && (forall i, j | 0 <= i < j < |at| :: at[i] < at[j])
            && (forall i | 0 <= i < |s.done| ::
                  IsJobOf(s.done[i].0, times[at[i]], ahead, spt) && s.done[i].1 == s.done[i].0)
  {
    var s := RunSteps(Initial(), steps);
    hide FrameOf, SubframeOf, JobFor, IsJobOf;
    MailboxConserves(steps);
    AcceptedAre(s.log);
    AtMost(s.log);
    var at := AcceptedAt(s.log);
    forall i | 0 <= i < |s.done| ensures IsJobOf(s.done[i].0, times[at[i]], ahead, spt) {
      JobDecodes(times[at[i]], ahead, spt);
    }
  }

  lemma {:induction false} AtMost(log: seq<(Job, bool)>)
    ensures |AcceptedAt(log)| <= |log|
  {
    if log != [] {
      AtMost(log[..|log| - 1]);
    }
  }
}
