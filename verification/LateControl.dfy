/** The fail-safe for late commands: late_control is written by the receiving thread (rx_rf) and by
    the transmitting one (tx_rf) without a lock. The machine below takes every single read and write
    of it as one step, so its runs are all interleavings. */
module LateControl {
  import opened SubframeTime
  import opened Burst

  datatype Late = STATE_BURST_NORMAL | STATE_BURST_TERMINATE | STATE_BURST_STOP_1 | STATE_BURST_STOP_2
                | STATE_BURST_RESTART

  /** What the switch in tx_rf does in state late: the flag to send, if any, and the next state. */
  function Switch(late: Late, plain: Flag): (Option<Flag>, Late) {
    match late
    case STATE_BURST_NORMAL => (Some(plain), STATE_BURST_NORMAL)
    case STATE_BURST_TERMINATE => (Some(TX_BURST_END_NO_TIME_SPEC), STATE_BURST_STOP_1)
    case STATE_BURST_STOP_1 => (None, STATE_BURST_STOP_2)
    case STATE_BURST_STOP_2 => (None, STATE_BURST_RESTART)
    case STATE_BURST_RESTART => (Some(TX_BURST_START), STATE_BURST_NORMAL)
  }

  // ---------------------------------------------------------------- whole calls, nothing in between

  /** One tx_rf call whose write is complete; plain is None in an uplink subframe. */
  function Call(late: Late, plain: Option<Flag>): (Option<Flag>, Late) {
    if plain.None? then (None, late) else Switch(late, plain.value)
  }

  function CallsLate(late: Late, plains: seq<Option<Flag>>): Late {
    if plains == [] then late
    else Call(CallsLate(late, plains[..|plains| - 1]), plains[|plains| - 1]).1
  }

  function CallsSent(late: Late, plains: seq<Option<Flag>>): seq<Flag> {
    if plains == [] then []
    else
      var before := plains[..|plains| - 1];
      var out := Call(CallsLate(late, before), plains[|plains| - 1]).0;
      CallsSent(late, before) + if out.Some? then [out.value] else []
  }

  /** Downlink and special subframes among the calls. */
  function Sending(plains: seq<Option<Flag>>): nat {
    if plains == [] then 0
    else Sending(plains[..|plains| - 1]) + if plains[|plains| - 1].Some? then 1 else 0
  }

  const PHASES: seq<Late> := [STATE_BURST_TERMINATE, STATE_BURST_STOP_1, STATE_BURST_STOP_2,
                              STATE_BURST_RESTART, STATE_BURST_NORMAL]

  /** Without a new short read recovery takes exactly four downlink or special calls, whatever uplink
      calls come between: the first ends the burst, the next two send nothing, the fourth
      starts a new one. */
  lemma {:induction false} RecoveryTakesFour(plains: seq<Option<Flag>>)
    requires Sending(plains) <= 4
    ensures CallsLate(STATE_BURST_TERMINATE, plains) == PHASES[Sending(plains)]
    ensures CallsSent(STATE_BURST_TERMINATE, plains) ==
              (if Sending(plains) >= 1 then [TX_BURST_END_NO_TIME_SPEC] else [])
              + (if Sending(plains) == 4 then [TX_BURST_START] else [])
  {
    if plains != [] {
      RecoveryTakesFour(plains[..|plains| - 1]);
    }
  }

  /** An END_NO_TIME_SPEC is followed by another or by a START. */
  ghost predicate Recovers(sent: seq<Flag>) {
    forall i | 0 <= i < |sent| - 1 && sent[i] == TX_BURST_END_NO_TIME_SPEC ::
      sent[i + 1] in {TX_BURST_END_NO_TIME_SPEC, TX_BURST_START}
  }

  /** ... and while the last flag is one, late_control is not at rest. */
  ghost predicate Recovering(late: Late, sent: seq<Flag>) {
    Recovers(sent)
    && (sent != [] && sent[|sent| - 1] == TX_BURST_END_NO_TIME_SPEC ==> late != STATE_BURST_NORMAL)
  }

  lemma CallRecovers(late: Late, plain: Option<Flag>, sent: seq<Flag>)
    requires Recovering(late, sent) && plain != Some(TX_BURST_END_NO_TIME_SPEC)
    ensures var out := Call(late, plain);
            Recovering(out.1, sent + if out.0.Some? then [out.0.value] else [])
  {
    var out := Call(late, plain);
    if out.0.None? {
      assert sent + [] == sent;
    }
  }

  // ---------------------------------------------------------------- every interleaving

  /** Where the transmitting thread is inside tx_rf. */
  datatype TxPoint =
    | Outside
    | InSwitch(plain: Flag)                      // late_control was found different from NORMAL
    | Chosen(choice: Option<Flag>, next: Late)   // case taken, late_control not yet assigned
    | ToWrite(flag: Flag)                        // about to call trx_write_func
    | Written(short: bool)                       // about to test for a short write
    | ShortFound                                 // about to assign TERMINATE

  datatype State = State(late: Late, tx: TxPoint, sent: seq<Flag>)

  datatype Step =
    | ShortRead                 // rx_rf: fewer samples than asked for
    | Enter(plain: Flag)        // tx_rf: the test late_control != NORMAL, subframe not uplink
    | TakeCase                  // tx_rf: the switch
    | Assign                    // tx_rf: late_control = next state
    | DoWrite(short: bool)      // tx_rf: trx_write_func, complete or short
    | TestShort                 // tx_rf: the test of short and late_control == NORMAL
    | SetTerminate              // tx_rf: late_control = TERMINATE

  predicate Enabled(s: State, step: Step) {
    match step
    case ShortRead => true
    case Enter(_) => s.tx.Outside?
    case TakeCase => s.tx.InSwitch?
    case Assign => s.tx.Chosen?
    case DoWrite(_) => s.tx.ToWrite?
    case TestShort => s.tx.Written?
    case SetTerminate => s.tx.ShortFound?
  }

  function Apply(s: State, step: Step): State
    requires Enabled(s, step)
  {
    match step
    case ShortRead => s.(late := STATE_BURST_TERMINATE)
    case Enter(plain) => s.(tx := if s.late == STATE_BURST_NORMAL then ToWrite(plain) else InSwitch(plain))
    case TakeCase =>
      if s.late == STATE_BURST_NORMAL then s.(tx := ToWrite(s.tx.plain))
      else s.(tx := Chosen(Switch(s.late, s.tx.plain).0, Switch(s.late, s.tx.plain).1))
    case Assign => s.(late := s.tx.next, tx := if s.tx.choice.Some? then ToWrite(s.tx.choice.value) else Outside)
    case DoWrite(short) => s.(sent := s.sent + [s.tx.flag], tx := Written(short))
    case TestShort => s.(tx := if s.tx.short && s.late == STATE_BURST_NORMAL then ShortFound else Outside)
    case SetTerminate => s.(late := STATE_BURST_TERMINATE, tx := Outside)
  }

  ghost predicate Possible(s: State, steps: seq<Step>)
    decreases |steps|
  {
    steps == [] || (Enabled(s, steps[0]) && Possible(Apply(s, steps[0]), steps[1..]))
  }

  function RunSteps(s: State, steps: seq<Step>): State
    requires Possible(s, steps)
    decreases |steps|
  {
    if steps == [] then s else RunSteps(Apply(s, steps[0]), steps[1..])
  }

  /** The flags tx_rf computes before late control intervenes. */
  ghost predicate PlainSteps(steps: seq<Step>) {
    forall i | 0 <= i < |steps| && steps[i].Enter? ::
      steps[i].plain in {TX_BURST_MIDDLE, TX_BURST_START, TX_BURST_END}
  }

  ghost predicate Terminated(s: State) {
    s.sent != [] && s.sent[|s.sent| - 1] == TX_BURST_END_NO_TIME_SPEC
  }

  /** A call that nothing interrupts, with a complete write, takes these steps and does what Call says. */
  function CallPath(late: Late, plain: Flag): seq<Step> {
    if late == STATE_BURST_NORMAL then [Enter(plain), DoWrite(false), TestShort]
    else [Enter(plain), TakeCase, Assign] + if Switch(late, plain).0.Some? then [DoWrite(false), TestShort] else []
  }

  lemma UninterruptedCall(s: State, plain: Flag)
    requires s.tx.Outside?
    ensures Possible(s, CallPath(s.late, plain))
    ensures var out := Call(s.late, Some(plain));
            RunSteps(s, CallPath(s.late, plain))
            == State(out.1, Outside, s.sent + if out.0.Some? then [out.0.value] else [])
  {
    var path := CallPath(s.late, plain);
    var s1 := Apply(s, path[0]);
    var s2 := Apply(s1, path[1]);
    var s3 := Apply(s2, path[2]);
    var rest := path[3..];
    assert path[1..][1..] == path[2..] && path[2..][1..] == rest;
    if rest == [] {
      assert Possible(s3, rest) && RunSteps(s3, rest) == s3;
    } else {
      var s4 := Apply(s3, rest[0]);
      var s5 := Apply(s4, rest[1]);
      assert rest[1..][1..] == [];
      assert Possible(s5, []) && Possible(s4, rest[1..]) && Possible(s3, rest);
      assert RunSteps(s4, rest[1..]) == s5 && RunSteps(s3, rest) == s5;
    }
    assert Possible(s2, path[2..]) && Possible(s1, path[1..]);
    assert RunSteps(s2, path[2..]) == RunSteps(s3, rest) && RunSteps(s1, path[1..]) == RunSteps(s2, path[2..]);
  }

  lemma {:induction false} StepsInTurn(s: State, a: seq<Step>, b: seq<Step>)
    requires Possible(s, a) && Possible(RunSteps(s, a), b)
    ensures Possible(s, a + b) && RunSteps(s, a + b) == RunSteps(RunSteps(s, a), b)
    decreases |a|
  {
    if a == [] {
      assert a + b == b;
    } else {
      assert (a + b)[1..] == a[1..] + b;
      StepsInTurn(Apply(s, a[0]), a[1..], b);
    }
  }

  /** The steps of calls that nothing interrupts, with complete writes. */
  function CallPaths(late: Late, plains: seq<Flag>): seq<Step> {
    if plains == [] then []
    else
      var before := plains[..|plains| - 1];
      CallPaths(late, before) + CallPath(CallsLate(late, Sendings(before)), plains[|plains| - 1])
  }

  /** Calls in downlink and special subframes. */
  function Sendings(plains: seq<Flag>): seq<Option<Flag>> {
    if plains == [] then [] else Sendings(plains[..|plains| - 1]) + [Some(plains[|plains| - 1])]
  }

  lemma {:induction false} UninterruptedCalls(s: State, plains: seq<Flag>)
    requires s.tx.Outside?
    ensures Possible(s, CallPaths(s.late, plains))
    ensures RunSteps(s, CallPaths(s.late, plains))
            == State(CallsLate(s.late, Sendings(plains)), Outside, s.sent + CallsSent(s.late, Sendings(plains)))
  {
    if plains == [] {
      assert s.sent + [] == s.sent;
    } else {
      hide *;
      var before, last := plains[..|plains| - 1], plains[|plains| - 1];
      UninterruptedCalls(s, before);
      var mid := RunSteps(s, CallPaths(s.late, before));
      UninterruptedCall(mid, last);
      StepsInTurn(s, CallPaths(s.late, before), CallPath(mid.late, last));
      LastCall(s.late, plains, s.sent);
    }
  }

  lemma LastCall(late: Late, plains: seq<Flag>, sent: seq<Flag>)
    requires plains != []
    ensures var before, last := plains[..|plains| - 1], plains[|plains| - 1];
            var mid := CallsLate(late, Sendings(before));
            var out := Call(mid, Some(last));
            && CallPaths(late, plains) == CallPaths(late, before) + CallPath(mid, last)
            && CallsLate(late, Sendings(plains)) == out.1
            && sent + CallsSent(late, Sendings(plains))
               == sent + CallsSent(late, Sendings(before)) + if out.0.Some? then [out.0.value] else []
  {
    hide Call, CallPath;
    var before, all := plains[..|plains| - 1], Sendings(plains);
    assert all[..|all| - 1] == Sendings(before) && all[|all| - 1] == Some(plains[|plains| - 1]);
  }

  lemma {:induction false} LengthOf(plains: seq<Flag>)
    ensures |Sendings(plains)| == |plains| && Sending(Sendings(plains)) == |plains|
  {
    if plains != [] {
      LengthOf(plains[..|plains| - 1]);
      assert Sendings(plains)[..|plains| - 1] == Sendings(plains[..|plains| - 1]);
    }
  }

  /** What recovery sends in its first calls: END_NO_TIME_SPEC, nothing, nothing, START. */
  function RecoverySends(calls: nat): seq<Flag> {
    (if calls >= 1 then [TX_BURST_END_NO_TIME_SPEC] else []) + (if calls >= 4 then [TX_BURST_START] else [])
  }

  /** From any state outside tx_rf, a short read followed by calls that nothing interrupts starts recovery, whatever
      late_control was. */
  lemma ShortReadRecovers(s: State, plains: seq<Flag>)
    requires s.tx.Outside? && |plains| <= 4
    ensures var steps := [ShortRead] + CallPaths(STATE_BURST_TERMINATE, plains);
            && Possible(s, steps)
            && RunSteps(s, steps) == State(PHASES[|plains|], Outside, s.sent + RecoverySends(|plains|))
  {
    var s' := s.(late := STATE_BURST_TERMINATE);
    OneStep(s, ShortRead);
    RecoveryFollows(s, s', [ShortRead], plains);
  }

  /** A short write with late_control at rest does the same, after its own flag. */
  lemma ShortWriteRecovers(s: State, plain: Flag, plains: seq<Flag>)
    requires s.tx.Outside? && s.late == STATE_BURST_NORMAL && |plains| <= 4
    ensures var steps := [Enter(plain), DoWrite(true), TestShort, SetTerminate]
                         + CallPaths(STATE_BURST_TERMINATE, plains);
            && Possible(s, steps)
            && RunSteps(s, steps) == State(PHASES[|plains|], Outside, s.sent + [plain] + RecoverySends(|plains|))
  {
    var path := [Enter(plain), DoWrite(true), TestShort, SetTerminate];
    var s1 := Apply(s, path[0]);
    var s2 := Apply(s1, path[1]);
    var s3 := Apply(s2, path[2]);
    var s4 := Apply(s3, path[3]);
    OneStep(s3, path[3]);
    OneStep(s2, path[2]);
    OneStep(s1, path[1]);
    OneStep(s, path[0]);
    StepsInTurn(s2, [path[2]], [path[3]]);
    StepsInTurn(s1, [path[1]], [path[2]] + [path[3]]);
    StepsInTurn(s, [path[0]], [path[1]] + ([path[2]] + [path[3]]));
    assert path == [path[0]] + ([path[1]] + ([path[2]] + [path[3]]));
    RecoveryFollows(s, s4, path, plains);
  }

  lemma OneStep(s: State, step: Step)
    requires Enabled(s, step)
    ensures Possible(s, [step]) && RunSteps(s, [step]) == Apply(s, step)
  {
    var steps := [step];
    assert steps[1..] == [];
    assert Possible(Apply(s, step), []);
  }

  lemma RecoveryFollows(s: State, s': State, path: seq<Step>, plains: seq<Flag>)
    requires Possible(s, path) && RunSteps(s, path) == s'
    requires s'.tx.Outside? && s'.late == STATE_BURST_TERMINATE && |plains| <= 4
    ensures var steps := path + CallPaths(STATE_BURST_TERMINATE, plains);
            && Possible(s, steps)
            && RunSteps(s, steps) == State(PHASES[|plains|], Outside, s'.sent + RecoverySends(|plains|))
  {
    hide CallPaths, CallsLate, CallsSent, Sendings, Sending;
    UninterruptedCalls(s', plains);
    StepsInTurn(s, path, CallPaths(STATE_BURST_TERMINATE, plains));
    LengthOf(plains);
    RecoveryTakesFour(Sendings(plains));
  }

  /** What every step keeps: while the last write ended the burst, late_control stays away from NORMAL
      until the START that leaves recovery is on its way. */
  ghost predicate Inv(s: State) {
    && Recovers(s.sent)
    && (Terminated(s) ==>
        match s.tx
        case Outside => s.late != STATE_BURST_NORMAL
        case InSwitch(_) => s.late != STATE_BURST_NORMAL
        case Chosen(choice, next) =>
          s.late != STATE_BURST_NORMAL
          && (choice.Some? ==> choice.value in {TX_BURST_END_NO_TIME_SPEC, TX_BURST_START})
          && (next == STATE_BURST_NORMAL ==> choice == Some(TX_BURST_START))
        case ToWrite(flag) =>
          flag == TX_BURST_START || (flag == TX_BURST_END_NO_TIME_SPEC && s.late != STATE_BURST_NORMAL)
        case Written(_) => s.late != STATE_BURST_NORMAL
        case ShortFound => false)
    && (s.tx.Chosen? && s.tx.choice == Some(TX_BURST_END_NO_TIME_SPEC) ==> s.tx.next != STATE_BURST_NORMAL)
    && (s.tx == ToWrite(TX_BURST_END_NO_TIME_SPEC) ==> s.late != STATE_BURST_NORMAL)
  }

  lemma StepKeepsInv(s: State, step: Step)
    requires Inv(s) && Enabled(s, step)
    requires step.Enter? ==> step.plain in {TX_BURST_MIDDLE, TX_BURST_START, TX_BURST_END}
    requires s.tx.InSwitch? ==> s.tx.plain != TX_BURST_END_NO_TIME_SPEC
    ensures Inv(Apply(s, step))
    ensures Apply(s, step).tx.InSwitch? ==> Apply(s, step).tx.plain != TX_BURST_END_NO_TIME_SPEC
  {
  }

  lemma {:induction false} RunKeepsInv(s: State, steps: seq<Step>)
    requires Inv(s) && Possible(s, steps) && PlainSteps(steps)
    requires s.tx.InSwitch? ==> s.tx.plain != TX_BURST_END_NO_TIME_SPEC
    ensures Inv(RunSteps(s, steps))
    decreases |steps|
  {
    if steps != [] {
      hide Inv;
      StepKeepsInv(s, steps[0]);
      forall i | 0 <= i < |steps[1..]| && steps[1..][i].Enter?
        ensures steps[1..][i].plain in {TX_BURST_MIDDLE, TX_BURST_START, TX_BURST_END}
      {
        assert steps[1..][i] == steps[i + 1];
      }
      RunKeepsInv(Apply(s, steps[0]), steps[1..]);
    }
  }

  /** Over every interleaving of short reads with the steps of tx_rf: whatever is written after an
      END_NO_TIME_SPEC is a START, or ends once more. */
  lemma NextWriteIsStart(steps: seq<Step>)
    requires var s := State(STATE_BURST_NORMAL, Outside, []); Possible(s, steps)
    requires PlainSteps(steps)
    ensures Recovers(RunSteps(State(STATE_BURST_NORMAL, Outside, []), steps).sent)
  {
    RunKeepsInv(State(STATE_BURST_NORMAL, Outside, []), steps);
  }
}
