/** Counting of X2 handovers in an eNB log (AnalyzeLogFile_eNB): a state machine over the lines, in the message
    order of section 10.1.2.1 of 3GPP TS 36.300. A line may match several of the patterns; the tests are
    made in a fixed order, so one line can move the machine several states on. */
module X2Handover {

  /** Which patterns a line matches. */
  datatype Line = Line(handoverReq: bool, reqAck: bool, recfgComplete: bool, pathSwitch: bool,
                       pathSwitchAck: bool, contextRelease: bool)

  datatype HandoverState = IDLE | TARGET_RECEIVES_REQ | TARGET_RRC_RECFG_COMPLETE | TARGET_SENDS_SWITCH_REQ
                         | SOURCE_RECEIVES_REQ_ACK

  datatype Tally = Tally(state: HandoverState, inNb: nat, outNb: nat)

  // ---------------------------------------------------------------- the five tests made on a line

  function Test(s: Tally, line: Line, which: nat): Tally {
    match which
    case 0 =>
      if s.state != IDLE then s
      else if line.reqAck then s.(state := SOURCE_RECEIVES_REQ_ACK)
      else if line.handoverReq then s.(state := TARGET_RECEIVES_REQ) else s
    case 1 => if s.state == TARGET_RECEIVES_REQ && line.recfgComplete then s.(state := TARGET_RRC_RECFG_COMPLETE) else s
    case 2 =>
      if s.state == TARGET_RRC_RECFG_COMPLETE && line.pathSwitch then s.(state := TARGET_SENDS_SWITCH_REQ) else s
    case 3 =>
      if s.state == TARGET_SENDS_SWITCH_REQ && line.pathSwitchAck then s.(state := IDLE, inNb := s.inNb + 1) else s
    case _ =>
      if s.state == SOURCE_RECEIVES_REQ_ACK && line.contextRelease then s.(state := IDLE, outNb := s.outNb + 1) else s
  }

  /** The tally after t tests: five for each line. */
  function After(lines: seq<Line>, t: nat): Tally
    requires t <= 5 * |lines|
  {
    if t == 0 then Tally(IDLE, 0, 0) else Test(After(lines, t - 1), lines[(t - 1) / 5], (t - 1) % 5)
  }

  function Total(lines: seq<Line>): Tally { After(lines, 5 * |lines|) }

  /** The loop of AnalyzeLogFile_eNB. */
  method Analyze(lines: seq<Line>) returns (inNb: nat, outNb: nat)
    ensures inNb == Total(lines).inNb && outNb == Total(lines).outNb
    ensures exists procs :: Explains(procs, lines) && Ins(procs) == inNb && Outs(procs) == outNb
  {
    var state := IDLE;
    inNb, outNb := 0, 0;
    for i := 0 to |lines|
      invariant Tally(state, inNb, outNb) == After(lines, 5 * i)
    {
      var line := lines[i];
      FiveTests(lines, i);
      if state == IDLE {
        if line.handoverReq {
          state := TARGET_RECEIVES_REQ;
        }
        if line.reqAck {
          state := SOURCE_RECEIVES_REQ_ACK;
        }
      }
      if state == TARGET_RECEIVES_REQ {
        if line.recfgComplete {
          state := TARGET_RRC_RECFG_COMPLETE;
        }
      }
      if state == TARGET_RRC_RECFG_COMPLETE {
        if line.pathSwitch {
          state := TARGET_SENDS_SWITCH_REQ;
        }
      }
      if state == TARGET_SENDS_SWITCH_REQ {
        if line.pathSwitchAck {
          state := IDLE;
          inNb := inNb + 1;
        }
      }
      if state == SOURCE_RECEIVES_REQ_ACK {
        if line.contextRelease {
          state := IDLE;
          outNb := outNb + 1;
        }
      }
    }
    Counted(lines);
  }

  lemma FiveTests(lines: seq<Line>, i: nat)
    requires i < |lines|
    ensures var l, s := lines[i], After(lines, 5 * i);
            After(lines, 5 * i + 5) == Test(Test(Test(Test(Test(s, l, 0), l, 1), l, 2), l, 3), l, 4)
  {
    assert (5 * i + 4) / 5 == i && (5 * i + 3) / 5 == i;
    assert (5 * i + 2) / 5 == i && (5 * i + 1) / 5 == i && (5 * i) / 5 == i;
    var l := lines[i];
    assert After(lines, 5 * i + 1) == Test(After(lines, 5 * i), l, 0);
    assert After(lines, 5 * i + 2) == Test(After(lines, 5 * i + 1), l, 1);
    assert After(lines, 5 * i + 3) == Test(After(lines, 5 * i + 2), l, 2);
    assert After(lines, 5 * i + 4) == Test(After(lines, 5 * i + 3), l, 3);
    assert After(lines, 5 * i + 5) == Test(After(lines, 5 * i + 4), l, 4);
  }

  // ---------------------------------------------------------------- what the counters count

  /** A completed handover, by the indices of the lines with its messages. */
  datatype Procedure =
    | In(req: nat, recfg: nat, switch: nat, ack: nat)   // as target
    | Out(reqAck: nat, release: nat)                    // as source

  function Begin(p: Procedure): nat { if p.In? then p.req else p.reqAck }

  function End(p: Procedure): nat { if p.In? then p.ack else p.release }

  ghost predicate IsProcedure(p: Procedure, lines: seq<Line>) {
    match p
    case In(r, c, w, a) =>
      r <= c <= w <= a < |lines| && lines[r].handoverReq && lines[c].recfgComplete
      && lines[w].pathSwitch && lines[a].pathSwitchAck
    case Out(a, c) => a <= c < |lines| && lines[a].reqAck && lines[c].contextRelease
  }

  /** Completed procedures of the log, one after the other on disjoint lines. */
  ghost predicate Explains(procs: seq<Procedure>, lines: seq<Line>) {
    && (forall i | 0 <= i < |procs| :: IsProcedure(procs[i], lines))
    && (forall i | 0 <= i < |procs| - 1 :: End(procs[i]) < Begin(procs[i + 1]))
  }

  function Ins(procs: seq<Procedure>): nat {
    if procs == [] then 0 else Ins(procs[..|procs| - 1]) + if procs[|procs| - 1].In? then 1 else 0
  }

  function Outs(procs: seq<Procedure>): nat {
    if procs == [] then 0 else Outs(procs[..|procs| - 1]) + if procs[|procs| - 1].Out? then 1 else 0
  }

  /** The procedure under way: its lines so far. */
  ghost predicate Underway(state: HandoverState, open: seq<nat>, lines: seq<Line>) {
    (forall i | 0 <= i < |open| :: open[i] < |lines|) && (forall i | 0 <= i < |open| - 1 :: open[i] <= open[i + 1])
    && match state
       case IDLE => open == []
       case TARGET_RECEIVES_REQ => |open| == 1 && lines[open[0]].handoverReq
       case TARGET_RRC_RECFG_COMPLETE => |open| == 2 && lines[open[0]].handoverReq && lines[open[1]].recfgComplete
       case TARGET_SENDS_SWITCH_REQ =>
         |open| == 3 && lines[open[0]].handoverReq && lines[open[1]].recfgComplete && lines[open[2]].pathSwitch
       case SOURCE_RECEIVES_REQ_ACK => |open| == 1 && lines[open[0]].reqAck
  }

  /** Everything so far lies before line b, and the procedure under way after all completed ones. */
  ghost predicate Tracks(s: Tally, procs: seq<Procedure>, open: seq<nat>, lines: seq<Line>, b: nat) {
    && Explains(procs, lines) && Ins(procs) == s.inNb && Outs(procs) == s.outNb
    && Underway(s.state, open, lines)
    && (procs != [] ==> End(procs[|procs| - 1]) < b)
    && (open != [] ==> open[|open| - 1] < b && (procs != [] ==> End(procs[|procs| - 1]) < open[0]))
  }

  /** Completed handovers of both kinds. */
  function Sum(s: Tally): nat { s.inNb + s.outNb }

  /** The machine before line i. */
  function Before(lines: seq<Line>, i: nat): Tally
    requires i <= |lines|
  {
    After(lines, 5 * i)
  }

  /** The machine does not take up procedure p at its first line, nor has one of its kind under way: a request while
      the node is source, or on a line with an acknowledgement; an acknowledgement while the node is target. */
  predicate Ignores(lines: seq<Line>, p: Procedure)
    requires Begin(p) < |lines|
  {
    var state := Before(lines, Begin(p)).state;
    if p.In? then state == SOURCE_RECEIVES_REQ_ACK || (state == IDLE && lines[p.req].reqAck)
    else state !in {IDLE, SOURCE_RECEIVES_REQ_ACK}
  }

  /** The machine begins to follow a procedure at the first line of p, of the kind of p. */
  predicate TakesUp(lines: seq<Line>, p: Procedure)
    requires Begin(p) < |lines|
  {
    Before(lines, Begin(p)).state == IDLE && !Ignores(lines, p)
  }

  /** So did all procedures completed, and the one under way. */
  ghost predicate AllTakenUp(lines: seq<Line>, procs: seq<Procedure>, open: seq<nat>, state: HandoverState) {
    && (forall i | 0 <= i < |procs| :: Begin(procs[i]) < |lines| && TakesUp(lines, procs[i]))
    && (open != [] ==> open[0] < |lines| && Before(lines, open[0]).state == IDLE
                       && (state == SOURCE_RECEIVES_REQ_ACK || !lines[open[0]].reqAck))
  }

  /** A test that moves the machine on without completing a procedure adds its line to the one under way. */
  lemma TestExtends(s: Tally, open: seq<nat>, lines: seq<Line>, k: nat, which: nat)
    requires k < |lines| && which < 3 && Underway(s.state, open, lines) && (open != [] ==> open[|open| - 1] <= k)
    requires Test(s, lines[k], which).state != s.state
    ensures Underway(Test(s, lines[k], which).state, open + [k], lines) && (which > 0 ==> open != [])
    ensures open == [] ==>
              s.state == IDLE && (Test(s, lines[k], which).state == SOURCE_RECEIVES_REQ_ACK || !lines[k].reqAck)
    ensures open != [] ==> s.state != SOURCE_RECEIVES_REQ_ACK
    ensures Test(s, lines[k], which).inNb == s.inNb && Test(s, lines[k], which).outNb == s.outNb
  {
  }

  /** A test that completes one. */
  lemma TestCompletes(s: Tally, open: seq<nat>, lines: seq<Line>, k: nat, which: nat) returns (p: Procedure)
    requires k < |lines| && 3 <= which < 5 && Underway(s.state, open, lines) && (open != [] ==> open[|open| - 1] <= k)
    requires Test(s, lines[k], which).state != s.state
    ensures open != [] && IsProcedure(p, lines) && Begin(p) == open[0] && End(p) == k
    ensures p.Out? <==> s.state == SOURCE_RECEIVES_REQ_ACK
    ensures Test(s, lines[k], which) ==
              Tally(IDLE, s.inNb + (if p.In? then 1 else 0), s.outNb + if p.Out? then 1 else 0)
  {
    p := if which == 3 then In(open[0], open[1], open[2], k) else Out(open[0], k);
  }

  lemma TestTracks(s: Tally, procs: seq<Procedure>, open: seq<nat>, lines: seq<Line>, k: nat, which: nat)
    returns (procs': seq<Procedure>, open': seq<nat>)
    requires k < |lines| && which < 5
    requires Tracks(s, procs, open, lines, if which == 0 then k else k + 1)
    requires which == 0 ==> s == Before(lines, k)
    requires AllTakenUp(lines, procs, open, s.state)
    ensures Tracks(Test(s, lines[k], which), procs', open', lines, k + 1)
    ensures AllTakenUp(lines, procs', open', Test(s, lines[k], which).state)
  {
    hide Test, Explains, IsProcedure, Begin, End, TakesUp, Before;
    procs', open' := procs, open;
    if Test(s, lines[k], which).state == s.state {
      TestIdles(s, lines[k], which);
    } else if which >= 3 {
      var p := TestCompletes(s, open, lines, k, which);
      hide Underway;
      open' := [];
      procs' := Complete(procs, p, lines);
      OpenedTakesUp(lines, p, s.state);
      assert Underway(IDLE, [], lines) by { NothingUnderway(lines); }
    } else {
      hide Underway;
      TestExtends(s, open, lines, k, which);
      open' := open + [k];
    }
  }

  lemma OpenedTakesUp(lines: seq<Line>, p: Procedure, state: HandoverState)
    requires Begin(p) < |lines| && Before(lines, Begin(p)).state == IDLE
    requires state == SOURCE_RECEIVES_REQ_ACK || !lines[Begin(p)].reqAck
    requires p.Out? <==> state == SOURCE_RECEIVES_REQ_ACK
    ensures TakesUp(lines, p)
  {
    hide Before;
  }

  lemma TestIdles(s: Tally, line: Line, which: nat)
    requires which < 5 && Test(s, line, which).state == s.state
    ensures Test(s, line, which) == s
  {
  }

  lemma NothingUnderway(lines: seq<Line>)
    ensures Underway(IDLE, [], lines)
  {
  }

  lemma Complete(procs: seq<Procedure>, p: Procedure, lines: seq<Line>) returns (procs': seq<Procedure>)
    requires Explains(procs, lines) && IsProcedure(p, lines)
    requires procs != [] ==> End(procs[|procs| - 1]) < Begin(p)
    ensures Explains(procs', lines) && procs' == procs + [p]
    ensures Ins(procs') == Ins(procs) + (if p.In? then 1 else 0)
    ensures Outs(procs') == Outs(procs) + (if p.Out? then 1 else 0)
  {
    procs' := procs + [p];
    assert procs'[..|procs|] == procs;
  }

  lemma {:induction false} AfterTracks(lines: seq<Line>, t: nat) returns (procs: seq<Procedure>, open: seq<nat>)
    requires t <= 5 * |lines|
    ensures Tracks(After(lines, t), procs, open, lines, (t + 4) / 5)
    ensures AllTakenUp(lines, procs, open, After(lines, t).state)
  {
    hide TakesUp;
    procs, open := [], [];
    if t > 0 {
      procs, open := AfterTracks(lines, t - 1);
      var k, which := (t - 1) / 5, (t - 1) % 5;
      assert (t - 1 + 4) / 5 == if which == 0 then k else k + 1;
      procs, open := TestTracks(After(lines, t - 1), procs, open, lines, k, which);
      assert (t + 4) / 5 == k + 1;
    }
  }

  /** For every log: there are exactly as many completed chains as the counters say, in disjoint intervals of
      lines and each with its messages in order. */
  lemma Counted(lines: seq<Line>)
    ensures exists procs ::
              Explains(procs, lines) && Ins(procs) == Total(lines).inNb && Outs(procs) == Total(lines).outNb
  {
    var procs, open := AfterTracks(lines, 5 * |lines|);
  }

  // ---------------------------------------------------------------- bounds in every prefix

  /** Messages 0 to 3 of a target handover in order, then 4 and 5 of a source handover. */
  predicate Message(line: Line, m: nat) {
    match m
    case 0 => line.handoverReq
    case 1 => line.recfgComplete
    case 2 => line.pathSwitch
    case 3 => line.pathSwitchAck
    case 4 => line.reqAck
    case _ => line.contextRelease
  }

  /** How many of its messages the target handover under way has had. */
  function Stage(state: HandoverState): nat {
    match state
    case IDLE => 0
    case TARGET_RECEIVES_REQ => 1
    case TARGET_RRC_RECFG_COMPLETE => 2
    case TARGET_SENDS_SWITCH_REQ => 3
    case SOURCE_RECEIVES_REQ_ACK => 0
  }

  /** Lines with message m among the first n. */
  function Count(lines: seq<Line>, m: nat, n: nat): nat
    requires n <= |lines|
  {
    if n == 0 then 0 else Count(lines, m, n - 1) + if Message(lines[n - 1], m) then 1 else 0
  }

  /** Lines on which test number which has been made after t tests. */
  function Made(t: nat, which: nat): nat
    requires which < 5
  {
    (t + 4 - which) / 5
  }

  lemma MadeStep(t: nat, which: nat)
    requires which < 5
    ensures Made(t + 1, which) == Made(t, which) + if t % 5 == which then 1 else 0
    ensures t % 5 == which ==> Made(t, which) == t / 5
  {
    var q, r := t / 5, t % 5;
    assert t == 5 * q + r;
    assert (t + 4 - which) / 5 == if r > which then q + 1 else q;
    assert (t + 5 - which) / 5 == if r + 1 > which then q + 1 else q;
  }

  lemma MadeBound(t: nat, which: nat, n: nat)
    requires which < 5 && t <= 5 * n
    ensures Made(t, which) <= n
  {
  }

  /** How often message m has been used: completed handovers, and the one under way that has had it. */
  function Used(s: Tally, m: nat): nat {
    match m
    case 4 => s.outNb + if s.state == SOURCE_RECEIVES_REQ_ACK then 1 else 0
    case 5 => s.outNb
    case _ => s.inNb + if Stage(s.state) > m then 1 else 0
  }

  /** The test that looks for message m. */
  function TestFor(m: nat): (which: nat)
    ensures which < 5
  {
    match m
    case 4 => 0
    case 5 => 4
    case _ => m % 5
  }

  /** A message is used only by its own test, on a line that has it. */
  lemma TestUses(s: Tally, line: Line, which: nat, m: nat)
    requires which < 5 && m < 6
    ensures Used(Test(s, line, which), m) <= Used(s, m) + if which == TestFor(m) && Message(line, m) then 1 else 0
  {
  }

  lemma {:induction false} Bounded(lines: seq<Line>, t: nat, m: nat)
    requires t <= 5 * |lines| && m < 6
    ensures Made(t, TestFor(m)) <= |lines|
    ensures Used(After(lines, t), m) <= Count(lines, m, Made(t, TestFor(m)))
  {
    hide Used, Test, Message, TestFor;
    MadeBound(t, TestFor(m), |lines|);
    if t > 0 {
      Bounded(lines, t - 1, m);
      MadeStep(t - 1, TestFor(m));
      hide Made;
      TestUses(After(lines, t - 1), lines[(t - 1) / 5], (t - 1) % 5, m);
    } else {
      NothingUsed(lines, m);
    }
  }

  lemma NothingUsed(lines: seq<Line>, m: nat)
    ensures Used(After(lines, 0), m) == 0
  {
  }

  /** In every prefix, each counter is at most the number of lines with any one of its messages. */
  lemma PrefixBounds(lines: seq<Line>, n: nat)
    requires n <= |lines|
    ensures var s := After(lines, 5 * n);
            && (forall m: nat | m < 4 :: s.inNb <= Count(lines, m, n))
            && s.outNb <= Count(lines, 4, n)
            && s.outNb <= Count(lines, 5, n)
  {
    forall m: nat | m < 6 ensures Used(After(lines, 5 * n), m) <= Count(lines, m, n) {
      Bounded(lines, 5 * n, m);
      assert Made(5 * n, TestFor(m)) == n;
    }
    hide After, Count;
  }

  // ---------------------------------------------------------------- when nothing is missed

  /** The machine completes a handover on the lines of procedure p. */
  predicate Completes(lines: seq<Line>, p: Procedure)
    requires Begin(p) < |lines| && End(p) < |lines|
  {
    Sum(Before(lines, Begin(p))) < Sum(Before(lines, End(p) + 1))
  }

  /** At no line have more disjoint procedures ended than the counters say. */
  ghost predicate CountedInFull(lines: seq<Line>) {
    forall procs | Explains(procs, lines) && procs != [] ::
      End(procs[|procs| - 1]) < |lines| && |procs| <= Sum(Before(lines, End(procs[|procs| - 1]) + 1))
  }

  /** No line begins a procedure that the machine does not take up. */
  ghost predicate NoneIgnored(lines: seq<Line>) {
    forall i | 0 <= i < |lines| ::
      && (lines[i].reqAck ==> Before(lines, i).state in {IDLE, SOURCE_RECEIVES_REQ_ACK})
      && (lines[i].handoverReq ==> !lines[i].reqAck && Before(lines, i).state != SOURCE_RECEIVES_REQ_ACK)
  }

  lemma InLog(p: Procedure, lines: seq<Line>)
    requires IsProcedure(p, lines)
    ensures Begin(p) <= End(p) < |lines|
  {
  }

  lemma AfterTest(lines: seq<Line>, i: nat, which: nat)
    requires i < |lines| && which < 5
    ensures After(lines, 5 * i + which + 1) == Test(After(lines, 5 * i + which), lines[i], which)
  {
    assert (5 * i + which) / 5 == i && (5 * i + which) % 5 == which;
  }

  /** One test completes at most one handover; while it completes none, the stage reached is not lost. */
  lemma TestKeeps(s: Tally, line: Line, which: nat)
    requires which < 5
    ensures Sum(Test(s, line, which)) >= Sum(s)
    ensures Sum(Test(s, line, which)) == Sum(s) && Stage(s.state) >= 1 ==>
              Stage(Test(s, line, which).state) >= Stage(s.state)
    ensures Sum(Test(s, line, which)) == Sum(s) && s.state == SOURCE_RECEIVES_REQ_ACK ==>
              Test(s, line, which).state == SOURCE_RECEIVES_REQ_ACK
  {
  }

  lemma {:induction false} StateKept(lines: seq<Line>, t: nat, u: nat)
    requires t <= u <= 5 * |lines|
    ensures Sum(After(lines, t)) <= Sum(After(lines, u))
    ensures Sum(After(lines, t)) == Sum(After(lines, u)) && Stage(After(lines, t).state) >= 1 ==>
              Stage(After(lines, u).state) >= Stage(After(lines, t).state)
    ensures Sum(After(lines, t)) == Sum(After(lines, u)) && After(lines, t).state == SOURCE_RECEIVES_REQ_ACK ==>
              After(lines, u).state == SOURCE_RECEIVES_REQ_ACK
    decreases u
  {
    hide Test, Sum, Stage;
    if t < u {
      StateKept(lines, t, u - 1);
      TestKeeps(After(lines, u - 1), lines[(u - 1) / 5], (u - 1) % 5);
    }
  }

  /** While nothing is completed, a line with the next message moves the target handover on. */
  lemma MessageUsed(lines: seq<Line>, t: nat, i: nat, m: nat)
    requires i < |lines| && 1 <= m < 4 && Message(lines[i], m) && t <= 5 * i + m
    requires Stage(After(lines, t).state) >= m
    ensures Stage(After(lines, 5 * i + m + 1).state) >= m + 1 || Sum(After(lines, 5 * i + m + 1)) > Sum(After(lines, t))
  {
    StateKept(lines, t, 5 * i + m);
    AfterTest(lines, i, m);
    hide After;
  }

  lemma CompletesIs(lines: seq<Line>, p: Procedure)
    requires Begin(p) <= End(p) < |lines| && Sum(After(lines, 5 * Begin(p))) < Sum(After(lines, 5 * End(p) + 5))
    ensures Completes(lines, p)
  {
    hide After, Sum;
  }

  /** The first test of the first line of a procedure that is not ignored. */
  lemma TakenUp(lines: seq<Line>, p: Procedure)
    requires IsProcedure(p, lines) && Begin(p) < |lines| && !Ignores(lines, p)
    ensures var s := After(lines, 5 * Begin(p) + 1);
            && Sum(s) == Sum(After(lines, 5 * Begin(p)))
            && if p.In? then Stage(s.state) >= 1 else s.state == SOURCE_RECEIVES_REQ_ACK
  {
    hide After;
    AfterTest(lines, Begin(p), 0);
  }

  lemma ChainMessages(p: Procedure, lines: seq<Line>)
    requires IsProcedure(p, lines) && p.In?
    ensures Begin(p) == p.req <= p.recfg <= p.switch <= p.ack == End(p) < |lines|
    ensures Message(lines[p.recfg], 1) && Message(lines[p.switch], 2) && Message(lines[p.ack], 3)
  {
  }

  /** A target handover taken up at its first line, or met by one already under way, is completed by its last. */
  lemma ChainCompleted(lines: seq<Line>, p: Procedure)
    requires IsProcedure(p, lines) && p.In? && !Ignores(lines, p)
    ensures End(p) < |lines| && Completes(lines, p)
  {
    hide *;
    ChainMessages(p, lines);
    TakenUp(lines, p);
    ChainSteps(lines, p.req, p.recfg, p.switch, p.ack);
    CompletesIs(lines, p);
  }

  /** The messages after the first, used one after the other while nothing is completed. */
  lemma ChainSteps(lines: seq<Line>, r: nat, c: nat, w: nat, a: nat)
    requires r <= c <= w <= a < |lines|
    requires Message(lines[c], 1) && Message(lines[w], 2) && Message(lines[a], 3)
    requires Stage(After(lines, 5 * r + 1).state) >= 1
    ensures Sum(After(lines, 5 * r + 1)) < Sum(After(lines, 5 * a + 5))
  {
    hide *;
    MessageUsed(lines, 5 * r + 1, c, 1);
    StateKept(lines, 5 * r + 1, 5 * c + 2);
    StateKept(lines, 5 * c + 2, 5 * w + 3);
    StateKept(lines, 5 * w + 3, 5 * a + 4);
    StateKept(lines, 5 * a + 4, 5 * a + 5);
    if Sum(After(lines, 5 * c + 2)) == Sum(After(lines, 5 * r + 1)) {
      MessageUsed(lines, 5 * c + 2, w, 2);
      if Sum(After(lines, 5 * w + 3)) == Sum(After(lines, 5 * c + 2)) {
        MessageUsed(lines, 5 * w + 3, a, 3);
        StageBelow(After(lines, 5 * a + 4));
      }
    }
  }

  lemma StageBelow(s: Tally)
    ensures Stage(s.state) < 4
  {
  }

  lemma PairMessages(p: Procedure, lines: seq<Line>)
    requires IsProcedure(p, lines) && p.Out?
    ensures Begin(p) == p.reqAck <= p.release == End(p) < |lines| && Message(lines[p.release], 5)
  {
  }

  lemma ReleaseUsed(s: Tally, line: Line)
    requires s.state == SOURCE_RECEIVES_REQ_ACK && Message(line, 5)
    ensures Sum(Test(s, line, 4)) > Sum(s)
  {
  }

  /** A source handover likewise. */
  lemma PairCompleted(lines: seq<Line>, p: Procedure)
    requires IsProcedure(p, lines) && p.Out? && !Ignores(lines, p)
    ensures End(p) < |lines| && Completes(lines, p)
  {
    hide *;
    PairMessages(p, lines);
    TakenUp(lines, p);
    var a, c := 5 * p.reqAck + 1, 5 * p.release + 4;
    StateKept(lines, a, c);
    AfterTest(lines, p.release, 4);
    if Sum(After(lines, a)) == Sum(After(lines, c)) {
      ReleaseUsed(After(lines, c), lines[p.release]);
    }
    StateKept(lines, c, c + 1);
    CompletesIs(lines, p);
  }

  lemma TakenUpCompleted(lines: seq<Line>, p: Procedure)
    requires IsProcedure(p, lines) && !Ignores(lines, p)
    ensures Completes(lines, p)
  {
    if p.In? {
      ChainCompleted(lines, p);
    } else {
      PairCompleted(lines, p);
    }
  }

  /** The last of a sequence of procedures, and the ones before it. */
  lemma LastExplained(procs: seq<Procedure>, lines: seq<Line>)
    requires Explains(procs, lines) && procs != []
    ensures var k := |procs| - 1;
            && IsProcedure(procs[k], lines) && Explains(procs[..k], lines)
            && (k > 0 ==> End(procs[k - 1]) < Begin(procs[k]) && procs[..k] != [] && procs[..k][k - 1] == procs[k - 1])
  {
    var k := |procs| - 1;
    assert IsProcedure(procs[k], lines);
    if k > 0 { assert End(procs[k - 1]) < Begin(procs[k - 1 + 1]); }
    forall i | 0 <= i < k ensures IsProcedure(procs[..k][i], lines) { assert IsProcedure(procs[i], lines); }
  }

  /** Disjoint procedures during each of which something is completed are no more than what is completed. */
  lemma {:induction false} EachCompletes(lines: seq<Line>, procs: seq<Procedure>)
    requires Explains(procs, lines) && procs != []
    requires forall p | IsProcedure(p, lines) :: Begin(p) < |lines| && End(p) < |lines| && Completes(lines, p)
    ensures End(procs[|procs| - 1]) < |lines| && |procs| <= Sum(Before(lines, End(procs[|procs| - 1]) + 1))
  {
    hide After, Sum, IsProcedure, Explains, Begin, End;
    var k := |procs| - 1;
    var p := procs[k];
    LastExplained(procs, lines);
    assert Completes(lines, p);
    if k > 0 {
      EachCompletes(lines, procs[..k]);
      StateKept(lines, 5 * End(procs[k - 1]) + 5, 5 * Begin(p));
    }
  }

  /** Exactly when the counters miss nothing, for every log and at every line of it: whenever a procedure of the
      log begins where the machine does not take it up, the machine completes another one before it ends. */
  lemma CountedInFullExactly(lines: seq<Line>)
    ensures CountedInFull(lines) <==>
              forall p | IsProcedure(p, lines) && Begin(p) <= End(p) && Ignores(lines, p) :: Completes(lines, p)
  {
    forall p | IsProcedure(p, lines) ensures Begin(p) <= End(p) < |lines| {
      InLog(p, lines);
    }
    if forall p | IsProcedure(p, lines) && Begin(p) <= End(p) && Ignores(lines, p) :: Completes(lines, p) {
      forall p | IsProcedure(p, lines) ensures Completes(lines, p) {
        if !Ignores(lines, p) { TakenUpCompleted(lines, p); }
      }
      forall procs | Explains(procs, lines) && procs != []
        ensures End(procs[|procs| - 1]) < |lines| && |procs| <= Sum(Before(lines, End(procs[|procs| - 1]) + 1))
      {
        EachCompletes(lines, procs);
      }
    }
    if CountedInFull(lines) {
      forall p | IsProcedure(p, lines) ensures Completes(lines, p) {
        OneMore(lines, p);
      }
    }
  }

  /** In a log counted in full something is completed during every procedure: else it comes on top of those
      counted before it. */
  lemma OneMore(lines: seq<Line>, p: Procedure)
    requires CountedInFull(lines) && IsProcedure(p, lines)
    ensures Begin(p) <= End(p) < |lines| && Completes(lines, p)
  {
    hide *;
    InLog(p, lines);
    var procs := CountedBefore(lines, Begin(p));
    var more := Complete(procs, p, lines);
    CountedAt(lines, more);
    if !Completes(lines, p) {
      CompletesNot(lines, p);
    }
  }

  /** Procedures before line b, as many as are counted there. */
  lemma CountedBefore(lines: seq<Line>, b: nat) returns (procs: seq<Procedure>)
    requires b <= |lines|
    ensures Explains(procs, lines) && |procs| == Sum(After(lines, 5 * b))
    ensures procs != [] ==> End(procs[|procs| - 1]) < b
  {
    hide After, Explains, Underway;
    assert (5 * b + 4) / 5 == b;
    var open;
    procs, open := AfterTracks(lines, 5 * b);
    Kinds(procs);
  }

  lemma CountedAt(lines: seq<Line>, procs: seq<Procedure>)
    requires CountedInFull(lines) && Explains(procs, lines) && procs != []
    ensures End(procs[|procs| - 1]) < |lines| && |procs| <= Sum(After(lines, 5 * End(procs[|procs| - 1]) + 5))
  {
    hide After, Explains, Sum;
  }

  lemma CompletesNot(lines: seq<Line>, p: Procedure)
    requires Begin(p) <= End(p) < |lines| && !Completes(lines, p)
    ensures Sum(After(lines, 5 * Begin(p))) >= Sum(After(lines, 5 * End(p) + 5))
  {
    hide After, Sum;
  }

  lemma {:induction false} Kinds(procs: seq<Procedure>)
    ensures |procs| == Ins(procs) + Outs(procs)
  {
    if procs != [] {
      Kinds(procs[..|procs| - 1]);
    }
  }

  /** The guard of the branch that fails: in a log, of both kinds or one, in which no line is ignored, no choice
      of disjoint procedures has more of them than the two counters say. */
  lemma NoneIgnoredAllCounted(lines: seq<Line>, procs: seq<Procedure>)
    requires NoneIgnored(lines) && Explains(procs, lines)
    ensures CountedInFull(lines) && |procs| <= Sum(Total(lines))
  {
    hide After, Sum;
    forall p | IsProcedure(p, lines) && Begin(p) <= End(p) ensures !Ignores(lines, p) {
      InLog(p, lines);
      hide Before;
      var line := lines[Begin(p)];
    }
    CountedInFullExactly(lines);
    if procs != [] {
      StateKept(lines, 5 * (End(procs[|procs| - 1]) + 1), 5 * |lines|);
    }
  }

  // ---------------------------------------------------------------- overlapping procedures

  /** Completed procedures that may overlap, no two of which begin on the same line. */
  ghost predicate DistinctFirst(procs: seq<Procedure>, lines: seq<Line>) {
    && (forall i | 0 <= i < |procs| :: IsProcedure(procs[i], lines))
    && (forall i, j | 0 <= i < j < |procs| :: Begin(procs[i]) != Begin(procs[j]))
  }

  /** Some completed procedure that begins on line b is taken up there. */
  ghost predicate BegunTakenUp(lines: seq<Line>, b: nat) {
    exists q :: IsProcedure(q, lines) && Begin(q) == b && b < |lines| && TakesUp(lines, q)
  }

  /** A procedure taken up is completed before the machine is idle again, and by its own last line. */
  lemma TakenUpCounts(lines: seq<Line>, q: Procedure, c: nat)
    requires IsProcedure(q, lines) && Begin(q) < |lines| && TakesUp(lines, q)
    requires Begin(q) < c <= |lines| && (Before(lines, c).state == IDLE || c == |lines|)
    ensures Sum(Before(lines, Begin(q))) < Sum(Before(lines, c))
  {
    TakenUp(lines, q);
    StateKept(lines, 5 * Begin(q) + 1, 5 * c);
    if c == |lines| {
      InLog(q, lines);
      hide After, Sum;
      TakenUpCompleted(lines, q);
      StateKept(lines, 5 * (End(q) + 1), 5 * c);
    }
  }

  /** Distinct numbers below n are at most n. */
  lemma {:induction false} Pigeonhole(ranks: seq<nat>, n: nat)
    requires forall i | 0 <= i < |ranks| :: ranks[i] < n
    requires forall i, j | 0 <= i < j < |ranks| :: ranks[i] != ranks[j]
    ensures |ranks| <= n
  {
    assert |ranks| > 0 ==> ranks[0] < n;
    if n > 0 {
      if i :| 0 <= i < |ranks| && ranks[i] == n - 1 {
        Pigeonhole(ranks[..i] + ranks[i + 1..], n - 1);
      } else {
        Pigeonhole(ranks, n - 1);
      }
    }
  }

  /** The number counted before the first line of a procedure. */
  function Rank(lines: seq<Line>, p: Procedure): nat
    requires Begin(p) < |lines|
  {
    Sum(Before(lines, Begin(p)))
  }

  lemma RanksDiffer(lines: seq<Line>, p: Procedure, q: Procedure)
    requires IsProcedure(p, lines) && IsProcedure(q, lines) && Begin(p) < Begin(q) < |lines|
    requires BegunTakenUp(lines, Begin(p)) && BegunTakenUp(lines, Begin(q))
    ensures Rank(lines, p) < Rank(lines, q)
  {
    var p' :| IsProcedure(p', lines) && Begin(p') == Begin(p) && TakesUp(lines, p');
    hide Before;
    TakenUpCounts(lines, p', Begin(q));
  }

  lemma RankBelowTotal(lines: seq<Line>, p: Procedure)
    requires IsProcedure(p, lines) && Begin(p) < |lines| && BegunTakenUp(lines, Begin(p))
    ensures Rank(lines, p) < Sum(Total(lines))
  {
    var p' :| IsProcedure(p', lines) && Begin(p') == Begin(p) && TakesUp(lines, p');
    TakenUpCounts(lines, p', |lines|);
  }

  lemma FamilyCounted(lines: seq<Line>, procs: seq<Procedure>)
    requires DistinctFirst(procs, lines)
    requires forall p | IsProcedure(p, lines) :: BegunTakenUp(lines, Begin(p))
    ensures |procs| <= Sum(Total(lines))
  {
    hide Rank, Sum, BegunTakenUp, Total, Begin, IsProcedure;
    forall i | 0 <= i < |procs| ensures Begin(procs[i]) < |lines| {
      InLog(procs[i], lines);
    }
    var ranks := seq(|procs|, i requires 0 <= i < |procs| => Rank(lines, procs[i]));
    forall i | 0 <= i < |ranks| ensures ranks[i] < Sum(Total(lines)) {
      RankBelowTotal(lines, procs[i]);
    }
    forall i, j | 0 <= i < j < |ranks| ensures ranks[i] != ranks[j] {
      if Begin(procs[i]) < Begin(procs[j]) {
        RanksDiffer(lines, procs[i], procs[j]);
      } else {
        RanksDiffer(lines, procs[j], procs[i]);
      }
    }
    Pigeonhole(ranks, Sum(Total(lines)));
  }

  lemma {:induction false} ExplainedInOrder(procs: seq<Procedure>, lines: seq<Line>, i: nat, j: nat)
    requires Explains(procs, lines) && i < j < |procs|
    ensures Begin(procs[i]) < Begin(procs[j])
    decreases j
  {
    hide Begin, End, IsProcedure;
    assert End(procs[j - 1]) < Begin(procs[j - 1 + 1]);
    InLog(procs[j - 1], lines);
    if i < j - 1 {
      ExplainedInOrder(procs, lines, i, j - 1);
    }
  }

  /** The procedures that the machine has counted, each taken up at its first line, and one that begins where none
      is taken up: one more than is counted. */
  lemma FamilyNotCounted(lines: seq<Line>, p: Procedure) returns (procs: seq<Procedure>)
    requires IsProcedure(p, lines) && !BegunTakenUp(lines, Begin(p))
    ensures DistinctFirst(procs, lines) && |procs| == Sum(Total(lines)) + 1
  {
    hide After, IsProcedure, TakesUp, Begin, End, Underway;
    var counted, open := AfterTracks(lines, 5 * |lines|);
    Kinds(counted);
    forall i | 0 <= i < |counted| ensures Begin(counted[i]) != Begin(p) {
      assert IsProcedure(counted[i], lines) && TakesUp(lines, counted[i]);
    }
    forall i, j | 0 <= i < j < |counted| ensures Begin(counted[i]) != Begin(counted[j]) {
      ExplainedInOrder(counted, lines, i, j);
    }
    procs := counted + [p];
  }

  /** Exactly when no completed procedure is missed, overlapping ones included, for every log: no choice of them
      with different first lines is larger than the counters, if and only if every completed procedure begins on
      a line where the machine, idle, takes up a completed one. */
  lemma OverlappingCountedExactly(lines: seq<Line>)
    ensures (forall procs | DistinctFirst(procs, lines) :: |procs| <= Sum(Total(lines)))
            <==> forall p | IsProcedure(p, lines) :: BegunTakenUp(lines, Begin(p))
  {
    hide DistinctFirst, Total, IsProcedure, BegunTakenUp, Sum, Begin;
    if forall p | IsProcedure(p, lines) :: BegunTakenUp(lines, Begin(p)) {
      forall procs | DistinctFirst(procs, lines) ensures |procs| <= Sum(Total(lines)) {
        FamilyCounted(lines, procs);
      }
    } else {
      var p :| IsProcedure(p, lines) && !BegunTakenUp(lines, Begin(p));
      var procs := FamilyNotCounted(lines, p);
    }
  }

  /** Two target handovers at once, all of whose messages have lines of their own: one is counted. No line is
      ignored in the sense of procedures that do not overlap. */
  lemma OverlappingMissed()
    ensures var none := Line(false, false, false, false, false, false);
            var req, recfg := none.(handoverReq := true), none.(recfgComplete := true);
            var switch, ack := none.(pathSwitch := true), none.(pathSwitchAck := true);
            var lines := [req, req, recfg, recfg, switch, switch, ack, ack];
            && IsProcedure(In(0, 2, 4, 6), lines) && IsProcedure(In(1, 3, 5, 7), lines)
            && NoneIgnored(lines) && Total(lines) == Tally(IDLE, 1, 0)
  {
    var none := Line(false, false, false, false, false, false);
    var req, recfg := none.(handoverReq := true), none.(recfgComplete := true);
    var switch, ack := none.(pathSwitch := true), none.(pathSwitchAck := true);
    var lines := [req, req, recfg, recfg, switch, switch, ack, ack];
    NothingYet(lines);
    hide After;
    FiveTests(lines, 0);
    assert Before(lines, 1) == Tally(TARGET_RECEIVES_REQ, 0, 0);
    FiveTests(lines, 1);
    assert Before(lines, 2) == Tally(TARGET_RECEIVES_REQ, 0, 0);
    FiveTests(lines, 2);
    assert Before(lines, 3) == Tally(TARGET_RRC_RECFG_COMPLETE, 0, 0);
    FiveTests(lines, 3);
    assert Before(lines, 4) == Tally(TARGET_RRC_RECFG_COMPLETE, 0, 0);
    FiveTests(lines, 4);
    assert Before(lines, 5) == Tally(TARGET_SENDS_SWITCH_REQ, 0, 0);
    FiveTests(lines, 5);
    assert Before(lines, 6) == Tally(TARGET_SENDS_SWITCH_REQ, 0, 0);
    FiveTests(lines, 6);
    assert Before(lines, 7) == Tally(IDLE, 1, 0);
    FiveTests(lines, 7);
  }

  /** A request that comes twice: the second one begins a completed procedure that is not taken up, but all procedures
      share the line of the acknowledgement, so that only one of them can have a line for each message. */
  lemma RepeatedRequest()
    ensures var none := Line(false, false, false, false, false, false);
            var lines := [none.(handoverReq := true), none.(handoverReq := true), none.(recfgComplete := true),
                          none.(pathSwitch := true), none.(pathSwitchAck := true)];
            && IsProcedure(In(1, 2, 3, 4), lines) && !BegunTakenUp(lines, 1)
            && forall p | IsProcedure(p, lines) :: p.In? && p.ack == 4
  {
    var none := Line(false, false, false, false, false, false);
    var lines := [none.(handoverReq := true), none.(handoverReq := true), none.(recfgComplete := true),
                  none.(pathSwitch := true), none.(pathSwitchAck := true)];
    NothingYet(lines);
    hide After;
    FiveTests(lines, 0);
    assert Before(lines, 1) == Tally(TARGET_RECEIVES_REQ, 0, 0);
  }

  lemma NothingYet(lines: seq<Line>)
    ensures After(lines, 0) == Tally(IDLE, 0, 0)
  {
  }

  // ---------------------------------------------------------------- logs of one kind

  ghost predicate TargetOnly(lines: seq<Line>) {
    forall i | 0 <= i < |lines| :: !lines[i].reqAck
  }

  ghost predicate SourceOnly(lines: seq<Line>) {
    forall i | 0 <= i < |lines| :: !lines[i].handoverReq
  }

  lemma {:induction false} NeverSource(lines: seq<Line>, t: nat)
    requires TargetOnly(lines) && t <= 5 * |lines|
    ensures After(lines, t).state != SOURCE_RECEIVES_REQ_ACK && After(lines, t).outNb == 0
  {
    if t > 0 {
      NeverSource(lines, t - 1);
    }
  }

  lemma {:induction false} NeverTarget(lines: seq<Line>, t: nat)
    requires SourceOnly(lines) && t <= 5 * |lines|
    ensures After(lines, t).state in {IDLE, SOURCE_RECEIVES_REQ_ACK} && After(lines, t).inNb == 0
  {
    if t > 0 {
      NeverTarget(lines, t - 1);
    }
  }

  /** In a log of target handovers only, the counter is the greatest number of disjoint chains there are. */
  lemma InIsGreatest(lines: seq<Line>, procs: seq<Procedure>)
    requires TargetOnly(lines) && Explains(procs, lines)
    ensures |procs| <= Total(lines).inNb
  {
    hide After;
    forall i: nat | i <= |lines|
      ensures Before(lines, i).state != SOURCE_RECEIVES_REQ_ACK && Before(lines, i).outNb == 0
    {
      NeverSource(lines, 5 * i);
    }
    NoneIgnoredAllCounted(lines, procs);
    assert Total(lines) == Before(lines, |lines|);
  }

  /** In a log of source handovers only, likewise. */
  lemma OutIsGreatest(lines: seq<Line>, procs: seq<Procedure>)
    requires SourceOnly(lines) && Explains(procs, lines)
    ensures |procs| <= Total(lines).outNb
  {
    hide After;
    forall i: nat | i <= |lines|
      ensures Before(lines, i).state in {IDLE, SOURCE_RECEIVES_REQ_ACK} && Before(lines, i).inNb == 0
    {
      NeverTarget(lines, 5 * i);
    }
    NoneIgnoredAllCounted(lines, procs);
    assert Total(lines) == Before(lines, |lines|);
  }

  /** With both kinds in one log the counter can miss a chain: a request while the node waits as source is
      ignored. */
  lemma MixedLogMisses()
    ensures var none := Line(false, false, false, false, false, false);
            var lines := [none.(reqAck := true), none.(handoverReq := true), none.(recfgComplete := true),
                          none.(pathSwitch := true), none.(pathSwitchAck := true)];
            Explains([In(1, 2, 3, 4)], lines) && Total(lines).inNb == 0
  {
    var none := Line(false, false, false, false, false, false);
    var lines := [none.(reqAck := true), none.(handoverReq := true), none.(recfgComplete := true),
                  none.(pathSwitch := true), none.(pathSwitchAck := true)];
    assert After(lines, 0) == Tally(IDLE, 0, 0);
    forall i: nat | i < 5 ensures After(lines, 5 * i + 5) == Tally(SOURCE_RECEIVES_REQ_ACK, 0, 0) {
      SourceStays(lines, i);
    }
    assert After(lines, 5 * 4 + 5) == Total(lines);
  }

  lemma {:induction false} SourceStays(lines: seq<Line>, i: nat)
    requires i < |lines| && lines[0].reqAck && forall k | 0 <= k < |lines| :: !lines[k].contextRelease
    ensures After(lines, 5 * i + 5) == Tally(SOURCE_RECEIVES_REQ_ACK, 0, 0)
  {
    FiveTests(lines, i);
    if i > 0 {
      SourceStays(lines, i - 1);
    } else {
      assert After(lines, 5 * 0) == Tally(IDLE, 0, 0);
    }
  }
}
