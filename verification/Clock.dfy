/** The radio unit's clock: what one pass of the ru_thread loop with rx_rf does to the receive
    timestamp, the device offset and the frame.subframe counters, and what holds over whole runs. */
module Clock {
  import opened SubframeTime

  /** The state that ru_thread and rx_rf keep. exiting says that rx_rf found the counters and the
      timestamp to disagree and called exit_fun. */
  datatype State = State(timestampRx: int, tsOffset: int, frameRx: int, ttiRx: int, firstRx: bool,
                         frame: int, subframe: int, exiting: bool)

  /** One read of the device: the hardware timestamp it returned, and the target of a pending
      RU_FRAME_RESYNCH command. */
  datatype Read = Read(ts: int, resynch: Option<nat>)

  function U32(x: int): int { x % 0x1_0000_0000 }

  /** The samples of d frames, as the unsigned 32-bit product. */
  function FrameSamples(d: int, spt: int): int { U32(U32(d * spt) * 10) }

  /** It is the product modulo 2^32. */
  lemma FrameSamplesWrap(d: int, spt: int)
    ensures 0 <= FrameSamples(d, spt) < 0x1_0000_0000
    ensures exists k :: d * spt * 10 == FrameSamples(d, spt) + k * 0x1_0000_0000
  {
    var p := d * spt;
    var a := p / 0x1_0000_0000;
    var b := U32(p) * 10 / 0x1_0000_0000;
    assert p == U32(p) + a * 0x1_0000_0000;
    assert U32(p) * 10 == FrameSamples(d, spt) + b * 0x1_0000_0000;
    assert d * spt * 10 == FrameSamples(d, spt) + (b + 10 * a) * 0x1_0000_0000;
  }

  /** ts_offset after a frame resynch from frameRx to target. */
  function ResynchOffset(off: int, frameRx: int, target: int, spt: int): int {
    if frameRx > target then off + FrameSamples(frameRx - target, spt)
    else off - FrameSamples(-frameRx + target, spt)
  }

  /** The samples of d frames. */
  function FrameTime(d: int, spt: int): int { d * 10 * spt }

  /** The counters of ru_thread before the read. */
  function NextFrame(s: State): int { if s.subframe == 9 then Low10(s.frame + 1) else s.frame }

  function NextSubframe(s: State): int { if s.subframe == 9 then 0 else s.subframe + 1 }

  /** rx_rf in closed form, for counters frame and subframe already stepped by ru_thread: without
      resynch the receive time advances by exactly one subframe and the offset absorbs whatever
      the hardware timestamp did; with resynch the offset moves by the frames skipped and the
      receive time is what is left of the hardware timestamp. */
  function Receive(s: State, rd: Read, spt: int): State
    requires spt > 0
  {
    var off := if rd.resynch.Some? then ResynchOffset(s.tsOffset, s.frameRx, rd.resynch.value, spt) else s.tsOffset;
    if s.firstRx then
      State(0, rd.ts - off, 0, 0, false, 0, 0, s.exiting)
    else
      var t := if rd.resynch.Some? then rd.ts - off else s.timestampRx + spt;
      var frame := if rd.resynch.Some? then rd.resynch.value else s.frame;
      State(t, rd.ts - t, FrameOf(t, spt), SubframeOf(t, spt), false, frame, s.subframe,
            s.exiting || SubframeOf(t, spt) != s.subframe || FrameOf(t, spt) != frame)
  }

  /** One pass of the ru_thread loop. */
  function Pass(s: State, rd: Read, spt: int): State
    requires spt > 0
  {
    Receive(s.(frame := NextFrame(s), subframe := NextSubframe(s)), rd, spt)
  }

  /** How far the hardware timestamp of this read is from the one expected. */
  function Drift(s: State, rd: Read, spt: int): int {
    rd.ts - s.tsOffset - s.timestampRx - spt
  }

  function Run(s: State, rds: seq<Read>, spt: int): State
    requires spt > 0
  {
    if rds == [] then s else Pass(Run(s, rds[..|rds| - 1], spt), rds[|rds| - 1], spt)
  }

  /** The state in which ru_thread starts: counters at 1023.9, whatever the offset. */
  ghost predicate Initial(s: State) {
    s.firstRx && s.frame == 1023 && s.subframe == 9 && !s.exiting && s.frameRx == 0 && s.ttiRx == 0
  }

  /** Counters, decoded numbers and timestamp agree. */
  ghost predicate InStep(s: State, spt: int)
    requires spt > 0
  {
    && !s.firstRx && !s.exiting && s.timestampRx >= 0
    && s.frame == s.frameRx == FrameOf(s.timestampRx, spt)
    && s.subframe == s.ttiRx == SubframeOf(s.timestampRx, spt)
  }

  lemma NextIndex(t: int, spt: int)
    requires spt > 0
    ensures Index(t + spt, spt) == Index(t, spt) + 1
  {
    assert Samples(1, spt) == spt;
    hide *;
    ShiftIndex(t, spt, 1);
  }

  /** A subframe later the decoded numbers are one later. */
  lemma NextDecoded(t: nat, spt: int)
    requires spt > 0
    ensures SubframeOf(t + spt, spt) == if SubframeOf(t, spt) == 9 then 0 else SubframeOf(t, spt) + 1
    ensures FrameOf(t + spt, spt) == if SubframeOf(t, spt) == 9 then Low10(FrameOf(t, spt) + 1) else FrameOf(t, spt)
  {
    NextIndex(t, spt);
    hide *;
    DecodeAt(t, spt);
    DecodeAt(t + spt, spt);
    NextAt(Index(t, spt));
  }

  /** Without resynch every pass keeps the clock in step, one subframe further. */
  lemma PassKeepsStep(s: State, rd: Read, spt: int)
    requires spt > 0 && InStep(s, spt) && rd.resynch.None?
    ensures InStep(Pass(s, rd, spt), spt)
    ensures Pass(s, rd, spt).timestampRx == s.timestampRx + spt
  {
    hide FrameOf, SubframeOf;
    NextDecoded(s.timestampRx, spt);
  }

  /** Whole runs without resynch, whatever hardware timestamps come: after k+1 reads the receive time
      is exactly k subframes, the counters are those of subframe k, and no exit check was taken. */
  lemma {:induction false} ClockAgreement(s: State, rds: seq<Read>, spt: int)
    requires spt > 0 && Initial(s) && |rds| > 0
    requires forall i | 0 <= i < |rds| :: rds[i].resynch.None?
    ensures var e := Run(s, rds, spt);
            && InStep(e, spt)
            && e.timestampRx == Samples(|rds| - 1, spt)
            && e.frame == FrameAt(|rds| - 1) && e.subframe == SubframeAt(|rds| - 1)
  {
    hide Pass;
    var k := |rds| - 1;
    assert Run(s, rds[..0], spt) == s;
    if k > 0 {
      ClockAgreement(s, rds[..k], spt);
    }
    PassInRun(Run(s, rds[..k], spt), rds[k], k, spt);
    SamplesStep(k, spt);
    hide *;
    DecodeAt(Samples(k, spt), spt);
  }

  /** The i-th pass of a run without resynch, from the state after i of them. */
  lemma PassInRun(s: State, rd: Read, i: nat, spt: int)
    requires spt > 0 && rd.resynch.None?
    requires if i == 0 then Initial(s) else InStep(s, spt) && s.timestampRx == Samples(i - 1, spt)
    ensures InStep(Pass(s, rd, spt), spt) && Pass(s, rd, spt).timestampRx == Samples(i, spt)
  {
    if i == 0 {
      DecodeZero(spt);
    } else {
      PassKeepsStep(s, rd, spt);
      SamplesStep(i, spt);
    }
  }

  lemma SamplesStep(k: nat, spt: int)
    requires spt > 0
    ensures Samples(k - 1, spt) + spt == Samples(k, spt) >= 0
    ensures Index(Samples(k, spt), spt) == k
  {
    DivUnique(k * spt, spt, k, 0);
  }

  /** The device time of the last read is the receive time plus the offset, on every branch; on the
      first read this needs an offset of zero and no resynch pending. */
  lemma HardwareTime(s: State, rd: Read, spt: int)
    requires spt > 0
    ensures s.firstRx ==>
              (rd.ts == Pass(s, rd, spt).timestampRx + Pass(s, rd, spt).tsOffset
               <==> (if rd.resynch.Some? then ResynchOffset(s.tsOffset, s.frameRx, rd.resynch.value, spt)
                     else s.tsOffset) == 0)
    ensures s.firstRx && rd.resynch.None? ==>
              Pass(s, rd, spt).timestampRx == 0 && Pass(s, rd, spt).tsOffset == rd.ts - s.tsOffset
    ensures !s.firstRx ==> rd.ts == Pass(s, rd, spt).timestampRx + Pass(s, rd, spt).tsOffset
  {
  }

  /** After a pass the decoded numbers are those of the timestamp. */
  lemma AfterFirst(s: State, rd: Read, spt: int)
    requires spt > 0
    ensures var e := Pass(s, rd, spt);
            !e.firstRx && e.frameRx == FrameOf(e.timestampRx, spt) && e.ttiRx == SubframeOf(e.timestampRx, spt)
  {
    hide FrameOf, SubframeOf, ResynchOffset;
    DecodeZero(spt);
  }

  lemma IndexSmall(t: nat, spt: int)
    requires t < spt
    ensures Index(t, spt) == 0
  {
    DivUnique(t, spt, 0, t);
  }

  lemma DecodeZero(spt: int)
    requires spt > 0
    ensures FrameOf(0, spt) == 0 && SubframeOf(0, spt) == 0
  {
    hide FrameOf, SubframeOf, Index;
    IndexSmall(0, spt);
    DecodeAt(0, spt);
  }

  /** The subframe counter stays a digit, and without exit the decoded subframe is the counter. */
  lemma CountersInRange(s: State, rd: Read, spt: int)
    requires spt > 0 && 0 <= s.subframe <= 9
    ensures 0 <= Pass(s, rd, spt).subframe <= 9
    ensures !Pass(s, rd, spt).exiting ==> Pass(s, rd, spt).ttiRx == Pass(s, rd, spt).subframe
  {
    hide FrameOf, SubframeOf, ResynchOffset;
  }

  /** The subframe counter steps on whatever happens. */
  lemma SubframeSteps(s: State, rd: Read, spt: int)
    requires spt > 0
    ensures Pass(s, rd, spt).subframe == if s.firstRx then 0 else NextSubframe(s)
  {
  }

  /** For a target frame number the 32-bit products do not wrap. */
  lemma ResynchOffsetExact(off: int, frameRx: int, target: int, spt: int)
    requires ValidLength(spt) && 0 <= frameRx < 1024 && 0 <= target < 1024
    ensures ResynchOffset(off, frameRx, target, spt) == off + FrameTime(frameRx - target, spt)
  {
    var d := if frameRx > target then frameRx - target else -frameRx + target;
    SmallProduct(d, spt);
    hide FrameSamples;
    Negated(d, spt);
  }

  lemma Negated(d: int, spt: int)
    ensures FrameTime(-d, spt) == -FrameTime(d, spt)
  {
  }

  lemma SmallProduct(d: nat, spt: int)
    requires ValidLength(spt) && d < 1024
    ensures FrameSamples(d, spt) == FrameTime(d, spt)
  {
    var p := d * spt;
    assert p == 1023 * spt - (1023 - d) * spt;
    assert (1023 - d) * spt >= 0;
    assert p >= 0;
    assert d * 10 * spt == 10 * p;
  }

  /** By how many subframes the drift of this read misplaces the receive time. */
  function SlipOf(s: State, rd: Read, spt: int): int
    requires spt > 0
  {
    Index(s.timestampRx % spt + Drift(s, rd, spt), spt)
  }

  /** The receive time of a read that applies a resynch. */
  function ResynchTime(s: State, rd: Read, spt: int): int
    requires rd.resynch.Some?
  {
    rd.ts - ResynchOffset(s.tsOffset, s.frameRx, rd.resynch.value, spt)
  }

  /** The slip of this read, with ten more subframes when the previous one was the last of its frame, is a whole
      number of 1024-frame cycles. */
  predicate WholeCycles(s: State, rd: Read, spt: int)
    requires spt > 0
  {
    (SlipOf(s, rd, spt) + if s.subframe == 9 then 10 else 0) % 10240 == 0
  }

  /** Resynch, exactly, when receive time stays non-negative: the exit checks pass if and only if the target is a
      frame number and the slip makes whole cycles. */
  lemma ResynchExact(s: State, rd: Read, spt: int)
    requires ValidLength(spt) && InStep(s, spt) && rd.resynch.Some?
    ensures ResynchTime(s, rd, spt) >= 0 ==>
              (!Pass(s, rd, spt).exiting <==> rd.resynch.value < 1024 && WholeCycles(s, rd, spt))
  {
    hide Pass, ResynchTime, Drift, SlipOf, WholeCycles, FrameOf, SubframeOf, FrameAt, SubframeAt, Index, FrameTime;
    var target, t, t', drift := rd.resynch.value, s.timestampRx, ResynchTime(s, rd, spt), Drift(s, rd, spt);
    ResynchPass(s, rd, spt);
    if target < 1024 && t' >= 0 {
      hide *;
      var n, c := Index(t, spt), SlipOf(s, rd, spt);
      CyclesOfSlip(s, rd, spt);
      ResynchIndex(t, drift, FrameAt(n) - target, spt, t');
      ResynchArithmetic(n, c, target, Index(t', spt));
    }
  }

  lemma CyclesOfSlip(s: State, rd: Read, spt: int)
    requires spt > 0
    ensures SlipOf(s, rd, spt) == Index(s.timestampRx % spt + Drift(s, rd, spt), spt)
    ensures WholeCycles(s, rd, spt) <==> (SlipOf(s, rd, spt) + if s.subframe == 9 then 10 else 0) % 10240 == 0
  {
  }

  /** ... and when drift makes receive time negative: then division truncates upwards, and only a pass that
      begins a frame can meet its counters. */
  lemma ResynchNegative(s: State, rd: Read, spt: int)
    requires ValidLength(spt) && InStep(s, spt) && rd.resynch.Some?
    ensures var t := ResynchTime(s, rd, spt);
            t < 0 ==> (!Pass(s, rd, spt).exiting <==>
                         && s.subframe == 9 && rd.resynch.value < 1024
                         && (TruncDiv(t, spt) - 10 * rd.resynch.value) % 10240 == 0)
  {
    var t := ResynchTime(s, rd, spt);
    SubframeRange(s.timestampRx, spt);
    if t < 0 {
      hide ResynchOffset, TruncDiv, InStep;
      NegativeDecode(t, spt);
      NegativeCongruence(-TruncDiv(t, spt), rd.resynch.value);
    }
  }

  /** A pass that gets through with negative receive time is caught by the next one, unless that resynchs again. */
  lemma NegativeIsCaught(s: State, rd: Read, next: Read, spt: int)
    requires ValidLength(spt) && InStep(s, spt) && rd.resynch.Some? && next.resynch.None?
    ensures ResynchTime(s, rd, spt) < 0 ==> Pass(Pass(s, rd, spt), next, spt).exiting
  {
    var t := ResynchTime(s, rd, spt);
    var p := Pass(s, rd, spt);
    ResynchNegative(s, rd, spt);
    if t < 0 && !p.exiting {
      assert p.subframe == 0 && SubframeOf(p.timestampRx, spt) == 0;
      hide ResynchOffset, ResynchTime, InStep, SubframeOf, FrameOf;
      NegativeNext(t, spt);
    }
  }

  lemma NegativeNext(t: int, spt: int)
    requires spt > 0 && t < 0
    ensures SubframeOf(t + spt, spt) != 1
  {
    hide SubframeOf;
    if t + spt >= 0 {
      IndexSmall(t + spt, spt);
      DecodeAt(t + spt, spt);
    } else {
      NegativeDecode(t + spt, spt);
    }
  }

  lemma SubframeRange(t: nat, spt: int)
    requires spt > 0
    ensures 0 <= SubframeOf(t, spt) < 10
  {
    hide SubframeOf;
    DecodeAt(t, spt);
  }

  lemma NegativeDecode(t: int, spt: int)
    requires spt > 0 && t < 0
    ensures var u := -TruncDiv(t, spt);
            u >= 0 && SubframeOf(t, spt) == -(u % 10) && FrameOf(t, spt) == Low10(-(u / 10))
  {
    var u := (-t) / spt;
    assert u >= 0 by { hide *; assert Index(-t, spt) >= 0; IndexIs(-t, spt); }
    DivTwice(-t, spt);
  }

  lemma NegativeCongruence(u: int, target: int)
    requires u >= 0 && target >= 0
    ensures u % 10 == 0 && Low10(-(u / 10)) == target <==> target < 1024 && (-u - 10 * target) % 10240 == 0
  {
    if target < 1024 {
      if (-u - 10 * target) % 10240 == 0 {
        var w := (-u - 10 * target) / 10240;
        assert u == (-1024 * w - target) * 10;
        DivUnique(u, 10, -1024 * w - target, 0);
        DivUnique(-(u / 10), 1024, w, target);
      } else if u % 10 == 0 && Low10(-(u / 10)) == target {
        var k := -(u / 10) / 1024;
        DivUnique(-u - 10 * target, 10240, k, 0);
      }
    }
  }

  /** A pass with resynch, in subframe indices. */
  lemma ResynchPass(s: State, rd: Read, spt: int)
    requires ValidLength(spt) && InStep(s, spt) && rd.resynch.Some?
    ensures var n := Index(s.timestampRx, spt);
            s.frameRx == FrameAt(n) && s.subframe == SubframeAt(n)
    ensures Pass(s, rd, spt).timestampRx == ResynchTime(s, rd, spt)
    ensures rd.resynch.value < 1024 ==>
              ResynchTime(s, rd, spt)
              == s.timestampRx + spt + Drift(s, rd, spt) - FrameTime(s.frameRx - rd.resynch.value, spt)
    ensures var m := Index(ResynchTime(s, rd, spt), spt);
            ResynchTime(s, rd, spt) >= 0 ==>
              (Pass(s, rd, spt).exiting <==> SubframeAt(m) != NextSubframe(s) || FrameAt(m) != rd.resynch.value)
  {
    hide FrameOf, SubframeOf, FrameAt, SubframeAt, ResynchOffset, FrameTime, Index;
    DecodeAt(s.timestampRx, spt);
    if ResynchTime(s, rd, spt) >= 0 {
      DecodeAt(ResynchTime(s, rd, spt), spt);
    }
    if rd.resynch.value < 1024 {
      ResynchOffsetExact(s.tsOffset, s.frameRx, rd.resynch.value, spt);
    }
  }

  lemma ResynchIndex(t: nat, drift: int, frames: int, spt: int, t': int)
    requires spt > 0 && t' == t + spt + drift - FrameTime(frames, spt)
    ensures Index(t', spt) == Index(t, spt) + 1 + Index(t % spt + drift, spt) - 10 * frames
  {
    var k := t / spt + 1 - 10 * frames;
    assert Samples(k, spt) == t / spt * spt + spt - frames * 10 * spt;
    assert t' == (t % spt + drift) + Samples(k, spt);
    hide Index, Samples;
    ShiftIndex(t % spt + drift, spt, k);
    assert k == Index(t, spt) + 1 - 10 * frames by { IndexIs(t, spt); }
  }

  lemma IndexIs(t: int, spt: int)
    requires spt > 0
    ensures Index(t, spt) == t / spt
  {
  }

  lemma ResynchArithmetic(n: nat, c: int, target: nat, m: nat)
    requires target < 1024 && m == n + 1 + c - 10 * (FrameAt(n) - target)
    ensures (SubframeAt(m) == (if SubframeAt(n) == 9 then 0 else SubframeAt(n) + 1) && FrameAt(m) == target)
       <==> (c + if SubframeAt(n) == 9 then 10 else 0) % 10240 == 0
  {
    var q, s := n / 10, n % 10;
    var w := q / 1024;
    var x := c + if s == 9 then 10 else 0;
    var s' := if s == 9 then 0 else s + 1;
    assert q == 1024 * w + FrameAt(n);
    assert m == 10 * (1024 * w + target) + s' + x;
    CycleCongruence(m, w, target, s', x);
  }

  lemma CycleCongruence(m: nat, w: nat, target: nat, s: nat, x: int)
    requires target < 1024 && s < 10 && m == 10 * (1024 * w + target) + s + x
    ensures SubframeAt(m) == s && FrameAt(m) == target <==> x % 10240 == 0
  {
    if x % 10240 == 0 {
      var k := x / 10240;
      assert m == 10 * (1024 * (w + k) + target) + s;
      assert m / 10 == 1024 * (w + k) + target;
      DivUnique(m / 10, 1024, w + k, target);
    }
    if SubframeAt(m) == s && FrameAt(m) == target {
      var v := m / 10 / 1024;
      assert m == 10 * (1024 * v + target) + s;
      assert x == 10240 * (v - w);
    }
  }

  /** The resynch of the design: no drift on the read, previous subframe not the last of its frame.
      The frame counter lands on the target, the subframe advances by one, time stays
      non-negative, on the up and on the down branch. */
  lemma ResynchLands(s: State, rd: Read, spt: int)
    requires ValidLength(spt) && InStep(s, spt) && rd.resynch.Some? && rd.resynch.value < 1024
    requires Drift(s, rd, spt) == 0 && s.subframe != 9
    ensures var e := Pass(s, rd, spt);
            && InStep(e, spt)
            && e.frameRx == rd.resynch.value && e.ttiRx == s.ttiRx + 1
            && e.timestampRx == s.timestampRx + spt - FrameTime(s.frameRx - rd.resynch.value, spt)
  {
    hide FrameOf, SubframeOf, ResynchOffset;
    UndriftedTime(s, rd, spt);
    ResynchUndrifted(s, rd, spt);
  }

  /** Without drift a resynch to a frame number moves time by whole frames and leaves it non-negative. */
  lemma UndriftedTime(s: State, rd: Read, spt: int)
    requires ValidLength(spt) && InStep(s, spt) && rd.resynch.Some? && rd.resynch.value < 1024
    requires Drift(s, rd, spt) == 0
    ensures var t := Pass(s, rd, spt).timestampRx;
            t >= 0 && t == s.timestampRx + spt - FrameTime(s.frameRx - rd.resynch.value, spt)
  {
    DecodeAt(s.timestampRx, spt);
    var f, target := s.frameRx, rd.resynch.value;
    assert 0 <= f < 1024;
    FrameStart(s.timestampRx, spt);
    hide FrameOf, SubframeOf, ResynchOffset, FrameTime;
    ResynchOffsetExact(s.tsOffset, f, target, spt);
    TargetTime(s.timestampRx, f, target, spt);
  }

  lemma TargetTime(t: int, f: int, target: nat, spt: nat)
    requires t >= FrameTime(f, spt)
    ensures t + spt - FrameTime(f - target, spt) >= 0
  {
    assert (f - target) * 10 * spt == f * 10 * spt - target * 10 * spt;
    assert target * 10 * spt >= 0;
  }

  /** The current frame started at or before now. */
  lemma FrameStart(t: nat, spt: int)
    requires spt > 0
    ensures t >= FrameTime(FrameOf(t, spt), spt)
  {
    hide FrameOf, SubframeOf;
    DecodeAt(t, spt);
    var n := t / spt;
    var f := FrameAt(n) * 10;
    assert f <= n;
    assert (n - f) * spt == n * spt - f * spt;
    assert (n - f) * spt >= 0;
    assert t == spt * n + t % spt;
  }

  /** For an undrifted resynch the exact condition is one on target and previous subframe. */
  lemma ResynchUndrifted(s: State, rd: Read, spt: int)
    requires ValidLength(spt) && InStep(s, spt) && rd.resynch.Some? && Drift(s, rd, spt) == 0
    ensures !Pass(s, rd, spt).exiting <==> rd.resynch.value < 1024 && s.subframe != 9
  {
    if rd.resynch.value < 1024 {
      UndriftedTime(s, rd, spt);
      ResynchExact(s, rd, spt);
      hide Pass, InStep;
      var r := s.timestampRx % spt;
      IndexSmall(r, spt);
    }
  }

  /** It is met in runs: a frame is received, whatever the timestamps, and then a resynch comes without drift.
      The receiver exits, for every target. */
  lemma ResynchAtFrameEnd(s: State, rds: seq<Read>, target: nat, spt: int)
    requires ValidLength(spt) && Initial(s) && |rds| == 10 && forall i | 0 <= i < 10 :: rds[i].resynch.None?
    ensures var e := Run(s, rds, spt);
            Run(s, rds + [Read(e.timestampRx + e.tsOffset + spt, Some(target))], spt).exiting
  {
    var e := Run(s, rds, spt);
    var rd := Read(e.timestampRx + e.tsOffset + spt, Some(target));
    assert (rds + [rd])[..10] == rds;
    ClockAgreement(s, rds, spt);
    hide Pass, InStep;
    ResynchUndrifted(e, rd, spt);
  }

  /** Counters, decoded numbers and timestamp agree; receive time may be negative, but then a frame has just
      begun. */
  ghost predicate Agrees(s: State, spt: int)
    requires spt > 0
  {
    && !s.firstRx && !s.exiting
    && s.frame == s.frameRx == FrameOf(s.timestampRx, spt)
    && s.subframe == s.ttiRx == SubframeOf(s.timestampRx, spt)
    && (s.timestampRx < 0 ==> s.subframe == 0)
  }

  /** A read that the clock survives: without resynch, if receive time is not negative; with one, if the target is
      a frame number, negative receive time begins a frame, and receive time is whole 1024-frame cycles away from
      the next subframe of the target frame. */
  predicate Survives(s: State, rd: Read, spt: int)
    requires spt > 0
  {
    s.firstRx ||
    match rd.resynch
    case None => s.timestampRx >= 0
    case Some(target) =>
      var t, next := ResynchTime(s, rd, spt), NextSubframe(s);
      target < 1024 && (t < 0 ==> next == 0) && (TruncDiv(t, spt) - 10 * target - next) % 10240 == 0
  }

  /** Every read of the run is one the clock survives. */
  ghost predicate AllSurvive(s: State, rds: seq<Read>, spt: int)
    requires spt > 0
  {
    forall i | 0 <= i < |rds| :: Survives(Run(s, rds[..i], spt), rds[i], spt)
  }

  lemma AllSurviveSnoc(s: State, rds: seq<Read>, spt: int)
    requires spt > 0 && rds != []
    ensures var k := |rds| - 1;
            AllSurvive(s, rds, spt) <==> AllSurvive(s, rds[..k], spt) && Survives(Run(s, rds[..k], spt), rds[k], spt)
  {
    hide Survives, Run;
    var k := |rds| - 1;
    var before := rds[..k];
    assert forall i | 0 <= i < k :: before[..i] == rds[..i];
    if AllSurvive(s, before, spt) && Survives(Run(s, before, spt), rds[k], spt) {
      forall i | 0 <= i < |rds| ensures Survives(Run(s, rds[..i], spt), rds[i], spt) {
        if i < k { assert Survives(Run(s, before[..i], spt), before[i], spt); }
      }
    }
    if AllSurvive(s, rds, spt) {
      forall i | 0 <= i < k ensures Survives(Run(s, before[..i], spt), before[i], spt) {
        assert Survives(Run(s, rds[..i], spt), rds[i], spt);
      }
    }
  }

  /** Whole runs with any drift and any resynch commands: the run stays clear of the exit checks if and only if
      every read was one the clock survives, and then the clock agrees with its timestamp. */
  lemma {:induction false} RunWithResynch(s: State, rds: seq<Read>, spt: int)
    requires spt > 0 && (Initial(s) || Agrees(s, spt))
    ensures !Run(s, rds, spt).exiting <==> AllSurvive(s, rds, spt)
    ensures !Run(s, rds, spt).exiting ==> (rds == [] && Initial(s)) || Agrees(Run(s, rds, spt), spt)
  {
    hide Pass, Agrees, Survives, Initial;
    if rds == [] {
      NotExiting(s, spt);
    } else {
      var k := |rds| - 1;
      var before := rds[..k];
      RunWithResynch(s, before, spt);
      AllSurviveSnoc(s, rds, spt);
      var p, rd := Run(s, before, spt), rds[k];
      if !p.exiting {
        OnePass(p, rd, spt);
      }
      ExitSticks(p, rd, spt);
    }
  }

  lemma NotExiting(s: State, spt: int)
    requires spt > 0 && (Initial(s) || Agrees(s, spt))
    ensures !s.exiting
  {
  }

  lemma ExitSticks(s: State, rd: Read, spt: int)
    requires spt > 0
    ensures s.exiting ==> Pass(s, rd, spt).exiting
  {
  }

  lemma OnePass(s: State, rd: Read, spt: int)
    requires spt > 0 && (Initial(s) || Agrees(s, spt))
    ensures !Pass(s, rd, spt).exiting <==> Survives(s, rd, spt)
    ensures !Pass(s, rd, spt).exiting ==> Agrees(Pass(s, rd, spt), spt)
  {
    hide FrameOf, SubframeOf, ResynchOffset, TruncDiv;
    if s.firstRx {
      DecodeZero(spt);
    } else if rd.resynch.None? {
      if s.timestampRx >= 0 {
        PassKeepsStep(s, rd, spt);
      } else {
        NegativeNext(s.timestampRx, spt);
      }
    } else {
      SubframeNumber(s.timestampRx, spt);
      DecodesTo(ResynchTime(s, rd, spt), spt, rd.resynch.value, NextSubframe(s));
    }
  }

  lemma SubframeNumber(t: int, spt: int)
    requires spt > 0
    ensures t >= 0 ==> 0 <= SubframeOf(t, spt) < 10
  {
    hide SubframeOf;
    if t >= 0 { SubframeRange(t, spt); }
  }

  /** When a time, of either sign, decodes to a given frame and subframe. */
  lemma DecodesTo(t: int, spt: int, frame: nat, subframe: int)
    requires spt > 0 && 0 <= subframe < 10
    ensures SubframeOf(t, spt) == subframe && FrameOf(t, spt) == frame <==>
              frame < 1024 && (t < 0 ==> subframe == 0) && (TruncDiv(t, spt) - 10 * frame - subframe) % 10240 == 0
  {
    if t >= 0 {
      assert TruncDiv(t, spt) == Index(t, spt);
      hide FrameOf, SubframeOf, TruncDiv, Index, FrameAt, SubframeAt;
      DecodeAt(t, spt);
      FrameBound(Index(t, spt));
      if frame < 1024 {
        CycleCongruence(Index(t, spt), 0, frame, subframe, Index(t, spt) - 10 * frame - subframe);
      }
    } else {
      hide FrameOf, SubframeOf, TruncDiv;
      NegativeDecode(t, spt);
      NegativeCongruence(-TruncDiv(t, spt), frame);
    }
  }

  lemma FrameBound(n: nat)
    ensures FrameAt(n) < 1024
  {
  }

  /** The reads that the clock survives in the ordinary case: without drift or with, while receive time stays
      non-negative, the slip makes whole cycles. */
  lemma SurvivesIsWholeCycles(s: State, rd: Read, spt: int)
    requires ValidLength(spt) && InStep(s, spt)
    ensures rd.resynch.None? ==> Survives(s, rd, spt)
    ensures rd.resynch.Some? && ResynchTime(s, rd, spt) >= 0 ==>
              (Survives(s, rd, spt) <==> rd.resynch.value < 1024 && WholeCycles(s, rd, spt))
  {
    hide Survives, Pass, WholeCycles, ResynchTime;
    if rd.resynch.None? {
      NoResynchSurvives(s, rd, spt);
    } else {
      InStepAgrees(s, spt);
      OnePass(s, rd, spt);
      ResynchExact(s, rd, spt);
    }
  }

  lemma NoResynchSurvives(s: State, rd: Read, spt: int)
    requires spt > 0 && InStep(s, spt) && rd.resynch.None?
    ensures Survives(s, rd, spt)
  {
  }

  lemma InStepAgrees(s: State, spt: int)
    requires spt > 0 && InStep(s, spt)
    ensures Agrees(s, spt)
  {
  }
}
