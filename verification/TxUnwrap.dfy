/** Transmit timestamps from fronthaul frame and subframe numbers (fh_if4p5_north_asynch_in): a counter of
    1024-frame cycles, stepped whenever subframe 0 of frame 0 has been received, unwraps the frame number. */
module TxUnwrap {
  import opened SubframeTime

  /** int and uint64_t arithmetic of the original. */
  function Int32(x: int): int { (x + 0x8000_0000) % 0x1_0000_0000 - 0x8000_0000 }

  function U64(x: int): int { x % 0x1_0000_0000_0000_0000 }

  /** The cycle counter after subframe n, in frames. */
  function Unwrapped(unwrap: int, n: nat): int {
    if FrameAt(n) == 0 && SubframeAt(n) == 0 then Int32(unwrap + 1024) else unwrap
  }

  /** timestamp_tx of subframe n with that counter. */
  function Stamp(unwrap: int, n: nat, spt: nat): int {
    U64(U64(U64(FrameAt(n) + U64(unwrap)) * 10 + SubframeAt(n)) * spt)
  }

  /** The counter after receiving subframes ns, from 0. */
  function CounterAfter(ns: seq<nat>): int {
    if ns == [] then 0 else Unwrapped(CounterAfter(ns[..|ns| - 1]), ns[|ns| - 1])
  }

  /** The timestamp of the i-th subframe received. */
  function StampIn(ns: seq<nat>, i: nat, spt: nat): int
    requires i < |ns|
  {
    Stamp(CounterAfter(ns[..i + 1]), ns[i], spt)
  }

  /** Starts of 1024-frame cycles among ns. */
  function Starts(ns: seq<nat>): nat {
    if ns == [] then 0
    else Starts(ns[..|ns| - 1]) + if ns[|ns| - 1] % 10240 == 0 then 1 else 0
  }

  /** The counter is an int: it holds fewer than 2^21 cycles. */
  const MAX_CYCLES := 0x20_0000

  ghost predicate InOrder(ns: seq<nat>) {
    forall i, j | 0 <= i < j < |ns| :: ns[i] < ns[j]
  }

  lemma CycleStart(n: nat)
    ensures FrameAt(n) == 0 && SubframeAt(n) == 0 <==> n % 10240 == 0
    ensures n == 10240 * (n / 10240) + 10 * FrameAt(n) + SubframeAt(n)
  {
    var q, s := n / 10, n % 10;
    assert n == 10240 * (q / 1024) + (10 * (q % 1024) + s);
    DivUnique(n, 10240, q / 1024, 10 * (q % 1024) + s);
  }

  lemma {:induction false} CounterCounts(ns: seq<nat>)
    requires Starts(ns) < MAX_CYCLES
    ensures CounterAfter(ns) == 1024 * Starts(ns)
  {
    if ns != [] {
      CounterCounts(ns[..|ns| - 1]);
      CycleStart(ns[|ns| - 1]);
      hide FrameAt, SubframeAt;
    }
  }

  /** Without overflow the timestamp is the plain product. */
  lemma StampIs(cycles: nat, n: nat, spt: nat)
    requires cycles < MAX_CYCLES && ValidLength(spt)
    ensures Stamp(1024 * cycles, n, spt) == Samples(n + 10240 * (cycles - n / 10240), spt)
  {
    var m := 10240 * cycles + 10 * FrameAt(n) + SubframeAt(n);
    StampIndex(cycles, n);
    hide FrameAt, SubframeAt, Samples, U64;
    ProductFits(m, spt);
  }

  lemma StampIndex(cycles: nat, n: nat)
    requires cycles < MAX_CYCLES
    ensures var m := 10240 * cycles + 10 * FrameAt(n) + SubframeAt(n);
            && m == n + 10240 * (cycles - n / 10240) < 10240 * MAX_CYCLES
            && U64(U64(FrameAt(n) + U64(1024 * cycles)) * 10 + SubframeAt(n)) == m
  {
    CycleStart(n);
    hide FrameAt, SubframeAt;
    assert U64(1024 * cycles) == 1024 * cycles;
  }

  lemma ProductFits(m: nat, spt: nat)
    requires m < 10240 * MAX_CYCLES && ValidLength(spt)
    ensures U64(m * spt) == m * spt == Samples(m, spt)
  {
    assert 10240 * MAX_CYCLES * spt - m * spt == (10240 * MAX_CYCLES - m) * spt;
    assert (10240 * MAX_CYCLES - m) * spt >= 0;
    assert 10240 * MAX_CYCLES * spt < 0x1_0000_0000_0000_0000;
    assert m * spt >= 0;
  }

  /** The 1024-frame cycle of subframe n. */
  function Cycle(n: nat): int { n / 10240 }

  function Apart(ns: seq<nat>, i: nat, j: nat): int
    requires i < |ns| && j < |ns|
  {
    ns[j] as int - ns[i] as int
  }

  /** Timestamps of the run are as far apart as the subframes. */
  ghost predicate Spaced(ns: seq<nat>, spt: nat) {
    forall i, j | 0 <= i < j < |ns| :: StampIn(ns, j, spt) - StampIn(ns, i, spt) == Samples(Apart(ns, i, j), spt)
  }

  /** No start of a cycle is passed over. */
  ghost predicate NoStartMissed(ns: seq<nat>) {
    forall z: nat | ns != [] && z % 10240 == 0 && ns[0] < z <= ns[|ns| - 1] :: z in ns
  }

  /** The timestamps given are. */
  ghost predicate LikeSubframes(ns: seq<nat>, stamps: seq<int>, spt: nat)
    requires |stamps| == |ns|
  {
    forall i, j | 0 <= i < j < |ns| :: stamps[j] - stamps[i] == Samples(Apart(ns, i, j), spt)
  }

  lemma StampsSpaced(ns: seq<nat>, stamps: seq<int>, spt: nat)
    requires InOrder(ns) && Starts(ns) < MAX_CYCLES && ValidLength(spt)
    requires |stamps| == |ns| && forall i | 0 <= i < |ns| :: stamps[i] == StampIn(ns, i, spt)
    ensures LikeSubframes(ns, stamps, spt) <==> NoStartMissed(ns)
  {
    hide InOrder, NoStartMissed, StampIn, Samples, Starts, ValidLength;
    SpacedExactly(ns, spt);
    if LikeSubframes(ns, stamps, spt) {
      forall i, j | 0 <= i < j < |ns|
        ensures StampIn(ns, j, spt) - StampIn(ns, i, spt) == Samples(Apart(ns, i, j), spt)
      {
        assert stamps[j] - stamps[i] == Samples(Apart(ns, i, j), spt);
      }
    }
  }

  lemma {:induction false} StampInIs(ns: seq<nat>, i: nat, spt: nat)
    requires i < |ns| && Starts(ns) < MAX_CYCLES && ValidLength(spt)
    ensures StampIn(ns, i, spt) == Samples(ns[i] + 10240 * (Starts(ns[..i + 1]) - ns[i] / 10240), spt)
  {
    StartsGrow(ns, i + 1);
    CounterCounts(ns[..i + 1]);
    hide Stamp, Samples;
    StampIs(Starts(ns[..i + 1]), ns[i], spt);
  }

  lemma {:induction false} StartsGrow(ns: seq<nat>, i: nat)
    requires i <= |ns|
    ensures Starts(ns[..i]) <= Starts(ns)
    decreases |ns|
  {
    if i < |ns| {
      StartsGrow(ns[..|ns| - 1], i);
      assert ns[..|ns| - 1][..i] == ns[..i];
    } else {
      assert ns[..i] == ns;
    }
  }

  /** Between two successive subframes received, no start was missed. */
  ghost predicate StepRight(m: nat, n: nat) {
    Cycle(n) - Cycle(m) == if n % 10240 == 0 then 1 else 0
  }

  ghost predicate StepsRight(ns: seq<nat>) {
    forall k | 0 <= k < |ns| - 1 :: StepRight(ns[k], ns[k + 1])
  }

  lemma SamplesInjective(a: int, b: int, spt: nat)
    requires spt > 0
    ensures Samples(a, spt) == Samples(b, spt) <==> a == b
  {
    var d := a - b;
    assert Samples(a, spt) - Samples(b, spt) == spt * d;
    MultipleIsFar(spt, d);
  }

  /** The spacing of two received subframes in terms of cycle starts received between them. */
  lemma PairSpacing(ns: seq<nat>, i: nat, j: nat, spt: nat)
    requires i < j < |ns| && Starts(ns) < MAX_CYCLES && ValidLength(spt)
    ensures StampIn(ns, j, spt) - StampIn(ns, i, spt) == Samples(Apart(ns, i, j), spt)
            <==> Starts(ns[..j + 1]) - Starts(ns[..i + 1]) == Cycle(ns[j]) - Cycle(ns[i])
  {
    hide StampIn, Samples, Starts, Cycle;
    StampInIs(ns, i, spt);
    StampInIs(ns, j, spt);
    var a := ns[i] + 10240 * (Starts(ns[..i + 1]) - ns[i] / 10240);
    var b := ns[j] + 10240 * (Starts(ns[..j + 1]) - ns[j] / 10240);
    SamplesApart(a, b, spt);
    SamplesInjective(b - a, Apart(ns, i, j), spt);
    CyclesApart(ns[i], ns[j], Starts(ns[..i + 1]), Starts(ns[..j + 1]));
  }

  lemma CyclesApart(m: nat, n: nat, s: int, t: int)
    ensures (n + 10240 * (t - n / 10240)) - (m + 10240 * (s - m / 10240)) == n - m <==> t - s == Cycle(n) - Cycle(m)
  {
  }

  lemma SamplesApart(a: int, b: int, spt: int)
    ensures Samples(b, spt) - Samples(a, spt) == Samples(b - a, spt)
  {
  }

  lemma {:induction false} StepsSum(ns: seq<nat>, i: nat, j: nat)
    requires i <= j < |ns| && StepsRight(ns)
    ensures Starts(ns[..j + 1]) - Starts(ns[..i + 1]) == Cycle(ns[j]) - Cycle(ns[i])
    decreases j
  {
    if i < j {
      StepsSum(ns, i, j - 1);
      assert ns[..j + 1][..j] == ns[..j];
      assert StepRight(ns[j - 1], ns[j]);
    }
  }

  /** Whole runs, exactly: timestamps are spaced like the subframes, across every wrap of the frame number, if
      and only if no frame-0/subframe-0 in between went unreceived. Other subframes may be skipped. */
  lemma SpacedExactly(ns: seq<nat>, spt: nat)
    requires InOrder(ns) && Starts(ns) < MAX_CYCLES && ValidLength(spt)
    ensures Spaced(ns, spt) <==> NoStartMissed(ns)
  {
    hide StampIn, Samples, StepRight, Starts, Cycle, NoStartMissed;
    if StepsRight(ns) {
      forall i, j | 0 <= i < j < |ns|
        ensures StampIn(ns, j, spt) - StampIn(ns, i, spt) == Samples(Apart(ns, i, j), spt)
      {
        StepsSum(ns, i, j);
        PairSpacing(ns, i, j, spt);
      }
    } else {
      var k :| 0 <= k < |ns| - 1 && !StepRight(ns[k], ns[k + 1]);
      StepSpacing(ns, k, spt);
    }
    StepsAndStarts(ns);
  }

  lemma StepSpacing(ns: seq<nat>, k: nat, spt: nat)
    requires k + 1 < |ns| && Starts(ns) < MAX_CYCLES && ValidLength(spt)
    ensures StampIn(ns, k + 1, spt) - StampIn(ns, k, spt) == Samples(Apart(ns, k, k + 1), spt)
            <==> StepRight(ns[k], ns[k + 1])
  {
    hide StampIn, Samples;
    assert ns[..k + 2][..k + 1] == ns[..k + 1];
    PairSpacing(ns, k, k + 1, spt);
  }

  lemma StepsAndStarts(ns: seq<nat>)
    requires InOrder(ns)
    ensures StepsRight(ns) <==> NoStartMissed(ns)
  {
    if StepsRight(ns) {
      forall z: nat | ns != [] && z % 10240 == 0 && ns[0] < z <= ns[|ns| - 1] ensures z in ns {
        FindStart(ns, z, |ns| - 1);
      }
    }
    if NoStartMissed(ns) {
      forall k | 0 <= k < |ns| - 1 ensures StepRight(ns[k], ns[k + 1]) {
        LastStart(ns, k);
      }
    }
  }

  lemma LastStart(ns: seq<nat>, k: nat)
    requires InOrder(ns) && NoStartMissed(ns) && k + 1 < |ns|
    ensures StepRight(ns[k], ns[k + 1])
  {
    var m, n := ns[k], ns[k + 1];
    OrderedIndex(ns, 0, k);
    OrderedIndex(ns, k + 1, |ns| - 1);
    OrderedIndex(ns, k, k + 1);
    var z := 10240 * (n / 10240);
    Between(ns, k, z);
    Between(ns, k, if z >= 10240 then z - 10240 else 0);
  }

  lemma OrderedIndex(ns: seq<nat>, i: nat, j: nat)
    requires InOrder(ns) && i < |ns| && j < |ns|
    ensures i <= j <==> ns[i] <= ns[j]
  {
  }

  /** A member above the k-th and not above the next is the next. */
  lemma Between(ns: seq<nat>, k: nat, z: nat)
    requires InOrder(ns) && k + 1 < |ns|
    ensures z in ns && ns[k] < z <= ns[k + 1] ==> z == ns[k + 1]
  {
    if z in ns && ns[k] < z <= ns[k + 1] {
      var i :| 0 <= i < |ns| && ns[i] == z;
      OrderedIndex(ns, i, k);
      OrderedIndex(ns, i, k + 1);
    }
  }

  lemma {:induction false} FindStart(ns: seq<nat>, z: nat, j: nat)
    requires InOrder(ns) && StepsRight(ns) && j < |ns| && z % 10240 == 0 && ns[0] < z <= ns[j]
    ensures z in ns
    decreases j
  {
    if z <= ns[j - 1] {
      FindStart(ns, z, j - 1);
    } else {
      assert StepRight(ns[j - 1], ns[j]);
      var c := z / 10240;
      assert z == 10240 * c;
      assert ns[j - 1] / 10240 < c <= ns[j] / 10240;
      assert ns[j] == z;
    }
  }

  /** ... and then they rise strictly. */
  lemma StampsRise(ns: seq<nat>, spt: nat, i: nat, j: nat)
    requires InOrder(ns) && Starts(ns) < MAX_CYCLES && ValidLength(spt) && NoStartMissed(ns)
    requires i < j < |ns|
    ensures StampIn(ns, i, spt) < StampIn(ns, j, spt)
  {
    hide StampIn, Samples, NoStartMissed;
    SpacedExactly(ns, spt);
    assert StampIn(ns, j, spt) - StampIn(ns, i, spt) == Samples(Apart(ns, i, j), spt);
    SamplesPositive(Apart(ns, i, j), spt);
  }

  lemma SamplesPositive(d: int, spt: int)
    requires d > 0 && spt > 0
    ensures Samples(d, spt) > 0
  {
    assert (d - 1) * spt >= 0;
  }

  /** The counter's own limit: two successive starts of cycles are stamped one cycle apart if and only if the
      counter does not overflow on the second. */
  lemma CounterLimit(cycles: nat, n: nat, spt: nat)
    requires 1 <= cycles < MAX_CYCLES && ValidLength(spt) && n % 10240 == 0
    ensures var next := Unwrapped(1024 * cycles, n + 10240);
            Stamp(next, n + 10240, spt) - Stamp(1024 * cycles, n, spt) == Samples(10240, spt)
            <==> cycles + 1 < MAX_CYCLES
  {
    CycleStart(n);
    CycleStart(n + 10240);
    assert n == 10240 * (n / 10240) && (n + 10240) / 10240 == n / 10240 + 1;
    var next := Unwrapped(1024 * cycles, n + 10240);
    assert next == if cycles + 1 < MAX_CYCLES then 1024 * (cycles + 1) else -0x8000_0000;
    hide *;
    StampIs(cycles, n, spt);
    assert n + 10240 * (cycles - n / 10240) == 10240 * cycles;
    SamplesApart(10240 * cycles, 10240 * (cycles + 1), spt);
    if cycles + 1 < MAX_CYCLES {
      StampIs(cycles + 1, n + 10240, spt);
      assert n + 10240 + 10240 * (cycles + 1 - (n + 10240) / 10240) == 10240 * (cycles + 1);
    } else {
      assert cycles + 1 == MAX_CYCLES;
      OverflowStamp(n + 10240, spt);
    }
  }

  lemma OverflowStamp(n: nat, spt: nat)
    requires ValidLength(spt) && FrameAt(n) == 0 && SubframeAt(n) == 0
    ensures Stamp(-0x8000_0000, n, spt) > Samples(10240 * MAX_CYCLES, spt)
  {
    hide FrameAt, SubframeAt;
    var x := 0x5_0000_0000;
    assert U64(-0x8000_0000) == 0x1_0000_0000_0000_0000 - 0x8000_0000;
    var y := U64(U64(-0x8000_0000) * 10);
    assert y == 0x1_0000_0000_0000_0000 - x;
    assert y * spt == 0x1_0000_0000_0000_0000 * (spt - 1) + (0x1_0000_0000_0000_0000 - x * spt);
    assert 0 <= x * spt <= 0x5_0000_0000 * 0x10_0000;
    DivUnique(y * spt, 0x1_0000_0000_0000_0000, spt - 1, 0x1_0000_0000_0000_0000 - x * spt);
  }
}
