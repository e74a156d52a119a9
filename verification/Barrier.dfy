/** The barrier at which radio units join before L1 is woken (wakeup_L1s): ten bit masks, one a
    subframe number. Each call runs under mutex_RU, so it is one step, and a sequence of calls is an
    interleaving of the units' threads. */
module Barrier {
  import opened Bits
  import opened SubframeTime

  // ---------------------------------------------------------------- rounds, in terms of sets

  /** counts: arrivals of each unit so far; slots: the units marked, by subframe number; wakes: the subframe
      numbers for which L1 was woken, in order. */
  datatype Round = Round(counts: seq<nat>, slots: seq<set<nat>>, wakes: seq<nat>)

  /** One pass of a unit: it arrives with its next subframe, or, a slave that still waits, calls in subframe tti. */
  datatype Pass = Arrives(unit: nat) | Waits(unit: nat, tti: nat)

  /** Every unit is marked. */
  predicate AllMarked(s: Round, marked: set<nat>) {
    forall i: nat | i < |s.counts| :: i in marked
  }

  predicate UnitsOnly(s: Round, marked: set<nat>) {
    forall i | i in marked :: i < |s.counts|
  }

  /** Unit r arrives with its next subframe; idle units never arrive and are marked along. */
  function Arrive(s: Round, r: nat, idle: set<nat>): Round
    requires r < |s.counts| && |s.slots| == 10
  {
    var j := SubframeAt(s.counts[r]);
    var marked := s.slots[j] + {r} + idle;
    var counts := s.counts[r := s.counts[r] + 1];
    if AllMarked(s, marked) then Round(counts, s.slots[j := {}], s.wakes + [j])
    else Round(counts, s.slots[j := marked], s.wakes)
  }

  /** Idle unit w calls in subframe tti: the other idle units are marked; L1 is not woken. */
  function Wait(s: Round, w: nat, tti: nat, idle: set<nat>): Round
    requires tti < 10 && |s.slots| == 10
  {
    var marked := s.slots[tti] + (idle - {w});
    s.(slots := s.slots[tti := if AllMarked(s, marked) then {} else marked])
  }

  ghost predicate ValidPass(n: nat, p: Pass, idle: set<nat>) {
    match p
    case Arrives(r) => r < n && r !in idle
    case Waits(w, tti) => w < n && w in idle && tti < 10
  }

  function Step(s: Round, p: Pass, idle: set<nat>): Round
    requires ValidPass(|s.counts|, p, idle) && |s.slots| == 10
  {
    match p
    case Arrives(r) => Arrive(s, r, idle)
    case Waits(w, tti) => Wait(s, w, tti, idle)
  }

  function Start(n: nat): Round {
    Round(seq(n, _ => 0), seq(10, _ => {}), [])
  }

  function Run(n: nat, passes: seq<Pass>, idle: set<nat>): (s: Round)
    requires forall i | 0 <= i < |passes| :: ValidPass(n, passes[i], idle)
    ensures |s.counts| == n && |s.slots| == 10
  {
    if passes == [] then Start(n)
    else Step(Run(n, passes[..|passes| - 1], idle), passes[|passes| - 1], idle)
  }

  /** Idle units and slots are of units. */
  ghost predicate InRange(s: Round, idle: set<nat>) {
    && UnitsOnly(s, idle) && |s.slots| == 10
    && (forall j | 0 <= j < 10 :: UnitsOnly(s, s.slots[j]))
  }

  ghost predicate Active(s: Round, idle: set<nat>, a: int) {
    0 <= a < |s.counts| && a !in idle
  }

  /** Slot j marks exactly the active units that have delivered its pending subframe m. */
  ghost predicate SlotExact(s: Round, idle: set<nat>, j: nat, m: nat)
    requires j < |s.slots|
  {
    forall a | Active(s, idle, a) :: a in s.slots[j] <==> s.counts[a] > m
  }

  /** The wakes so far are as many as the slowest active unit has arrivals, one for each subframe in order;
      no unit is more than ten ahead; and each slot is exact. */
  ghost predicate Exact(s: Round, idle: set<nat>) {
    var w := |s.wakes|;
    && InRange(s, idle)
    && (forall a | Active(s, idle, a) :: w <= s.counts[a] <= w + 10)
    && (exists a :: Active(s, idle, a) && s.counts[a] == w)
    && (forall i | 0 <= i < w :: s.wakes[i] == SubframeAt(i))
    && (forall j | 0 <= j < 10 :: SlotExact(s, idle, j, Pending(w, j)))
  }

  /** Unit r is the last one to deliver the awaited subframe. */
  ghost predicate IsLast(s: Round, idle: set<nat>, r: nat) {
    r < |s.counts| && s.counts[r] == |s.wakes| && forall a | Active(s, idle, a) && a != r :: s.counts[a] > |s.wakes|
  }

  lemma StartExact(n: nat, idle: set<nat>)
    requires exists a: nat :: a < n && a !in idle
    requires forall a | a in idle :: a < n
    ensures Exact(Start(n), idle)
  {
    var a: nat :| a < n && a !in idle;
    var s := Start(n);
    assert Active(s, idle, a) && s.counts[a] == 0;
  }

  lemma ArriveCounts(s: Round, r: nat, idle: set<nat>)
    requires r < |s.counts| && |s.slots| == 10
    ensures Arrive(s, r, idle).counts == s.counts[r := s.counts[r] + 1]
  {
  }

  lemma StepInRange(s: Round, p: Pass, idle: set<nat>)
    requires InRange(s, idle) && ValidPass(|s.counts|, p, idle)
    ensures InRange(Step(s, p, idle), idle)
    ensures Step(s, p, idle).wakes == s.wakes
            || (p.Arrives? && Step(s, p, idle).wakes == s.wakes + [SubframeAt(s.counts[p.unit])])
  {
    hide SubframeAt;
  }

  /** A call of an idle unit keeps the barrier exact: an active unit still owes the pending subframe of any slot. */
  lemma WaitKeepsExact(s: Round, w: nat, tti: nat, idle: set<nat>)
    requires Exact(s, idle) && w in idle && tti < 10
    ensures Exact(Wait(s, w, tti, idle), idle) && Wait(s, w, tti, idle).wakes == s.wakes
    ensures Wait(s, w, tti, idle).slots[tti] == s.slots[tti] + (idle - {w})
  {
    var s' := Wait(s, w, tti, idle);
    var a :| Active(s, idle, a) && s.counts[a] == |s.wakes|;
    assert SlotExact(s, idle, tti, Pending(|s.wakes|, tti));
    assert a !in s.slots[tti] + (idle - {w});
    assert Active(s', idle, a);
    hide Pending;
    forall j | 0 <= j < 10 ensures SlotExact(s', idle, j, Pending(|s.wakes|, j)) {
      assert SlotExact(s, idle, j, Pending(|s.wakes|, j));
      forall b | Active(s', idle, b) ensures b in s'.slots[j] <==> s'.counts[b] > Pending(|s.wakes|, j) {
        assert Active(s, idle, b);
      }
    }
  }

  /** Arriving less than ten ahead, a unit meets the slot of its own subframe; and it completes that slot exactly
      when it is the last one. */
  lemma ArrivalSlot(s: Round, r: nat, idle: set<nat>)
    requires Exact(s, idle) && Active(s, idle, r) && s.counts[r] < |s.wakes| + 10
    ensures Pending(|s.wakes|, SubframeAt(s.counts[r])) == s.counts[r]
    ensures SlotExact(s, idle, SubframeAt(s.counts[r]), s.counts[r])
    ensures AllMarked(s, s.slots[SubframeAt(s.counts[r])] + {r} + idle) <==> IsLast(s, idle, r)
  {
    var w, m := |s.wakes|, s.counts[r];
    var j := SubframeAt(m);
    PendingUnique(w, m);
    assert Pending(w, j) == m;
    hide Pending, SubframeAt;
    assert SlotExact(s, idle, j, m);
    var b :| Active(s, idle, b) && s.counts[b] == w;
    if AllMarked(s, s.slots[j] + {r} + idle) {
      assert b in s.slots[j] + {r} + idle;
      forall a | Active(s, idle, a) && a != r ensures s.counts[a] > w {
        assert a in s.slots[j] + {r} + idle;
      }
    }
    if IsLast(s, idle, r) {
      forall a: nat | a < |s.counts| ensures a in s.slots[j] + {r} + idle {
        assert a in idle || Active(s, idle, a);
      }
    }
  }

  /** An arrival of a unit less than ten ahead keeps the barrier exact, and wakes L1 exactly when it is the
      last one. */
  lemma ArriveKeepsExact(s: Round, r: nat, idle: set<nat>)
    requires Exact(s, idle) && Active(s, idle, r) && s.counts[r] < |s.wakes| + 10
    ensures Exact(Arrive(s, r, idle), idle)
    ensures Arrive(s, r, idle).wakes == if IsLast(s, idle, r) then s.wakes + [SubframeAt(|s.wakes|)] else s.wakes
  {
    ArrivalSlot(s, r, idle);
    if IsLast(s, idle, r) {
      LastKeepsExact(s, r, idle);
    } else {
      OtherKeepsExact(s, r, idle);
    }
  }

  lemma LastKeepsExact(s: Round, r: nat, idle: set<nat>)
    requires Exact(s, idle) && Active(s, idle, r) && IsLast(s, idle, r)
    requires AllMarked(s, s.slots[SubframeAt(s.counts[r])] + {r} + idle)
    ensures Exact(Arrive(s, r, idle), idle)
  {
    var w := |s.wakes|;
    var s' := Arrive(s, r, idle);
    forall a | Active(s', idle, a) ensures w + 1 <= s'.counts[a] <= w + 11 {
      assert Active(s, idle, a);
    }
    assert Active(s', idle, r) && s'.counts[r] == w + 1;
    var w' := w + 1;
    forall j | 0 <= j < 10 ensures SlotExact(s', idle, j, Pending(w', j)) {
      PendingNext(w, j);
      hide Pending;
      assert SlotExact(s, idle, j, Pending(w, j));
      forall a | Active(s', idle, a) ensures a in s'.slots[j] <==> s'.counts[a] > Pending(w', j) {
        assert Active(s, idle, a);
        OtherPending(w, j);
      }
    }
    forall a | Active(s', idle, a) ensures s'.counts[a] <= w + 1 + 10 {
      assert Active(s, idle, a);
    }
  }

  lemma OtherPending(w: nat, j: nat)
    requires j < 10
    ensures Pending(w, j) == w <==> j == SubframeAt(w)
  {
    PendingUnique(w, w);
  }

  lemma OtherKeepsExact(s: Round, r: nat, idle: set<nat>)
    requires Exact(s, idle) && Active(s, idle, r) && s.counts[r] < |s.wakes| + 10 && !IsLast(s, idle, r)
    requires !AllMarked(s, s.slots[SubframeAt(s.counts[r])] + {r} + idle)
    requires Pending(|s.wakes|, SubframeAt(s.counts[r])) == s.counts[r]
    ensures Exact(Arrive(s, r, idle), idle)
  {
    var w := |s.wakes|;
    var s' := Arrive(s, r, idle);
    StillOwed(s, r, idle);
    hide IsLast;
    forall a | Active(s', idle, a) ensures w <= s'.counts[a] <= w + 10 {
      assert Active(s, idle, a);
    }
    forall j | 0 <= j < 10 ensures SlotExact(s', idle, j, Pending(w, j)) {
      assert Pending(w, j) % 10 == j;
      assert j != SubframeAt(s.counts[r]) ==> Pending(w, j) != s.counts[r];
      hide Pending, SubframeAt;
      assert SlotExact(s, idle, j, Pending(w, j));
      forall a | Active(s', idle, a) ensures a in s'.slots[j] <==> s'.counts[a] > Pending(w, j) {
        assert Active(s, idle, a);
      }
    }
  }

  /** Someone else still owes the awaited subframe when a unit arrives that is not last. */
  lemma StillOwed(s: Round, r: nat, idle: set<nat>)
    requires Exact(s, idle) && Active(s, idle, r) && !IsLast(s, idle, r)
    ensures exists a :: Active(Arrive(s, r, idle), idle, a) && Arrive(s, r, idle).counts[a] == |s.wakes|
  {
    var w := |s.wakes|;
    ArriveCounts(s, r, idle);
    hide Pending, SubframeAt, Arrive;
    var a :| Active(s, idle, a) && a != r && s.counts[a] == w by {
      if s.counts[r] == w {
        var b :| Active(s, idle, b) && b != r && s.counts[b] <= w;
      } else {
        var b :| Active(s, idle, b) && s.counts[b] == w;
      }
    }
    assert Active(Arrive(s, r, idle), idle, a);
  }

  // ---------------------------------------------------------------- whole interleavings

  /** Arrivals of unit a. */
  function Count(passes: seq<Pass>, a: nat): nat {
    if passes == [] then 0
    else Count(passes[..|passes| - 1], a) + if passes[|passes| - 1] == Arrives(a) then 1 else 0
  }

  ghost predicate ValidRun(n: nat, passes: seq<Pass>, idle: set<nat>) {
    && (exists a: nat :: a < n && a !in idle) && (forall a | a in idle :: a < n)
    && (forall i | 0 <= i < |passes| :: ValidPass(n, passes[i], idle))
  }

  /** No unit gets more than ten arrivals ahead of the slowest. */
  ghost predicate Disciplined(n: nat, passes: seq<Pass>, idle: set<nat>) {
    forall i, a: nat | 0 <= i < |passes| && passes[i].Arrives? && a < n && a !in idle ::
      Count(passes[..i], passes[i].unit) < Count(passes[..i], a) + 10
  }

  lemma Slowest(s: Round, idle: set<nat>) returns (a: nat)
    requires Exact(s, idle)
    ensures Active(s, idle, a) && s.counts[a] == |s.wakes|
  {
    a :| Active(s, idle, a) && s.counts[a] == |s.wakes|;
  }

  /** A disciplined run is so without its last pass, and an arrival at its end is of a unit less than ten ahead. */
  lemma DisciplinedBefore(n: nat, passes: seq<Pass>, idle: set<nat>)
    requires ValidRun(n, passes, idle) && Disciplined(n, passes, idle) && passes != []
    ensures var k := |passes| - 1;
            && ValidRun(n, passes[..k], idle) && Disciplined(n, passes[..k], idle)
            && (passes[k].Arrives? ==>
                  forall a: nat | a < n && a !in idle ::
                    Count(passes[..k], passes[k].unit) < Count(passes[..k], a) + 10)
  {
    var k := |passes| - 1;
    assert forall i | 0 <= i < k :: passes[..k][..i] == passes[..i];
    hide Count;
  }

  /** For every interleaving in which no active unit gets more than ten arrivals ahead of the slowest, idle units
      calling as they like: the barrier stays exact, so the number of wakes is the least number of arrivals. */
  lemma {:induction false} BarrierExact(n: nat, passes: seq<Pass>, idle: set<nat>)
    requires ValidRun(n, passes, idle) && Disciplined(n, passes, idle)
    ensures Exact(Run(n, passes, idle), idle)
    ensures forall a: nat | a < n :: Run(n, passes, idle).counts[a] == Count(passes, a)
  {
    hide Arrive, Wait;
    if passes == [] {
      StartExact(n, idle);
    } else {
      var k := |passes| - 1;
      DisciplinedBefore(n, passes, idle);
      BarrierExact(n, passes[..k], idle);
      LastPass(n, passes, idle);
    }
  }

  lemma LastPass(n: nat, passes: seq<Pass>, idle: set<nat>)
    requires ValidRun(n, passes, idle) && passes != []
    requires var k := |passes| - 1;
             var s := Run(n, passes[..k], idle);
             && Exact(s, idle) && (forall a: nat | a < n :: s.counts[a] == Count(passes[..k], a))
             && (passes[k].Arrives? ==>
                   forall a: nat | a < n && a !in idle ::
                    Count(passes[..k], passes[k].unit) < Count(passes[..k], a) + 10)
    ensures Exact(Run(n, passes, idle), idle)
    ensures forall a: nat | a < n :: Run(n, passes, idle).counts[a] == Count(passes, a)
  {
    var k := |passes| - 1;
    var before, p := passes[..k], passes[k];
    var s := Run(n, before, idle);
    assert ValidPass(n, p, idle);
    match p
    case Arrives(r) =>
      var a := Slowest(s, idle);
      hide Exact;
      assert s.counts[r] == Count(before, r) && s.counts[a] == Count(before, a);
      ArriveCounts(s, r, idle);
      hide Arrive;
      ArriveKeepsExact(s, r, idle);
    case Waits(w, tti) =>
      hide Exact;
      WaitKeepsExact(s, w, tti, idle);
  }

  /** Arrivals, or wakes, at subframe number j among the first c subframes. */
  function At(c: nat, j: nat): nat
    requires j < 10
  {
    (c + 9 - j) / 10
  }

  function WakesAt(wakes: seq<nat>, j: nat): nat {
    if wakes == [] then 0 else WakesAt(wakes[..|wakes| - 1], j) + if wakes[|wakes| - 1] == j then 1 else 0
  }

  lemma {:induction false} WakesInOrder(wakes: seq<nat>, j: nat)
    requires j < 10 && forall i | 0 <= i < |wakes| :: wakes[i] == SubframeAt(i)
    ensures WakesAt(wakes, j) == At(|wakes|, j)
  {
    if wakes != [] {
      var k := |wakes| - 1;
      WakesInOrder(wakes[..k], j);
      AtStep(k, j);
    }
  }

  lemma AtStep(c: nat, j: nat)
    requires j < 10
    ensures At(c + 1, j) == At(c, j) + if SubframeAt(c) == j then 1 else 0
  {
    var q, s := c / 10, c % 10;
    assert c == 10 * q + s;
    assert (c + 9 - j) / 10 == if s > j then q + 1 else q;
    assert (c + 1 + 9 - j) / 10 == if s + 1 > j then q + 1 else q;
  }

  lemma AtMonotone(c: nat, d: nat, j: nat)
    requires c <= d && j < 10
    ensures At(c, j) <= At(d, j)
  {
  }

  /** Bit a of slot j is set exactly while unit a has arrived there once more than L1 was woken there. */
  ghost predicate BitsExact(s: Round, idle: set<nat>) {
    forall a, j: nat | Active(s, idle, a) && j < 10 && |s.slots| == 10 ::
      At(s.counts[a], j) == WakesAt(s.wakes, j) + if a in s.slots[j] then 1 else 0
  }

  lemma AtWindow(w: nat, c: nat, j: nat)
    requires w <= c <= w + 10 && j < 10
    ensures At(c, j) == At(w, j) + if c > Pending(w, j) then 1 else 0
  {
    var q, s := w / 10, w % 10;
    assert w == 10 * q + s;
    assert At(w, j) == if s > j then q + 1 else q;
    var m := Pending(w, j);
    assert m == if s > j then 10 * q + 10 + j else 10 * q + j;
    assert At(m, j) == At(w, j) && At(m + 1, j) == At(w, j) + 1 && At(m + 10, j) == At(w, j) + 1;
    if c <= m {
      AtMonotone(c, m, j);
      AtMonotone(w, c, j);
    } else {
      AtMonotone(m + 1, c, j);
      AtMonotone(c, m + 10, j);
    }
  }

  lemma ExactBits(s: Round, idle: set<nat>)
    requires Exact(s, idle)
    ensures BitsExact(s, idle)
  {
    forall a, j: nat | Active(s, idle, a) && j < 10
      ensures At(s.counts[a], j) == WakesAt(s.wakes, j) + if a in s.slots[j] then 1 else 0
    {
      WakesInOrder(s.wakes, j);
      AtWindow(|s.wakes|, s.counts[a], j);
      assert SlotExact(s, idle, j, Pending(|s.wakes|, j));
    }
  }

  /** Wakes of a slot: the least number of arrivals there over the active units. */
  lemma WakesAreMinimum(s: Round, idle: set<nat>, j: nat)
    requires Exact(s, idle) && j < 10
    ensures forall a | Active(s, idle, a) :: WakesAt(s.wakes, j) <= At(s.counts[a], j)
    ensures exists a :: Active(s, idle, a) && WakesAt(s.wakes, j) == At(s.counts[a], j)
  {
    WakesInOrder(s.wakes, j);
    forall a | Active(s, idle, a) ensures WakesAt(s.wakes, j) <= At(s.counts[a], j) {
      AtMonotone(|s.wakes|, s.counts[a], j);
    }
    var a :| Active(s, idle, a) && s.counts[a] == |s.wakes|;
    assert WakesAt(s.wakes, j) == At(s.counts[a], j);
  }

  /** Ten ahead is the exact limit: an arrival leaves the bits right if and only if the arriving unit was less
      than ten ahead of the wakes. */
  lemma TenAheadIsTheLimit(s: Round, r: nat, idle: set<nat>)
    requires Exact(s, idle) && Active(s, idle, r)
    ensures BitsExact(Arrive(s, r, idle), idle) <==> s.counts[r] < |s.wakes| + 10
  {
    var w := |s.wakes|;
    var s' := Arrive(s, r, idle);
    if s.counts[r] < w + 10 {
      ArriveKeepsExact(s, r, idle);
      ExactBits(s', idle);
    } else {
      var j := SubframeAt(w);
      assert SubframeAt(w + 10) == j;
      var a :| Active(s, idle, a) && s.counts[a] == w;
      OtherPending(w, j);
      assert SlotExact(s, idle, j, w);
      assert a !in s.slots[j] + {r} + idle;
      WakesInOrder(s.wakes, j);
      AtStep(w, j);
      AtMonotone(w + 1, w + 10, j);
      AtStep(w + 10, j);
      assert Active(s', idle, r) && s'.counts[r] == w + 11;
      assert At(s'.counts[r], j) >= WakesAt(s'.wakes, j) + 2;
    }
  }

  /** Whole interleavings, exactly: the bits are right after every pass if and only if no active unit ever gets
      more than ten arrivals ahead of the slowest. */
  lemma BitsAlwaysExact(n: nat, passes: seq<Pass>, idle: set<nat>)
    requires ValidRun(n, passes, idle)
    ensures (forall k | 0 <= k <= |passes| :: BitsExact(Run(n, passes[..k], idle), idle))
            <==> Disciplined(n, passes, idle)
  {
    hide BitsExact, Step, Exact;
    if Disciplined(n, passes, idle) {
      forall k | 0 <= k <= |passes| ensures BitsExact(Run(n, passes[..k], idle), idle) {
        DisciplinedPrefix(n, passes, k, idle);
        BarrierExact(n, passes[..k], idle);
        ExactBits(Run(n, passes[..k], idle), idle);
      }
    } else {
      var k := FirstBreach(n, passes, idle);
    }
  }

  lemma DisciplinedPrefix(n: nat, passes: seq<Pass>, k: nat, idle: set<nat>)
    requires ValidRun(n, passes, idle) && Disciplined(n, passes, idle) && k <= |passes|
    ensures ValidRun(n, passes[..k], idle) && Disciplined(n, passes[..k], idle)
  {
    hide Count;
    assert forall i | 0 <= i < k :: passes[..k][..i] == passes[..i];
  }

  /** The first arrival of a unit that is ten ahead already leaves the bits wrong. */
  lemma {:induction false} FirstBreach(n: nat, passes: seq<Pass>, idle: set<nat>) returns (k: nat)
    requires ValidRun(n, passes, idle) && !Disciplined(n, passes, idle)
    ensures k <= |passes| && !BitsExact(Run(n, passes[..k], idle), idle)
  {
    hide BitsExact, Arrive, Exact, Count;
    var last := |passes| - 1;
    var before := passes[..last];
    assert forall i | 0 <= i < last :: before[..i] == passes[..i];
    if Disciplined(n, before, idle) {
      k := |passes|;
      assert passes[..k] == passes;
      var p := passes[last];
      assert ValidPass(n, p, idle);
      var a: nat :| p.Arrives? && a < n && a !in idle && Count(before, p.unit) >= Count(before, a) + 10;
      BarrierExact(n, before, idle);
      var s := Run(n, before, idle);
      AtLeastWakes(s, a, idle);
      TenAheadIsTheLimit(s, p.unit, idle);
    } else {
      k := FirstBreach(n, before, idle);
      assert before[..k] == passes[..k];
    }
  }

  lemma AtLeastWakes(s: Round, a: nat, idle: set<nat>)
    requires Exact(s, idle) && a < |s.counts| && a !in idle
    ensures s.counts[a] >= |s.wakes|
  {
    assert Active(s, idle, a);
  }

  /** It is met in runs: two units, of which one arrives eleven times and the other not at all. */
  lemma ElevenAhead(passes: seq<Pass>, idle: set<nat>)
    requires |passes| == 11 && (forall i | 0 <= i < 11 :: passes[i] == Arrives(0)) && idle == {}
    ensures ValidRun(2, passes, idle)
    ensures exists k :: 0 <= k <= 11 && !BitsExact(Run(2, passes[..k], idle), idle)
  {
    hide BitsExact, Run;
    assert 1 !in idle;
    var ten := passes[..10];
    CountOf(ten);
    assert Count(passes[..10], passes[10].unit) == 10 && Count(passes[..10], 1) == 0;
    var k := FirstBreach(2, passes, idle);
  }

  lemma {:induction false} CountOf(passes: seq<Pass>)
    requires forall i | 0 <= i < |passes| :: passes[i] == Arrives(0)
    ensures Count(passes, 0) == |passes| && Count(passes, 1) == 0
  {
    if passes != [] {
      CountOf(passes[..|passes| - 1]);
    }
  }

  // ---------------------------------------------------------------- the masks and the interleavings of the units

  datatype RuState = RU_IDLE | RU_CONFIG | RU_READY | RU_RUN | RU_ERROR | RU_SYNC | RU_CHECK_SYNC

  class Ru {
    var state: RuState
    var waitCnt: int
    var isSlave: bool
    var ttiRx: nat
  }

  /** A slave that still waits, and will after one more call. */
  ghost predicate Waiting(ru: Ru)
    reads ru
  {
    ru.state != RU_SYNC && ru.isSlave && ru.waitCnt > 1
  }

  /** Idle units synchronize or still wait; the others run without waiting. */
  ghost predicate Standing(ruList: seq<Ru>, idle: set<nat>)
    reads ruList
  {
    forall i | 0 <= i < |ruList| ::
      if i in idle then ruList[i].state == RU_SYNC || Waiting(ruList[i])
      else ruList[i].state in {RU_RUN, RU_CHECK_SYNC} && ruList[i].waitCnt == 0
  }

  /** Calls of waiting unit w. */
  function WaitCount(passes: seq<Pass>, w: nat): nat {
    if passes == [] then 0
    else
      var last := passes[|passes| - 1];
      WaitCount(passes[..|passes| - 1], w) + if last.Waits? && last.unit == w then 1 else 0
  }

  lemma {:induction false} WaitCountGrows(passes: seq<Pass>, i: nat, w: nat)
    requires i <= |passes|
    ensures WaitCount(passes[..i], w) <= WaitCount(passes, w)
    decreases |passes|
  {
    if i < |passes| {
      WaitCountGrows(passes[..|passes| - 1], i, w);
      assert passes[..|passes| - 1][..i] == passes[..i];
    } else {
      assert passes[..i] == passes;
    }
  }

  /** After i passes, the units that wait will do so for all the calls they still make. */
  ghost predicate Patient(ruList: seq<Ru>, passes: seq<Pass>, i: nat)
    requires i <= |passes|
    reads ruList
  {
    forall k | 0 <= k < |passes| && passes[k].Waits? && passes[k].unit < |ruList| ::
      var w := passes[k].unit;
      Waiting(ruList[w]) && ruList[w].waitCnt > 1 + WaitCount(passes, w) - WaitCount(passes[..i], w)
  }

  class L1 {
    const ruList: seq<Ru>
    const ruMask: array<nat>

    /** init_eNB_proc: no unit has arrived. */
    constructor (ruList: seq<Ru>)
      requires |ruList| <= 30 && forall i, j | 0 <= i < j < |ruList| :: ruList[i] != ruList[j]
      ensures this.ruList == ruList && fresh(ruMask) && Valid() && forall j | 0 <= j < 10 :: ruMask[j] == 0
      ensures forall idle: set<nat> | Standing(ruList, idle) :: Matches(Start(|ruList|), idle)
    {
      this.ruList := ruList;
      ruMask := new nat[10](_ => 0);
      new;
      forall k: nat ensures !Has(0, k) { HasZero(k); }
    }

    /** At most 30 units: (1 << num_RU) - 1 is an int. */
    ghost predicate Valid()
      reads ruMask
    {
      && ruMask.Length == 10 && |ruList| <= 30
      && (forall i, j | 0 <= i < j < |ruList| :: ruList[i] != ruList[j])
      && (forall j, k: nat | 0 <= j < 10 && k >= |ruList| :: !Has(ruMask[j], k))
    }

    /** Only waits have ended: where the counter was 1, in a call for a subframe other than 9. */
    twostate predicate OnlyWaitsEnded(tti: nat)
      reads ruList
    {
      forall i | 0 <= i < |ruList| :: ruList[i].state == old(ruList[i].state)
        && ruList[i].isSlave == old(ruList[i].isSlave) && ruList[i].ttiRx == old(ruList[i].ttiRx)
        && ruList[i].waitCnt == if old(ruList[i].waitCnt) == 1 && tti != 9 then 0 else old(ruList[i].waitCnt)
    }

    /** The loop of wakeup_L1s over the units: the caller's own bit is set unless it still waits, and those of
        units that are synchronizing, and of other slaves that still wait. */
    method MarkArrival(r: nat)
      requires Valid() && r < |ruList| && ruList[r].ttiRx < 10
      modifies ruMask, ruList
      ensures OnlyWaitsEnded(ruList[r].ttiRx)
      ensures forall i | 0 <= i < |ruList| ::
                ruList[i].waitCnt == if old(ruList[i].waitCnt) == 1 && ruList[r].ttiRx != 9 then 0
                                     else old(ruList[i].waitCnt)
      ensures forall j | 0 <= j < 10 && j != ruList[r].ttiRx :: ruMask[j] == old(ruMask[j])
      ensures forall k: nat :: Has(ruMask[ruList[r].ttiRx], k) <==>
                || old(Has(ruMask[ruList[r].ttiRx], k))
                || (k < |ruList| && (|| (k == r && ruList[k].waitCnt == 0)
                                     || ruList[k].state == RU_SYNC
                                     || (ruList[k].isSlave && ruList[k].waitCnt > 0 && k != r)))
    {
      hide Has, SetBit;
      var tti := ruList[r].ttiRx;
      for i := 0 to |ruList|
        invariant forall m | 0 <= m < |ruList| :: ruList[m].state == old(ruList[m].state)
                    && ruList[m].isSlave == old(ruList[m].isSlave) && ruList[m].ttiRx == old(ruList[m].ttiRx)
                    && ruList[m].waitCnt == if m < i && old(ruList[m].waitCnt) == 1 && tti != 9 then 0
                                            else old(ruList[m].waitCnt)
        invariant forall j | 0 <= j < 10 && j != tti :: ruMask[j] == old(ruMask[j])
        invariant forall k: nat :: Has(ruMask[tti], k) <==> old(Has(ruMask[tti], k)) || (k < i && MarksBit(k, r))
      {
        var other := ruList[i];
        if other.waitCnt == 1 && tti != 9 {
          other.waitCnt := 0;
        }
        ghost var mask := ruMask[tti];
        forall k: nat ensures Has(SetBit(mask, i), k) <==> k == i || Has(mask, k) {
          HasSetBit(mask, i, k);
        }
        if i == r && other.waitCnt == 0 {
          ruMask[tti] := SetBit(ruMask[tti], i);
        } else if other.state == RU_SYNC || (other.isSlave && other.waitCnt > 0 && i != r) {
          ruMask[tti] := SetBit(ruMask[tti], i);
        }
      }
    }

    /** A call of unit r that has dealt with waits sets the bit of unit k. */
    ghost predicate MarksBit(k: nat, r: nat)
      requires k < |ruList|
      reads ruList
    {
      || (k == r && ruList[k].waitCnt == 0)
      || ruList[k].state == RU_SYNC
      || (ruList[k].isSlave && ruList[k].waitCnt > 0 && k != r)
    }

    /** wakeup_L1s, called by unit r. When every unit's bit is set the mask is cleared, and L1 is woken
        unless the caller still waits. */
    method WakeupL1s(r: nat) returns (woken: bool)
      requires Valid() && r < |ruList| && ruList[r].ttiRx < 10
      modifies ruMask, ruList
      ensures Valid() && OnlyWaitsEnded(ruList[r].ttiRx)
      ensures forall j | 0 <= j < 10 && j != ruList[r].ttiRx :: ruMask[j] == old(ruMask[j])
      ensures var tti := ruList[r].ttiRx;
              var all := forall i: nat | i < |ruList| :: old(Has(ruMask[tti], i)) || MarksBit(i, r);
              && (forall k: nat :: Has(ruMask[tti], k) <==>
                    !all && (old(Has(ruMask[tti], k)) || (k < |ruList| && MarksBit(k, r))))
              && (all ==> ruMask[tti] == 0)
              && woken == (all && ruList[r].waitCnt == 0)
    {
      MarkArrival(r);
      var tti := ruList[r].ttiRx;
      assert forall k: nat :: Has(ruMask[tti], k) <==> old(Has(ruMask[tti], k)) || (k < |ruList| && MarksBit(k, r));
      hide MarksBit;
      IsFull(ruMask[tti], |ruList|);
      forall k: nat ensures !Has(0, k) { HasZero(k); }
      woken := false;
      if ruMask[tti] == Full(|ruList|) {
        assert AllBelow(ruMask[tti], |ruList|);
        ruMask[tti] := 0;
        woken := ruList[r].waitCnt == 0;
      } else {
        assert !SomeFrom(ruMask[tti], |ruList|);
      }
    }

    /** The masks are those of the round, and the units stand as they should. */
    ghost predicate Matches(s: Round, idle: set<nat>)
      reads ruMask, ruList
    {
      && Valid() && |s.slots| == 10 && |s.counts| == |ruList|
      && (forall j, k: nat | 0 <= j < 10 && k < |ruList| :: Has(ruMask[j], k) <==> k in s.slots[j])
      && Standing(ruList, idle)
    }

    /** Whom a call marks: the caller, if it runs, and the other idle units. */
    lemma WhoIsMarked(r: nat, idle: set<nat>)
      requires r < |ruList| && Standing(ruList, idle) && ruList[r].state != RU_SYNC
      ensures forall k: nat | k < |ruList| ::
                MarksBit(k, r) <==> if r in idle then k in idle - {r} else k in {r} + idle
    {
    }

    /** Unit r joins with the subframe it has received. */
    method Join(r: nat, ghost s: Round, ghost idle: set<nat>) returns (woken: bool)
      requires r < |ruList| && Matches(s, idle) && r !in idle && InRange(s, idle)
      requires ruList[r].ttiRx == SubframeAt(s.counts[r])
      modifies ruMask, ruList
      ensures Matches(Arrive(s, r, idle), idle) && OnlyWaitsEnded(ruList[r].ttiRx)
      ensures woken == (Arrive(s, r, idle).wakes != s.wakes)
    {
      hide FrameAt, SubframeAt;
      ghost var tti := ruList[r].ttiRx;
      ghost var marked := s.slots[tti] + {r} + idle;
      woken := WakeupL1s(r);
      assert Standing(ruList, idle);
      WhoIsMarked(r, idle);
      assert forall k: nat | k < |ruList| :: (old(Has(ruMask[tti], k)) || MarksBit(k, r)) <==> k in marked;
      hide MarksBit;
      SlotMatches(s, Arrive(s, r, idle), tti, marked, idle);
    }

    /** The masks after a call that marks one slot. */
    lemma SlotMatches(s: Round, s': Round, tti: nat, marked: set<nat>, idle: set<nat>)
      requires Valid() && |s.slots| == 10 && |s.counts| == |s'.counts| == |ruList| && Standing(ruList, idle) && tti < 10
      requires s'.slots == s.slots[tti := if AllMarked(s, marked) then {} else marked]
      requires forall j, k: nat | 0 <= j < 10 && j != tti && k < |ruList| :: Has(ruMask[j], k) <==> k in s.slots[j]
      requires forall k: nat | k < |ruList| :: Has(ruMask[tti], k) <==> !AllMarked(s, marked) && k in marked
      ensures Matches(s', idle)
    {
      hide Valid, Standing, AllMarked;
    }

    /** The next pass of unit r: it has received the subframe after its last one, and joins. */
    method Arrival(r: nat, ghost s: Round, ghost idle: set<nat>) returns (woken: bool)
      requires r < |ruList| && Matches(s, idle) && r !in idle && InRange(s, idle)
      requires ruList[r].ttiRx == SubframeAt(s.counts[r])
      modifies ruMask, ruList
      ensures Matches(Arrive(s, r, idle), idle)
      ensures ruList[r].ttiRx == SubframeAt(Arrive(s, r, idle).counts[r])
      ensures forall i | 0 <= i < |ruList| && i != r :: ruList[i].ttiRx == old(ruList[i].ttiRx)
      ensures forall i | 0 <= i < |ruList| && i in idle && old(Waiting(ruList[i])) ::
                Waiting(ruList[i]) && ruList[i].waitCnt == old(ruList[i].waitCnt)
      ensures woken == (Arrive(s, r, idle).wakes != s.wakes)
    {
      hide FrameAt, SubframeAt, Has, Arrive;
      var tti := ruList[r].ttiRx;
      woken := Join(r, s, idle);
      var next := if tti == 9 then 0 else tti + 1;
      NextAt(s.counts[r]);
      ArriveCounts(s, r, idle);
      ruList[r].ttiRx := next;
    }

    /** A pass of slave w that still waits after it, in subframe tti: it counts down and calls, and L1 is not woken. */
    method WaitingPass(w: nat, tti: nat, ghost s: Round, ghost idle: set<nat>) returns (woken: bool)
      requires w < |ruList| && Matches(s, idle) && w in idle && InRange(s, idle) && tti < 10
      requires Waiting(ruList[w]) && ruList[w].waitCnt > 2
      modifies ruMask, ruList
      ensures Matches(Wait(s, w, tti, idle), idle) && !woken
      ensures forall i | 0 <= i < |ruList| && i != w :: ruList[i].ttiRx == old(ruList[i].ttiRx)
      ensures forall i | 0 <= i < |ruList| && i in idle && old(Waiting(ruList[i])) ::
                Waiting(ruList[i]) && ruList[i].waitCnt == old(ruList[i].waitCnt) - if i == w then 1 else 0
    {
      ruList[w].ttiRx := tti;
      ruList[w].waitCnt := ruList[w].waitCnt - 1;
      ghost var marked := s.slots[tti] + (idle - {w});
      label called:
      woken := WakeupL1s(w);
      assert Standing(ruList, idle);
      WhoIsMarked(w, idle);
      assert forall k: nat | k < |ruList| :: (old@called(Has(ruMask[tti], k)) || MarksBit(k, w)) <==> k in marked;
      hide MarksBit;
      SlotMatches(s, Wait(s, w, tti, idle), tti, marked, idle);
    }

    /** One pass of whichever unit. */
    method TakePass(p: Pass, ghost s: Round, ghost idle: set<nat>) returns (woken: bool, tti: nat)
      requires Matches(s, idle) && InRange(s, idle) && ValidPass(|ruList|, p, idle)
      requires forall a | 0 <= a < |ruList| && a !in idle :: ruList[a].ttiRx == SubframeAt(s.counts[a])
      requires p.Waits? ==> Waiting(ruList[p.unit]) && ruList[p.unit].waitCnt > 2
      modifies ruMask, ruList
      ensures Matches(Step(s, p, idle), idle)
      ensures forall a | 0 <= a < |ruList| && a !in idle :: ruList[a].ttiRx == SubframeAt(Step(s, p, idle).counts[a])
      ensures forall i | 0 <= i < |ruList| && i in idle && old(Waiting(ruList[i])) ::
                && Waiting(ruList[i])
                && ruList[i].waitCnt == old(ruList[i].waitCnt) - if p.Waits? && p.unit == i then 1 else 0
      ensures Step(s, p, idle).wakes == s.wakes + if woken then [tti] else []
    {
      StepInRange(s, p, idle);
      hide Arrive, Wait, SubframeAt, Waiting, Matches, InRange;
      match p
      case Arrives(r) =>
        tti := ruList[r].ttiRx;
        woken := Arrival(r, s, idle);
        ArriveCounts(s, r, idle);
      case Waits(w, t) =>
        tti := t;
        woken := WaitingPass(w, tti, s, idle);
        WaitCounts(s, w, tti, idle);
    }

    lemma WaitCounts(s: Round, w: nat, tti: nat, idle: set<nat>)
      requires tti < 10 && |s.slots| == 10
      ensures Wait(s, w, tti, idle).counts == s.counts && Wait(s, w, tti, idle).wakes == s.wakes
    {
    }

    /** The i-th pass. */
    method NextPass(passes: seq<Pass>, i: nat, ghost s: Round, ghost idle: set<nat>) returns (woken: bool, tti: nat)
      requires i < |passes| && forall k | 0 <= k < |passes| :: ValidPass(|ruList|, passes[k], idle)
      requires Going(passes, i, s, idle)
      modifies ruMask, ruList
      ensures Going(passes, i + 1, Step(s, passes[i], idle), idle)
      ensures Step(s, passes[i], idle).wakes == s.wakes + if woken then [tti] else []
    {
      var p := passes[i];
      StepInRange(s, p, idle);
      hide Step, SubframeAt, Matches, InRange, WaitCount;
      assert passes[..i + 1][..i] == passes[..i];
      Counts(passes, i);
      woken, tti := TakePass(p, s, idle);
    }

    /** How the calls of waiting units count up to and with pass i. */
    lemma Counts(passes: seq<Pass>, i: nat)
      requires i < |passes|
      ensures forall w :: WaitCount(passes[..i + 1], w)
                          == WaitCount(passes[..i], w) + if passes[i].Waits? && passes[i].unit == w then 1 else 0
      ensures forall w :: WaitCount(passes[..i + 1], w) <= WaitCount(passes, w)
    {
      assert passes[..i + 1][..i] == passes[..i];
      forall w: nat ensures WaitCount(passes[..i + 1], w) <= WaitCount(passes, w) {
        WaitCountGrows(passes, i + 1, w);
      }
    }

    /** Where the units stand after i passes. */
    ghost predicate Going(passes: seq<Pass>, i: nat, s: Round, idle: set<nat>)
      requires i <= |passes|
      reads ruMask, ruList
    {
      && Matches(s, idle) && InRange(s, idle) && Patient(ruList, passes, i)
      && (forall a | 0 <= a < |ruList| && a !in idle :: ruList[a].ttiRx == SubframeAt(s.counts[a]))
    }
  }

  /** Any interleaving of passes of the units, from the empty masks, while idle slaves wait long enough: the wakes
      are those of the rounds. */
  method Joins(l1: L1, passes: seq<Pass>, ghost idle: set<nat>) returns (wakes: seq<nat>)
    requires ValidRun(|l1.ruList|, passes, idle) && l1.Matches(Start(|l1.ruList|), idle)
    requires forall i | 0 <= i < |l1.ruList| && i !in idle :: l1.ruList[i].ttiRx == 0
    requires Patient(l1.ruList, passes, 0)
    modifies l1.ruMask, l1.ruList
    ensures wakes == Run(|l1.ruList|, passes, idle).wakes
    ensures l1.Matches(Run(|l1.ruList|, passes, idle), idle)
    ensures Disciplined(|l1.ruList|, passes, idle) ==>
              && (forall i | 0 <= i < |wakes| :: wakes[i] == SubframeAt(i))
              && (forall a: nat | a < |l1.ruList| && a !in idle :: |wakes| <= Count(passes, a))
              && (exists a: nat :: a < |l1.ruList| && a !in idle && |wakes| == Count(passes, a))
  {
    ghost var n := |l1.ruList|;
    ghost var s := Start(n);
    assert l1.Going(passes, 0, s, idle);
    hide Step, L1.Going, L1.Matches, Disciplined, Count;
    wakes := [];
    for i := 0 to |passes|
      invariant s == Run(n, passes[..i], idle) && wakes == s.wakes
      invariant l1.Going(passes, i, s, idle)
    {
      assert passes[..i + 1][..i] == passes[..i];
      var woken, tti := l1.NextPass(passes, i, s, idle);
      s := Step(s, passes[i], idle);
      if woken {
        wakes := wakes + [tti];
      }
    }
    assert passes[..|passes|] == passes;
    GoingMatches(l1, passes, s, idle);
    if Disciplined(n, passes, idle) {
      WakesOfRun(n, passes, idle);
    }
  }

  lemma GoingMatches(l1: L1, passes: seq<Pass>, s: Round, idle: set<nat>)
    requires l1.Going(passes, |passes|, s, idle)
    ensures l1.Matches(s, idle)
  {
  }

  /** The wakes of a disciplined run. */
  lemma WakesOfRun(n: nat, passes: seq<Pass>, idle: set<nat>)
    requires ValidRun(n, passes, idle) && Disciplined(n, passes, idle)
    ensures var wakes := Run(n, passes, idle).wakes;
            && (forall i | 0 <= i < |wakes| :: wakes[i] == SubframeAt(i))
            && (forall a: nat | a < n && a !in idle :: |wakes| <= Count(passes, a))
            && (exists a: nat :: a < n && a !in idle && |wakes| == Count(passes, a))
  {
    BarrierExact(n, passes, idle);
    hide Run, Count, SubframeAt, Pending;
    var s := Run(n, passes, idle);
    var a := Slowest(s, idle);
    forall b: nat | b < n && b !in idle ensures |s.wakes| <= Count(passes, b) {
      assert Active(s, idle, b);
    }
  }
}
