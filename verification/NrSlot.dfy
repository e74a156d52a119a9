/** Recovery of the absolute slot number from a timestamp in the gNB's rx_func: slots are not all equally
    long, and the timestamp is divided by their average length. */
module NrSlot {
  import opened SubframeTime

  /** Lengths in samples. In numerology 0 a subframe is one slot; above, the first slot of every half
      subframe is longer than the others (section 5.3.1 of 3GPP TS 38.211). */
  datatype NrParms = NrParms(numerology: nat, slotsPerSubframe: nat, samplesPerSubframe: nat,
                             samplesPerSlot0: nat, samplesPerSlotN0: nat)

  ghost predicate Valid(fp: NrParms) {
    if fp.numerology == 0 then fp.slotsPerSubframe == 1 else fp.slotsPerSubframe >= 2
  }

  /** get_samples_per_slot */
  function SamplesPerSlot(slot: nat, fp: NrParms): nat
    requires Valid(fp)
  {
    if fp.numerology == 0 then fp.samplesPerSubframe
    else if slot % (fp.slotsPerSubframe / 2) != 0 then fp.samplesPerSlotN0 else fp.samplesPerSlot0
  }

  /** Slots after which the lengths repeat. */
  function Period(fp: NrParms): (m: nat)
    requires Valid(fp)
    ensures m >= 1
  {
    if fp.numerology == 0 then 1 else fp.slotsPerSubframe / 2
  }

  /** When slot n starts. */
  function StartTime(n: nat, fp: NrParms): nat
    requires Valid(fp)
  {
    if n == 0 then 0 else StartTime(n - 1, fp) + SamplesPerSlot(n - 1, fp)
  }

  /** The averaged slot length of rx_func. */
  function Average(fp: NrParms): nat
    requires Valid(fp)
  {
    StartTime(Period(fp), fp) / Period(fp)
  }

  /** The slot number rx_func computes, and the one of reception. */
  method AbsoluteSlot(timestampTx: nat, slAhead: nat, fp: NrParms) returns (absslotTx: nat, absslotRx: int)
    requires Valid(fp) && Average(fp) > 0
    ensures absslotTx == timestampTx / Average(fp) && absslotRx == absslotTx - slAhead
  {
    var cumulSamples := SamplesPerSlot(0, fp);
    var i := 1;
    assert StartTime(1, fp) == StartTime(0, fp) + SamplesPerSlot(0, fp);
    while i < fp.slotsPerSubframe / 2
      invariant 1 <= i <= Period(fp) && cumulSamples == StartTime(i, fp)
    {
      cumulSamples := cumulSamples + SamplesPerSlot(i, fp);
      i := i + 1;
    }
    var samples := cumulSamples / i;
    absslotTx := timestampTx / samples;
    absslotRx := absslotTx - slAhead;
  }

  /** Every slot number is recovered from the slot's start time. */
  ghost predicate AlwaysRecovered(fp: NrParms)
    requires Valid(fp) && Average(fp) > 0
  {
    forall n: nat :: StartTime(n, fp) / Average(fp) == n
  }

  // first and other length, of the m slots of a period
  function First(fp: NrParms): nat
    requires Valid(fp)
  {
    SamplesPerSlot(0, fp)
  }

  function Other(fp: NrParms): nat
    requires Valid(fp)
  {
    if fp.numerology == 0 then fp.samplesPerSubframe else fp.samplesPerSlotN0
  }

  /** Start of slot r of a period of length h. */
  function StartIn(q: int, r: int, h: int, l: int, s: int): int {
    q * h + if r == 0 then 0 else l + (r - 1) * s
  }

  /** Samples of a period. */
  function PeriodSamples(m: int, l: int, s: int): int { l + (m - 1) * s }

  lemma {:induction false} StartClosed(n: nat, fp: NrParms)
    requires Valid(fp)
    ensures var m, l, s := Period(fp), First(fp), Other(fp);
            StartTime(n, fp) == StartIn(n / m, n % m, PeriodSamples(m, l, s), l, s)
  {
    hide StartIn, First, Other, Period, SamplesPerSlot, Valid, PeriodSamples;
    var m, l, s := Period(fp), First(fp), Other(fp);
    if n > 0 {
      StartClosed(n - 1, fp);
      NextQuotient(n, m);
      SlotLength(n - 1, fp);
      StartStep((n - 1) / m, (n - 1) % m, m, l, s);
    } else {
      DivUnique(0, m, 0, 0);
      StartZero(PeriodSamples(m, l, s), l, s);
    }
  }

  lemma StartZero(h: int, l: int, s: int)
    ensures StartIn(0, 0, h, l, s) == 0
  {
  }

  lemma SlotLength(n: nat, fp: NrParms)
    requires Valid(fp)
    ensures SamplesPerSlot(n, fp) == if n % Period(fp) == 0 then First(fp) else Other(fp)
  {
    if fp.numerology != 0 {
      DivUnique(0, Period(fp), 0, 0);
    }
  }

  lemma NextQuotient(n: nat, m: nat)
    requires n > 0 && m >= 1
    ensures var q, r := (n - 1) / m, (n - 1) % m;
            if r + 1 < m then n / m == q && n % m == r + 1 else n / m == q + 1 && n % m == 0
  {
    var q, r := (n - 1) / m, (n - 1) % m;
    assert n - 1 == m * q + r;
    if r + 1 < m {
      DivUnique(n, m, q, r + 1);
    } else {
      assert n == (q + 1) * m;
      DivUnique(n, m, q + 1, 0);
    }
  }

  lemma StartStep(q: int, r: nat, m: nat, l: nat, s: nat)
    requires r < m
    ensures var h := PeriodSamples(m, l, s);
            StartIn(q, r, h, l, s) + (if r == 0 then l else s)
            == if r + 1 < m then StartIn(q, r + 1, h, l, s) else StartIn(q + 1, 0, h, l, s)
  {
    var h := PeriodSamples(m, l, s);
    assert (q + 1) * h == q * h + h;
    if r > 0 { assert (r - 1) * s + s == r * s; }
  }

  /** The standard's lengths: in numerology 0 slots are subframes; above, slot n starts after as many whole half
      subframes as have passed, a first slot and the others of its own half. */
  lemma StartsAre(n: nat, fp: NrParms)
    requires Valid(fp)
    ensures fp.numerology == 0 ==> StartTime(n, fp) == n * fp.samplesPerSubframe
    ensures fp.numerology != 0 ==>
              var m := fp.slotsPerSubframe / 2;
              var half := fp.samplesPerSlot0 + (m - 1) * fp.samplesPerSlotN0;
              StartTime(n, fp) == n / m * half
                + if n % m == 0 then 0 else fp.samplesPerSlot0 + (n % m - 1) * fp.samplesPerSlotN0
  {
    StartClosed(n, fp);
    if fp.numerology == 0 {
      DivUnique(n, 1, n, 0);
      hide StartTime;
    } else {
      DivUnique(0, fp.slotsPerSubframe / 2, 0, 0);
      hide StartTime;
    }
  }

  lemma PeriodLength(fp: NrParms)
    requires Valid(fp)
    ensures StartTime(Period(fp), fp) == PeriodSamples(Period(fp), First(fp), Other(fp))
  {
    var m := Period(fp);
    StartClosed(m, fp);
    DivUnique(m, m, 1, 0);
  }

  /** The average is over half a subframe, one first slot and the others, or in numerology 0 the whole subframe. */
  lemma AverageIs(fp: NrParms)
    requires Valid(fp)
    ensures fp.numerology == 0 ==> Average(fp) == fp.samplesPerSubframe
    ensures fp.numerology != 0 ==>
              var m := fp.slotsPerSubframe / 2;
              Average(fp) == (fp.samplesPerSlot0 + (m - 1) * fp.samplesPerSlotN0) / m
  {
    HalfLength(fp);
    hide StartTime;
    if fp.numerology == 0 {
      DivUnique(fp.samplesPerSubframe, 1, fp.samplesPerSubframe, 0);
    }
  }

  lemma HalfLength(fp: NrParms)
    requires Valid(fp)
    ensures fp.numerology == 0 ==> StartTime(Period(fp), fp) == fp.samplesPerSubframe
    ensures fp.numerology != 0 ==>
              StartTime(Period(fp), fp) == fp.samplesPerSlot0 + (fp.slotsPerSubframe / 2 - 1) * fp.samplesPerSlotN0
  {
    PeriodLength(fp);
    hide StartTime;
    if fp.numerology != 0 {
      DivUnique(0, fp.slotsPerSubframe / 2, 0, 0);
    }
  }

  /** The lengths fit: the average is exact, the first slot is no shorter than the others, and what it is
      longer by, times the number of the others, stays below the half subframe. */
  ghost predicate LengthsFit(fp: NrParms)
    requires Valid(fp)
  {
    var m, d := Period(fp), First(fp) - Other(fp);
    StartTime(m, fp) % m == 0 && ExcessFits(m, d, StartTime(m, fp))
  }

  ghost predicate ExcessFits(m: int, d: int, h: int) {
    m == 1 || (d >= 0 && d * (m - 1) < h)
  }

  /** Exactly then every slot number, however large, is recovered. */
  lemma RecoveredExactly(fp: NrParms)
    requires Valid(fp) && Average(fp) > 0
    ensures AlwaysRecovered(fp) <==> LengthsFit(fp)
  {
    var m, l, s := Period(fp), First(fp), Other(fp);
    var h := StartTime(m, fp);
    var avg := h / m;
    PeriodLength(fp);
    assert h == m * avg + h % m;
    if LengthsFit(fp) {
      forall n: nat ensures StartTime(n, fp) / avg == n {
        StartClosed(n, fp);
        Fits(n, m, l, s, avg, h);
      }
    } else if h % m != 0 {
      DriftsAway(m, l, s, avg, h % m);
      StartClosed(avg * m, fp);
      DivUnique(avg * m, m, avg, 0);
    } else {
      assert StartTime(1, fp) == StartTime(0, fp) + l;
      SecondMissed(m, l, s, avg);
    }
  }

  /** What slot r of a period starts after its r averages. */
  function Rest(r: int, m: int, e: int): int { if r == 0 then 0 else (m - r) * e }

  /** With exact average, slot n starts (m - r) * e after n averages, where m * e is the excess of the first. */
  lemma Fits(n: nat, m: nat, l: nat, s: nat, avg: nat, h: nat)
    requires m >= 1 && avg > 0 && h == PeriodSamples(m, l, s) == m * avg
    requires ExcessFits(m, l - s, h)
    ensures StartIn(n / m, n % m, h, l, s) / avg == n
  {
    hide StartIn, Rest, PeriodSamples, ExcessFits;
    var q, r, e := n / m, n % m, avg - s;
    RestSmall(m, r, l, s, avg, h);
    StartSplit(n, q, r, m, l, s, avg, h);
    DivUnique(StartIn(q, r, h, l, s), avg, n, Rest(r, m, e));
  }

  lemma RestSmall(m: nat, r: nat, l: nat, s: nat, avg: nat, h: nat)
    requires r < m && avg > 0 && h == PeriodSamples(m, l, s) == m * avg
    requires ExcessFits(m, l - s, h)
    ensures l - s == m * (avg - s)
    ensures 0 <= Rest(r, m, avg - s) < avg
  {
    var e := avg - s;
    Excess(m, l, s, avg);
    if r > 0 {
      Share(m, e, avg);
      ShareBound(m, r, e, avg);
    }
  }

  lemma Excess(m: nat, l: nat, s: nat, avg: nat)
    requires m >= 1 && l + (m - 1) * s == m * avg
    ensures l - s == m * (avg - s)
  {
    assert m * (avg - s) == m * avg - m * s;
    assert (m - 1) * s == m * s - s;
  }

  lemma Share(m: nat, e: int, avg: nat)
    requires m >= 2
    ensures m * e * (m - 1) < m * avg <==> (m - 1) * e < avg
    ensures m * e >= 0 <==> e >= 0
  {
    var x := avg - (m - 1) * e;
    assert m * avg - m * e * (m - 1) == m * x by { Factor(m, e, avg); }
    if x > 0 { assert m * x > 0; } else { assert m * x <= 0; }
    if e >= 0 { assert m * e >= 0; } else { assert m * e < 0; }
  }

  lemma Factor(m: int, e: int, avg: int)
    ensures m * avg - m * e * (m - 1) == m * (avg - (m - 1) * e)
  {
    assert m * e * (m - 1) == m * ((m - 1) * e);
  }

  lemma ShareBound(m: nat, r: nat, e: int, avg: nat)
    requires 0 < r < m && e >= 0 && (m - 1) * e < avg
    ensures 0 <= (m - r) * e < avg
  {
    assert (m - 1) * e - (m - r) * e == (r - 1) * e;
    assert (r - 1) * e >= 0 && (m - r) * e >= 0;
  }

  lemma StartSplit(n: nat, q: nat, r: nat, m: nat, l: nat, s: nat, avg: nat, h: nat)
    requires r < m && l - s == m * (avg - s) && n == m * q + r && h == m * avg
    ensures StartIn(q, r, h, l, s) == n * avg + Rest(r, m, avg - s)
  {
    assert q * (m * avg) == (m * q) * avg;
    assert (m * q + r) * avg == (m * q) * avg + r * avg;
    if r > 0 {
      assert (r - 1) * s == r * s - s;
      assert r * avg + (m - r) * (avg - s) == m * (avg - s) + r * s by { Spread(r, m, avg, s); }
    }
  }

  lemma Spread(r: int, m: int, avg: int, s: int)
    ensures r * avg + (m - r) * (avg - s) == m * (avg - s) + r * s
  {
    assert (m - r) * (avg - s) == m * (avg - s) - r * (avg - s);
    assert r * (avg - s) == r * avg - r * s;
  }

  /** An inexact average is off by one slot after as many periods as it has samples. */
  lemma DriftsAway(m: nat, l: nat, s: nat, avg: nat, rem: nat)
    requires m >= 1 && avg > 0 && 0 < rem && l + (m - 1) * s == m * avg + rem
    ensures StartIn(avg, 0, l + (m - 1) * s, l, s) / avg != avg * m
  {
    var t := avg * (m * avg + rem);
    assert t == (m * avg + rem) * avg + 0;
    DivUnique(t, avg, m * avg + rem, 0);
  }

  /** Otherwise already the second slot is missed. */
  lemma SecondMissed(m: nat, l: nat, s: nat, avg: nat)
    requires m >= 2 && avg > 0 && l + (m - 1) * s == m * avg
    requires l < s || (l - s) * (m - 1) >= m * avg
    ensures l / avg != 1
  {
    var e := avg - s;
    Excess(m, l, s, avg);
    Share(m, e, avg);
    assert l == avg + (m - 1) * e by {
      assert (m - 1) * e == m * e - e;
    }
    if e < 0 {
      assert (m - 1) * e < 0;
      DivUnique(l, avg, 0, l);
    } else {
      assert l >= avg + avg;
      QuotientAtLeast(l, avg);
    }
  }

  lemma QuotientAtLeast(l: nat, avg: nat)
    requires avg > 0 && l >= avg + avg
    ensures l / avg >= 2
  {
    ShiftIndex(l - avg - avg, avg, 2);
    assert Samples(2, avg) == avg + avg;
  }

  /** The bound stated with the standard's numbers: first slot longer by less than an average slot. */
  lemma StandardFits(fp: NrParms)
    requires Valid(fp) && Average(fp) > 0 && StartTime(Period(fp), fp) % Period(fp) == 0
    requires 0 <= First(fp) - Other(fp) < Average(fp)
    ensures AlwaysRecovered(fp)
  {
    hide StartTime, First, Other, AlwaysRecovered;
    var m := Period(fp);
    assert StartTime(m, fp) == m * Average(fp);
    SmallExcess(First(fp) - Other(fp), m, Average(fp));
    RecoveredExactly(fp);
  }

  lemma SmallExcess(d: nat, m: nat, avg: nat)
    requires d < avg && m >= 1
    ensures d * (m - 1) < m * avg
  {
    assert m * avg - d * (m - 1) == m * (avg - d) + d by { assert m * (avg - d) == m * avg - m * d; }
    assert m * (avg - d) > 0;
  }
}
