/** LTE time: ten subframes a frame, frame numbers modulo 1024, and how the radio unit decodes both
    from a sample timestamp. */
module SubframeTime {

  datatype Option<T> = None | Some(value: T)

  /** C's division and remainder of signed integers, which truncate toward zero. */
  function TruncDiv(a: int, b: int): int
    requires b > 0
  {
    if a >= 0 then a / b else -((-a) / b)
  }

  function TruncMod(a: int, b: int): int
    requires b > 0
  {
    a - b * TruncDiv(a, b)
  }

  /** The quotient is the one nearest to zero: the remainder has the sign of a and is smaller than b. */
  lemma Truncates(a: int, b: int)
    requires b > 0
    ensures a == b * TruncDiv(a, b) + TruncMod(a, b)
    ensures if a >= 0 then 0 <= TruncMod(a, b) < b else -b < TruncMod(a, b) <= 0
  {
  }

  /** `x & 1023`, also for a negative x in two's complement. */
  function Low10(x: int): (r: int)
    ensures 0 <= r < 1024
  {
    x % 1024
  }

  /** frame_rx and tti_rx as rx_rf computes them from a timestamp. */
  function FrameOf(t: int, spt: int): int
    requires spt > 0
  {
    Low10(TruncDiv(t, spt * 10))
  }

  function SubframeOf(t: int, spt: int): int
    requires spt > 0
  {
    TruncMod(TruncDiv(t, spt), 10)
  }

  /** Frame and subframe number of the n-th subframe ever. */
  function FrameAt(n: nat): (f: nat)
    ensures f < 1024
  {
    (n / 10) % 1024
  }

  function SubframeAt(n: nat): (s: nat)
    ensures s < 10
  {
    n % 10
  }

  /** The frame and subframe numbers sf_ahead subframes later, computed from those of the received
      subframe as rx_rf, fh_if4p5_south_in, eNB_top and wakeup_rxtx do. */
  function AheadFrame(frame: int, tti: int, ahead: int): int {
    if tti > 9 - ahead then Low10(frame + 1) else frame
  }

  function AheadSubframe(tti: int, ahead: int): int {
    TruncMod(tti + ahead, 10)
  }

  lemma MultipleIsFar(b: int, d: int)
    requires b > 0
    ensures d > 0 ==> b * d >= b
    ensures d < 0 ==> b * d <= -b
  {
    if d > 0 {
      assert b * (d - 1) >= 0;
    } else if d < 0 {
      assert b * (-1 - d) >= 0;
    }
  }

  lemma DivUnique(a: int, b: int, q: int, r: int)
    requires b > 0 && 0 <= r < b && a == q * b + r
    ensures a / b == q && a % b == r
  {
    var d := a / b - q;
    assert a == b * (a / b) + a % b;
    assert b * d == r - a % b;
    MultipleIsFar(b, d);
  }

  /** The index of the subframe that a timestamp lies in. */
  function Index(t: int, spt: int): (n: int)
    requires spt > 0
    ensures t >= 0 ==> n >= 0
  {
    t / spt
  }

  /** The samples of k subframes. */
  function Samples(k: int, spt: int): int { k * spt }

  /** A whole 1024-frame cycle of samples fits an unsigned 32-bit product. */
  ghost predicate ValidLength(spt: int) {
    0 < spt && 10230 * spt < 0x1_0000_0000
  }

  /** The timestamp decodes to the index of the subframe it lies in. */
  lemma DecodeAt(t: nat, spt: nat)
    requires spt > 0
    ensures FrameOf(t, spt) == FrameAt(Index(t, spt)) && SubframeOf(t, spt) == SubframeAt(Index(t, spt))
  {
    DivTwice(t, spt);
  }

  lemma DivTwice(t: nat, spt: nat)
    requires spt > 0
    ensures t / (spt * 10) == (t / spt) / 10
  {
    var n, r := t / spt, t % spt;
    var q, s := n / 10, n % 10;
    assert n == 10 * q + s;
    assert t == spt * n + r;
    Regroup(t, spt, q, s, r);
    RestOfFrame(s, spt, r);
    DivUnique(t, spt * 10, q, s * spt + r);
  }

  lemma RestOfFrame(s: nat, spt: nat, r: nat)
    requires s < 10 && r < spt
    ensures 0 <= s * spt + r < spt * 10
  {
    assert (9 - s) * spt >= 0;
  }

  lemma Regroup(t: int, spt: int, q: int, s: int, r: int)
    requires t == spt * (10 * q + s) + r
    ensures t == q * (spt * 10) + (s * spt + r)
  {
  }

  /** Moving a timestamp by whole subframes moves its index by as many. */
  lemma ShiftIndex(t: int, spt: int, k: int)
    requires spt > 0
    ensures Index(t + Samples(k, spt), spt) == Index(t, spt) + k
  {
    assert t == spt * (t / spt) + t % spt;
    assert t + k * spt == (t / spt + k) * spt + t % spt by {
      assert (t / spt + k) * spt == (t / spt) * spt + k * spt;
    }
    DivUnique(t + k * spt, spt, t / spt + k, t % spt);
  }

  lemma NextFrame(q: nat)
    ensures Low10(q % 1024 + 1) == (q + 1) % 1024
  {
  }

  /** Look-ahead on subframe indices. */
  lemma AheadAt(n: nat, ahead: nat)
    requires ahead <= 10
    ensures AheadFrame(FrameAt(n), SubframeAt(n), ahead) == FrameAt(n + ahead)
    ensures AheadSubframe(SubframeAt(n), ahead) == SubframeAt(n + ahead)
  {
    var q, e := n / 10, n % 10 + ahead;
    var c := e / 10;
    assert c == if n % 10 > 9 - ahead then 1 else 0;
    assert n + ahead == (q + c) * 10 + (e - 10 * c);
    DivUnique(n + ahead, 10, q + c, e - 10 * c);
    NextFrame(q);
  }

  /** The transmit subframe of a received one is a subframe number. */
  lemma AheadIsSubframe(tti: int, ahead: int)
    requires 0 <= tti && 0 <= ahead
    ensures 0 <= AheadSubframe(tti, ahead) < 10
  {
  }

  /** The next subframe, as ru_thread counts. */
  lemma NextAt(n: nat)
    ensures SubframeAt(n + 1) == if SubframeAt(n) == 9 then 0 else SubframeAt(n) + 1
    ensures FrameAt(n + 1) == if SubframeAt(n) == 9 then Low10(FrameAt(n) + 1) else FrameAt(n)
  {
    var q, s := n / 10, n % 10;
    assert n + 1 == 10 * q + (s + 1);
    assert (n + 1) / 10 == if s == 9 then q + 1 else q;
  }

  lemma SamplesNonNegative(k: nat, spt: nat)
    ensures Samples(k, spt) >= 0
  {
  }

  /** The incremental look-ahead computes exactly the decoding of the transmit timestamp. */
  lemma LookAhead(t: nat, spt: nat, ahead: nat)
    requires spt > 0 && ahead <= 10
    ensures t + Samples(ahead, spt) >= 0
    ensures AheadFrame(FrameOf(t, spt), SubframeOf(t, spt), ahead) == FrameOf(t + Samples(ahead, spt), spt)
    ensures AheadSubframe(SubframeOf(t, spt), ahead) == SubframeOf(t + Samples(ahead, spt), spt)
  {
    hide *;
    SamplesNonNegative(ahead, spt);
    DecodeAt(t, spt);
    DecodeAt(t + Samples(ahead, spt), spt);
    ShiftIndex(t, spt, ahead);
    AheadAt(Index(t, spt), ahead);
  }

  /** The look-ahead is right at every received subframe. */
  ghost predicate LookAheadAlwaysRight(ahead: int) {
    forall n: nat | n + ahead >= 0 ::
      AheadFrame(FrameAt(n), SubframeAt(n), ahead) == FrameAt(n + ahead)
      && AheadSubframe(SubframeAt(n), ahead) == SubframeAt(n + ahead)
  }

  /** ... exactly for a configured sf_ahead of 0 to 10 (or one a whole number of 1024-frame cycles
      above 10, which the frame number cannot tell from 10). */
  lemma LookAheadRange(ahead: int)
    ensures LookAheadAlwaysRight(ahead) <==> 0 <= ahead <= 10 || (ahead > 10 && ahead % 10240 == 10)
  {
    if 0 <= ahead <= 10 {
      forall n: nat | n + ahead >= 0
        ensures AheadFrame(FrameAt(n), SubframeAt(n), ahead) == FrameAt(n + ahead)
             && AheadSubframe(SubframeAt(n), ahead) == SubframeAt(n + ahead)
      {
        AheadAt(n, ahead);
      }
    } else if ahead > 10 {
      LookAheadFar(ahead);
    } else {
      NegativeLookAhead(ahead);
    }
  }

  lemma LookAheadFar(ahead: nat)
    requires ahead > 10
    ensures LookAheadAlwaysRight(ahead) <==> ahead % 10240 == 10
  {
    if ahead % 10240 == 10 {
      forall n: nat
        ensures AheadFrame(FrameAt(n), SubframeAt(n), ahead) == FrameAt(n + ahead)
             && AheadSubframe(SubframeAt(n), ahead) == SubframeAt(n + ahead)
      {
        assert ahead == 10240 * (ahead / 10240) + 10;
        CyclesAhead(n, ahead / 10240);
      }
    } else if LookAheadAlwaysRight(ahead) {
      assert SubframeAt(0) == 0 && SubframeAt(9) == 9 && FrameAt(0) == 0 && FrameAt(9) == 0;
      assert AheadFrame(FrameAt(0), SubframeAt(0), ahead) == FrameAt(0 + ahead);
      assert AheadFrame(FrameAt(9), SubframeAt(9), ahead) == FrameAt(9 + ahead);
      TwoFrames(ahead);
    }
  }

  lemma CyclesAhead(n: nat, c: nat)
    ensures AheadFrame(FrameAt(n), SubframeAt(n), 10240 * c + 10) == FrameAt(n + (10240 * c + 10))
    ensures AheadSubframe(SubframeAt(n), 10240 * c + 10) == SubframeAt(n + (10240 * c + 10))
  {
    hide FrameAt, SubframeAt, AheadFrame, AheadSubframe;
    AheadAt(n, 10);
    CycleShift(n + 10, c);
    AheadCycles(FrameAt(n), SubframeAt(n), c);
    assert n + (10240 * c + 10) == n + 10 + 10240 * c;
  }

  lemma AheadCycles(f: nat, s: nat, c: nat)
    ensures AheadFrame(f, s, 10240 * c + 10) == AheadFrame(f, s, 10)
    ensures AheadSubframe(s, 10240 * c + 10) == AheadSubframe(s, 10)
  {
    var e := s + 10;
    DivUnique(e + 10240 * c, 10, e / 10 + 1024 * c, e % 10);
  }

  /** 10240 subframes are one cycle of frame.subframe numbers. */
  lemma CycleShift(n: nat, c: nat)
    ensures FrameAt(n + 10240 * c) == FrameAt(n) && SubframeAt(n + 10240 * c) == SubframeAt(n)
  {
    assert n + 10240 * c == 10 * (n / 10 + 1024 * c) + n % 10;
    DivUnique(n + 10240 * c, 10, n / 10 + 1024 * c, n % 10);
    DivUnique(n / 10 + 1024 * c, 1024, n / 10 / 1024 + c, n / 10 % 1024);
  }

  lemma TwoFrames(a: nat)
    requires FrameAt(a) == 1 && FrameAt(9 + a) == 1
    ensures a % 10240 == 10
  {
    var f, s := a / 10, a % 10;
    assert f % 1024 == 1;
    assert (9 + a) / 10 == f + (if s > 0 then 1 else 0);
    assert a == 10 * f && f == 1024 * (f / 1024) + 1;
    DivUnique(a, 10240, f / 1024, 10);
  }

  lemma NegativeLookAhead(ahead: int)
    requires ahead < 0
    ensures !LookAheadAlwaysRight(ahead)
  {
    var s := if ahead % 10 == 0 then 1 else 0;
    var n: nat := -10 * ahead + s;
    assert SubframeAt(n) == s && n + ahead >= 0;
    var x := -(s + ahead);
    assert x > 0 && x % 10 != 0;
    assert AheadSubframe(SubframeAt(n), ahead) == -(x % 10) < 0;
    assert SubframeAt(n + ahead) >= 0;
  }

  /** The one subframe, from the awaited one to nine later, whose subframe number is j. */
  function Pending(awaited: nat, j: nat): (n: nat)
    requires j < 10
    ensures awaited <= n <= awaited + 9 && n % 10 == j
  {
    awaited - awaited % 10 + if j >= awaited % 10 then j else j + 10
  }

  lemma PendingUnique(awaited: nat, n: nat)
    requires awaited <= n <= awaited + 9
    ensures n == Pending(awaited, n % 10)
  {
    var r, d := awaited % 10, n - awaited;
    assert awaited == 10 * (awaited / 10) + r;
    if r + d < 10 {
      assert n % 10 == r + d;
    } else {
      assert n == 10 * (awaited / 10 + 1) + (r + d - 10);
      assert n % 10 == r + d - 10;
    }
  }

  lemma PendingNext(awaited: nat, j: nat)
    requires j < 10
    ensures Pending(awaited + 1, j) == if j == SubframeAt(awaited) then awaited + 10 else Pending(awaited, j)
  {
    var q, s := awaited / 10, awaited % 10;
    assert awaited == 10 * q + s;
    if s == 9 {
      assert (awaited + 1) % 10 == 0;
    } else {
      assert (awaited + 1) % 10 == s + 1;
    }
  }
}
