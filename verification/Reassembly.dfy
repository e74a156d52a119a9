/** Reassembly of uplink subframes from fronthaul packets (fh_if4p5_south_in): symbols of up to ten
    subframes may be on their way at once, and each goes into the mask slot of its subframe number. */
module Reassembly {
  import opened Bits
  import opened SubframeTime
  import opened Tdd

  datatype PacketType = IF4p5_PULFFT | IF4p5_PULTICK | IF4p5_PRACH

  /** A packet as the remote unit means it: at counts subframes from the beginning of time. */
  datatype Sent = Sent(at: nat, kind: PacketType, symbol: nat)

  /** What recv_IF4p5 delivers: frame and subframe numbers only. */
  datatype Packet = Packet(frame: nat, subframe: nat, kind: PacketType, symbol: nat)

  function OnWire(p: Sent): Packet {
    Packet(FrameAt(p.at), SubframeAt(p.at), p.kind, p.symbol)
  }

  datatype FrameParms = FrameParms(duplex: Duplex, symbolsPerTti: nat, ulSymbolsInS: nat, spt: nat)

  /** Number n of the full mask (1 << n) - 1 for a subframe number. */
  function SymbolsDue(fp: FrameParms, subframe: nat): nat {
    if fp.duplex.TDD? && SubframeSelect(fp.duplex, subframe) == Some(SF_S) then fp.ulSymbolsInS
    else fp.symbolsPerTti
  }

  /** ... in the standard's pattern: a special subframe is due its uplink symbols, any other all. */
  lemma SymbolsDueByPattern(fp: FrameParms, subframe: nat)
    requires subframe < 10 && Supported(fp.duplex)
    ensures SymbolsDue(fp, subframe)
            == if Pattern(fp.duplex, subframe) == SF_S then fp.ulSymbolsInS else fp.symbolsPerTti
  {
    SelectFollowsTable(fp.duplex, subframe);
    hide SubframeSelect;
  }

  /** The mask update for one packet. */
  function Mark(mask: nat, kind: PacketType, symbol: nat): nat {
    match kind
    case IF4p5_PULFFT => SetBit(mask, symbol)
    case IF4p5_PULTICK => TICK_MASK
    case IF4p5_PRACH => mask
  }

  /** No subframe is complete before anything has come. */
  predicate SomethingDue(fp: FrameParms) {
    fp.symbolsPerTti > 0 && fp.ulSymbolsInS > 0
  }

  // ---------------------------------------------------------------- what has been received

  /** Packet p delivers symbol k; a tick stands for all sixteen. */
  predicate Carries(p: Sent, k: nat) {
    (p.kind == IF4p5_PULFFT && p.symbol == k) || (p.kind == IF4p5_PULTICK && k < 16)
  }

  /** Symbol k of subframe n is among the packets received. */
  ghost predicate Got(hist: seq<Sent>, n: nat, k: nat) {
    exists i :: 0 <= i < |hist| && hist[i].at == n && Carries(hist[i], k)
  }

  /** Subframe n counts as complete: all its due symbols are there, or some symbol at or above their
      number is (which a tick delivers). */
  ghost predicate Complete(fp: FrameParms, hist: seq<Sent>, n: nat) {
    var due := SymbolsDue(fp, SubframeAt(n));
    (exists k: nat :: k >= due && Got(hist, n, k)) || (forall k: nat | k < due :: Got(hist, n, k))
  }

  ghost predicate TickSeen(hist: seq<Sent>, n: nat) {
    exists i :: 0 <= i < |hist| && hist[i].at == n && hist[i].kind == IF4p5_PULTICK
  }

  ghost predicate SymbolSeen(hist: seq<Sent>, n: nat, k: nat) {
    exists i :: 0 <= i < |hist| && hist[i].at == n && hist[i].kind == IF4p5_PULFFT && hist[i].symbol == k
  }

  /** Header fields of four bits. */
  ghost predicate ValidPackets(hist: seq<Sent>) {
    forall i | 0 <= i < |hist| :: hist[i].symbol < 16
  }

  lemma GotIs(hist: seq<Sent>, n: nat, k: nat)
    ensures Got(hist, n, k) <==> SymbolSeen(hist, n, k) || (k < 16 && TickSeen(hist, n))
  {
    if SymbolSeen(hist, n, k) {
      var i :| 0 <= i < |hist| && hist[i].at == n && hist[i].kind == IF4p5_PULFFT && hist[i].symbol == k;
      assert Carries(hist[i], k);
    }
    if k < 16 && TickSeen(hist, n) {
      var i :| 0 <= i < |hist| && hist[i].at == n && hist[i].kind == IF4p5_PULTICK;
      assert Carries(hist[i], k);
    }
  }

  /** A subframe that is due all its symbols, numbered below symbols_per_tti, is complete exactly when
      a tick or every one of the symbols has arrived. */
  lemma NormalSubframe(fp: FrameParms, hist: seq<Sent>, n: nat)
    requires SymbolsDue(fp, SubframeAt(n)) == fp.symbolsPerTti < 16
    requires forall i | 0 <= i < |hist| && hist[i].at == n && hist[i].kind == IF4p5_PULFFT ::
               hist[i].symbol < fp.symbolsPerTti
    ensures Complete(fp, hist, n) <==>
              TickSeen(hist, n) || forall k: nat | k < fp.symbolsPerTti :: SymbolSeen(hist, n, k)
  {
    var due := fp.symbolsPerTti;
    forall k: nat ensures Got(hist, n, k) <==> SymbolSeen(hist, n, k) || (k < 16 && TickSeen(hist, n)) {
      GotIs(hist, n, k);
    }
    if TickSeen(hist, n) {
      assert Got(hist, n, 15);
    } else {
      forall k: nat | k >= due ensures !Got(hist, n, k) {
      }
    }
  }

  /** The remote unit sends only a tick for a TDD subframe that is not uplink. */
  predicate OnlyTick(fp: FrameParms, n: nat) {
    fp.duplex.TDD? && SubframeSelect(fp.duplex, SubframeAt(n)) != Some(SF_UL)
  }

  /** What fh_if4p5_north_out sends: that tick, or the symbols of the whole subframe, which are numbered from 0. */
  ghost predicate SentByUnit(fp: FrameParms, sent: seq<Sent>) {
    forall i | 0 <= i < |sent| && sent[i].kind != IF4p5_PRACH ::
      if OnlyTick(fp, sent[i].at) then sent[i].kind == IF4p5_PULTICK
      else sent[i].kind == IF4p5_PULFFT && sent[i].symbol < fp.symbolsPerTti
  }

  /** Everything the remote unit sends for subframe n has arrived. */
  ghost predicate Arrived(fp: FrameParms, hist: seq<Sent>, n: nat) {
    if OnlyTick(fp, n) then TickSeen(hist, n)
    else forall k: nat | k < fp.symbolsPerTti :: SymbolSeen(hist, n, k)
  }

  /** Symbol numbers fit the header and the tick's mask, and something is due. */
  ghost predicate ValidParms(fp: FrameParms) {
    0 < fp.symbolsPerTti < 16 && 0 < fp.ulSymbolsInS <= 16
  }

  /** In every reception from such a unit, special subframes included, the numeric test means that everything has
      arrived: a subframe is complete exactly when its tick or its full set of symbols is there. */
  lemma CompleteIsArrived(fp: FrameParms, hist: seq<Sent>, n: nat)
    requires ValidParms(fp) && SentByUnit(fp, hist)
    ensures Complete(fp, hist, n) <==> Arrived(fp, hist, n)
  {
    if OnlyTick(fp, n) {
      OnlyTicksCount(fp, hist, n);
    } else {
      assert !TickSeen(hist, n);
      assert SymbolsDue(fp, SubframeAt(n)) == fp.symbolsPerTti;
      NormalSubframe(fp, hist, n);
    }
  }

  lemma OnlyTicksCount(fp: FrameParms, hist: seq<Sent>, n: nat)
    requires ValidParms(fp) && SentByUnit(fp, hist) && OnlyTick(fp, n)
    ensures Complete(fp, hist, n) <==> TickSeen(hist, n)
  {
    forall k: nat ensures Got(hist, n, k) <==> k < 16 && TickSeen(hist, n) {
      GotIs(hist, n, k);
      assert !SymbolSeen(hist, n, k);
    }
    var due := SymbolsDue(fp, SubframeAt(n));
    assert 0 < due <= 16;
    assert Got(hist, n, 0) <==> TickSeen(hist, n);
  }

  /** So the subframes before the awaited one are those of which everything has arrived. */
  lemma AwaitedHasNotArrived(fp: FrameParms, hist: seq<Sent>, first: nat, awaited: nat)
    requires IsAwaited(fp, hist, first, awaited)
    ensures ValidParms(fp) && SentByUnit(fp, hist) ==>
              && (forall n: nat | first <= n < awaited :: Arrived(fp, hist, n))
              && !Arrived(fp, hist, awaited)
  {
    hide Complete, Arrived, SentByUnit;
    if ValidParms(fp) && SentByUnit(fp, hist) {
      forall n: nat ensures Complete(fp, hist, n) <==> Arrived(fp, hist, n) {
        CompleteIsArrived(fp, hist, n);
      }
    }
  }

  // ---------------------------------------------------------------- the mask slots

  /** Every slot holds exactly the symbols received of its pending subframe. */
  ghost predicate SlotsHold(masks: seq<nat>, hist: seq<Sent>, awaited: nat) {
    |masks| == 10
    && forall j, k: nat | 0 <= j < 10 :: Has(masks[j], k) <==> Got(hist, Pending(awaited, j), k)
  }

  /** Nothing has come from more than nine subframes ahead. */
  ghost predicate NotBeyond(hist: seq<Sent>, awaited: nat) {
    forall i | 0 <= i < |hist| && hist[i].kind != IF4p5_PRACH :: hist[i].at <= awaited + 9
  }

  lemma GotSnoc(hist: seq<Sent>, p: Sent, n: nat, k: nat)
    ensures Got(hist + [p], n, k) <==> Got(hist, n, k) || (p.at == n && Carries(p, k))
  {
    var longer := hist + [p];
    if Got(hist, n, k) {
      var i :| 0 <= i < |hist| && hist[i].at == n && Carries(hist[i], k);
      assert longer[i] == hist[i];
    }
    if p.at == n && Carries(p, k) {
      assert longer[|hist|] == p;
    }
  }

  lemma MarkedBit(mask: nat, p: Sent, k: nat)
    requires p.symbol < 16 && (Has(mask, k) ==> k < 16)
    ensures Has(Mark(mask, p.kind, p.symbol), k) <==> Has(mask, k) || Carries(p, k)
  {
    HasTick(k);
    HasSetBit(mask, p.symbol, k);
  }

  lemma GotBelow16(hist: seq<Sent>, n: nat, k: nat)
    requires ValidPackets(hist)
    ensures Got(hist, n, k) ==> k < 16
  {
  }

  /** A packet of the window goes into the slot of its subframe and no other. */
  lemma ReceiveKeepsSlots(masks: seq<nat>, hist: seq<Sent>, awaited: nat, p: Sent)
    requires SlotsHold(masks, hist, awaited) && ValidPackets(hist) && p.symbol < 16
    requires p.kind != IF4p5_PRACH ==> awaited <= p.at <= awaited + 9
    ensures var j := SubframeAt(p.at);
            SlotsHold(masks[j := Mark(masks[j], p.kind, p.symbol)], hist + [p], awaited)
  {
    var s := SubframeAt(p.at);
    var masks' := masks[s := Mark(masks[s], p.kind, p.symbol)];
    forall j, k: nat | 0 <= j < 10
      ensures Has(masks'[j], k) <==> Got(hist + [p], Pending(awaited, j), k)
    {
      var n := Pending(awaited, j);
      GotSnoc(hist, p, n, k);
      GotBelow16(hist, n, k);
      assert Has(masks[j], k) <==> Got(hist, n, k);
      if p.kind != IF4p5_PRACH { PendingUnique(awaited, p.at); }
      if j == s {
        MarkedBit(masks[j], p, k);
      }
    }
  }

  /** ... and the window is exactly what that takes: an uplink packet from outside it leaves every slot
      with its subframe's symbols only if it repeats what the subframe in its slot already has. */
  lemma ReceiveExact(masks: seq<nat>, hist: seq<Sent>, awaited: nat, p: Sent)
    requires SlotsHold(masks, hist, awaited) && ValidPackets(hist) && p.symbol < 16 && p.kind != IF4p5_PRACH
    ensures var j := SubframeAt(p.at);
            SlotsHold(masks[j := Mark(masks[j], p.kind, p.symbol)], hist + [p], awaited)
            <==> awaited <= p.at <= awaited + 9 || forall k: nat | Carries(p, k) :: Got(hist, Pending(awaited, j), k)
  {
    if awaited <= p.at <= awaited + 9 {
      ReceiveKeepsSlots(masks, hist, awaited, p);
    } else {
      var s := SubframeAt(p.at);
      var n := Pending(awaited, s);
      var masks' := masks[s := Mark(masks[s], p.kind, p.symbol)];
      if SlotsHold(masks', hist + [p], awaited) {
        forall k: nat | Carries(p, k) ensures Got(hist, n, k) {
          OutsideBit(masks, hist, awaited, p, s, k);
          assert Has(masks'[s], k) <==> Got(hist + [p], n, k);
        }
      } else {
        var j, k: nat :| 0 <= j < 10 && !(Has(masks'[j], k) <==> Got(hist + [p], Pending(awaited, j), k));
        OutsideBit(masks, hist, awaited, p, j, k);
      }
    }
  }

  /** A packet from beyond the window, met at the very first reception: a tick of ten subframes later fills the
      slot of the awaited subframe, and the receiver would return it although nothing of it has come. */
  lemma TooEarly(fp: FrameParms, first: nat)
    requires 0 < SymbolsDue(fp, SubframeAt(first)) <= 16
    ensures var p := Sent(first + 10, IF4p5_PULTICK, 0);
            var j := SubframeAt(p.at);
            var masks := seq(10, _ => 0)[j := Mark(0, p.kind, p.symbol)];
            masks[SubframeAt(first)] >= Full(SymbolsDue(fp, SubframeAt(first))) && !Complete(fp, [p], first)
  {
    var p := Sent(first + 10, IF4p5_PULTICK, 0);
    assert SubframeAt(p.at) == SubframeAt(first);
    var due := SymbolsDue(fp, SubframeAt(first));
    forall k: nat | k < due ensures Has(TICK_MASK, k) {
      HasTick(k);
    }
    AtLeastFull(TICK_MASK, due);
    assert !Got([p], first, 0);
  }

  lemma OutsideBit(masks: seq<nat>, hist: seq<Sent>, awaited: nat, p: Sent, j: nat, k: nat)
    requires SlotsHold(masks, hist, awaited) && ValidPackets(hist) && p.symbol < 16 && j < 10
    requires !(awaited <= p.at <= awaited + 9)
    ensures var s := SubframeAt(p.at);
            Has(masks[s := Mark(masks[s], p.kind, p.symbol)][j], k)
            <==> Got(hist, Pending(awaited, j), k) || (j == s && Carries(p, k))
    ensures Got(hist + [p], Pending(awaited, j), k) <==> Got(hist, Pending(awaited, j), k)
  {
    GotSnoc(hist, p, Pending(awaited, j), k);
    GotBelow16(hist, Pending(awaited, j), k);
    assert Has(masks[j], k) <==> Got(hist, Pending(awaited, j), k);
    MarkedBit(masks[j], p, k);
  }

  /** Clearing the slot of the completed subframe hands it to the subframe ten later. */
  lemma AdvanceKeepsSlots(masks: seq<nat>, hist: seq<Sent>, awaited: nat)
    requires SlotsHold(masks, hist, awaited) && NotBeyond(hist, awaited)
    ensures SlotsHold(masks[SubframeAt(awaited) := 0], hist, awaited + 1)
  {
    var masks' := masks[SubframeAt(awaited) := 0];
    forall j, k: nat | 0 <= j < 10
      ensures Has(masks'[j], k) <==> Got(hist, Pending(awaited + 1, j), k)
    {
      PendingNext(awaited, j);
      HasZero(k);
      hide Pending, SubframeAt;
      assert Has(masks[j], k) <==> Got(hist, Pending(awaited, j), k);
    }
  }

  ghost predicate NothingCame(hist: seq<Sent>, n: nat) {
    forall k: nat :: !Got(hist, n, k)
  }

  /** ... and that needs nothing of that subframe to have come before. */
  lemma AdvanceExact(masks: seq<nat>, hist: seq<Sent>, awaited: nat)
    requires SlotsHold(masks, hist, awaited)
    ensures SlotsHold(masks[SubframeAt(awaited) := 0], hist, awaited + 1) <==> NothingCame(hist, awaited + 10)
  {
    var s := SubframeAt(awaited);
    var masks' := masks[s := 0];
    forall j, k: nat | 0 <= j < 10
      ensures Pending(awaited + 1, j) == if j == s then awaited + 10 else Pending(awaited, j)
      ensures Has(masks'[j], k) <==> j != s && Got(hist, Pending(awaited, j), k)
    {
      PendingNext(awaited, j);
      HasZero(k);
      hide Pending, SubframeAt;
      assert Has(masks[j], k) <==> Got(hist, Pending(awaited, j), k);
    }
    hide Pending, Got, SubframeAt;
    if SlotsHold(masks', hist, awaited + 1) {
      var n := awaited + 10;
      forall k: nat ensures !Got(hist, n, k) {
        assert Has(masks'[s], k) <==> Got(hist, Pending(awaited + 1, s), k);
      }
    }
  }

  /** What happens to the slots: a packet is marked, or the awaited subframe is returned. */
  datatype Event = Receive(p: Sent) | Return

  datatype Slots = Slots(masks: seq<nat>, hist: seq<Sent>, awaited: nat)

  function Happen(s: Slots, e: Event): Slots
    requires |s.masks| == 10
  {
    match e
    case Receive(p) =>
      var j := SubframeAt(p.at);
      Slots(s.masks[j := Mark(s.masks[j], p.kind, p.symbol)], s.hist + [p], s.awaited)
    case Return => Slots(s.masks[SubframeAt(s.awaited) := 0], s.hist, s.awaited + 1)
  }

  function Reception(first: nat, events: seq<Event>): (s: Slots)
    ensures |s.masks| == 10
  {
    if events == [] then Slots(seq(10, _ => 0), [], first)
    else Happen(Reception(first, events[..|events| - 1]), events[|events| - 1])
  }

  ghost predicate Held(s: Slots) {
    SlotsHold(s.masks, s.hist, s.awaited)
  }

  /** A packet is of the window or repeats what the subframe of its slot already has; a subframe is returned before
      anything has come of the one ten later. */
  ghost predicate Fits(s: Slots, e: Event) {
    match e
    case Receive(p) =>
      p.kind == IF4p5_PRACH || s.awaited <= p.at <= s.awaited + 9
      || forall k: nat | Carries(p, k) :: Got(s.hist, Pending(s.awaited, SubframeAt(p.at)), k)
    case Return => NothingCame(s.hist, s.awaited + 10)
  }

  /** Symbol numbers of four bits. */
  ghost predicate ValidEvents(events: seq<Event>) {
    forall i | 0 <= i < |events| && events[i].Receive? :: events[i].p.symbol < 16
  }

  lemma EventExact(s: Slots, e: Event)
    requires Held(s) && ValidPackets(s.hist) && (e.Receive? ==> e.p.symbol < 16)
    ensures Held(Happen(s, e)) <==> Fits(s, e)
  {
    hide SlotsHold, Got, Pending, Mark, Carries;
    match e
    case Receive(p) =>
      if p.kind == IF4p5_PRACH {
        ReceiveKeepsSlots(s.masks, s.hist, s.awaited, p);
      } else {
        ReceiveExact(s.masks, s.hist, s.awaited, p);
      }
    case Return =>
      AdvanceExact(s.masks, s.hist, s.awaited);
  }

  lemma {:induction false} ReceptionValid(first: nat, events: seq<Event>)
    requires ValidEvents(events)
    ensures ValidPackets(Reception(first, events).hist)
  {
    if events != [] {
      ReceptionValid(first, events[..|events| - 1]);
    }
  }

  lemma BeginsHeld(first: nat)
    ensures Held(Reception(first, []))
  {
    forall k: nat ensures !Has(0, k) { HasZero(k); }
  }

  ghost predicate AlwaysHeld(first: nat, events: seq<Event>) {
    forall i | 0 <= i <= |events| :: Held(Reception(first, events[..i]))
  }

  ghost predicate AllFit(first: nat, events: seq<Event>) {
    forall i | 0 <= i < |events| :: Fits(Reception(first, events[..i]), events[i])
  }

  lemma AlwaysHeldSnoc(first: nat, events: seq<Event>)
    requires events != []
    ensures var before := events[..|events| - 1];
            AlwaysHeld(first, events) <==> AlwaysHeld(first, before) && Held(Reception(first, events))
    ensures AlwaysHeld(first, events[..|events| - 1]) ==> Held(Reception(first, events[..|events| - 1]))
  {
    hide Held, Reception;
    var k := |events| - 1;
    var before := events[..k];
    assert forall i | 0 <= i <= k :: before[..i] == events[..i];
    assert events[..|events|] == events;
    if AlwaysHeld(first, events) {
      forall i | 0 <= i <= k ensures Held(Reception(first, before[..i])) {
        assert Held(Reception(first, events[..i]));
      }
    }
    if AlwaysHeld(first, before) && Held(Reception(first, events)) {
      forall i | 0 <= i <= |events| ensures Held(Reception(first, events[..i])) {
        assert i <= k ==> Held(Reception(first, before[..i]));
      }
    }
    assert before[..k] == before;
  }

  lemma AllFitSnoc(first: nat, events: seq<Event>)
    requires events != []
    ensures var k := |events| - 1;
            AllFit(first, events) <==> AllFit(first, events[..k]) && Fits(Reception(first, events[..k]), events[k])
  {
    hide Fits, Reception;
    var k := |events| - 1;
    var before := events[..k];
    assert forall i | 0 <= i < k :: before[..i] == events[..i] && before[i] == events[i];
    if AllFit(first, events) {
      forall i | 0 <= i < k ensures Fits(Reception(first, before[..i]), before[i]) {
        assert Fits(Reception(first, events[..i]), events[i]);
      }
    }
    if AllFit(first, before) && Fits(Reception(first, before), events[k]) {
      forall i | 0 <= i < |events| ensures Fits(Reception(first, events[..i]), events[i]) {
        assert i < k ==> Fits(Reception(first, before[..i]), before[i]);
      }
    }
  }

  /** Whole receptions, exactly: the slots hold the symbols of their subframes after every event if and only if every
      event fits. */
  lemma {:induction false} SlotsAlwaysHold(first: nat, events: seq<Event>)
    requires ValidEvents(events)
    ensures AlwaysHeld(first, events) <==> AllFit(first, events)
  {
    hide Held, Fits, Happen, AlwaysHeld, AllFit;
    if events == [] {
      NoEvents(first);
    } else {
      var k := |events| - 1;
      SlotsAlwaysHold(first, events[..k]);
      ReceptionValid(first, events[..k]);
      AlwaysHeldSnoc(first, events);
      AllFitSnoc(first, events);
      if Held(Reception(first, events[..k])) {
        EventExact(Reception(first, events[..k]), events[k]);
      }
    }
  }

  lemma NoEvents(first: nat)
    ensures AlwaysHeld(first, []) && AllFit(first, [])
  {
    var none: seq<Event> := [];
    assert none[..0] == [];
    BeginsHeld(first);
  }

  /** The numeric test on the awaited slot decides completeness of the awaited subframe. */
  lemma TestDecides(fp: FrameParms, masks: seq<nat>, hist: seq<Sent>, awaited: nat)
    requires SlotsHold(masks, hist, awaited)
    ensures masks[SubframeAt(awaited)] >= Full(SymbolsDue(fp, SubframeAt(awaited))) <==> Complete(fp, hist, awaited)
  {
    var j := SubframeAt(awaited);
    var due := SymbolsDue(fp, j);
    AtLeastFull(masks[j], due);
    PendingUnique(awaited, awaited);
    assert forall k: nat :: Has(masks[j], k) <==> Got(hist, awaited, k);
    if AllBelow(masks[j], due) {
      forall k: nat | k < due ensures Got(hist, awaited, k) {
        assert Has(masks[j], k);
      }
    }
    if SomeFrom(masks[j], due) {
      var k: nat :| k >= due && Has(masks[j], k);
      assert Got(hist, awaited, k);
    }
    if k: nat :| k >= due && Got(hist, awaited, k) {
      assert Has(masks[j], k);
    }
  }

  // ---------------------------------------------------------------- which subframe is awaited

  /** Having received hist, a reception that began with subframe first waits for this one: all before
      are complete, it is not. */
  ghost predicate IsAwaited(fp: FrameParms, hist: seq<Sent>, first: nat, awaited: nat) {
    && first <= awaited
    && (forall n: nat | first <= n < awaited :: Complete(fp, hist, n))
    && !Complete(fp, hist, awaited)
  }

  function Latest(sent: seq<Sent>): nat {
    if sent == [] then 0
    else
      var l := Latest(sent[..|sent| - 1]);
      if sent[|sent| - 1].at > l then sent[|sent| - 1].at else l
  }

  lemma {:induction false} LatestGrows(sent: seq<Sent>, pos: nat)
    requires pos <= |sent|
    ensures Latest(sent[..pos]) <= Latest(sent)
    decreases |sent|
  {
    if pos < |sent| {
      LatestGrows(sent[..|sent| - 1], pos);
      assert sent[..|sent| - 1][..pos] == sent[..pos];
    } else {
      assert sent[..pos] == sent;
    }
  }

  lemma LatestIsLatest(sent: seq<Sent>, i: nat)
    requires i < |sent|
    ensures sent[i].at <= Latest(sent)
  {
    if i < |sent| - 1 {
      LatestIsLatest(sent[..|sent| - 1], i);
    }
  }

  lemma AwaitedUnique(fp: FrameParms, hist: seq<Sent>, first: nat, a: nat, b: nat)
    requires IsAwaited(fp, hist, first, a) && IsAwaited(fp, hist, first, b)
    ensures a == b
  {
    assert a < b ==> Complete(fp, hist, a);
    assert b < a ==> Complete(fp, hist, b);
  }

  /** A subframe of which nothing was received is not complete, so there is a first incomplete one. */
  lemma {:induction false} FirstIncomplete(fp: FrameParms, hist: seq<Sent>, first: nat, a: nat) returns (b: nat)
    requires SomethingDue(fp) && first <= a && forall n: nat | first <= n < a :: Complete(fp, hist, n)
    ensures IsAwaited(fp, hist, first, b)
    decreases Latest(hist) + 1 - a
  {
    b := a;
    if Complete(fp, hist, a) {
      NotLaterThanLatest(fp, hist, a);
      b := FirstIncomplete(fp, hist, first, a + 1);
    }
  }

  lemma NotLaterThanLatest(fp: FrameParms, hist: seq<Sent>, n: nat)
    requires SomethingDue(fp) && Complete(fp, hist, n)
    ensures n <= Latest(hist)
  {
    var due := SymbolsDue(fp, SubframeAt(n));
    assert due > 0;
    var k: nat :| Got(hist, n, k) by {
      if !exists k: nat :: k >= due && Got(hist, n, k) {
        assert Got(hist, n, 0);
      }
    }
    var i :| 0 <= i < |hist| && hist[i].at == n;
    LatestIsLatest(hist, i);
  }

  /** Whatever has been received, exactly one subframe is awaited. */
  lemma OneIsAwaited(fp: FrameParms, hist: seq<Sent>, first: nat)
    requires SomethingDue(fp)
    ensures exists a: nat :: IsAwaited(fp, hist, first, a) && forall b: nat | IsAwaited(fp, hist, first, b) :: b == a
  {
    var a := FirstIncomplete(fp, hist, first, first);
    forall b: nat | IsAwaited(fp, hist, first, b) ensures b == a {
      AwaitedUnique(fp, hist, first, a, b);
    }
  }

  /** The design's demand on the fronthaul: no uplink packet is late, and none is more than nine
      subframes early. */
  ghost predicate InWindow(fp: FrameParms, sent: seq<Sent>, first: nat) {
    forall i, a: nat | 0 <= i < |sent| && sent[i].kind != IF4p5_PRACH && IsAwaited(fp, sent[..i], first, a) ::
      a <= sent[i].at <= a + 9
  }

  lemma CompleteGrows(fp: FrameParms, hist: seq<Sent>, p: Sent, n: nat)
    requires Complete(fp, hist, n)
    ensures Complete(fp, hist + [p], n)
  {
    forall k: nat ensures Got(hist, n, k) ==> Got(hist + [p], n, k) {
      GotSnoc(hist, p, n, k);
    }
    var due := SymbolsDue(fp, SubframeAt(n));
    if k: nat :| k >= due && Got(hist, n, k) {
      assert Got(hist + [p], n, k);
    }
  }

  lemma LastIsAwaited(at: nat, awaited: nat)
    requires awaited <= at <= awaited + 9 && SubframeAt(at) == SubframeAt(awaited)
    ensures at == awaited
  {
    PendingUnique(awaited, at);
    PendingUnique(awaited, awaited);
  }

  lemma TimeOf(n: nat, ahead: int)
    ensures FrameAt(n) * 10 + SubframeAt(n) == n % 10240
    ensures 0 <= ahead <= 10 ==>
              AheadFrame(FrameAt(n), SubframeAt(n), ahead) == FrameAt(n + ahead)
              && AheadSubframe(SubframeAt(n), ahead) == SubframeAt(n + ahead)
  {
    if 0 <= ahead <= 10 { AheadAt(n, ahead); }
    var q, s := n / 10, n % 10;
    assert n == 10240 * (q / 1024) + (10 * (q % 1024) + s);
    DivUnique(n, 10240, q / 1024, 10 * (q % 1024) + s);
  }

  // ---------------------------------------------------------------- the receiver

  lemma FirstDue(fp: FrameParms, n: nat)
    requires SomethingDue(fp)
    ensures SymbolsDue(fp, SubframeAt(n)) > 0
  {
  }

  datatype Outcome = Returned | Stopped | Blocked

  class Fronthaul {
    const fp: FrameParms
    const sfAhead: int
    const symbolMask: array<nat>
    var frameRx: int
    var ttiRx: int
    var timestampRx: int
    var frameTx: int
    var ttiTx: int
    var firstRx: bool
    var waitResynch: bool   // cmd == WAIT_RESYNCH

    constructor (fp: FrameParms, sfAhead: int)
      ensures this.fp == fp && this.sfAhead == sfAhead && firstRx && !waitResynch
      ensures symbolMask.Length == 10 && fresh(symbolMask) && forall j | 0 <= j < 10 :: symbolMask[j] == 0
    {
      this.fp, this.sfAhead := fp, sfAhead;
      symbolMask := new nat[10](_ => 0);
      frameRx, ttiRx, timestampRx, frameTx, ttiTx, firstRx, waitResynch := 0, 0, 0, 0, 0, true, false;
    }

    /** State between two calls: the awaited subframe is the first one not returned yet. */
    ghost predicate Ready(hist: seq<Sent>, first: nat, awaited: nat)
      reads this, symbolMask
    {
      && symbolMask.Length == 10 && first <= awaited
      && SlotsHold(symbolMask[..], hist, awaited) && ValidPackets(hist) && NotBeyond(hist, awaited)
      && (forall n: nat | first <= n < awaited :: Complete(fp, hist, n))
    }

    /** The times recorded for the subframe returned. */
    ghost predicate TimeRecorded(n: nat)
      reads this
    {
      && frameRx == FrameAt(n) && ttiRx == SubframeAt(n) && timestampRx == (n % 10240) * fp.spt
      && (0 <= sfAhead <= 10 ==> frameTx == FrameAt(n + sfAhead) && ttiTx == SubframeAt(n + sfAhead))
    }

    /** The receiving loop of fh_if4p5_south_in, called with the counters of the awaited subframe while
        sent[pos..] is still to come; receptions from index stopFrom on see a stop command. It blocks
        for good when nothing more comes. It ends as soon as the awaited subframe is complete and not
        before, and then the last packet is one of that subframe. */
    method Collect(sent: seq<Sent>, pos: nat, stopFrom: nat, frame: nat, subframe: nat,
                   ghost first: nat, ghost awaited: nat)
      returns (outcome: Outcome, pos': nat, f: nat, sf: nat)
      requires pos <= |sent| && pos <= stopFrom && Ready(sent[..pos], first, awaited)
      requires ValidPackets(sent) && InWindow(fp, sent, first)
      requires subframe == SubframeAt(awaited)
      modifies symbolMask
      ensures pos <= pos' <= |sent| && sf < 10
      ensures forall i | pos <= i < pos' :: !Complete(fp, sent[..i], awaited)
      ensures outcome == Returned ==>
                && pos' <= stopFrom && sf == subframe
                && f == (if Complete(fp, sent[..pos], awaited) then frame else FrameAt(awaited))
                && Ready(sent[..pos'], first, awaited) && Complete(fp, sent[..pos'], awaited)
      ensures outcome == Stopped ==> pos' == stopFrom + 1
      ensures outcome == Blocked ==>
                && pos' == |sent| <= stopFrom && Ready(sent, first, awaited) && IsAwaited(fp, sent, first, awaited)
    {
      outcome, pos', f, sf := Returned, pos, frame, subframe;
      var due := SymbolsDue(fp, subframe);
      TestDecides(fp, symbolMask[..], sent[..pos], awaited);
      if symbolMask[subframe] < Full(due) {
        while true
          invariant pos <= pos' <= |sent| && pos' <= stopFrom && outcome == Returned
          invariant Ready(sent[..pos'], first, awaited)
          invariant forall i | pos <= i < pos' :: !Complete(fp, sent[..i], awaited)
          invariant symbolMask[subframe] < Full(due) && sf < 10
          decreases |sent| - pos'
        {
          ghost var hist := sent[..pos'];
          TestDecides(fp, symbolMask[..], hist, awaited);
          assert IsAwaited(fp, hist, first, awaited);
          if pos' == |sent| {
            assert hist == sent;
            outcome := Blocked;
            return;
          }
          var p := OnWire(sent[pos']);
          ghost var packet := sent[pos'];
          pos' := pos' + 1;
          assert sent[..pos'] == hist + [packet];
          f, sf := p.frame, p.subframe;
          if pos' > stopFrom {
            outcome := Stopped;
            return;
          }
          Received(hist, packet, first, awaited);
          Update(sf, p.kind, p.symbol);
          TestDecides(fp, symbolMask[..], sent[..pos'], awaited);
          if symbolMask[subframe] >= Full(due) {
            assert packet.at == awaited by { LastIsAwaited(packet.at, awaited); }
            return;
          }
        }
      }
    }

    method Update(sf: nat, kind: PacketType, symbol: nat)
      requires symbolMask.Length == 10 && sf < 10
      modifies symbolMask
      ensures symbolMask[..] == old(symbolMask[..])[sf := Mark(old(symbolMask[sf]), kind, symbol)]
    {
      symbolMask[sf] := Mark(symbolMask[sf], kind, symbol);
    }

    /** The part of fh_if4p5_south_in after its loop. */
    method Record(f: nat, sf: nat, frame: nat, subframe: nat) returns (frame': nat, subframe': nat)
      requires symbolMask.Length == 10 && sf < 10
      modifies this, symbolMask
      ensures symbolMask[..] == old(symbolMask[..])[sf := 0] && !firstRx
      ensures frameRx == f && ttiRx == sf && timestampRx == (f * 10 + sf) * fp.spt
      ensures frameTx == AheadFrame(f, sf, sfAhead) && ttiTx == AheadSubframe(sf, sfAhead)
      ensures subframe' == sf
      ensures frame' == if old(firstRx) || old(waitResynch) then f else frame
      ensures waitResynch == (old(waitResynch) && (old(firstRx) || f == frame))
    {
      frame', subframe' := frame, subframe;
      ttiRx := sf;
      frameRx := f;
      timestampRx := (frameRx * 10 + ttiRx) * fp.spt;
      ttiTx := AheadSubframe(sf, sfAhead);
      frameTx := AheadFrame(f, sf, sfAhead);
      if !firstRx {
        if ttiRx != subframe {
          subframe' := sf;
        }
        if !waitResynch && frameRx != frame {
        } else if waitResynch && frameRx != frame {
          waitResynch := false;
          frame' := f;
        }
      } else {
        firstRx := false;
        frame', subframe' := f, sf;
      }
      symbolMask[sf] := 0;
    }

    /** fh_if4p5_south_in: it returns the awaited subframe, as soon as that is complete and not before,
        frees its slot and no other, and records its time; the branches for a mismatching frame or
        subframe are never taken, so the counters stay right. */
    method SouthIn(sent: seq<Sent>, pos: nat, stopFrom: nat, frame: nat, subframe: nat,
                   ghost first: nat, ghost awaited: nat)
      returns (outcome: Outcome, pos': nat, frame': nat, subframe': nat)
      requires pos <= |sent| && pos <= stopFrom && Ready(sent[..pos], first, awaited)
      requires ValidPackets(sent) && InWindow(fp, sent, first)
      requires subframe == SubframeAt(awaited) && (!firstRx ==> frame == FrameAt(awaited))
      requires firstRx ==> pos == 0 && SymbolsDue(fp, subframe) > 0
      modifies this, symbolMask
      ensures pos <= pos' <= |sent|
      ensures forall i | pos <= i < pos' :: !Complete(fp, sent[..i], awaited)
      ensures outcome == Returned ==>
                && pos' <= stopFrom && Ready(sent[..pos'], first, awaited + 1)
                && Complete(fp, sent[..pos'], awaited)
                && frame' == FrameAt(awaited) && subframe' == SubframeAt(awaited)
                && TimeRecorded(awaited) && !firstRx
                && (!old(firstRx) ==> waitResynch == old(waitResynch))
      ensures outcome == Stopped ==> pos' == stopFrom + 1 && subframe' < symbolMask.Length && symbolMask[subframe'] == 0
      ensures outcome == Blocked ==>
                && pos' == |sent| <= stopFrom && Ready(sent, first, awaited) && IsAwaited(fp, sent, first, awaited)
    {
      if firstRx {
        NothingComplete(sent[..pos], awaited);
      }
      hide Complete, Got, Pending, SymbolsDue, SlotsHold, NotBeyond, InWindow, IsAwaited, AheadFrame, AheadSubframe,
           FrameAt, SubframeAt;
      var f, sf;
      frame', subframe' := frame, subframe;
      outcome, pos', f, sf := Collect(sent, pos, stopFrom, frame, subframe, first, awaited);
      if outcome == Returned {
        frame', subframe' := RecordAwaited(f, sf, frame, subframe, sent[..pos'], first, awaited);
      } else if outcome == Stopped {
        frame', subframe' := Record(f, sf, frame, subframe);
      }
    }

    /** The part after the loop, when the last packet was one of the awaited subframe. */
    method RecordAwaited(f: nat, sf: nat, frame: nat, subframe: nat,
                         ghost hist: seq<Sent>, ghost first: nat, ghost awaited: nat)
      returns (frame': nat, subframe': nat)
      requires Ready(hist, first, awaited) && Complete(fp, hist, awaited)
      requires f == FrameAt(awaited) && sf == subframe == SubframeAt(awaited) && (!firstRx ==> frame == f)
      modifies this, symbolMask
      ensures Ready(hist, first, awaited + 1) && TimeRecorded(awaited) && !firstRx
      ensures frame' == FrameAt(awaited) && subframe' == SubframeAt(awaited)
      ensures !old(firstRx) ==> waitResynch == old(waitResynch)
    {
      hide Complete, SlotsHold, AheadFrame, AheadSubframe, FrameAt, SubframeAt;
      AdvanceKeepsSlots(symbolMask[..], hist, awaited);
      frame', subframe' := Record(f, sf, frame, subframe);
      TimeOf(awaited, sfAhead);
      ReadyAgain(hist, first, awaited);
    }

    lemma ReadyAgain(hist: seq<Sent>, first: nat, awaited: nat)
      requires symbolMask.Length == 10 && first <= awaited && SlotsHold(symbolMask[..], hist, awaited + 1)
      requires ValidPackets(hist) && NotBeyond(hist, awaited) && Complete(fp, hist, awaited)
      requires forall n: nat | first <= n < awaited :: Complete(fp, hist, n)
      ensures Ready(hist, first, awaited + 1)
    {
      hide SlotsHold, Complete;
    }

    lemma NothingComplete(hist: seq<Sent>, n: nat)
      requires hist == [] && SymbolsDue(fp, SubframeAt(n)) > 0
      ensures !Complete(fp, hist, n)
    {
      assert !Got(hist, n, 0);
    }

    /** A whole reception: ru_thread counts from 1023.9 and calls fh_if4p5_south_in until nothing more
        comes. Whatever the order and the duplicates inside the window, the calls return the
        subframes from the first one on, consecutively, each one complete; and at the end exactly the
        subframes before the first incomplete one have been returned. When the remote unit sends as designed,
        they are the ones of which everything has arrived. */
    method SouthRun(sent: seq<Sent>, ghost first: nat) returns (returned: seq<(nat, nat)>)
      requires symbolMask.Length == 10 && (forall j | 0 <= j < 10 :: symbolMask[j] == 0) && firstRx
      requires first % 10 == 0 && ValidPackets(sent) && InWindow(fp, sent, first)
      requires SomethingDue(fp)
      modifies this, symbolMask
      ensures forall i: nat | i < |returned| :: returned[i] == (FrameAt(first + i), SubframeAt(first + i))
      ensures IsAwaited(fp, sent, first, first + |returned|)
      ensures Ready(sent, first, first + |returned|)
      ensures ValidParms(fp) && SentByUnit(fp, sent) ==>
                && (forall n: nat | first <= n < first + |returned| :: Arrived(fp, sent, n))
                && !Arrived(fp, sent, first + |returned|)
    {
      hide Pending, Complete, Got, SlotsHold, SymbolsDue, Arrived, SentByUnit;
      returned := [];
      var frame, subframe, pos := 1023, 9, 0;
      ghost var last := Latest(sent);
      StartReady(sent, first);
      while true
        invariant pos <= |sent| && Ready(sent[..pos], first, first + |returned|)
        invariant forall i: nat | i < |returned| :: returned[i] == (FrameAt(first + i), SubframeAt(first + i))
        invariant firstRx <==> returned == []
        invariant returned == [] ==> pos == 0 && frame == 1023 && subframe == 9
        invariant returned != [] ==>
                    frame == FrameAt(first + |returned| - 1) && subframe == SubframeAt(first + |returned| - 1)
        decreases last + 1 - (first + |returned|)
      {
        ghost var awaited := first + |returned|;
        if returned != [] { NextAt(awaited - 1); }
        if subframe == 9 {
          subframe := 0;
          frame := frame + 1;
          frame := Low10(frame);
        } else {
          subframe := subframe + 1;
        }
        FirstDue(fp, awaited);
        var outcome;
        outcome, pos, frame, subframe := SouthIn(sent, pos, |sent|, frame, subframe, first, awaited);
        if outcome == Blocked {
          AwaitedHasNotArrived(fp, sent, first, awaited);
          return;
        }
        NotLaterThanLatest(fp, sent[..pos], awaited);
        LatestGrows(sent, pos);
        returned := returned + [(frame, subframe)];
      }
    }

    lemma StartReady(sent: seq<Sent>, first: nat)
      requires symbolMask.Length == 10 && forall j | 0 <= j < 10 :: symbolMask[j] == 0
      ensures Ready(sent[..0], first, first)
    {
      forall j, k: nat | 0 <= j < 10
        ensures Has(symbolMask[..][j], k) <==> Got(sent[..0], Pending(first, j), k)
      {
        HasZero(k);
      }
    }

    lemma Received(hist: seq<Sent>, p: Sent, first: nat, awaited: nat)
      requires Ready(hist, first, awaited) && p.symbol < 16
      requires p.kind != IF4p5_PRACH ==> awaited <= p.at <= awaited + 9
      ensures forall n: nat | first <= n < awaited :: Complete(fp, hist + [p], n)
      ensures NotBeyond(hist + [p], awaited) && ValidPackets(hist + [p])
      ensures var j := SubframeAt(p.at);
              SlotsHold(symbolMask[..][j := Mark(symbolMask[j], p.kind, p.symbol)], hist + [p], awaited)
    {
      ReceiveKeepsSlots(symbolMask[..], hist, awaited, p);
      forall n: nat | first <= n < awaited ensures Complete(fp, hist + [p], n) {
        CompleteGrows(fp, hist, p, n);
      }
    }
  }
}
