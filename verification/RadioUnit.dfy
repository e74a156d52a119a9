/** The radio unit with a local radio, as its threads run it: rx_rf, the counter loop of ru_thread,
    eNB_top's timing and tx_rf, updating the unit's fields in place. */
module RadioUnit {
  import opened SubframeTime
  import opened Tdd
  import opened Burst
  import opened LateControl
  import Clock

  datatype Command = EMPTY | RU_FRAME_RESYNCH

  /** What one pass meets: the hardware time it reads and the resynch command that has come, and the lengths of
      its read and its write. */
  datatype DevicePass = DevicePass(read: Clock.Read, rxs: int, txs: int)

  function Reads(passes: seq<DevicePass>): (rds: seq<Clock.Read>)
    ensures |rds| == |passes|
  {
    seq(|passes|, i requires 0 <= i < |passes| => passes[i].read)
  }

  /** The flags of the writes made. */
  function FlagsOf(writes: seq<Option<Write>>): seq<Flag> {
    if writes == [] then []
    else
      var last := writes[|writes| - 1];
      FlagsOf(writes[..|writes| - 1]) + if last.Some? then [last.value.flag] else []
  }

  /** Every read is at least a subframe after the one before. */
  ghost predicate Spread(passes: seq<DevicePass>, spt: nat) {
    forall i | 0 <= i < |passes| - 1 :: passes[i + 1].read.ts - passes[i].read.ts >= spt
  }

  lemma {:induction false} SpreadOut(passes: seq<DevicePass>, spt: nat, i: nat, j: nat)
    requires Spread(passes, spt) && i <= j < |passes|
    ensures passes[j].read.ts - passes[i].read.ts >= Samples(j - i, spt)
    decreases j
  {
    if i < j {
      SpreadOut(passes, spt, i, j - 1);
      assert passes[j - 1 + 1].read.ts - passes[j - 1].read.ts >= spt;
      assert Samples(j - i, spt) == Samples(j - 1 - i, spt) + spt;
    } else {
      assert Samples(0, spt) == 0;
    }
  }

  class RadioUnit {
    const radio: Radio
    const sfAhead: int
    const usrpTxThread: bool
    var timestampRx: int
    var tsOffset: int
    var frameRx: int
    var ttiRx: int
    var firstRx: bool
    var timestampTx: int
    var frameTx: int
    var ttiTx: int
    var cmd: Command
    var cmdval: nat
    var lateControl: Late
    var exiting: bool
    // counters of ru_thread
    var frame: int
    var subframe: int

    /** The unit as reset_proc and ru_thread set it up. */
    constructor (radio: Radio, sfAhead: int, usrpTxThread: bool, tsOffset: int)
      ensures this.radio == radio && this.sfAhead == sfAhead && this.usrpTxThread == usrpTxThread
      ensures Clock.Initial(ClockState()) && this.tsOffset == tsOffset
      ensures cmd == EMPTY && lateControl == STATE_BURST_NORMAL
    {
      this.radio, this.sfAhead, this.usrpTxThread, this.tsOffset := radio, sfAhead, usrpTxThread, tsOffset;
      timestampRx, frameRx, ttiRx, firstRx := 0, 0, 0, true;
      timestampTx, frameTx, ttiTx := 0, 0, 0;
      cmd, cmdval, lateControl, exiting := EMPTY, 0, STATE_BURST_NORMAL, false;
      frame, subframe := 1023, 9;
    }

    ghost function ClockState(): Clock.State
      reads this
    {
      Clock.State(timestampRx, tsOffset, frameRx, ttiRx, firstRx, frame, subframe, exiting)
    }

    ghost function Pending(): Option<nat>
      reads this
    {
      if cmd == RU_FRAME_RESYNCH then Some(cmdval) else None
    }

    /** The part of rx_rf that applies a pending frame resynch. */
    method ApplyResynch() returns (resynch: bool)
      requires radio.spt > 0
      modifies this`tsOffset, this`frame, this`cmd
      ensures cmd == EMPTY && resynch == old(Pending()).Some?
      ensures frame == if resynch then cmdval else old(frame)
      ensures tsOffset == if resynch then Clock.ResynchOffset(old(tsOffset), frameRx, cmdval, radio.spt)
                          else old(tsOffset)
    {
      hide Clock.FrameSamples;
      resynch := false;
      if cmd == RU_FRAME_RESYNCH {
        if frameRx > cmdval {
          tsOffset := tsOffset + Clock.FrameSamples(frameRx - cmdval, radio.spt);
        } else {
          tsOffset := tsOffset - Clock.FrameSamples(-frameRx + cmdval, radio.spt);
        }
        frame := cmdval;
        cmd := EMPTY;
        resynch := true;
      }
    }

    /** The part of rx_rf that turns hardware time ts into receive time, absorbing drift. */
    method Retime(ts: int, resynch: bool)
      modifies this`timestampRx, this`tsOffset
      ensures timestampRx == if firstRx then 0 else if resynch then ts - old(tsOffset) else old(timestampRx) + radio.spt
      ensures tsOffset == if firstRx then ts - old(tsOffset) else ts - timestampRx
    {
      var spt := radio.spt;
      var oldTs := timestampRx;
      timestampRx := ts - tsOffset;
      if firstRx {
        tsOffset := timestampRx;
        timestampRx := 0;
      } else if !resynch && timestampRx - oldTs != spt {
        tsOffset := tsOffset + (timestampRx - oldTs - spt);
        timestampRx := ts - tsOffset;
      }
    }

    /** The part of rx_rf that decodes the receive time and looks sf_ahead subframes ahead. */
    method Decode()
      requires radio.spt > 0
      modifies this`frameRx, this`ttiRx, this`timestampTx, this`frameTx, this`ttiTx
      ensures frameRx == FrameOf(timestampRx, radio.spt) && ttiRx == SubframeOf(timestampRx, radio.spt)
      ensures timestampTx == timestampRx + Samples(sfAhead, radio.spt)
      ensures frameTx == AheadFrame(frameRx, ttiRx, sfAhead) && ttiTx == AheadSubframe(ttiRx, sfAhead)
    {
      frameRx := FrameOf(timestampRx, radio.spt);
      ttiRx := SubframeOf(timestampRx, radio.spt);
      timestampTx := timestampRx + Samples(sfAhead, radio.spt);
      ttiTx := AheadSubframe(ttiRx, sfAhead);
      frameTx := AheadFrame(frameRx, ttiRx, sfAhead);
    }

    /** The part of rx_rf that compares the counters with the decoded time, or sets them at first. */
    method CheckCounters()
      modifies this`firstRx, this`frame, this`subframe, this`exiting
      ensures !firstRx
      ensures old(firstRx) ==> frame == frameRx && subframe == ttiRx && exiting == old(exiting)
      ensures !old(firstRx) ==> frame == old(frame) && subframe == old(subframe)
                                && exiting == (old(exiting) || ttiRx != subframe || frameRx != frame)
    {
      if !firstRx {
        if ttiRx != subframe {
          exiting := true;
        }
        if frameRx != frame {
          exiting := true;
        }
      } else {
        firstRx := false;
        frame := frameRx;
        subframe := ttiRx;
      }
    }

    /** rx_rf after a device read of rxs samples at hardware time ts, in single-thread mode. */
    method RxRf(ts: int, rxs: int)
      requires radio.spt > 0
      modifies this
      ensures ClockState() == Clock.Receive(old(ClockState()), Clock.Read(ts, old(Pending())), radio.spt)
      ensures cmd == EMPTY
      ensures lateControl == if rxs != radio.spt then STATE_BURST_TERMINATE else old(lateControl)
      ensures timestampTx == timestampRx + Samples(sfAhead, radio.spt)
      ensures frameTx == AheadFrame(frameRx, ttiRx, sfAhead) && ttiTx == AheadSubframe(ttiRx, sfAhead)
    {
      hide FrameOf, SubframeOf, AheadFrame, AheadSubframe, Samples, Clock.ResynchOffset;
      ghost var after := Clock.Receive(ClockState(), Clock.Read(ts, Pending()), radio.spt);
      var resynch := ApplyResynch();
      if rxs != radio.spt {
        lateControl := STATE_BURST_TERMINATE;
      }
      Retime(ts, resynch);
      assert timestampRx == after.timestampRx && tsOffset == after.tsOffset;
      Decode();
      assert frameRx == after.frameRx && ttiRx == after.ttiRx by {
        Clock.DecodeZero(radio.spt);
      }
      CheckCounters();
    }

    /** One pass of the ru_thread loop up to the end of reception. */
    method RuThreadPass(ts: int, rxs: int)
      requires radio.spt > 0
      modifies this
      ensures ClockState() == Clock.Pass(old(ClockState()), Clock.Read(ts, old(Pending())), radio.spt)
      ensures cmd == EMPTY
      ensures lateControl == if rxs != radio.spt then STATE_BURST_TERMINATE else old(lateControl)
      ensures timestampTx == timestampRx + Samples(sfAhead, radio.spt)
      ensures frameTx == AheadFrame(frameRx, ttiRx, sfAhead) && ttiTx == AheadSubframe(ttiRx, sfAhead)
    {
      if subframe == 9 {
        subframe := 0;
        frame := frame + 1;
        frame := Low10(frame);
      } else {
        subframe := subframe + 1;
      }
      RxRf(ts, rxs);
    }

    /** eNB_top: the transmit time it hands back to the radio unit. */
    method EnbTop()
      modifies this`timestampTx, this`frameTx, this`ttiTx
      ensures timestampTx == timestampRx + Samples(sfAhead, radio.spt)
      ensures frameTx == AheadFrame(frameRx, ttiRx, sfAhead) && ttiTx == AheadSubframe(ttiRx, sfAhead)
    {
      var l1TimestampTx := timestampRx + Samples(sfAhead, radio.spt);
      var l1FrameRx, l1SubframeRx := frameRx, ttiRx;
      var l1FrameTx := if l1SubframeRx > 9 - sfAhead then Low10(l1FrameRx + 1) else l1FrameRx;
      var l1SubframeTx := TruncMod(l1SubframeRx + sfAhead, 10);
      timestampTx := l1TimestampTx;
      ttiTx := l1SubframeTx;
      frameTx := l1FrameTx;
    }

    /** The flag tx_rf starts from. */
    ghost function Plain(subframe: nat): Option<Flag>
      requires SubframeSelect(radio.duplex, subframe % 10).Some?
    {
      PlainFlag(radio.duplex, SubframeSelect(radio.duplex, subframe % 10).value,
                SubframeSelect(radio.duplex, (subframe + 9) % 10).value)
    }

    /** The write tx_rf makes for transmit time `timestamp` when it finds late_control at `late`. */
    ghost function Written(late: Late, subframe: nat, timestamp: int): Option<Write>
      requires SubframeSelect(radio.duplex, subframe % 10).Some?
      reads this`tsOffset
    {
      var flag := Call(late, Plain(subframe)).0;
      if flag.None? then None
      else
        var ext := Extension(radio, Plain(subframe).value);
        Some(Write(timestamp + tsOffset - ext,
                   PlainLength(radio, SubframeSelect(radio.duplex, subframe % 10).value) + ext, flag.value))
    }

    /** late_control after a write of which the device took txs samples. */
    ghost function LateAfter(late: Late, subframe: nat, write: Option<Write>, txs: int): Late
      requires SubframeSelect(radio.duplex, subframe % 10).Some?
    {
      var next := Call(late, Plain(subframe)).1;
      if write.Some? && !usrpTxThread && txs != write.value.length && next == STATE_BURST_NORMAL
      then STATE_BURST_TERMINATE else next
    }

    /** ... which fits the subframe that begins then. */
    lemma WrittenFits(late: Late, subframe: nat, timestamp: int)
      requires SubframeSelect(radio.duplex, subframe % 10).Some?
      ensures var w := Written(late, subframe, timestamp);
              w.Some? ==>
                FitsSubframe(radio, SubframeSelect(radio.duplex, subframe % 10).value,
                             SubframeSelect(radio.duplex, (subframe + 9) % 10).value, timestamp + tsOffset, w.value)
    {
      ExtensionIs(radio);
      if TxSymbols(radio) > 0 {
        SamplesOfSymbols(radio, TxSymbols(radio));
      }
      FddHasNoUplink((subframe + 9) % 10);
      hide SubframeSelect, Extension, SymbolSamples, Switch;
    }

    lemma FddHasNoUplink(k: nat)
      ensures radio.duplex.FDD? ==> SubframeSelect(radio.duplex, k) == Some(SF_DL)
    {
    }

    /** Special subframes have something to send, as tx_rf demands. */
    ghost predicate SendsInSpecial() {
      radio.duplex.TDD? ==> TxSymbols(radio) > 0
    }

    /** tx_rf, when the device takes txs samples: the write made, if any. */
    method TxRf(subframe: nat, timestamp: int, txs: int) returns (write: Option<Write>)
      requires SubframeSelect(radio.duplex, subframe % 10).Some? && SendsInSpecial()
      modifies this`lateControl
      ensures write == Written(old(lateControl), subframe, timestamp)
      ensures write.Some? ==>
                FitsSubframe(radio, SubframeSelect(radio.duplex, subframe % 10).value,
                             SubframeSelect(radio.duplex, (subframe + 9) % 10).value, timestamp + tsOffset, write.value)
      ensures lateControl == LateAfter(old(lateControl), subframe, write, txs)
    {
      var sfType := SubframeSelect(radio.duplex, subframe % 10).value;
      var prevType := SubframeSelect(radio.duplex, (subframe + 9) % 10).value;
      WrittenFits(lateControl, subframe, timestamp);
      hide SubframeSelect, FitsSubframe;
      var sfExtension := 0;
      write := None;
      if sfType == SF_DL || sfType == SF_S {
        var siglen: int := radio.spt;
        var flags := TX_BURST_MIDDLE;
        if sfType == SF_S {
          var txsymb := radio.dlSymbolsInS + (if !radio.isSlave then 1 else 0);
          siglen := (radio.ofdmSymbolSize + radio.prefix0)
                    + (txsymb - 1) * (radio.ofdmSymbolSize + radio.prefix)
                    + radio.endOfBurstDelay;
          flags := TX_BURST_END;
        }
        if radio.duplex.TDD? && sfType == SF_DL && prevType == SF_UL {
          flags := TX_BURST_START;
          sfExtension := radio.sfExtension;
        }
        sfExtension := sfExtension - sfExtension % 8;
        if lateControl != STATE_BURST_NORMAL {
          match lateControl {
            case STATE_BURST_TERMINATE =>
              flags := TX_BURST_END_NO_TIME_SPEC;
              lateControl := STATE_BURST_STOP_1;
            case STATE_BURST_STOP_1 =>
              lateControl := STATE_BURST_STOP_2;
              return;
            case STATE_BURST_STOP_2 =>
              lateControl := STATE_BURST_RESTART;
              return;
            case STATE_BURST_RESTART =>
              flags := TX_BURST_START;
              lateControl := STATE_BURST_NORMAL;
            case _ =>
          }
        }
        write := Some(Write(timestamp + tsOffset - sfExtension, siglen + sfExtension, flags));
        if !usrpTxThread && txs != siglen + sfExtension && lateControl == STATE_BURST_NORMAL {
          lateControl := STATE_BURST_TERMINATE;
        }
      }
    }

    /** The time base of the device is known: from the start when the offset is zero, later always. */
    ghost predicate Timed()
      reads this
    {
      && 0 <= subframe <= 9
      && (firstRx ==> tsOffset == 0 && cmd == EMPTY)
    }

    /** The first half of a pass in single-thread mode: receive, then eNB_top, which computes the
        same transmit time as rx_rf. */
    method SingleThreadReceive(ts: int, rxs: int)
      requires radio.spt > 0 && 0 <= sfAhead <= 10 && Timed()
      modifies this
      ensures Timed() && !firstRx
      ensures ClockState() == Clock.Pass(old(ClockState()), Clock.Read(ts, old(Pending())), radio.spt)
      ensures cmd == EMPTY && ts == timestampRx + tsOffset
      ensures lateControl == if rxs != radio.spt then STATE_BURST_TERMINATE else old(lateControl)
      ensures timestampTx == timestampRx + Samples(sfAhead, radio.spt)
      ensures timestampRx >= 0 ==>
                frameTx == FrameOf(timestampTx, radio.spt) && ttiTx == SubframeOf(timestampTx, radio.spt)
      ensures !exiting ==> ttiTx == AheadSubframe(subframe, sfAhead) >= 0
    {
      hide FrameOf, SubframeOf, Clock.Pass, AheadFrame, AheadSubframe, Samples;
      ghost var was, rd := ClockState(), Clock.Read(ts, Pending());
      Clock.HardwareTime(was, rd, radio.spt);
      Clock.CountersInRange(was, rd, radio.spt);
      RuThreadPass(ts, rxs);
      label received:
      Clock.AfterFirst(was, rd, radio.spt);
      EnbTop();
      assert timestampTx == old@received(timestampTx);
      assert frameTx == old@received(frameTx) && ttiTx == old@received(ttiTx);
      if timestampRx >= 0 {
        LookAhead(timestampRx, radio.spt, sfAhead);
      }
      if !exiting {
        AheadIsSubframe(subframe, sfAhead);
      }
    }

    /** One pass in single-thread mode: receive, eNB_top, transmit, or no more than receive when rx_rf
        called exit_fun. eNB_top and rx_rf compute the same transmit time; it decodes to the frame
        and subframe handed to tx_rf; and whatever the drift corrections and resynchs before it,
        the write is stamped with the hardware time of this read plus the look-ahead, less the
        extension. */
    method SingleThreadPass(ts: int, rxs: int, txs: int) returns (write: Option<Write>)
      requires radio.spt > 0 && 0 <= sfAhead <= 10 && SendsInSpecial() && Timed()
      requires forall k: nat | k < 10 :: SubframeSelect(radio.duplex, k).Some?
      modifies this
      ensures Timed() && !firstRx
      ensures ClockState() == Clock.Pass(old(ClockState()), Clock.Read(ts, old(Pending())), radio.spt)
      ensures cmd == EMPTY && ts == timestampRx + tsOffset
      ensures timestampRx >= 0 ==>
                (&& frameTx == FrameOf(timestampRx + Samples(sfAhead, radio.spt), radio.spt)
                 && ttiTx == SubframeOf(timestampRx + Samples(sfAhead, radio.spt), radio.spt))
      ensures exiting ==>
                && write.None?
                && lateControl == if rxs != radio.spt then STATE_BURST_TERMINATE else old(lateControl)
      ensures !exiting ==>
                (&& ttiTx == AheadSubframe(subframe, sfAhead) >= 0
                 && (write.Some? ==>
                      var now := SubframeSelect(radio.duplex, ttiTx % 10);
                      var prev := SubframeSelect(radio.duplex, (ttiTx + 9) % 10);
                      FitsSubframe(radio, now.value, prev.value, ts + Samples(sfAhead, radio.spt), write.value))
                 && var late := if rxs != radio.spt then STATE_BURST_TERMINATE else old(lateControl);
                    write == Written(late, ttiTx, timestampRx + Samples(sfAhead, radio.spt))
                    && lateControl == LateAfter(late, ttiTx, write, txs))
    {
      hide FrameOf, SubframeOf, Clock.Pass, Samples, LateAfter, Written, Plain, SubframeSelect, FitsSubframe;
      SingleThreadReceive(ts, rxs);
      write := None;
      if !exiting {
        write := TxRf(ttiTx, timestampTx, txs);
      }
    }

    /** The write that belongs to the pass which receives subframe i at hardware time ts: the plain one of
        subframe i + sf_ahead, moved to the time base of the device. */
    ghost function OnAir(i: nat, ts: int): Option<Write>
      requires 0 <= sfAhead && Known(radio.duplex)
    {
      match PlainWrite(radio, i + sfAhead)
      case None => None
      case Some(w) => Some(w.(stamp := ts + (w.stamp - Samples(i, radio.spt))))
    }

    /** A pass whose read was complete, and the write too unless a separate thread makes it. */
    ghost predicate Taken(pass: DevicePass, write: Option<Write>) {
      pass.rxs == radio.spt && (write.Some? ==> usrpTxThread || pass.txs == write.value.length)
    }

    ghost predicate Complete(passes: seq<DevicePass>, writes: seq<Option<Write>>)
      requires |writes| <= |passes|
    {
      forall i | 0 <= i < |writes| :: Taken(passes[i], writes[i])
    }

    /** Whatever late_control makes of it, a write has the place and the length of the one that belongs to the
        pass; and with late_control at rest it is that one. */
    lemma WrittenOnAir(late: Late, i: nat, t: int)
      requires 0 <= sfAhead && Known(radio.duplex)
      requires forall k: nat | k < 10 :: SubframeSelect(radio.duplex, k).Some?
      ensures var w := Written(late, SubframeAt(i + sfAhead), t + Samples(sfAhead, radio.spt));
              && (w.Some? ==> Placed(i, t + tsOffset, w.value))
              && (late == STATE_BURST_NORMAL ==> w == OnAir(i, t + tsOffset))
    {
      hide Written, OnAir, PlainFlag, PlainLength, Extension, TypeAt, TypeBefore, Samples, SubframeAt, SubframeSelect;
      var n := i + sfAhead;
      PlainIs(n);
      WrittenIs(late, n, t + Samples(sfAhead, radio.spt));
      OnAirIs(i, t + tsOffset);
    }

    /** The types tx_rf looks up are those of the pattern. */
    lemma PlainIs(n: nat)
      requires Known(radio.duplex) && forall k: nat | k < 10 :: SubframeSelect(radio.duplex, k).Some?
      ensures SubframeAt(n) % 10 == n % 10
      ensures SubframeSelect(radio.duplex, SubframeAt(n) % 10) == Some(TypeAt(radio.duplex, n))
      ensures Plain(SubframeAt(n)) == PlainFlag(radio.duplex, TypeAt(radio.duplex, n), TypeBefore(radio.duplex, n))
    {
      SelectFollowsTable(radio.duplex, n % 10);
      SelectFollowsTable(radio.duplex, (n % 10 + 9) % 10);
      hide SubframeSelect, Pattern, PlainFlag;
    }

    lemma NominalTime(i: nat)
      requires 0 <= sfAhead
      ensures (i + sfAhead) * radio.spt == Samples(i, radio.spt) + Samples(sfAhead, radio.spt)
    {
    }

    /** The place of the write of subframe n when it is to begin at time start, in device time. */
    ghost function At(n: nat, start: int, plain: Flag, flag: Flag): Write
      requires Known(radio.duplex)
    {
      var ext := Extension(radio, plain);
      Write(start - ext, PlainLength(radio, TypeAt(radio.duplex, n)) + ext, flag)
    }

    lemma WrittenIs(late: Late, n: nat, t: int)
      requires Known(radio.duplex) && forall k: nat | k < 10 :: SubframeSelect(radio.duplex, k).Some?
      ensures var plain := PlainFlag(radio.duplex, TypeAt(radio.duplex, n), TypeBefore(radio.duplex, n));
              var w := Written(late, SubframeAt(n), t);
              && (w.Some? ==> plain.Some? && w.value == At(n, t + tsOffset, plain.value, w.value.flag))
              && (late == STATE_BURST_NORMAL ==>
                    w == if plain.None? then None else Some(At(n, t + tsOffset, plain.value, plain.value)))
    {
      PlainIs(n);
      hide SubframeAt, SubframeSelect, Plain, PlainFlag, TypeAt, TypeBefore, PlainLength, Extension;
    }

    lemma OnAirIs(i: nat, ts: int)
      requires 0 <= sfAhead && Known(radio.duplex)
      ensures var n := i + sfAhead;
              var plain := PlainFlag(radio.duplex, TypeAt(radio.duplex, n), TypeBefore(radio.duplex, n));
              OnAir(i, ts) == if plain.None? then None
                              else Some(At(n, ts + Samples(sfAhead, radio.spt), plain.value, plain.value))
    {
      hide PlainFlag, TypeAt, TypeBefore, PlainLength, Extension;
      NominalTime(i);
    }

    /** The types of the subframe that pass i transmits, and of the one before it, in the standard's pattern. */
    ghost function TypeSent(i: nat): SubframeType
      requires 0 <= sfAhead && Known(radio.duplex)
    {
      Pattern(radio.duplex, (i + sfAhead) % 10)
    }

    ghost function TypeSentBefore(i: nat): SubframeType
      requires 0 <= sfAhead && Known(radio.duplex)
    {
      Pattern(radio.duplex, ((i + sfAhead) % 10 + 9) % 10)
    }

    /** The write of pass i, exactly: none in an uplink subframe; else it fits the subframe that begins sf_ahead
        subframes after the hardware time of read i, and has the plain flag. */
    lemma OnAirFits(i: nat, ts: int)
      requires 0 <= sfAhead && Known(radio.duplex)
      ensures OnAir(i, ts).None? <==> TypeSent(i) == SF_UL
      ensures OnAir(i, ts).Some? ==>
                && FitsSubframe(radio, TypeSent(i), TypeSentBefore(i), ts + sfAhead * radio.spt, OnAir(i, ts).value)
                && OnAir(i, ts).value.flag == if TypeSent(i) == SF_S then TX_BURST_END
                                              else if TypeSentBefore(i) == SF_UL then TX_BURST_START
                                              else TX_BURST_MIDDLE
    {
      var n := i + sfAhead;
      hide PlainWrite, Pattern, FitsSubframe, Samples;
      PlainWriteIs(radio, n);
      NominalTime(i);
      SamplesAre(sfAhead);
      var plain := PlainWrite(radio, n);
      if plain.Some? {
        FitsMoved(radio, TypeSent(i), TypeSentBefore(i), n * radio.spt, plain.value, ts - Samples(i, radio.spt));
      }
    }

    lemma SamplesAre(k: int)
      ensures Samples(k, radio.spt) == k * radio.spt
    {
    }

    /** A write at the place that belongs to pass i, whatever its flag. */
    ghost predicate Placed(i: nat, ts: int, w: Write)
      requires 0 <= sfAhead && Known(radio.duplex)
    {
      OnAir(i, ts).Some? && w == OnAir(i, ts).value.(flag := w.flag)
    }

    lemma PlacedFits(i: nat, ts: int, w: Write)
      requires 0 <= sfAhead && Known(radio.duplex) && Placed(i, ts, w)
      ensures FitsSubframe(radio, TypeSent(i), TypeSentBefore(i), ts + sfAhead * radio.spt, w)
    {
      OnAirFits(i, ts);
      hide TypeSent, TypeSentBefore, OnAir, SymbolSamples;
    }

    /** The sample windows of two passes, at real hardware times that are far enough apart, never overlap. */
    lemma AirWindowsDisjoint(i: nat, j: nat, v: Write, w: Write, ts: int, ts': int)
      requires 0 <= sfAhead && Known(radio.duplex) && i < j
      requires SpecialLength(radio) <= radio.spt && radio.sfExtension <= radio.spt
      requires Placed(i, ts, v) && Placed(j, ts', w) && ts' - ts >= Samples(j - i, radio.spt)
      ensures v.stamp + v.length <= w.stamp
    {
      var d, spt, m, n := radio.duplex, radio.spt, i + sfAhead, j + sfAhead;
      assert TypeAt(d, m) != SF_UL && TypeAt(d, n) != SF_UL;
      assert v.stamp == ts + (PlainWrite(radio, m).value.stamp - Samples(i, spt));
      assert w.stamp == ts' + (PlainWrite(radio, n).value.stamp - Samples(j, spt));
      assert v.length == PlainWrite(radio, m).value.length;
      hide *;
      WindowsDisjoint(radio, m, n);
      SamplesBetween(i, j, spt);
    }

    lemma SamplesBetween(i: nat, j: nat, spt: nat)
      requires i <= j
      ensures Samples(j - i, spt) == Samples(j, spt) - Samples(i, spt)
    {
    }

    /** The plain writes carry the plain flags. */
    lemma {:induction false} PlainFlagsOf(passes: seq<DevicePass>, writes: seq<Option<Write>>)
      requires 0 <= sfAhead && Known(radio.duplex) && |writes| <= |passes|
      requires forall i | 0 <= i < |writes| :: writes[i] == OnAir(i, passes[i].read.ts)
      ensures FlagsOf(writes) == Flags(radio.duplex, sfAhead, |writes|)
    {
      hide TypeAt, TypeBefore, PlainFlag, OnAir, Samples, Flags;
      if writes != [] {
        var k := |writes| - 1;
        PlainFlagsOf(passes, writes[..k]);
        OnAirIs(k, passes[k].read.ts);
        FlagsSnoc(radio.duplex, sfAhead, k);
      } else {
        NoneYet();
      }
    }

    lemma NoneYet()
      requires 0 <= sfAhead && Known(radio.duplex)
      ensures Flags(radio.duplex, sfAhead, 0) == []
    {
    }

    /** The write of a pass was short, and did not end a burst already. */
    ghost predicate ShortWrite(pass: DevicePass, write: Option<Write>) {
      write.Some? && !usrpTxThread && pass.txs != write.value.length && write.value.flag != TX_BURST_END_NO_TIME_SPEC
    }

    /** Since the short read or the short write of pass i nothing has been written. */
    ghost predicate Owes(passes: seq<DevicePass>, writes: seq<Option<Write>>, i: nat)
      requires |writes| <= |passes|
    {
      && i < |writes|
      && (|| (passes[i].rxs != radio.spt && writes[i].None?)
          || ShortWrite(passes[i], writes[i]))
      && forall k | i < k < |writes| :: writes[k].None?
    }

    /** The first write after a short read, or after a short write, ends the burst. */
    ghost predicate Answered(passes: seq<DevicePass>, writes: seq<Option<Write>>)
      requires |writes| <= |passes|
    {
      forall j | 0 <= j < |writes| && writes[j].Some?
        && (passes[j].rxs != radio.spt || exists i :: Owes(passes, writes[..j], i)) ::
        writes[j].value.flag == TX_BURST_END_NO_TIME_SPEC
    }

    /** late_control remembers what is owed. */
    ghost predicate Remembers(passes: seq<DevicePass>, writes: seq<Option<Write>>, late: Late)
      requires |writes| <= |passes|
    {
      (exists i :: Owes(passes, writes, i)) ==> late == STATE_BURST_TERMINATE
    }

    /** What a pass that finds late_control at `late` does to it. */
    lemma PassAnswers(late: Late, subframe: nat, t: int, txs: int)
      requires SubframeSelect(radio.duplex, subframe % 10).Some?
      ensures var w, next := Written(late, subframe, t), LateAfter(late, subframe, Written(late, subframe, t), txs);
              && (late == STATE_BURST_TERMINATE && w.Some? ==> w.value.flag == TX_BURST_END_NO_TIME_SPEC)
              && (late == STATE_BURST_TERMINATE && w.None? ==> next == STATE_BURST_TERMINATE)
              && (w.Some? && !usrpTxThread && txs != w.value.length && w.value.flag != TX_BURST_END_NO_TIME_SPEC ==>
                    next == STATE_BURST_TERMINATE)
    {
      hide SubframeSelect, PlainLength, Extension;
    }

    lemma AnswersNext(passes: seq<DevicePass>, writes: seq<Option<Write>>, write: Option<Write>,
                      before: Late, late: Late, after: Late)
      requires |writes| < |passes| && Answered(passes, writes) && Remembers(passes, writes, before)
      requires late == if passes[|writes|].rxs != radio.spt then STATE_BURST_TERMINATE else before
      requires late == STATE_BURST_TERMINATE && write.Some? ==> write.value.flag == TX_BURST_END_NO_TIME_SPEC
      requires late == STATE_BURST_TERMINATE && write.None? ==> after == STATE_BURST_TERMINATE
      requires ShortWrite(passes[|writes|], write) ==> after == STATE_BURST_TERMINATE
      ensures Answered(passes, writes + [write]) && Remembers(passes, writes + [write], after)
    {
      hide ShortWrite;
      var n, all := |writes|, writes + [write];
      assert all[..n] == writes;
      forall j | 0 <= j < |all| && all[j].Some?
        && (passes[j].rxs != radio.spt || exists i :: Owes(passes, all[..j], i))
        ensures all[j].value.flag == TX_BURST_END_NO_TIME_SPEC
      {
        if j < n {
          assert all[..j] == writes[..j];
        }
      }
      forall i: nat | Owes(passes, all, i) ensures after == STATE_BURST_TERMINATE {
        if i < n {
          assert all[n].None? && all[i] == writes[i];
          assert forall k | i < k < n :: writes[k] == all[k];
          assert Owes(passes, writes, i);
        }
      }
    }

    /** What a run keeps. */
    ghost predicate Alive(passes: seq<DevicePass>, writes: seq<Option<Write>>, start: Clock.State)
      requires 0 <= sfAhead && Known(radio.duplex) && radio.spt > 0 && |writes| <= |passes|
      reads this
    {
      && Timed() && cmd == EMPTY && subframe == SubframeAt(|writes| + 9)
      && (firstRx ==> writes == [])
      && ClockState() == Clock.Run(start, Reads(passes)[..|writes|], radio.spt)
      && (forall j | 0 <= j < |writes| && writes[j].Some? :: Placed(j, passes[j].read.ts, writes[j].value))
      && Recovering(lateControl, FlagsOf(writes))
      && Answered(passes, writes) && Remembers(passes, writes, lateControl)
      && (Complete(passes, writes) && !exiting ==>
            && lateControl == STATE_BURST_NORMAL
            && forall j | 0 <= j < |writes| :: writes[j] == OnAir(j, passes[j].read.ts))
    }

    /** A pass leaves late_control and the flags sent so that recovery goes on. */
    lemma PassRecovers(late: Late, subframe: nat, t: int, txs: int, sent: seq<Flag>)
      requires SubframeSelect(radio.duplex, subframe % 10).Some? && Recovering(late, sent)
      ensures var w := Written(late, subframe, t);
              Recovering(LateAfter(late, subframe, w, txs), sent + if w.Some? then [w.value.flag] else [])
    {
      hide SubframeSelect, Recovers, PlainLength, Extension, Switch;
      CallRecovers(late, Plain(subframe), sent);
    }

    /** late_control stays at rest when the write is complete. */
    lemma RestStays(subframe: nat, t: int, txs: int)
      requires SubframeSelect(radio.duplex, subframe % 10).Some?
      ensures var w := Written(STATE_BURST_NORMAL, subframe, t);
              (w.Some? ==> usrpTxThread || txs == w.value.length) ==>
                LateAfter(STATE_BURST_NORMAL, subframe, w, txs) == STATE_BURST_NORMAL
    {
      hide SubframeSelect, PlainLength, Extension;
    }

    lemma ReadsSnoc(passes: seq<DevicePass>, k: nat, start: Clock.State)
      requires k < |passes| && radio.spt > 0
      ensures Clock.Run(start, Reads(passes)[..k + 1], radio.spt)
              == Clock.Pass(Clock.Run(start, Reads(passes)[..k], radio.spt), passes[k].read, radio.spt)
    {
      hide Clock.Pass;
      assert Reads(passes)[..k + 1][..k] == Reads(passes)[..k];
    }

    /** One more pass of a run: a resynch command may have come, then the pass is made. */
    method RunPass(pass: DevicePass, ghost passes: seq<DevicePass>, ghost writes: seq<Option<Write>>,
                   ghost start: Clock.State)
      returns (write: Option<Write>)
      requires radio.spt > 0 && 0 <= sfAhead <= 10 && SendsInSpecial() && Known(radio.duplex)
      requires forall k: nat | k < 10 :: SubframeSelect(radio.duplex, k).Some?
      requires |writes| < |passes| && pass == passes[|writes|] && !exiting && Alive(passes, writes, start)
      requires writes == [] ==> pass.read.resynch.None?
      modifies this
      ensures Alive(passes, writes + [write], start)
    {
      hide Samples, FrameOf, SubframeOf, Plain, Extension, Clock.Pass, Clock.Run, FrameAt, SubframeAt, OnAir, Written,
           AheadFrame, AheadSubframe, SubframeSelect, Known, Recovering, LateAfter, Reads, SendsInSpecial, Placed,
           FlagsOf, Answered, Remembers, FitsSubframe, Recovers;
      ghost var i, before := |writes|, lateControl;
      if pass.read.resynch.Some? {
        cmd, cmdval := RU_FRAME_RESYNCH, pass.read.resynch.value;
      }
      ghost var late := if pass.rxs != radio.spt then STATE_BURST_TERMINATE else lateControl;
      assert Recovering(late, FlagsOf(writes)) by { ShortRead(late, lateControl, FlagsOf(writes)); }
      Clock.SubframeSteps(ClockState(), pass.read, radio.spt);
      ReadsSnoc(passes, i, start);
      NextInRun(i);
      write := SingleThreadPass(pass.read.ts, pass.rxs, pass.txs);
      assert subframe == SubframeAt(i);
      AheadAt(i, sfAhead);
      if !exiting {
        WrittenOnAir(late, i, timestampRx);
        PassRecovers(late, ttiTx, timestampRx + Samples(sfAhead, radio.spt), pass.txs, FlagsOf(writes));
        RestStays(ttiTx, timestampRx + Samples(sfAhead, radio.spt), pass.txs);
        PassAnswers(late, ttiTx, timestampRx + Samples(sfAhead, radio.spt), pass.txs);
      }
      AnswersNext(passes, writes, write, before, late, lateControl);
      assert FlagsOf(writes) + [] == FlagsOf(writes);
      AliveNext(passes, writes, write, start);
    }

    /** What a run keeps, from what it kept before the last pass. */
    lemma AliveNext(passes: seq<DevicePass>, writes: seq<Option<Write>>, write: Option<Write>, start: Clock.State)
      requires 0 <= sfAhead && Known(radio.duplex) && radio.spt > 0 && |writes| < |passes|
      requires Timed() && cmd == EMPTY && subframe == SubframeAt(|writes|) && !firstRx
      requires ClockState() == Clock.Run(start, Reads(passes)[..|writes| + 1], radio.spt)
      requires forall j | 0 <= j < |writes| && writes[j].Some? :: Placed(j, passes[j].read.ts, writes[j].value)
      requires write.Some? ==> Placed(|writes|, passes[|writes|].read.ts, write.value)
      requires Recovering(lateControl, FlagsOf(writes) + if write.Some? then [write.value.flag] else [])
      requires Answered(passes, writes + [write]) && Remembers(passes, writes + [write], lateControl)
      requires Complete(passes, writes) && Taken(passes[|writes|], write) && !exiting ==>
                 && lateControl == STATE_BURST_NORMAL && write == OnAir(|writes|, passes[|writes|].read.ts)
                 && forall j | 0 <= j < |writes| :: writes[j] == OnAir(j, passes[j].read.ts)
      ensures Alive(passes, writes + [write], start)
    {
      hide Clock.Run, Placed, OnAir, Recovering, Known, Reads, SubframeAt, Answered, Remembers;
      var i, all := |writes|, writes + [write];
      assert all[..i] == writes;
      NextInRun(i);
      assert Complete(passes, all) ==> Complete(passes, writes) && Taken(passes[i], write) by {
        assert all[i] == write;
        assert forall j | 0 <= j < i :: writes[j] == all[j];
      }
    }

    lemma ShortRead(late: Late, before: Late, sent: seq<Flag>)
      requires Recovering(before, sent) && late in {STATE_BURST_TERMINATE, before}
      ensures Recovering(late, sent)
    {
    }

    /** The subframe counter before and after pass i. */
    lemma NextInRun(i: nat)
      ensures SubframeAt(i) == if SubframeAt(i + 9) == 9 then 0 else SubframeAt(i + 9) + 1
      ensures i == 0 ==> SubframeAt(i) == 0
      ensures SubframeAt(i + 1 + 9) == SubframeAt(i)
    {
    }

    /** The whole single-thread life of a unit that starts with offset zero, for any hardware timestamps, any
        resynch commands after the first read, and any short reads or writes. It ends early only on an exit
        check, as the clock says: never without a resynch, and else exactly when some resynch is one that the
        clock does not survive. What is written in pass i is subframe i + sf_ahead, at its place relative to
        the hardware time of read i; the first write after a short transfer ends the burst; after a burst was
        ended for lateness the next one is started anew; and reads a subframe apart make windows that never
        overlap. As long as all reads and writes are complete, the writes are exactly the plain ones, and their
        flags form bursts. */
    method SingleThreadRun(passes: seq<DevicePass>) returns (writes: seq<Option<Write>>)
      requires radio.spt > 0 && 0 <= sfAhead <= 10 && SendsInSpecial() && Known(radio.duplex)
      requires forall k: nat | k < 10 :: SubframeSelect(radio.duplex, k).Some?
      requires Clock.Initial(ClockState()) && tsOffset == 0 && cmd == EMPTY && lateControl == STATE_BURST_NORMAL
      requires passes != [] ==> passes[0].read.resynch.None?
      modifies this
      ensures |writes| <= |passes| && (|writes| < |passes| ==> exiting)
      ensures ClockState() == Clock.Run(old(ClockState()), Reads(passes)[..|writes|], radio.spt)
      ensures (forall i | 0 <= i < |passes| :: passes[i].read.resynch.None?) ==> !exiting
      ensures !exiting <==> Clock.AllSurvive(old(ClockState()), Reads(passes)[..|writes|], radio.spt)
      ensures forall i | 0 <= i < |writes| && writes[i].Some? :: Placed(i, passes[i].read.ts, writes[i].value)
      ensures forall i | 0 <= i < |writes| && writes[i].Some? ::
                FitsSubframe(radio, TypeSent(i), TypeSentBefore(i), passes[i].read.ts + sfAhead * radio.spt,
                             writes[i].value)
      ensures Answered(passes, writes) && Recovers(FlagsOf(writes))
      ensures Spread(passes, radio.spt) && SpecialLength(radio) <= radio.spt && radio.sfExtension <= radio.spt ==>
                forall i, j | 0 <= i < j < |writes| && writes[i].Some? && writes[j].Some? ::
                  writes[i].value.stamp + writes[i].value.length <= writes[j].value.stamp
      ensures Complete(passes, writes) && !exiting ==>
                && (forall i | 0 <= i < |writes| :: writes[i] == OnAir(i, passes[i].read.ts))
                && Bracketed(TypeBefore(radio.duplex, sfAhead) == SF_DL, FlagsOf(writes))
    {
      hide Clock.Run, Clock.Pass, Clock.AllSurvive, Samples, Placed, OnAir, TypeBefore, FlagsOf, Recovers, Bracketed,
           Flags, SpecialLength, SubframeSelect, SendsInSpecial, Spread, SubframeAt, FitsSubframe, TypeSent,
           TypeSentBefore, Answered;
      writes := [];
      ghost var start := ClockState();
      RunBegins(passes, start);
      while |writes| < |passes| && !exiting
        invariant |writes| <= |passes| && Alive(passes, writes, start)
        decreases |passes| - |writes|
      {
        hide Alive, Clock.Initial;
        var write := RunPass(passes[|writes|], passes, writes, start);
        writes := writes + [write];
      }
      if forall i | 0 <= i < |passes| :: passes[i].read.resynch.None? {
        NoResynchNoExit(passes, |writes|, start);
      }
      Clock.RunWithResynch(start, Reads(passes)[..|writes|], radio.spt);
      assert Recovers(FlagsOf(writes)) by { RecoveringRecovers(lateControl, FlagsOf(writes)); }
      RunWindows(passes, writes);
      forall i | 0 <= i < |writes| && writes[i].Some?
        ensures FitsSubframe(radio, TypeSent(i), TypeSentBefore(i), passes[i].read.ts + sfAhead * radio.spt,
                             writes[i].value)
      {
        PlacedFits(i, passes[i].read.ts, writes[i].value);
      }
      if Complete(passes, writes) && !exiting {
        PlainFlagsOf(passes, writes);
        FlagsBracket(radio.duplex, sfAhead, |writes|);
      }
    }

    lemma RunBegins(passes: seq<DevicePass>, start: Clock.State)
      requires 0 <= sfAhead && Known(radio.duplex) && radio.spt > 0
      requires start == ClockState() && Clock.Initial(start) && tsOffset == 0 && cmd == EMPTY
      requires lateControl == STATE_BURST_NORMAL
      ensures Alive(passes, [], start)
    {
      assert Reads(passes)[..0] == [];
    }

    lemma RecoveringRecovers(late: Late, sent: seq<Flag>)
      requires Recovering(late, sent)
      ensures Recovers(sent)
    {
    }

    lemma NoResynchNoExit(passes: seq<DevicePass>, k: nat, start: Clock.State)
      requires radio.spt > 0 && k <= |passes| && Clock.Initial(start)
      requires forall i | 0 <= i < |passes| :: passes[i].read.resynch.None?
      ensures !Clock.Run(start, Reads(passes)[..k], radio.spt).exiting
    {
      if k > 0 {
        var rds := Reads(passes)[..k];
        assert forall i | 0 <= i < |rds| :: rds[i].resynch.None?;
        hide Clock.Pass;
        Clock.ClockAgreement(start, rds, radio.spt);
      }
    }

    lemma RunWindows(passes: seq<DevicePass>, writes: seq<Option<Write>>)
      requires 0 <= sfAhead && Known(radio.duplex) && |writes| <= |passes|
      requires forall i | 0 <= i < |writes| && writes[i].Some? :: Placed(i, passes[i].read.ts, writes[i].value)
      ensures Spread(passes, radio.spt) && SpecialLength(radio) <= radio.spt && radio.sfExtension <= radio.spt ==>
                forall i, j | 0 <= i < j < |writes| && writes[i].Some? && writes[j].Some? ::
                  writes[i].value.stamp + writes[i].value.length <= writes[j].value.stamp
    {
      hide Placed, Spread, SpecialLength, Samples;
      if Spread(passes, radio.spt) && SpecialLength(radio) <= radio.spt && radio.sfExtension <= radio.spt {
        forall i, j | 0 <= i < j < |writes| && writes[i].Some? && writes[j].Some?
          ensures writes[i].value.stamp + writes[i].value.length <= writes[j].value.stamp
        {
          SpreadOut(passes, radio.spt, i, j);
          AirWindowsDisjoint(i, j, writes[i].value, writes[j].value, passes[i].read.ts, passes[j].read.ts);
        }
      }
    }
  }
}
