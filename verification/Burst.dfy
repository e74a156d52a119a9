/** Radio bursts: what tx_rf writes to the device for a subframe, with late control at rest, and how
    the writes of successive subframes fit together. */
module Burst {
  import opened SubframeTime
  import opened Tdd

  datatype Flag = TX_BURST_INVALID | TX_BURST_MIDDLE | TX_BURST_START | TX_BURST_END
                | TX_BURST_START_AND_END | TX_BURST_END_NO_TIME_SPEC

  /** One trx_write_func call: time of the first sample, number of samples, flag. */
  datatype Write = Write(stamp: int, length: int, flag: Flag)

  datatype Radio = Radio(duplex: Duplex, spt: nat, sfExtension: nat, endOfBurstDelay: nat,
                         dlSymbolsInS: nat, isSlave: bool,
                         ofdmSymbolSize: nat, prefix0: nat, prefix: nat)

  /** The sf_extension in use: none but at the start of a burst, and then without its low three bits
      (x86). */
  function Extension(radio: Radio, flag: Flag): nat {
    if flag == TX_BURST_START then radio.sfExtension - radio.sfExtension % 8 else 0
  }

  function TxSymbols(radio: Radio): nat {
    radio.dlSymbolsInS + if radio.isSlave then 0 else 1
  }

  /** Number of samples of the downlink part of a special subframe, with the delay after it. */
  function SpecialLength(radio: Radio): int {
    radio.ofdmSymbolSize + radio.prefix0 + (TxSymbols(radio) - 1) * (radio.ofdmSymbolSize + radio.prefix)
    + radio.endOfBurstDelay
  }

  /** The flag for a subframe of type now after one of type prev; no write for uplink. */
  function PlainFlag(duplex: Duplex, now: SubframeType, prev: SubframeType): Option<Flag> {
    match now
    case SF_UL => None
    case SF_S => Some(TX_BURST_END)
    case SF_DL => Some(if duplex.TDD? && prev == SF_UL then TX_BURST_START else TX_BURST_MIDDLE)
  }

  function PlainLength(radio: Radio, now: SubframeType): int {
    if now == SF_S then SpecialLength(radio) else radio.spt
  }

  /** The write of the n-th subframe, stamped with its nominal time n * spt. */
  function PlainWrite(radio: Radio, n: nat): Option<Write>
    requires Known(radio.duplex)
  {
    var flag := PlainFlag(radio.duplex, TypeAt(radio.duplex, n), TypeBefore(radio.duplex, n));
    if flag.None? then None
    else
      var ext := Extension(radio, flag.value);
      Some(Write(n * radio.spt - ext, PlainLength(radio, TypeAt(radio.duplex, n)) + ext, flag.value))
  }

  ghost predicate Known(duplex: Duplex) {
    duplex.TDD? ==> duplex.config < 7
  }

  function TypeAt(duplex: Duplex, n: nat): SubframeType
    requires Known(duplex)
  {
    Pattern(duplex, n % 10)
  }

  /** The type of the subframe before the n-th. */
  function TypeBefore(duplex: Duplex, n: nat): SubframeType
    requires Known(duplex)
  {
    Pattern(duplex, (n % 10 + 9) % 10)
  }

  /** The flags of len successive subframes from the n-th. */
  function Flags(duplex: Duplex, n: nat, len: nat): seq<Flag>
    requires Known(duplex)
    decreases len
  {
    if len == 0 then []
    else
      var flag := PlainFlag(duplex, TypeAt(duplex, n), TypeBefore(duplex, n));
      (if flag.Some? then [flag.value] else []) + Flags(duplex, n + 1, len - 1)
  }

  lemma {:induction false} FlagsSnoc(duplex: Duplex, n: nat, len: nat)
    requires Known(duplex)
    ensures var flag := PlainFlag(duplex, TypeAt(duplex, n + len), TypeBefore(duplex, n + len));
            Flags(duplex, n, len + 1) == Flags(duplex, n, len) + if flag.Some? then [flag.value] else []
    decreases len
  {
    hide TypeAt, TypeBefore, PlainFlag;
    if len > 0 {
      FlagsSnoc(duplex, n + 1, len - 1);
    } else {
      assert Flags(duplex, n + 1, 0) == [];
    }
  }

  /** (START MIDDLE* END)*, cut anywhere; open says that a burst has begun. */
  ghost predicate Bracketed(open: bool, flags: seq<Flag>)
    decreases |flags|
  {
    flags == [] ||
    match flags[0]
    case TX_BURST_START => !open && Bracketed(true, flags[1..])
    case TX_BURST_MIDDLE => open && Bracketed(true, flags[1..])
    case TX_BURST_END => open && Bracketed(false, flags[1..])
    case _ => false
  }

  /** How the seven patterns go on: after downlink comes downlink or special, after special uplink,
      after uplink uplink or downlink. */
  lemma PatternOrder(duplex: Duplex, n: nat)
    requires Known(duplex)
    ensures TypeBefore(duplex, n + 1) == TypeAt(duplex, n)
    ensures match TypeBefore(duplex, n)
            case SF_DL => TypeAt(duplex, n) != SF_UL
            case SF_S => TypeAt(duplex, n) == SF_UL
            case SF_UL => TypeAt(duplex, n) != SF_S
    ensures duplex.FDD? ==> TypeAt(duplex, n) == SF_DL && TypeBefore(duplex, n) == SF_DL
  {
    assert ((n + 1) % 10 + 9) % 10 == n % 10;
    if duplex.TDD? {
      var row := UPLINK_DOWNLINK_TABLE[duplex.config];
      assert duplex.config in {0, 1, 2, 3, 4, 5, 6};
      assert n % 10 in {0, 1, 2, 3, 4, 5, 6, 7, 8, 9};
    }
  }

  /** A burst is open before a subframe exactly when the previous one was downlink, and from there on
      the flags bracket. */
  lemma {:induction false} FlagsBracket(duplex: Duplex, n: nat, len: nat)
    requires Known(duplex)
    ensures Bracketed(TypeBefore(duplex, n) == SF_DL, Flags(duplex, n, len))
    decreases len
  {
    hide TypeAt, TypeBefore, PlainFlag, Bracketed;
    if len == 0 {
      NoFlags(TypeBefore(duplex, n) == SF_DL);
    } else {
      PatternOrder(duplex, n);
      FlagsBracket(duplex, n + 1, len - 1);
      OneMoreFlag(duplex, TypeBefore(duplex, n), TypeAt(duplex, n), Flags(duplex, n + 1, len - 1));
    }
  }

  lemma NoFlags(open: bool)
    ensures Bracketed(open, [])
  {
  }

  /** The flag of a subframe of type now after one of type prev, put before flags that bracket. */
  lemma OneMoreFlag(duplex: Duplex, prev: SubframeType, now: SubframeType, rest: seq<Flag>)
    requires Bracketed(now == SF_DL, rest)
    requires match prev case SF_DL => now != SF_UL case SF_S => now == SF_UL case SF_UL => now != SF_S
    requires duplex.FDD? ==> prev == SF_DL && now == SF_DL
    ensures var flag := PlainFlag(duplex, now, prev);
            Bracketed(prev == SF_DL, (if flag.Some? then [flag.value] else []) + rest)
  {
    var flag := PlainFlag(duplex, now, prev);
    if flag.Some? {
      assert ([flag.value] + rest)[1..] == rest;
    } else {
      assert [] + rest == rest;
    }
  }

  /** Starting the radio at subframe n: all its flags, however long it runs, form whole bursts if and
      only if the subframe before was not downlink. Waiting for the first uplink subframe is enough;
      FDD never opens a burst. */
  lemma BurstsExactly(duplex: Duplex, n: nat)
    requires Known(duplex)
    ensures (forall len: nat :: Bracketed(false, Flags(duplex, n, len))) <==> TypeBefore(duplex, n) != SF_DL
    ensures TypeAt(duplex, n) == SF_UL ==> TypeBefore(duplex, n) != SF_DL
  {
    PatternOrder(duplex, n);
    if TypeBefore(duplex, n) != SF_DL {
      forall len: nat ensures Bracketed(false, Flags(duplex, n, len)) {
        FlagsBracket(duplex, n, len);
      }
    } else {
      assert Flags(duplex, n, 1) == [PlainFlag(duplex, TypeAt(duplex, n), SF_DL).value];
      assert !Bracketed(false, Flags(duplex, n, 1));
    }
  }

  /** The sample windows of two different subframes never overlap, provided the special subframe's
      samples and the extension fit a subframe. */
  lemma WindowsDisjoint(radio: Radio, m: nat, n: nat)
    requires Known(radio.duplex) && m < n
    requires TypeAt(radio.duplex, m) != SF_UL && TypeAt(radio.duplex, n) != SF_UL
    requires SpecialLength(radio) <= radio.spt && radio.sfExtension <= radio.spt
    ensures PlainWrite(radio, m).Some? && PlainWrite(radio, n).Some?
    ensures PlainWrite(radio, m).value.stamp + PlainWrite(radio, m).value.length <= PlainWrite(radio, n).value.stamp
  {
    hide *;
    WindowEnd(radio, m);
    WindowStart(radio, n);
    PatternOrder(radio.duplex, m);
    var early := if TypeBefore(radio.duplex, n) == SF_UL then 1 else 0;
    assert early == 1 ==> m + 1 < n;
    WholeSubframes(m + 1, n - early, radio.spt);
  }

  lemma WholeSubframes(m: nat, n: int, spt: nat)
    requires m <= n
    ensures m * spt <= n * spt
  {
    assert n * spt - m * spt == (n - m) * spt;
  }

  /** A window starts at its subframe's time, or up to one subframe earlier after an uplink one. */
  lemma WindowStart(radio: Radio, n: nat)
    requires Known(radio.duplex) && TypeAt(radio.duplex, n) != SF_UL && radio.sfExtension <= radio.spt
    ensures PlainWrite(radio, n).Some?
    ensures PlainWrite(radio, n).value.stamp >=
              (n - if TypeBefore(radio.duplex, n) == SF_UL then 1 else 0) * radio.spt
  {
    hide TypeAt, TypeBefore;
    assert (n - 1) * radio.spt == n * radio.spt - radio.spt;
  }

  lemma WindowEnd(radio: Radio, m: nat)
    requires Known(radio.duplex) && TypeAt(radio.duplex, m) != SF_UL && SpecialLength(radio) <= radio.spt
    ensures PlainWrite(radio, m).Some?
    ensures PlainWrite(radio, m).value.stamp + PlainWrite(radio, m).value.length <= (m + 1) * radio.spt
  {
    hide TypeAt, TypeBefore, SpecialLength;
    assert (m + 1) * radio.spt == m * radio.spt + radio.spt;
  }

  // ---------------------------------------------------------------- the writes, subframe by subframe

  /** Samples of the first count symbols: the first one has a longer prefix. */
  function SymbolSamples(radio: Radio, count: nat): nat {
    if count == 0 then 0
    else SymbolSamples(radio, count - 1) + radio.ofdmSymbolSize + if count == 1 then radio.prefix0 else radio.prefix
  }

  lemma {:induction false} SamplesOfSymbols(radio: Radio, count: nat)
    requires count > 0
    ensures SymbolSamples(radio, count)
            == radio.ofdmSymbolSize + radio.prefix0 + (count - 1) * (radio.ofdmSymbolSize + radio.prefix)
  {
    if count > 1 {
      SamplesOfSymbols(radio, count - 1);
      var d := radio.ofdmSymbolSize + radio.prefix;
      assert (count - 1) * d == (count - 2) * d + d;
    }
  }

  /** The extension at the start of a burst: the most whole eights of samples that sf_extension has. */
  lemma ExtensionIs(radio: Radio)
    ensures var e := Extension(radio, TX_BURST_START);
            e % 8 == 0 && radio.sfExtension as int - 8 < e <= radio.sfExtension
    ensures forall flag | flag != TX_BURST_START :: Extension(radio, flag) == 0
  {
  }

  /** A write for a subframe that begins at time start, by the types of that subframe and the one before:
      after uplink it begins earlier, by whole eights of samples, and is as much longer; otherwise it begins on
      time. A downlink subframe is sent whole, a special one by its symbols and the delay after them. */
  ghost predicate FitsSubframe(radio: Radio, now: SubframeType, prev: SubframeType, start: int, w: Write) {
    var early := start - w.stamp;
    && now != SF_UL
    && (if now == SF_DL && prev == SF_UL then
          early % 8 == 0 && radio.sfExtension as int - 8 < early <= radio.sfExtension
        else early == 0)
    && (now == SF_DL ==> w.length == radio.spt + early)
    && (now == SF_S && radio.dlSymbolsInS + (if radio.isSlave then 0 else 1) > 0 ==>
          w.length == SymbolSamples(radio, radio.dlSymbolsInS + if radio.isSlave then 0 else 1) + radio.endOfBurstDelay)
  }

  /** Moved in time together with its subframe a write still fits. */
  lemma FitsMoved(radio: Radio, now: SubframeType, prev: SubframeType, start: int, w: Write, shift: int)
    requires FitsSubframe(radio, now, prev, start, w)
    ensures FitsSubframe(radio, now, prev, start + shift, w.(stamp := w.stamp + shift))
  {
    hide SymbolSamples;
  }

  /** The plain writes of all subframes, exactly: none for uplink, the flag, the time and the length. */
  lemma PlainWriteIs(radio: Radio, n: nat)
    requires Known(radio.duplex)
    ensures var now, prev := Pattern(radio.duplex, n % 10), Pattern(radio.duplex, (n % 10 + 9) % 10);
            var w := PlainWrite(radio, n);
            && (w.None? <==> now == SF_UL)
            && (w.Some? ==>
                  && FitsSubframe(radio, now, prev, n * radio.spt, w.value)
                  && w.value.flag == if now == SF_S then TX_BURST_END
                                     else if prev == SF_UL then TX_BURST_START else TX_BURST_MIDDLE)
  {
    PatternOrder(radio.duplex, n);
    ExtensionIs(radio);
    if TxSymbols(radio) > 0 {
      SamplesOfSymbols(radio, TxSymbols(radio));
    }
    hide Pattern, Extension, SymbolSamples;
  }
}
