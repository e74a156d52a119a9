/** The downlink side of the fronthaul (ru_thread_asynch_rxtx with fh_if4p5_north_asynch_in): symbols are
    collected into subframes, which are then stamped. The receiver knows how many symbols to wait for only from
    the subframe it expects. */
module DownlinkFronthaul {
  import opened Bits
  import opened SubframeTime
  import opened Tdd
  import opened TxUnwrap

  // ---------------------------------------------------------------- packets and the subframes they make up

  datatype DlParms = DlParms(duplex: Duplex, symbolsPerTti: nat, dlSymbolsInS: nat, spt: nat)

  /** A downlink symbol, as recv_IF4p5 delivers it. */
  datatype DlPacket = DlPacket(frame: nat, subframe: nat, symbol: nat)

  /** Number n of the full mask (1 << n) - 1 for a subframe number. */
  function DlDue(parms: DlParms, subframe: nat): nat {
    if SubframeSelect(parms.duplex, subframe) == Some(SF_S) then parms.dlSymbolsInS else parms.symbolsPerTti
  }

  /** ... in the standard's pattern: a special subframe has its downlink symbols, any other, in FDD every one, all. */
  lemma DlDueByPattern(parms: DlParms, subframe: nat)
    requires subframe < 10 && Supported(parms.duplex)
    ensures DlDue(parms, subframe)
            == if Pattern(parms.duplex, subframe) == SF_S then parms.dlSymbolsInS else parms.symbolsPerTti
  {
    SelectFollowsTable(parms.duplex, subframe);
    hide SubframeSelect;
  }

  /** Something is sent in subframe n. */
  predicate Sends(duplex: Duplex, n: nat) {
    SubframeSelect(duplex, SubframeAt(n)) != Some(SF_UL)
  }

  ghost predicate SymbolIn(ps: seq<DlPacket>, k: nat) {
    exists i :: 0 <= i < |ps| && ps[i].symbol == k
  }

  /** The packets of subframe n, in any order and with repetitions, up to the last of its symbols to appear. */
  ghost predicate IsBlock(parms: DlParms, n: nat, ps: seq<DlPacket>) {
    && ps != [] && Sends(parms.duplex, n)
    && (forall i | 0 <= i < |ps| :: ps[i].frame == FrameAt(n) && ps[i].subframe == SubframeAt(n)
                                    && ps[i].symbol < DlDue(parms, SubframeAt(n)))
    && (forall k: nat | k < DlDue(parms, SubframeAt(n)) :: SymbolIn(ps, k))
    && !SymbolIn(ps[..|ps| - 1], ps[|ps| - 1].symbol)
  }

  /** So a block is of a subframe that is not uplink, and holds exactly its symbols: the downlink ones of a special
      subframe, all of a downlink one. */
  lemma BlockSymbols(parms: DlParms, n: nat, ps: seq<DlPacket>)
    requires IsBlock(parms, n, ps) && Supported(parms.duplex)
    ensures Pattern(parms.duplex, n % 10) != SF_UL
    ensures forall k: nat :: SymbolIn(ps, k) <==>
              k < if Pattern(parms.duplex, n % 10) == SF_S then parms.dlSymbolsInS else parms.symbolsPerTti
  {
    DlDueByPattern(parms, n % 10);
    SelectFollowsTable(parms.duplex, n % 10);
    hide SubframeSelect, DlDue;
  }

  function Flatten(blocks: seq<seq<DlPacket>>): seq<DlPacket> {
    if blocks == [] then [] else Flatten(blocks[..|blocks| - 1]) + blocks[|blocks| - 1]
  }

  lemma {:induction false} FlattenAt(blocks: seq<seq<DlPacket>>, j: nat)
    requires j < |blocks|
    ensures var pos, len := |Flatten(blocks[..j])|, |blocks[j]|;
            && pos + len == |Flatten(blocks[..j + 1])| <= |Flatten(blocks)|
            && Flatten(blocks)[pos..pos + len] == blocks[j]
  {
    var k := |blocks| - 1;
    if j < k {
      FlattenAt(blocks[..k], j);
      assert blocks[..k][..j] == blocks[..j] && blocks[..k][..j + 1] == blocks[..j + 1];
      var pos, len := |Flatten(blocks[..j])|, |blocks[j]|;
      assert Flatten(blocks)[pos..pos + len] == Flatten(blocks[..k])[pos..pos + len];
    } else {
      assert blocks[..j + 1] == blocks && blocks[..j + 1][..j] == blocks[..j];
    }
  }

  /** Where the i-th block ends. */
  function BlockEnd(blocks: seq<seq<DlPacket>>, i: nat): nat
    requires i < |blocks|
  {
    |Flatten(blocks[..i + 1])|
  }

  // ---------------------------------------------------------------- one call, for any packets

  /** The mask after packets ps. */
  function MaskOf(ps: seq<DlPacket>): nat {
    if ps == [] then 0 else SetBit(MaskOf(ps[..|ps| - 1]), ps[|ps| - 1].symbol)
  }

  lemma {:induction false} MaskHas(ps: seq<DlPacket>, k: nat)
    ensures Has(MaskOf(ps), k) <==> SymbolIn(ps, k)
  {
    if ps == [] {
      HasZero(k);
    } else {
      var before, last := ps[..|ps| - 1], ps[|ps| - 1];
      MaskHas(before, k);
      HasSetBit(MaskOf(before), last.symbol, k);
      if SymbolIn(before, k) {
        var i :| 0 <= i < |before| && before[i].symbol == k;
        assert ps[i].symbol == k;
      }
      assert ps[|ps| - 1] == last;
    }
  }

  /** Exactly the symbols below due. */
  ghost predicate ExactSet(ps: seq<DlPacket>, due: nat) {
    forall k: nat :: SymbolIn(ps, k) <==> k < due
  }

  /** The test of the loop holds if and only if exactly the symbols due have come. */
  lemma MaskFull(ps: seq<DlPacket>, due: nat)
    ensures MaskOf(ps) == Full(due) <==> ExactSet(ps, due)
  {
    forall k: nat ensures Has(MaskOf(ps), k) <==> SymbolIn(ps, k) {
      MaskHas(ps, k);
    }
    IsFull(MaskOf(ps), due);
    if SomeFrom(MaskOf(ps), due) {
      var k: nat :| k >= due && Has(MaskOf(ps), k);
      assert SymbolIn(ps, k);
    }
    if MaskOf(ps) == Full(due) {
      forall k: nat ensures SymbolIn(ps, k) <==> k < due {
        assert Has(MaskOf(ps), k) <==> SymbolIn(ps, k);
      }
    }
  }

  /** The test has held after none of the packets from pos up to end. */
  ghost predicate NotYet(packets: seq<DlPacket>, pos: nat, end: nat, due: nat)
    requires end <= |packets|
  {
    forall e | pos < e <= end :: !ExactSet(packets[pos..e], due)
  }

  /** The packets from pos to end are the first for which the test holds. */
  ghost predicate EndsAt(packets: seq<DlPacket>, pos: nat, end: nat, due: nat) {
    pos < end <= |packets| && ExactSet(packets[pos..end], due) && NotYet(packets, pos, end - 1, due)
  }

  /** The call never ends. */
  ghost predicate Hangs(packets: seq<DlPacket>, pos: nat, due: nat) {
    NotYet(packets, pos, |packets|, due)
  }

  /** One packet more: its mask, and what the test on it means. */
  lemma TestAfter(packets: seq<DlPacket>, pos: nat, end: nat, due: nat)
    requires pos <= end < |packets| && NotYet(packets, pos, end, due)
    ensures var mask := SetBit(MaskOf(packets[pos..end]), packets[end].symbol);
            && mask == MaskOf(packets[pos..end + 1])
            && if mask == Full(due) then EndsAt(packets, pos, end + 1, due) else NotYet(packets, pos, end + 1, due)
  {
    hide SetBit, Full, ExactSet, MaskOf;
    MaskNext(packets, pos, end);
    MaskFull(packets[pos..end + 1], due);
  }

  /** Where a call ends that expects subframe number k, in the standard's pattern: with the first packet after which
      exactly the symbols of the subframe have come, the downlink ones of a special subframe, all of any other. */
  lemma CallEnds(parms: DlParms, packets: seq<DlPacket>, pos: nat, end: nat, k: nat)
    requires k < 10 && Supported(parms.duplex)
    ensures EndsAt(packets, pos, end, DlDue(parms, k)) <==>
              var symbols := if Pattern(parms.duplex, k) == SF_S then parms.dlSymbolsInS else parms.symbolsPerTti;
              && pos < end <= |packets|
              && (forall l: nat :: SymbolIn(packets[pos..end], l) <==> l < symbols)
              && forall e | pos < e < end :: !ExactSet(packets[pos..e], symbols)
  {
    DlDueByPattern(parms, k);
    hide DlDue, Pattern;
  }

  /** Once a symbol is in that is not due, no later packet ends the call: it hangs unless it has ended before. */
  lemma HangsFrom(packets: seq<DlPacket>, pos: nat, i: nat, due: nat)
    requires pos <= i < |packets| && packets[i].symbol >= due
    ensures Hangs(packets, pos, due) <==> Hangs(packets[..i], pos, due)
  {
    forall e | i < e <= |packets| ensures !ExactSet(packets[pos..e], due) {
      assert packets[pos..e][i - pos].symbol == packets[i].symbol;
      assert SymbolIn(packets[pos..e], packets[i].symbol);
    }
    forall e | pos < e <= i ensures packets[..i][pos..e] == packets[pos..e] {
    }
    if Hangs(packets[..i], pos, due) {
      forall e | pos < e <= |packets| ensures !ExactSet(packets[pos..e], due) {
        if e <= i {
          assert !ExactSet(packets[..i][pos..e], due);
        }
      }
    }
    if Hangs(packets, pos, due) {
      forall e | pos < e <= |packets[..i]| ensures !ExactSet(packets[..i][pos..e], due) {
        assert !ExactSet(packets[pos..e], due);
      }
    }
  }

  lemma SliceOfSlice(packets: seq<DlPacket>, pos: nat, len: nat, k: nat)
    requires k <= len && pos + len <= |packets|
    ensures packets[pos..pos + len][..k] == packets[pos..pos + k]
  {
  }

  lemma MaskNext(packets: seq<DlPacket>, pos: nat, e: nat)
    requires pos <= e < |packets|
    ensures MaskOf(packets[pos..e + 1]) == SetBit(MaskOf(packets[pos..e]), packets[e].symbol)
  {
    SliceOfSlice(packets, pos, e + 1 - pos, e - pos);
  }

  lemma PartOf(ps: seq<DlPacket>, a: nat, b: nat, k: nat)
    requires a <= b <= |ps|
    ensures SymbolIn(ps[..a], k) ==> SymbolIn(ps[..b], k)
  {
    if SymbolIn(ps[..a], k) {
      var i :| 0 <= i < a && ps[..a][i].symbol == k;
      assert ps[..b][i].symbol == k;
    }
  }

  /** A whole subframe holds exactly the symbols due in it, and no part of it does. */
  lemma BlockEnds(parms: DlParms, n: nat, packets: seq<DlPacket>, pos: nat, len: nat, due: nat)
    requires pos + len <= |packets| && IsBlock(parms, n, packets[pos..pos + len])
    ensures ExactSet(packets[pos..pos + len], due) <==> due == DlDue(parms, SubframeAt(n))
    ensures due == DlDue(parms, SubframeAt(n)) ==> EndsAt(packets, pos, pos + len, due)
  {
    var ps, d := packets[pos..pos + len], DlDue(parms, SubframeAt(n));
    hide DlDue, SubframeAt;
    assert ExactSet(ps, d) by {
      forall k: nat | SymbolIn(ps, k) ensures k < d {
        var i :| 0 <= i < |ps| && ps[i].symbol == k;
      }
    }
    if ExactSet(ps, due) {
      assert SymbolIn(ps, due) <==> due < d;
      assert SymbolIn(ps, d) <==> d < due;
      assert SymbolIn(ps, due) <==> due < due;
      assert SymbolIn(ps, d) <==> d < d;
    }
    var last := ps[len - 1].symbol;
    assert last < d;
    forall e | pos < e < pos + len ensures !ExactSet(packets[pos..e], d) {
      SliceOfSlice(packets, pos, len, e - pos);
      PartOf(ps, e - pos, len - 1, last);
    }
  }

  // ---------------------------------------------------------------- the subframe expected

  ghost predicate NoneSentBetween(duplex: Duplex, m: nat, x: nat) {
    forall y | m < y < x :: !Sends(duplex, y)
  }

  /** The next subframe after m in which something is sent has as many symbols as subframe n. */
  ghost predicate DueAsExpected(parms: DlParms, m: nat, n: nat) {
    forall x | m < x && Sends(parms.duplex, x) && NoneSentBetween(parms.duplex, m, x) ::
      DlDue(parms, SubframeAt(x)) == DlDue(parms, SubframeAt(n))
  }

  /** The subframe expected after m is unique. */
  lemma ExpectedIs(parms: DlParms, m: nat, x: nat, n: nat)
    requires m < x && Sends(parms.duplex, x) && NoneSentBetween(parms.duplex, m, x)
    ensures DueAsExpected(parms, m, n) <==> DlDue(parms, SubframeAt(x)) == DlDue(parms, SubframeAt(n))
  {
    hide Sends, DlDue, SubframeAt;
    forall y | m < y && Sends(parms.duplex, y) && NoneSentBetween(parms.duplex, m, y) ensures y == x {
    }
  }

  predicate IsSpecial(duplex: Duplex, n: nat) {
    SubframeSelect(duplex, SubframeAt(n)) == Some(SF_S)
  }

  /** Which losses do no harm: the first subframe lost, x, and the one that comes instead, n, are both special or
      both not; with no more symbols in the one kind than in the other, any. */
  lemma HarmlessLoss(parms: DlParms, m: nat, x: nat, n: nat)
    requires m < x && Sends(parms.duplex, x) && NoneSentBetween(parms.duplex, m, x)
    ensures DueAsExpected(parms, m, n) <==>
              || (IsSpecial(parms.duplex, x) <==> IsSpecial(parms.duplex, n))
              || parms.dlSymbolsInS == parms.symbolsPerTti
  {
    ExpectedIs(parms, m, x, n);
    hide SubframeSelect, SubframeAt, DueAsExpected;
  }

  /** In TDD the loss of a subframe 0 alone does harm, unless special subframes are as long: the special subframe 1
      comes instead. */
  lemma SubframeZeroLost(parms: DlParms, z: nat)
    requires parms.duplex in {TDD(1), TDD(3), TDD(4), TDD(5)} && parms.dlSymbolsInS != parms.symbolsPerTti
    requires z > 0 && z % 10 == 0
    ensures !DueAsExpected(parms, z - 1, z + 1)
  {
    assert SubframeAt(z) == 0 && SubframeAt(z + 1) == 1;
    hide SubframeAt;
    HarmlessLoss(parms, z - 1, z, z + 1);
  }

  /** Every subframe delivered is taken for one with as many symbols. */
  ghost predicate AllAsExpected(parms: DlParms, ns: seq<nat>) {
    forall i | 0 <= i < |ns| - 1 :: DueAsExpected(parms, ns[i], ns[i + 1])
  }

  /** The fronthaul delivers subframes ns, each whole and one after the other; others may have been lost. */
  ghost predicate Delivers(parms: DlParms, ns: seq<nat>, blocks: seq<seq<DlPacket>>) {
    && |blocks| == |ns|
    && (forall i | 0 <= i < |ns| :: IsBlock(parms, ns[i], blocks[i]))
  }

  /** The calls end where the subframes do. */
  ghost predicate OnBlocks(ends: seq<nat>, blocks: seq<seq<DlPacket>>) {
    |ends| == |blocks| && forall i | 0 <= i < |ends| :: ends[i] == BlockEnd(blocks, i)
  }

  /** ns are all the subframes in which something is sent, from the first of them on. */
  ghost predicate EverySent(duplex: Duplex, ns: seq<nat>) {
    && (forall i | 0 <= i < |ns| :: Sends(duplex, ns[i]))
    && (forall i | 0 <= i < |ns| - 1 :: ns[i] < ns[i + 1] && NoneSentBetween(duplex, ns[i], ns[i + 1]))
  }

  lemma ZeroIsSent(duplex: Duplex)
    ensures SubframeSelect(duplex, 0) != Some(SF_UL)
  {
  }

  // ---------------------------------------------------------------- the course of a reception

  /** Where a reception stands: fields and locals of the receiver, timestamps made, and where the calls ended. */
  datatype Course = Course(firstTx: bool, unwrap: int, pos: nat, subframe: nat, stamps: seq<int>, ends: seq<nat>)

  /** Every call so far took one subframe; the counters are those of subframe c. */
  ghost predicate OnCourse(parms: DlParms, ns: seq<nat>, blocks: seq<seq<DlPacket>>, r: Course, c: nat) {
    var j := |r.ends|;
    && j <= |ns| == |blocks| && |r.stamps| == j
    && r.pos == |Flatten(blocks[..j])| && r.subframe == SubframeAt(c) && (r.firstTx <==> j == 0)
    && (j > 0 ==> ns[j - 1] <= c && NoneSentBetween(parms.duplex, ns[j - 1], c + 1))
    && r.unwrap == CounterAfter(ns[..j])
    && (forall i | 0 <= i < j :: r.stamps[i] == StampIn(ns, i, parms.spt) && r.ends[i] == BlockEnd(blocks, i))
    && (forall i | 0 <= i < j - 1 :: DueAsExpected(parms, ns[i], ns[i + 1]))
  }

  /** A call took something else than the subframe that came, which was not expected. */
  ghost predicate OffCourse(parms: DlParms, ns: seq<nat>, blocks: seq<seq<DlPacket>>, ends: seq<nat>) {
    |blocks| == |ns| && exists i ::
      0 <= i < |ns| - 1 && !DueAsExpected(parms, ns[i], ns[i + 1])
      && i + 1 < |ends| && ends[i + 1] != BlockEnd(blocks, i + 1)
  }

  lemma CourseBegins(parms: DlParms, ns: seq<nat>, blocks: seq<seq<DlPacket>>)
    requires Delivers(parms, ns, blocks)
    ensures OnCourse(parms, ns, blocks, Course(true, 0, 0, 0, [], []), 0)
  {
  }

  /** An uplink subframe is passed over. */
  lemma CourseSkips(parms: DlParms, ns: seq<nat>, blocks: seq<seq<DlPacket>>, r: Course, c: nat)
    requires OnCourse(parms, ns, blocks, r, c) && !Sends(parms.duplex, c + 1)
    ensures OnCourse(parms, ns, blocks, r.(subframe := SubframeAt(c + 1)), c + 1)
  {
    hide Sends, SubframeAt, DueAsExpected, StampIn, BlockEnd, Flatten, CounterAfter;
  }

  /** How many symbols the call in which subframe c is expected waits for. */
  function DueNow(parms: DlParms, packets: seq<DlPacket>, r: Course, c: nat): nat {
    if r.firstTx && r.pos < |packets| then DlDue(parms, packets[r.pos].subframe) else DlDue(parms, SubframeAt(c))
  }

  /** With packets to come: the block they begin with, and whether its number of symbols is the one waited for. */
  lemma NextBlock(parms: DlParms, ns: seq<nat>, blocks: seq<seq<DlPacket>>, packets: seq<DlPacket>, r: Course, c: nat)
    requires Delivers(parms, ns, blocks) && packets == Flatten(blocks)
    requires OnCourse(parms, ns, blocks, r, c) && Sends(parms.duplex, c + 1) && r.pos < |packets|
    ensures var j := |r.ends|;
            && j < |ns| && r.pos + |blocks[j]| == BlockEnd(blocks, j) <= |packets| && |blocks[j]| > 0
            && packets[r.pos..r.pos + |blocks[j]|] == blocks[j] && IsBlock(parms, ns[j], blocks[j])
            && (DueNow(parms, packets, r, c + 1) == DlDue(parms, SubframeAt(ns[j]))
                <==> j == 0 || DueAsExpected(parms, ns[j - 1], ns[j]))
  {
    hide Flatten, Sends, DlDue, StampIn, CounterAfter, DueAsExpected, IsBlock, SubframeAt;
    var j := |r.ends|;
    assert blocks[..|blocks|] == blocks;
    FlattenAt(blocks, j);
    BlockHead(parms, ns[j], blocks[j]);
    if j == 0 {
      assert packets[r.pos] == blocks[j][0];
    } else {
      ExpectedIs(parms, ns[j - 1], c + 1, ns[j]);
    }
  }

  lemma BlockHead(parms: DlParms, n: nat, ps: seq<DlPacket>)
    requires IsBlock(parms, n, ps)
    ensures ps != [] && ps[0].subframe == SubframeAt(n)
  {
  }

  /** A call that ends keeps the reception on course exactly when the subframe was as expected. */
  lemma CourseGoesOn(parms: DlParms, ns: seq<nat>, blocks: seq<seq<DlPacket>>, packets: seq<DlPacket>, r: Course,
                     c: nat, end: nat)
    requires Delivers(parms, ns, blocks) && packets == Flatten(blocks)
    requires OnCourse(parms, ns, blocks, r, c) && Sends(parms.duplex, c + 1) && r.pos < |packets|
    requires EndsAt(packets, r.pos, end, DueNow(parms, packets, r, c + 1))
    ensures var j, last := |r.ends|, packets[end - 1];
            && j < |ns|
            && if j == 0 || DueAsExpected(parms, ns[j - 1], ns[j]) then
                 var unwrap := Unwrapped(r.unwrap, ns[j]);
                 && last.frame == FrameAt(ns[j]) && last.subframe == SubframeAt(ns[j])
                 && OnCourse(parms, ns, blocks,
                             Course(false, unwrap, end, last.subframe, r.stamps + [Stamp(unwrap, ns[j], parms.spt)],
                                    r.ends + [end]),
                             ns[j])
               else OffCourse(parms, ns, blocks, r.ends + [end])
  {
    hide Flatten, Sends, DlDue, DueAsExpected, ExactSet, DueNow, Stamp, Unwrapped, FrameAt, SubframeAt;
    var j := |r.ends|;
    NextBlock(parms, ns, blocks, packets, r, c);
    BlockEnds(parms, ns[j], packets, r.pos, |blocks[j]|, DueNow(parms, packets, r, c + 1));
    if j == 0 || DueAsExpected(parms, ns[j - 1], ns[j]) {
      assert end == r.pos + |blocks[j]|;
      assert packets[end - 1] == blocks[j][|blocks[j]| - 1];
      assert ns[..j + 1][..j] == ns[..j];
    } else {
      assert (r.ends + [end])[j] == end;
      assert !DueAsExpected(parms, ns[j - 1], ns[j - 1 + 1]);
    }
  }

  /** A call that hangs on course waits for more or fewer symbols than the subframe has. */
  lemma CourseHangs(parms: DlParms, ns: seq<nat>, blocks: seq<seq<DlPacket>>, packets: seq<DlPacket>, r: Course, c: nat)
    requires Delivers(parms, ns, blocks) && packets == Flatten(blocks)
    requires OnCourse(parms, ns, blocks, r, c) && Sends(parms.duplex, c + 1) && r.pos < |packets|
    requires Hangs(packets, r.pos, DueNow(parms, packets, r, c + 1))
    ensures |r.ends| < |ns| && !AllAsExpected(parms, ns)
  {
    hide Flatten, Sends, DlDue, DueAsExpected, ExactSet, DueNow;
    var j := |r.ends|;
    NextBlock(parms, ns, blocks, packets, r, c);
    BlockEnds(parms, ns[j], packets, r.pos, |blocks[j]|, DueNow(parms, packets, r, c + 1));
    assert j > 0 && !DueAsExpected(parms, ns[j - 1], ns[j - 1 + 1]);
  }

  /** At the end of the packets. */
  lemma CourseEnds(parms: DlParms, ns: seq<nat>, blocks: seq<seq<DlPacket>>, r: Course, c: nat)
    requires Delivers(parms, ns, blocks) && r.pos >= |Flatten(blocks)|
    requires OnCourse(parms, ns, blocks, r, c)
    ensures OnBlocks(r.ends, blocks) && AllAsExpected(parms, ns)
    ensures |r.stamps| == |ns| && forall i | 0 <= i < |ns| :: r.stamps[i] == StampIn(ns, i, parms.spt)
  {
    hide Flatten, DueAsExpected, StampIn, CounterAfter, SubframeAt;
    var j := |r.ends|;
    if j < |ns| {
      assert IsBlock(parms, ns[j], blocks[j]);
      FlattenAt(blocks, j);
      assert false;
    }
  }

  lemma OffCourseSpoils(parms: DlParms, ns: seq<nat>, blocks: seq<seq<DlPacket>>, ends: seq<nat>)
    requires OffCourse(parms, ns, blocks, ends)
    ensures !OnBlocks(ends, blocks) && !AllAsExpected(parms, ns)
    ensures forall end :: OffCourse(parms, ns, blocks, ends + [end])
  {
    hide DueAsExpected, BlockEnd;
    var i :| 0 <= i < |ns| - 1 && !DueAsExpected(parms, ns[i], ns[i + 1])
             && i + 1 < |ends| && ends[i + 1] != BlockEnd(blocks, i + 1);
    forall end: nat ensures OffCourse(parms, ns, blocks, ends + [end]) {
      assert (ends + [end])[i + 1] == ends[i + 1];
    }
  }

  /** All packets carry frame and subframe numbers. */
  ghost predicate Numbered(packets: seq<DlPacket>) {
    forall i | 0 <= i < |packets| :: packets[i].frame < 1024 && packets[i].subframe < 10
  }

  lemma {:induction false} FlattenNumbered(parms: DlParms, ns: seq<nat>, blocks: seq<seq<DlPacket>>)
    requires Delivers(parms, ns, blocks)
    ensures Numbered(Flatten(blocks))
  {
    if blocks != [] {
      var k := |blocks| - 1;
      hide DlDue;
      FlattenNumbered(parms, ns[..k], blocks[..k]);
      assert IsBlock(parms, ns[k], blocks[k]);
    }
  }

  lemma NumbersOf(frame: nat, subframe: nat)
    requires frame < 1024 && subframe < 10
    ensures FrameAt(10 * frame + subframe) == frame && SubframeAt(10 * frame + subframe) == subframe
  {
  }

  // ---------------------------------------------------------------- the receiver

  class AsynchProc {
    const parms: DlParms
    var firstTx: bool
    var frameTxUnwrap: int
    var frameTx: int
    var ttiTx: int
    var timestampTx: int

    constructor (parms: DlParms)
      ensures this.parms == parms && frameTxUnwrap == 0 && firstTx
    {
      this.parms := parms;
      firstTx, frameTxUnwrap, frameTx, ttiTx, timestampTx := true, 0, 0, 0, 0;
    }

    /** The loop of fh_if4p5_north_asynch_in, for any packets: it ends with the first packet after which exactly the
        symbols due have come, those of the expected subframe, or of the first packet at the very first call; if
        there is none it waits for good. */
    method Collect(packets: seq<DlPacket>, pos: nat, subframe: nat)
      returns (done: bool, pos': nat, frame': nat, subframe': nat)
      requires pos < |packets|
      modifies this`firstTx
      ensures !firstTx && pos < pos' <= |packets|
      ensures frame' == packets[pos' - 1].frame && subframe' == packets[pos' - 1].subframe
      ensures var due := DlDue(parms, if old(firstTx) then packets[pos].subframe else subframe);
              if done then EndsAt(packets, pos, pos', due) else pos' == |packets| && Hangs(packets, pos, due)
    {
      ghost var due := DlDue(parms, if firstTx then packets[pos].subframe else subframe);
      var full, mask := Full(DlDue(parms, subframe)), 0;
      done, pos', frame', subframe' := false, pos, 0, subframe;
      assert MaskOf(packets[pos..pos]) == 0 && NotYet(packets, pos, pos, due);
      hide DlDue, NotYet, Full, MaskOf, SetBit, EndsAt;
      while pos' < |packets|
        invariant pos <= pos' <= |packets| && !done
        invariant firstTx ==> pos' == pos
        invariant firstTx || full == Full(due)
        invariant firstTx ==> due == DlDue(parms, packets[pos].subframe)
        invariant pos' > pos ==> frame' == packets[pos' - 1].frame && subframe' == packets[pos' - 1].subframe
        invariant mask == MaskOf(packets[pos..pos'])
        invariant NotYet(packets, pos, pos', due)
      {
        var p := packets[pos'];
        frame', subframe' := p.frame, p.subframe;
        if firstTx {
          firstTx := false;
          full := Full(DlDue(parms, subframe'));
        }
        TestAfter(packets, pos, pos', due);
        pos' := pos' + 1;
        mask := SetBit(mask, p.symbol);
        if mask == full {
          done := true;
          return;
        }
      }
    }

    /** fh_if4p5_north_asynch_in after all symbols of subframe n have been received. */
    method Complete(frame: nat, subframe: nat, ghost n: nat)
      requires frame == FrameAt(n) && subframe == SubframeAt(n)
      modifies this`frameTxUnwrap, this`frameTx, this`ttiTx, this`timestampTx
      ensures frameTxUnwrap == Unwrapped(old(frameTxUnwrap), n)
      ensures frameTx == FrameAt(n) && ttiTx == SubframeAt(n) && timestampTx == Stamp(frameTxUnwrap, n, parms.spt)
    {
      ttiTx := subframe;
      frameTx := frame;
      if frame == 0 && subframe == 0 {
        frameTxUnwrap := Int32(frameTxUnwrap + 1024);
      }
      timestampTx := U64(U64(U64(frame + U64(frameTxUnwrap)) * 10 + subframe) * parms.spt);
    }

    /** A whole reception by ru_thread_asynch_rxtx, from its first packet until nothing more comes, whatever subframes
        were lost. Every call takes exactly one subframe if and only if each subframe delivered has as many symbols as
        the one expected; and then the timestamps are those of the run, spaced like the subframes if and only if
        no start of a 1024-frame cycle was lost. */
    method Receive(packets: seq<DlPacket>, ghost ns: seq<nat>, ghost blocks: seq<seq<DlPacket>>)
      returns (stamps: seq<int>, ends: seq<nat>)
      requires Delivers(parms, ns, blocks) && packets == Flatten(blocks)
      requires forall k: nat | k < 10 :: SubframeSelect(parms.duplex, k).Some?
      requires frameTxUnwrap == 0 && firstTx
      modifies this
      ensures OnBlocks(ends, blocks) <==> AllAsExpected(parms, ns)
      ensures AllAsExpected(parms, ns) ==>
                |stamps| == |ns| && forall i | 0 <= i < |ns| :: stamps[i] == StampIn(ns, i, parms.spt)
      ensures AllAsExpected(parms, ns) && InOrder(ns) && Starts(ns) < MAX_CYCLES && ValidLength(parms.spt) ==>
                (LikeSubframes(ns, stamps, parms.spt) <==> NoStartMissed(ns))
    {
      hide Stamp, Unwrapped, StampIn, Delivers, Flatten, InOrder, Starts, ValidLength, NoStartMissed, LikeSubframes,
           OnCourse, OffCourse, OnBlocks, AllAsExpected, EndsAt, Hangs, DlDue, SubframeSelect, FrameAt, SubframeAt,
           DueAsExpected, Numbered;
      stamps, ends := [], [];
      var frame: nat, subframe: nat, pos: nat := 0, 0, 0;
      ghost var c: nat := 0;
      ghost var on := true;
      CourseBegins(parms, ns, blocks);
      FlattenNumbered(parms, ns, blocks);
      while pos < |packets|
        invariant pos <= |packets| && subframe < 10
        invariant if on then
                    OnCourse(parms, ns, blocks, Course(firstTx, frameTxUnwrap, pos, subframe, stamps, ends), c)
                    && subframe == SubframeAt(c)
                  else OffCourse(parms, ns, blocks, ends)
        decreases |packets| - pos, 10 - subframe
      {
        ghost var r := Course(firstTx, frameTxUnwrap, pos, subframe, stamps, ends);
        NextAt(c);
        if subframe == 9 {
          subframe := 0;
          frame := frame + 1;
          frame := Low10(frame);
        } else {
          subframe := subframe + 1;
        }
        ZeroIsSent(parms.duplex);
        if SubframeSelect(parms.duplex, subframe).value == SF_UL {
          if on {
            CourseSkips(parms, ns, blocks, r, c);
            c := c + 1;
          }
        } else {
          var done, end;
          done, end, frame, subframe := Collect(packets, pos, subframe);
          if on {
            WaitsFor(packets, r, c);
          }
          if !done {
            if on {
              CourseHangs(parms, ns, blocks, packets, r, c);
              FewerEnds(ends, blocks, ns);
            } else {
              OffCourseSpoils(parms, ns, blocks, ends);
            }
            return;
          }
          assert packets[end - 1].frame < 1024 && packets[end - 1].subframe < 10 by { At(packets, end - 1); }
          ghost var n := 10 * frame + subframe;
          NumbersOf(frame, subframe);
          if on {
            CourseGoesOn(parms, ns, blocks, packets, r, c, end);
            if |ends| == 0 || DueAsExpected(parms, ns[|ends| - 1], ns[|ends|]) {
              n := ns[|ends|];
              c := n;
            } else {
              on := false;
            }
          } else {
            OffCourseSpoils(parms, ns, blocks, ends);
          }
          Complete(frame, subframe, n);
          stamps, ends, pos := stamps + [timestampTx], ends + [end], end;
        }
      }
      if on {
        CourseEnds(parms, ns, blocks, Course(firstTx, frameTxUnwrap, pos, subframe, stamps, ends), c);
        if InOrder(ns) && Starts(ns) < MAX_CYCLES && ValidLength(parms.spt) {
          StampsSpaced(ns, stamps, parms.spt);
        }
      } else {
        OffCourseSpoils(parms, ns, blocks, ends);
      }
    }

    lemma At(packets: seq<DlPacket>, i: nat)
      requires Numbered(packets) && i < |packets|
      ensures packets[i].frame < 1024 && packets[i].subframe < 10
    {
    }

    lemma FewerEnds(ends: seq<nat>, blocks: seq<seq<DlPacket>>, ns: seq<nat>)
      requires |ends| < |ns| && Delivers(parms, ns, blocks)
      ensures !OnBlocks(ends, blocks)
    {
    }

    /** What Collect waits for. */
    lemma WaitsFor(packets: seq<DlPacket>, r: Course, c: nat)
      requires r.pos < |packets|
      ensures DueNow(parms, packets, r, c + 1)
              == DlDue(parms, if r.firstTx then packets[r.pos].subframe else SubframeAt(c + 1))
    {
    }
  }

  /** When nothing that is sent is lost, the number of symbols is always the expected one. */
  lemma EverySentAsExpected(parms: DlParms, ns: seq<nat>)
    requires EverySent(parms.duplex, ns)
    ensures AllAsExpected(parms, ns)
  {
    hide Sends, DlDue, DueAsExpected;
    forall i | 0 <= i < |ns| - 1 ensures DueAsExpected(parms, ns[i], ns[i + 1]) {
      assert Sends(parms.duplex, ns[i + 1]);
      ExpectedIs(parms, ns[i], ns[i + 1], ns[i + 1]);
    }
  }

  /** ... and no start of a cycle is missed: it is a subframe in which something is sent. */
  lemma EverySentMissesNone(duplex: Duplex, ns: seq<nat>)
    requires EverySent(duplex, ns)
    ensures InOrder(ns) && NoStartMissed(ns)
  {
    hide Sends;
    forall i, j | 0 <= i < j < |ns| ensures ns[i] < ns[j] {
      Rises(duplex, ns, i, j);
    }
    forall z: nat | ns != [] && z % 10240 == 0 && ns[0] < z <= ns[|ns| - 1] ensures z in ns {
      StartIsSent(duplex, z);
      SentIsIn(duplex, ns, z, |ns| - 1);
    }
  }

  lemma {:induction false} Rises(duplex: Duplex, ns: seq<nat>, i: nat, j: nat)
    requires EverySent(duplex, ns) && i < j < |ns|
    ensures ns[i] < ns[j]
    decreases j
  {
    assert ns[j - 1] < ns[j - 1 + 1];
    if i < j - 1 {
      Rises(duplex, ns, i, j - 1);
    }
  }

  lemma StartIsSent(duplex: Duplex, z: nat)
    requires z % 10240 == 0
    ensures Sends(duplex, z)
  {
    assert z % 10 == 0;
    ZeroIsSent(duplex);
    hide SubframeSelect;
  }

  lemma {:induction false} SentIsIn(duplex: Duplex, ns: seq<nat>, z: nat, j: nat)
    requires EverySent(duplex, ns) && Sends(duplex, z) && j < |ns| && ns[0] < z <= ns[j]
    ensures z in ns
    decreases j
  {
    hide Sends;
    if z <= ns[j - 1] {
      SentIsIn(duplex, ns, z, j - 1);
    } else {
      assert NoneSentBetween(duplex, ns[j - 1], ns[j - 1 + 1]);
    }
  }
}
