/** Subframe types of LTE duplexing, as subframe_select classifies them. */
module Tdd {
  import opened SubframeTime

  datatype SubframeType = SF_DL | SF_UL | SF_S

  /** FDD, or TDD with an uplink-downlink configuration. */
  datatype Duplex = FDD | TDD(config: nat)

  /** Table 4.2-2 of 3GPP TS 36.211: the patterns of the seven configurations. */
  const UPLINK_DOWNLINK_TABLE: seq<seq<SubframeType>> := [
    [SF_DL, SF_S, SF_UL, SF_UL, SF_UL, SF_DL, SF_S, SF_UL, SF_UL, SF_UL],
    [SF_DL, SF_S, SF_UL, SF_UL, SF_DL, SF_DL, SF_S, SF_UL, SF_UL, SF_DL],
    [SF_DL, SF_S, SF_UL, SF_DL, SF_DL, SF_DL, SF_S, SF_UL, SF_DL, SF_DL],
    [SF_DL, SF_S, SF_UL, SF_UL, SF_UL, SF_DL, SF_DL, SF_DL, SF_DL, SF_DL],
    [SF_DL, SF_S, SF_UL, SF_UL, SF_DL, SF_DL, SF_DL, SF_DL, SF_DL, SF_DL],
    [SF_DL, SF_S, SF_UL, SF_DL, SF_DL, SF_DL, SF_DL, SF_DL, SF_DL, SF_DL],
    [SF_DL, SF_S, SF_UL, SF_UL, SF_UL, SF_DL, SF_S, SF_UL, SF_UL, SF_DL]]

  /** subframe_select. Configurations 0, 2, 6 and anything above 6 stop the program there: None. */
  function SubframeSelect(duplex: Duplex, subframe: nat): Option<SubframeType> {
    if duplex.FDD? then Some(SF_DL)
    else if duplex.config == 1 then
      Some(if subframe in {0, 4, 5, 9} then SF_DL else if subframe in {2, 3, 7, 8} then SF_UL else SF_S)
    else if duplex.config == 3 then
      Some(if subframe < 1 || subframe >= 5 then SF_DL else if subframe > 1 then SF_UL else SF_S)
    else if duplex.config == 4 then
      Some(if subframe < 1 || subframe >= 4 then SF_DL else if subframe > 1 then SF_UL else SF_S)
    else if duplex.config == 5 then
      Some(if subframe < 1 || subframe >= 3 then SF_DL else if subframe > 1 then SF_UL else SF_S)
    else None
  }

  /** The duplexing that the program supports. */
  predicate Supported(duplex: Duplex) {
    duplex.FDD? || duplex.config in {1, 3, 4, 5}
  }

  /** The pattern the standard gives: all downlink for FDD. */
  function Pattern(duplex: Duplex, subframe: nat): SubframeType
    requires duplex.TDD? ==> duplex.config < 7
    requires subframe < 10
  {
    if duplex.FDD? then SF_DL else UPLINK_DOWNLINK_TABLE[duplex.config][subframe]
  }

  /** subframe_select agrees with the standard wherever it returns at all, and it returns exactly for
      FDD and TDD configurations 1, 3, 4 and 5. */
  lemma SelectFollowsTable(duplex: Duplex, subframe: nat)
    requires subframe < 10
    ensures SubframeSelect(duplex, subframe).Some? <==> Supported(duplex)
    ensures SubframeSelect(duplex, subframe).Some? ==>
              SubframeSelect(duplex, subframe).value == Pattern(duplex, subframe)
  {
  }
}
