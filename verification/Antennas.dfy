/** Flattening of the radio units' receive antennas into the eNB's (init_eNB_afterRU). */
module Antennas {

  /** Antenna i of radio unit ru. */
  datatype Port = Port(ru: nat, i: nat)

  /** Antennas of the first n units. */
  function Total(nbRx: seq<nat>, n: nat): nat
    requires n <= |nbRx|
  {
    if n == 0 then 0 else Total(nbRx, n - 1) + nbRx[n - 1]
  }

  lemma {:induction false} TotalGrows(nbRx: seq<nat>, m: nat, n: nat)
    requires m <= n <= |nbRx|
    ensures Total(nbRx, m) <= Total(nbRx, n)
  {
    if m < n {
      TotalGrows(nbRx, m, n - 1);
    }
  }

  /** A port of one of the units. */
  ghost predicate IsPort(nbRx: seq<nat>, p: Port) {
    p.ru < |nbRx| && p.i < nbRx[p.ru]
  }

  /** The eNB antenna of a port. */
  function Index(nbRx: seq<nat>, p: Port): nat
    requires p.ru < |nbRx|
  {
    Total(nbRx, p.ru) + p.i
  }

  /** The antennas are in order: from 0 on, those of a unit one after the other, and then the next unit's. */
  lemma IndexInOrder(nbRx: seq<nat>, ru: nat, i: nat)
    requires ru < |nbRx|
    ensures ru == 0 ==> Index(nbRx, Port(0, 0)) == 0
    ensures Index(nbRx, Port(ru, i + 1)) == Index(nbRx, Port(ru, i)) + 1
    ensures ru + 1 < |nbRx| ==> Index(nbRx, Port(ru + 1, 0)) == Index(nbRx, Port(ru, 0)) + nbRx[ru]
  {
  }

  /** Every eNB antenna below the total belongs to a port. */
  lemma {:induction false} PortOf(nbRx: seq<nat>, n: nat, aa: nat) returns (p: Port)
    requires n <= |nbRx| && aa < Total(nbRx, n)
    ensures IsPort(nbRx, p) && p.ru < n && Index(nbRx, p) == aa
    decreases n
  {
    if aa < Total(nbRx, n - 1) {
      p := PortOf(nbRx, n - 1, aa);
    } else {
      p := Port(n - 1, aa - Total(nbRx, n - 1));
    }
  }

  /** ... and to one only. */
  lemma PortUnique(nbRx: seq<nat>, p: Port, q: Port)
    requires IsPort(nbRx, p) && IsPort(nbRx, q) && Index(nbRx, p) == Index(nbRx, q)
    ensures p == q
  {
    if p.ru < q.ru {
      TotalGrows(nbRx, p.ru + 1, q.ru);
    } else if q.ru < p.ru {
      TotalGrows(nbRx, q.ru + 1, p.ru);
    }
  }

  /** Some port has eNB antenna aa. */
  ghost predicate HasPort(nbRx: seq<nat>, aa: nat) {
    exists p :: IsPort(nbRx, p) && Index(nbRx, p) == aa
  }

  /** The mapping is a bijection from ports to the antennas below the total. */
  lemma Bijection(nbRx: seq<nat>)
    ensures forall p, q | IsPort(nbRx, p) && IsPort(nbRx, q) && Index(nbRx, p) == Index(nbRx, q) :: p == q
    ensures forall p | IsPort(nbRx, p) :: Index(nbRx, p) < Total(nbRx, |nbRx|)
    ensures forall aa: nat | aa < Total(nbRx, |nbRx|) :: HasPort(nbRx, aa)
  {
    forall p, q | IsPort(nbRx, p) && IsPort(nbRx, q) && Index(nbRx, p) == Index(nbRx, q) ensures p == q {
      PortUnique(nbRx, p, q);
    }
    forall p | IsPort(nbRx, p) ensures Index(nbRx, p) < Total(nbRx, |nbRx|) {
      TotalGrows(nbRx, p.ru + 1, |nbRx|);
    }
    forall aa: nat | aa < Total(nbRx, |nbRx|) ensures HasPort(nbRx, aa) {
      var p := PortOf(nbRx, |nbRx|, aa);
    }
  }

  /** The eNB's arrays of 64 antenna pointers, here holding the port pointed to. */
  class ENB {
    const rxdataF: array<Port>
    const prachRxsigF: array<Port>
    const prachRxsigFBr: seq<array<Port>>
    var nbAntennasRx: nat

    /** Six arrays of their own. */
    constructor ()
      ensures Valid() && fresh(rxdataF) && fresh(prachRxsigF)
      ensures forall c | 0 <= c < 4 :: fresh(prachRxsigFBr[c])
    {
      var br0, br1, br2, br3 := new Port[64], new Port[64], new Port[64], new Port[64];
      rxdataF, prachRxsigF, prachRxsigFBr := new Port[64], new Port[64], [br0, br1, br2, br3];
      nbAntennasRx := 0;
    }

    ghost predicate Valid() {
      && rxdataF.Length == prachRxsigF.Length == 64 && |prachRxsigFBr| == 4
      && rxdataF != prachRxsigF
      && (forall c | 0 <= c < 4 :: prachRxsigFBr[c].Length == 64 && prachRxsigFBr[c] !in {rxdataF, prachRxsigF})
      && (forall c, d | 0 <= c < d < 4 :: prachRxsigFBr[c] != prachRxsigFBr[d])
    }

    /** Entry aa of all six arrays. */
    ghost function Entry(aa: nat): seq<Port>
      requires Valid() && aa < 64
      reads rxdataF, prachRxsigF, prachRxsigFBr
    {
      [rxdataF[aa], prachRxsigF[aa],
       prachRxsigFBr[0][aa], prachRxsigFBr[1][aa], prachRxsigFBr[2][aa], prachRxsigFBr[3][aa]]
    }

    ghost predicate Attached(aa: nat, p: Port)
      requires Valid() && aa < 64
      reads rxdataF, prachRxsigF, prachRxsigFBr
    {
      Entry(aa) == [p, p, p, p, p, p]
    }

    /** The antennas of all units. */
    method CountAntennas(nbRx: seq<nat>)
      modifies this`nbAntennasRx
      ensures nbAntennasRx == Total(nbRx, |nbRx|)
    {
      nbAntennasRx := 0;
      for ru := 0 to |nbRx|
        invariant nbAntennasRx == Total(nbRx, ru)
      {
        nbAntennasRx := nbAntennasRx + nbRx[ru];
      }
    }

    /** One assignment of the inner loop. */
    method Attach(aa: nat, p: Port)
      requires Valid() && aa < 64
      modifies rxdataF, prachRxsigF, prachRxsigFBr
      ensures Attached(aa, p)
      ensures forall bb: nat | bb < 64 && bb != aa :: Entry(bb) == old(Entry(bb))
    {
      prachRxsigF[aa] := p;
      for c := 0 to 4
        invariant prachRxsigF[aa] == p && forall d | 0 <= d < c :: prachRxsigFBr[d][aa] == p
        invariant forall bb: nat | bb < 64 && bb != aa :: Entry(bb) == old(Entry(bb))
      {
        prachRxsigFBr[c][aa] := p;
      }
      rxdataF[aa] := p;
    }

    /** The nested loops: every port is attached to its antenna, all arrays alike, and the running index ends at
        the number of antennas, and the entries above are left alone. */
    method MapAntennas(nbRx: seq<nat>) returns (aa: nat)
      requires Valid() && Total(nbRx, |nbRx|) <= 64
      modifies this`nbAntennasRx, rxdataF, prachRxsigF, prachRxsigFBr
      ensures forall p | IsPort(nbRx, p) :: Index(nbRx, p) < 64 && Attached(Index(nbRx, p), p)
      ensures forall bb: nat | aa <= bb < 64 :: Entry(bb) == old(Entry(bb))
      ensures aa == Total(nbRx, |nbRx|)
      ensures nbAntennasRx == if aa == 0 then 1 else aa
    {
      CountAntennas(nbRx);
      aa := 0;
      for ru := 0 to |nbRx|
        invariant aa == Total(nbRx, ru) && nbAntennasRx == Total(nbRx, |nbRx|)
        invariant forall bb: nat | aa <= bb < 64 :: Entry(bb) == old(Entry(bb))
        invariant forall p | IsPort(nbRx, p) && p.ru < ru :: Index(nbRx, p) < aa <= 64 && Attached(Index(nbRx, p), p)
      {
        TotalGrows(nbRx, ru + 1, |nbRx|);
        for i := 0 to nbRx[ru]
          invariant aa == Total(nbRx, ru) + i && nbAntennasRx == Total(nbRx, |nbRx|)
          invariant forall bb: nat | aa <= bb < 64 :: Entry(bb) == old(Entry(bb))
          invariant forall p | IsPort(nbRx, p) && (p.ru < ru || (p.ru == ru && p.i < i)) ::
                      Index(nbRx, p) < aa <= 64 && Attached(Index(nbRx, p), p)
        {
          Attach(aa, Port(ru, i));
          aa := aa + 1;
        }
      }
      if nbAntennasRx < 1 {
        nbAntennasRx := 1;
      }
    }
  }
}
