/** The round engine of simulation_cec_impl: the pattern initializer, the
    output checker, the per-round pattern update and the driver `run`.
    Round k simulates, at bit j of every table, the input assignment number
    RoundPoint(s, k, j) = j + k * 2^s. */
module SimulationCecImpl {
  import opened Bits
  import opened TruthTables
  import opened Networks
  import opened Planner

  /** simulation_cec_stats. */
  datatype Stats = Stats(splitVar: nat, rounds: nat)

  /** The pattern input p carries in round k: its projection below the split
      variable, the constant bit (p - s) of k at or above it. */
  function InputPattern(s: nat, k: nat, p: nat): TruthTable
  {
    if p < s then NthVar(s, p) else Const(s, Bit(k, p - s))
  }

  /** Bit j of input p's round-k pattern is bit p of the assignment that
      round k simulates at bit j. */
  lemma InputPatternBits(s: nat, k: nat, p: nat, j: nat)
    requires j < Pow2(s)
    ensures |InputPattern(s, k, p)| == Pow2(s)
    ensures InputPattern(s, k, p)[j] == Bit(RoundPoint(s, k, j), p)
  {
    BitOfRoundPoint(s, k, j, p);
  }

  /** The store holds exactly the inputs, each with its round-k pattern. */
  ghost predicate InputsAt(net: Network, s: nat, k: nat, pats: PatternStore)
  {
    && pats.Keys == (set v | v in net.pis)
    && forall p :: 0 <= p < |net.pis| ==> pats[net.pis[p]] == InputPattern(s, k, p)
  }

  /** Every output is 0 at each of the 2^s assignments round k simulates. */
  ghost predicate RoundPasses(net: Network, s: nat, k: nat)
  {
    forall j :: 0 <= j < Pow2(s) ==> MiterZero(net, RoundPoint(s, k, j))
  }

  /** init_patterns: input p below the split variable gets the projection
      onto variable p, every other input the all-zero table. */
  method InitPatterns(net: Network, splitVar: nat) returns (pats: PatternStore)
    requires Distinct(net.pis)
    ensures pats.Keys == set v | v in net.pis
    ensures forall p :: 0 <= p < |net.pis| ==> |pats[net.pis[p]]| == Pow2(splitVar)
    ensures forall p, j :: 0 <= p < |net.pis| && p < splitVar && 0 <= j < Pow2(splitVar) ==>
              pats[net.pis[p]][j] == Bit(j, p)
    ensures forall p :: splitVar <= p < |net.pis| ==> IsConst0(pats[net.pis[p]])
  {
    pats := map[];
    var p := 0;
    while p < |net.pis|
      invariant 0 <= p <= |net.pis|
      invariant pats.Keys == set v | v in net.pis[..p]
      invariant forall q :: 0 <= q < p ==>
                  pats[net.pis[q]] == if q < splitVar then NthVar(splitVar, q) else Const(splitVar, false)
    {
      var tt := Const(splitVar, false);
      if p < splitVar {
        tt := NthVar(splitVar, p);
      }
      assert net.pis[..p + 1] == net.pis[..p] + [net.pis[p]];
      pats := pats[net.pis[p] := tt];
      p := p + 1;
    }
    assert net.pis[..p] == net.pis;
  }

  /** The initial store is the input store of round 0. */
  lemma InitIsRoundZero(net: Network, s: nat, pats: PatternStore)
    requires pats.Keys == set v | v in net.pis
    requires forall p :: 0 <= p < |net.pis| ==> |pats[net.pis[p]]| == Pow2(s)
    requires forall p, j :: 0 <= p < |net.pis| && p < s && 0 <= j < Pow2(s) ==> pats[net.pis[p]][j] == Bit(j, p)
    requires forall p :: s <= p < |net.pis| ==> IsConst0(pats[net.pis[p]])
    ensures InputsAt(net, s, 0, pats)
  {
    forall p | 0 <= p < |net.pis|
      ensures pats[net.pis[p]] == InputPattern(s, 0, p)
    {
      if p >= s {
        BitOfZero(p - s);
      }
    }
  }

  /** The pattern output f presents to the checker. */
  function OutputTable(f: Signal, pats: PatternStore): TruthTable
    requires f.node in pats
  {
    if f.complemented then Not(pats[f.node]) else pats[f.node]
  }

  /** An output pattern is all-zero after complementation iff each of its
      bits equals the complementation flag. */
  lemma OutputTableClear(f: Signal, pats: PatternStore)
    requires f.node in pats
    ensures IsConst0(OutputTable(f, pats)) <==>
            forall j :: 0 <= j < |pats[f.node]| ==> pats[f.node][j] == f.complemented
  {
    assert |OutputTable(f, pats)| == |pats[f.node]|;
    forall j | 0 <= j < |pats[f.node]|
      ensures OutputTable(f, pats)[j] == (pats[f.node][j] != f.complemented)
    {
    }
  }

  /** The outputs pos all pass: every bit of every pattern equals the
      output's complementation flag. */
  function AllClear(pos: seq<Signal>, pats: PatternStore): (eq: bool)
    requires forall i :: 0 <= i < |pos| ==> pos[i].node in pats
    ensures eq <==> forall i :: 0 <= i < |pos| ==> IsConst0(OutputTable(pos[i], pats))
    ensures eq <==> forall i, j :: 0 <= i < |pos| && 0 <= j < |pats[pos[i].node]| ==>
                      pats[pos[i].node][j] == pos[i].complemented
  {
    if |pos| == 0 then true
    else
      OutputTableClear(pos[0], pats);
      IsConst0(OutputTable(pos[0], pats)) && AllClear(pos[1..], pats)
  }

  /** check: the round passes iff, for every output, the pattern (complemented
      where the output is complemented) has no set bit. */
  function Check(net: Network, pats: PatternStore): (eq: bool)
    requires forall i :: 0 <= i < |net.pos| ==> net.pos[i].node in pats
    ensures eq <==> forall i :: 0 <= i < |net.pos| ==> IsConst0(OutputTable(net.pos[i], pats))
    ensures eq <==> forall i, j :: 0 <= i < |net.pos| && 0 <= j < |pats[net.pos[i].node]| ==>
                      pats[net.pos[i].node][j] == net.pos[i].complemented
  {
    AllClear(net.pos, pats)
  }

  /** The verdict of check does not depend on the order of the outputs. */
  lemma CheckOrderIrrelevant(net1: Network, net2: Network, pats: PatternStore)
    requires multiset(net1.pos) == multiset(net2.pos)
    requires forall i :: 0 <= i < |net1.pos| ==> net1.pos[i].node in pats
    ensures forall i :: 0 <= i < |net2.pos| ==> net2.pos[i].node in pats
    ensures Check(net1, pats) == Check(net2, pats)
  {
    forall i | 0 <= i < |net2.pos|
      ensures net2.pos[i] in net1.pos
    {
      assert net2.pos[i] in multiset(net2.pos);
    }
    forall i | 0 <= i < |net1.pos|
      ensures net1.pos[i] in net2.pos
    {
      assert net1.pos[i] in multiset(net1.pos);
    }
    if Check(net1, pats) {
      forall i | 0 <= i < |net2.pos|
        ensures IsConst0(OutputTable(net2.pos[i], pats))
      {
        var i1 :| 0 <= i1 < |net1.pos| && net1.pos[i1] == net2.pos[i];
      }
    }
    if Check(net2, pats) {
      forall i | 0 <= i < |net1.pos|
        ensures IsConst0(OutputTable(net1.pos[i], pats))
      {
        var i2 :| 0 <= i2 < |net2.pos| && net2.pos[i2] == net1.pos[i];
      }
    }
  }

  /** The update of one input at or above the split variable: complement the
      pattern when it is all-zero and the round bit is 1, or when it is not
      all-zero and the round bit is 0. */
  function SetToBit(t: TruthTable, bit: bool): (r: TruthTable)
    ensures r == t || r == Not(t)
    ensures IsConst0(t) == !bit ==> r == t
    ensures IsConst0(t) == bit ==> r == Not(t)
    ensures bit && |t| > 0 ==> !IsConst0(r)
  {
    if bit then (if IsConst0(t) then assert |t| > 0 ==> Not(t)[0]; Not(t) else t)
    else (if !IsConst0(t) then Not(t) else t)
  }

  /** On a constant table the update yields the constant of the round bit,
      whichever constant it started from. */
  lemma SetToBitConstant(t: TruthTable, s: nat, bit: bool)
    requires IsConstant(t, s)
    ensures SetToBit(t, bit) == Const(s, bit)
  {
    NotConst(s, false);
    NotConst(s, true);
    IsConst0Const(s, false);
    IsConst0Const(s, true);
  }

  /** The store without its gate entries. */
  function EraseGates(net: Network, pats: PatternStore): (r: PatternStore)
    ensures r.Keys == pats.Keys - set g | g in net.gates
    ensures forall v :: v in r ==> r[v] == pats[v]
  {
    pats - set g | g in net.gates
  }

  /** One step of update_pattern: input i is set to the bit; every other
      entry is kept. */
  function SetInputBit(net: Network, pats: PatternStore, i: nat, bit: bool): (r: PatternStore)
    requires Distinct(net.pis) && i < |net.pis| && net.pis[i] in pats
    ensures r.Keys == pats.Keys
    ensures r[net.pis[i]] == SetToBit(pats[net.pis[i]], bit)
    ensures forall p :: 0 <= p < |net.pis| && p != i && net.pis[p] in pats ==> r[net.pis[p]] == pats[net.pis[p]]
    ensures forall v :: v in r && v !in net.pis ==> r[v] == pats[v]
  {
    pats[net.pis[i] := SetToBit(pats[net.pis[i]], bit)]
  }

  /** The input loop of update_pattern: each input at or above the split
      variable, in ordinal order, is set to the next bit of round; nothing
      else changes. */
  method SetHighInputs(net: Network, pats: PatternStore, round: nat, splitVar: nat) returns (r: PatternStore)
    requires Distinct(net.pis)
    requires forall p :: 0 <= p < |net.pis| ==> net.pis[p] in pats
    ensures r.Keys == pats.Keys
    ensures forall v :: v in r && v !in net.pis ==> r[v] == pats[v]
    ensures forall p :: 0 <= p < |net.pis| && p < splitVar ==> r[net.pis[p]] == pats[net.pis[p]]
    ensures forall p :: splitVar <= p < |net.pis| ==> r[net.pis[p]] == SetToBit(pats[net.pis[p]], Bit(round, p - splitVar))
  {
    r := pats;
    var rr := round;
    var i := 0;
    ghost var q := 0;
    while i < |net.pis|
      invariant 0 <= i <= |net.pis|
      invariant q == if i <= splitVar then 0 else i - splitVar
      invariant rr == Shift(round, q)
      invariant r.Keys == pats.Keys
      invariant forall p :: 0 <= p < |net.pis| ==> net.pis[p] in r
      invariant forall v :: v in r && v !in net.pis ==> r[v] == pats[v]
      invariant forall p :: 0 <= p < |net.pis| && p < splitVar ==> r[net.pis[p]] == pats[net.pis[p]]
      invariant forall p :: i <= p < |net.pis| ==> r[net.pis[p]] == pats[net.pis[p]]
      invariant forall p :: splitVar <= p < i ==> r[net.pis[p]] == SetToBit(pats[net.pis[p]], Bit(round, p - splitVar))
    {
      if i >= splitVar {
        assert q == i - splitVar;
        r := SetInputBit(net, r, i, rr % 2 == 1);
        rr := rr / 2;
        q := q + 1;
      }
      i := i + 1;
    }
  }

  /** update_pattern: erase every gate entry, then set each input at or above
      the split variable, in ordinal order, to the next bit of round. An input
      holding a constant table ends with the constant of its bit. */
  method UpdatePattern(net: Network, round: nat, pats: PatternStore, splitVar: nat) returns (r: PatternStore)
    requires Distinct(net.pis) && forall g :: g in net.gates ==> g !in net.pis
    requires forall p :: 0 <= p < |net.pis| ==> net.pis[p] in pats
    ensures r.Keys == pats.Keys - set g | g in net.gates
    ensures forall v :: v in r && v !in net.pis ==> r[v] == pats[v]
    ensures forall p :: 0 <= p < |net.pis| && p < splitVar ==> r[net.pis[p]] == pats[net.pis[p]]
    ensures forall p :: splitVar <= p < |net.pis| ==> r[net.pis[p]] == SetToBit(pats[net.pis[p]], Bit(round, p - splitVar))
    ensures forall p :: splitVar <= p < |net.pis| && IsConstant(pats[net.pis[p]], splitVar) ==>
              r[net.pis[p]] == Const(splitVar, Bit(round, p - splitVar))
  {
    var erased := EraseGates(net, pats);
    r := SetHighInputs(net, erased, round, splitVar);
    forall p | splitVar <= p < |net.pis| && IsConstant(pats[net.pis[p]], splitVar)
      ensures r[net.pis[p]] == Const(splitVar, Bit(round, p - splitVar))
    {
      SetToBitConstant(pats[net.pis[p]], splitVar, Bit(round, p - splitVar));
    }
  }

  /** Simulating the round-k input store gives every node, at bit j, its
      value under the assignment round k simulates there. */
  lemma SimulateRound(net: Network, s: nat, k: nat, pats: PatternStore)
    requires WellFormed(net) && InputsAt(net, s, k, pats)
    ensures InputsReady(net, s, pats)
    ensures forall i :: 0 <= i < |net.pos| ==> net.pos[i].node in Simulate(net, s, pats)
    ensures forall i :: 0 <= i < |net.pos| ==> |Simulate(net, s, pats)[net.pos[i].node]| == Pow2(s)
    ensures forall i, j :: 0 <= i < |net.pos| && 0 <= j < Pow2(s) ==>
              Simulate(net, s, pats)[net.pos[i].node][j]
                == Value(net, net.pos[i].node, Assignment(RoundPoint(s, k, j), |net.pis|))
  {
    forall p | 0 <= p < |net.pis|
      ensures net.pis[p] in pats && |pats[net.pis[p]]| == Pow2(s)
    {
      InputPatternBits(s, k, p, 0);
    }
    forall j | 0 <= j < Pow2(s)
      ensures Column(net, s, pats, j) == Assignment(RoundPoint(s, k, j), |net.pis|)
    {
      forall p | 0 <= p < |net.pis|
        ensures Column(net, s, pats, j)[p] == Assignment(RoundPoint(s, k, j), |net.pis|)[p]
      {
        InputPatternBits(s, k, p, j);
      }
    }
    var sim := Simulate(net, s, pats);
    forall i | 0 <= i < |net.pos|
      ensures |sim[net.pos[i].node]| == Pow2(s)
      ensures forall j :: 0 <= j < Pow2(s) ==>
                sim[net.pos[i].node][j] == Value(net, net.pos[i].node, Assignment(RoundPoint(s, k, j), |net.pis|))
    {
      var v := net.pos[i].node;
      if v in net.pis {
        var p := IndexOf(net.pis, v);
        forall j | 0 <= j < Pow2(s)
          ensures sim[v][j] == Value(net, v, Assignment(RoundPoint(s, k, j), |net.pis|))
        {
          InputPatternBits(s, k, p, j);
        }
      }
    }
  }

  /** check on the simulated round-k store passes exactly when round k
      passes. */
  lemma CheckRound(net: Network, s: nat, k: nat, pats: PatternStore)
    requires WellFormed(net) && InputsAt(net, s, k, pats)
    ensures InputsReady(net, s, pats)
    ensures forall i :: 0 <= i < |net.pos| ==> net.pos[i].node in Simulate(net, s, pats)
    ensures Check(net, Simulate(net, s, pats)) <==> RoundPasses(net, s, k)
  {
    SimulateRound(net, s, k, pats);
    var sim := Simulate(net, s, pats);
    var n := |net.pis|;
    if Check(net, sim) {
      forall j | 0 <= j < Pow2(s)
        ensures MiterZero(net, RoundPoint(s, k, j))
      {
        forall i | 0 <= i < |net.pos|
          ensures !OutputValue(net, net.pos[i], Assignment(RoundPoint(s, k, j), n))
        {
          assert sim[net.pos[i].node][j] == net.pos[i].complemented;
        }
      }
    }
    if RoundPasses(net, s, k) {
      forall i, j | 0 <= i < |net.pos| && 0 <= j < |sim[net.pos[i].node]|
        ensures sim[net.pos[i].node][j] == net.pos[i].complemented
      {
        assert MiterZero(net, RoundPoint(s, k, j));
      }
    }
  }

  /** The rounds cover every assignment: all r rounds pass iff every output
      is 0 on all 2^n assignments, when r * 2^s == 2^n. */
  lemma RoundsCoverAllPoints(net: Network, s: nat, r: nat)
    requires r * Pow2(s) == Pow2(|net.pis|)
    ensures (forall k :: 0 <= k < r ==> RoundPasses(net, s, k)) <==> AllPointsZero(net)
  {
    if forall k :: 0 <= k < r ==> RoundPasses(net, s, k) {
      forall x | 0 <= x < Pow2(|net.pis|)
        ensures MiterZero(net, x)
      {
        RoundPointCover(s, r, x);
        assert RoundPasses(net, s, RoundOf(s, x));
      }
    }
    if AllPointsZero(net) {
      forall k | 0 <= k < r
        ensures RoundPasses(net, s, k)
      {
        forall j | 0 <= j < Pow2(s)
          ensures MiterZero(net, RoundPoint(s, k, j))
        {
          RoundPointInRange(s, r, k, j);
        }
      }
    }
  }

  /** The input store of round k. */
  function RoundInputs(net: Network, s: nat, k: nat): PatternStore
  {
    map v | v in net.pis :: InputPattern(s, k, IndexOf(net.pis, v))
  }

  /** With distinct inputs, a store is the input store of round k exactly
      when it holds every input with its round-k pattern and nothing else. */
  lemma RoundInputsAt(net: Network, s: nat, k: nat, pats: PatternStore)
    requires Distinct(net.pis)
    ensures InputsAt(net, s, k, RoundInputs(net, s, k))
    ensures InputsAt(net, s, k, pats) ==> pats == RoundInputs(net, s, k)
  {
    var ri := RoundInputs(net, s, k);
    forall p | 0 <= p < |net.pis|
      ensures ri[net.pis[p]] == InputPattern(s, k, p)
    {
      assert IndexOf(net.pis, net.pis[p]) == p;
    }
    if InputsAt(net, s, k, pats) {
      forall v | v in pats
        ensures pats[v] == ri[v]
      {
        var p := IndexOf(net.pis, v);
      }
    }
  }

  /** Every input of the round-k input store has 2^s bits. */
  lemma RoundInputsReady(net: Network, s: nat, k: nat)
    requires WellFormed(net)
    ensures InputsReady(net, s, RoundInputs(net, s, k))
  {
    RoundInputsAt(net, s, k, map[]);
    SimulateRound(net, s, k, RoundInputs(net, s, k));
  }

  /** The simulated store of round k. */
  ghost function SimulatedRound(net: Network, s: nat, k: nat): PatternStore
    requires WellFormed(net)
  {
    RoundInputsReady(net, s, k);
    Simulate(net, s, RoundInputs(net, s, k))
  }

  /** check on the simulated store of round k passes exactly when round k
      passes. */
  lemma CheckSimulatedRound(net: Network, s: nat, k: nat)
    requires WellFormed(net)
    ensures forall i :: 0 <= i < |net.pos| ==> net.pos[i].node in SimulatedRound(net, s, k)
    ensures Check(net, SimulatedRound(net, s, k)) <==> RoundPasses(net, s, k)
  {
    RoundInputsAt(net, s, k, map[]);
    CheckRound(net, s, k, RoundInputs(net, s, k));
  }

  /** The simulated store of round k holds the inputs and the gates; every
      input holds its round-k pattern, so those at or above the split
      variable hold constant tables, as update_pattern's toggling needs. */
  lemma SimulatedRoundUpdatable(net: Network, s: nat, k: nat)
    requires WellFormed(net)
    ensures SimulatedRound(net, s, k).Keys == (set v | v in net.pis) + (set g | g in net.gates)
    ensures forall p :: 0 <= p < |net.pis| ==> SimulatedRound(net, s, k)[net.pis[p]] == InputPattern(s, k, p)
    ensures forall p :: s <= p < |net.pis| ==> IsConstant(SimulatedRound(net, s, k)[net.pis[p]], s)
  {
    RoundInputsAt(net, s, k, map[]);
    var ri := RoundInputs(net, s, k);
    var sr := SimulatedRound(net, s, k);
    assert sr == Simulate(net, s, ri);
    forall p | 0 <= p < |net.pis|
      ensures sr[net.pis[p]] == InputPattern(s, k, p)
    {
      assert net.pis[p] in ri;
    }
    forall p | s <= p < |net.pis|
      ensures IsConstant(sr[net.pis[p]], s)
    {
      assert sr[net.pis[p]] == Const(s, Bit(k, p - s));
    }
  }

  /** A store updated for round k from one that holds the inputs and the
      gates, the inputs below the split variable with their projections, is
      the input store of round k. */
  lemma UpdateGivesNextRound(net: Network, s: nat, k: nat, pats: PatternStore, r: PatternStore)
    requires WellFormed(net)
    requires pats.Keys == (set v | v in net.pis) + (set g | g in net.gates)
    requires forall p :: 0 <= p < |net.pis| && p < s ==> pats[net.pis[p]] == NthVar(s, p)
    requires r.Keys == pats.Keys - set g | g in net.gates
    requires forall p :: 0 <= p < |net.pis| && p < s ==> r[net.pis[p]] == pats[net.pis[p]]
    requires forall p :: s <= p < |net.pis| ==> r[net.pis[p]] == Const(s, Bit(k, p - s))
    ensures r == RoundInputs(net, s, k)
  {
    assert r.Keys == set v | v in net.pis;
    RoundInputsAt(net, s, k, r);
  }

  /** update_pattern on the simulated store of round k gives the input
      store of round k + 1. */
  method NextInputs(net: Network, splitVar: nat, k: nat, pats: PatternStore) returns (updated: PatternStore)
    requires WellFormed(net)
    requires pats == SimulatedRound(net, splitVar, k)
    ensures updated == RoundInputs(net, splitVar, k + 1)
  {
    SimulatedRoundUpdatable(net, splitVar, k);
    updated := UpdatePattern(net, k + 1, pats, splitVar);
    UpdateGivesNextRound(net, splitVar, k + 1, pats, updated);
  }

  /** One pass of run's round loop after round k: update the store for
      round k + 1, simulate, check. */
  method NextRound(net: Network, splitVar: nat, k: nat, pats: PatternStore) returns (next: PatternStore, pass: bool)
    requires WellFormed(net)
    requires pats == SimulatedRound(net, splitVar, k)
    ensures next == SimulatedRound(net, splitVar, k + 1)
    ensures pass <==> RoundPasses(net, splitVar, k + 1)
  {
    var updated := NextInputs(net, splitVar, k, pats);
    RoundInputsReady(net, splitVar, k + 1);
    next := Simulate(net, splitVar, updated);
    CheckSimulatedRound(net, splitVar, k + 1);
    pass := Check(net, next);
  }

  /** Rounds 0 .. r - 1 all pass. */
  ghost predicate RoundsPass(net: Network, s: nat, r: nat)
  {
    r == 0 || (RoundsPass(net, s, r - 1) && RoundPasses(net, s, r - 1))
  }

  lemma {:induction false} RoundsPassAll(net: Network, s: nat, r: nat)
    ensures RoundsPass(net, s, r) <==> forall k :: 0 <= k < r ==> RoundPasses(net, s, k)
  {
    if r > 0 {
      RoundsPassAll(net, s, r - 1);
    }
  }

  /** When rounds below f pass and round f < r fails, f is the first failing
      round and not all r rounds pass. */
  lemma FirstFailure(net: Network, s: nat, r: nat, f: nat)
    requires f < r && RoundsPass(net, s, f) && !RoundPasses(net, s, f)
    ensures !(forall k :: 0 <= k < r ==> RoundPasses(net, s, k))
    ensures forall k :: 0 <= k < f ==> RoundPasses(net, s, k)
  {
    RoundsPassAll(net, s, f);
  }

  /** The round loop of run: rounds 1 .. rounds - 1, returning false at the
      first failing round. On entry the store is the simulated store of
      round 0, which passed. `failed` is the round the loop stopped at, or
      rounds when it ran them all. */
  method LaterRounds(net: Network, splitVar: nat, rounds: nat, pats0: PatternStore) returns (eq: bool, ghost failed: nat)
    requires WellFormed(net) && rounds >= 1
    requires pats0 == SimulatedRound(net, splitVar, 0) && RoundPasses(net, splitVar, 0)
    ensures eq <==> forall k :: 0 <= k < rounds ==> RoundPasses(net, splitVar, k)
    ensures eq ==> failed == rounds
    ensures !eq ==> 1 <= failed < rounds && !RoundPasses(net, splitVar, failed)
    ensures !eq ==> forall k :: 0 <= k < failed ==> RoundPasses(net, splitVar, k)
  {
    var pats := pats0;
    var round := 1;
    var last := 0;
    while round < rounds
      invariant 1 <= round <= rounds && last + 1 == round
      invariant RoundsPass(net, splitVar, round)
      invariant pats == SimulatedRound(net, splitVar, last)
    {
      var pass;
      pats, pass := NextRound(net, splitVar, last, pats);
      last := last + 1;
      if !pass {
        FirstFailure(net, splitVar, rounds, last);
        return false, last;
      }
      round := round + 1;
    }
    RoundsPassAll(net, splitVar, rounds);
    return true, rounds;
  }

  /** run: plan and record the statistics, simulate and check round 0 on the
      initial store, then the later rounds. The verdict is true exactly when
      every output is 0 on all 2^n input assignments. A false verdict is
      given at the first failing round, `failed`. */
  method Run(net: Network) returns (eq: bool, st: Stats, ghost failed: nat)
    requires WellFormed(net)
    requires PlanDefined(|net.pis|, net.size)
    ensures st.splitVar == SplitVar(|net.pis|, net.size)
    ensures st.rounds * Pow2(st.splitVar) == Pow2(|net.pis|)
    ensures eq <==> forall k :: 0 <= k < st.rounds ==> RoundPasses(net, st.splitVar, k)
    ensures eq <==> AllPointsZero(net)
    ensures eq ==> failed == st.rounds
    ensures !eq ==> failed < st.rounds && !RoundPasses(net, st.splitVar, failed)
    ensures !eq ==> forall k :: 0 <= k < failed ==> RoundPasses(net, st.splitVar, k)
  {
    var n := |net.pis|;
    var splitVar := ComputeSplittingVar(n, net.size);
    var rounds := ComputeRounds(n, splitVar);
    st := Stats(splitVar, rounds);

    var pats := InitPatterns(net, splitVar);
    InitIsRoundZero(net, splitVar, pats);
    RoundInputsAt(net, splitVar, 0, pats);
    RoundInputsReady(net, splitVar, 0);
    pats := Simulate(net, splitVar, pats);
    CheckSimulatedRound(net, splitVar, 0);
    if !Check(net, pats) {
      eq, failed := false, 0;
    } else {
      eq, failed := LaterRounds(net, splitVar, rounds, pats);
    }
    RoundsCoverAllPoints(net, splitVar, rounds);
  }
}
