/** The entry point simulation_cec: refuse networks with too many inputs,
    build the miter of the two networks, run the round engine on it, and
    report the statistics through the optional out-parameter. */
module CecEntry {
  import opened Bits
  import opened Networks
  import opened Planner
  import opened SimulationCecImpl

  /** Above this many inputs of the first network no verdict is given. */
  const MaxInputs: nat := 40

  /** The two networks have the same shape and agree on every output under
      assignment number x. */
  predicate AgreeAt(n1: Network, n2: Network, x: nat)
  {
    && |n1.pis| == |n2.pis| && |n1.pos| == |n2.pos|
    && forall i :: 0 <= i < |n1.pos| ==>
         OutputValue(n1, n1.pos[i], Assignment(x, |n1.pis|)) == OutputValue(n2, n2.pos[i], Assignment(x, |n2.pis|))
  }

  /** Combinational equivalence: the same numbers of inputs and outputs, and
      every output pair agrees under all 2^n input assignments. */
  ghost predicate Equivalent(n1: Network, n2: Network)
  {
    && |n1.pis| == |n2.pis| && |n1.pos| == |n2.pos|
    && forall x :: 0 <= x < Pow2(|n1.pis|) ==> AgreeAt(n1, n2, x)
  }

  /** m is a miter of n1 and n2: it has their inputs, and all its outputs are
      0 under an assignment exactly when the two networks agree there. */
  ghost predicate IsMiterOf(m: Network, n1: Network, n2: Network)
  {
    && |m.pis| == |n1.pis| == |n2.pis| && |n1.pos| == |n2.pos|
    && forall x :: 0 <= x < Pow2(|m.pis|) ==> (MiterZero(m, x) <==> AgreeAt(n1, n2, x))
  }

  /** The miter is zero on every assignment exactly when the networks are
      equivalent. */
  lemma MiterVerdict(m: Network, n1: Network, n2: Network)
    requires IsMiterOf(m, n1, n2)
    ensures AllPointsZero(m) <==> Equivalent(n1, n2)
  {
    if AllPointsZero(m) {
      forall x | 0 <= x < Pow2(|n1.pis|)
        ensures AgreeAt(n1, n2, x)
      {
        assert MiterZero(m, x);
      }
    }
    if Equivalent(n1, n2) {
      forall x | 0 <= x < Pow2(|m.pis|)
        ensures MiterZero(m, x)
      {
        assert AgreeAt(n1, n2, x);
      }
    }
  }

  /** simulation_cec. The miter construction is the parameter `miter`; `pst`
      is the optional statistics out-parameter (None when it is null),
      and `stOut` is what it holds afterwards. */
  method SimulationCec(ntk1: Network, ntk2: Network, miter: (Network, Network) -> Option<Network>, pst: Option<Stats>)
    returns (result: Option<bool>, stOut: Option<Stats>)
    requires |ntk1.pis| <= MaxInputs && miter(ntk1, ntk2).Some? ==>
               && WellFormed(miter(ntk1, ntk2).value)
               && PlanDefined(|miter(ntk1, ntk2).value.pis|, miter(ntk1, ntk2).value.size)
    ensures |ntk1.pis| > MaxInputs ==> result == None && stOut == pst
    ensures |ntk1.pis| <= MaxInputs && miter(ntk1, ntk2).None? ==>
              && result == Some(false)
              && stOut == if pst.Some? then Some(Stats(0, 0)) else None
    ensures |ntk1.pis| <= MaxInputs && miter(ntk1, ntk2).Some? ==>
              var m := miter(ntk1, ntk2).value;
              && result.Some?
              && (result.value <==> AllPointsZero(m))
              && stOut.Some? == pst.Some?
              && (stOut.Some? ==> stOut.value.splitVar == SplitVar(|m.pis|, m.size))
              && (stOut.Some? ==> stOut.value.rounds * Pow2(stOut.value.splitVar) == Pow2(|m.pis|))
    ensures |ntk1.pis| <= MaxInputs && miter(ntk1, ntk2).Some? && IsMiterOf(miter(ntk1, ntk2).value, ntk1, ntk2) ==>
              (result == Some(true) <==> Equivalent(ntk1, ntk2))
  {
    var st := Stats(0, 0);
    var eq := false;
    if |ntk1.pis| > MaxInputs {
      return None, pst;
    }
    var ntkMiter := miter(ntk1, ntk2);
    if ntkMiter.Some? {
      var m := ntkMiter.value;
      ghost var failed;
      eq, st, failed := Run(m);
      if IsMiterOf(m, ntk1, ntk2) {
        MiterVerdict(m, ntk1, ntk2);
      }
    }
    stOut := if pst.Some? then Some(st) else None;
    result := Some(eq);
  }
}
