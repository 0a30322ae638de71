/** The splitting planner of simulation_cec_impl: how many inputs are
    simulated in parallel inside one truth table (the split variable) and
    how many rounds enumerate the remaining inputs. */
module Planner {
  import opened Bits

  /** The range of the source's 32-bit unsigned integers. */
  const U32: nat := 0x1_0000_0000

  /** The working-set ceiling 1 << 29. */
  const Budget: nat := 0x2000_0000

  /** The memory estimate (32 + 2^(m-3)) * size for m = 7, the only value of
      m it is computed for, in 32-bit unsigned arithmetic. */
  function BudgetCost(size: nat): (c: nat)
    ensures c < U32
    ensures (48 * size - c) % U32 == 0
  {
    ((32 + Pow2(7 - 3)) * size) % U32
  }

  /** What compute_splitting_var returns. The estimate is taken once, before
      the loop, so the loop either stops at once (7) or runs past every
      input (n + 1). */
  function SplitVar(n: nat, size: nat): (m: nat)
    ensures m == n || m == 7 || m == n + 1
    ensures n >= 7 ==> m >= 7
    ensures m <= n <==> n <= 6 || BudgetCost(size) > Budget
  {
    if n <= 6 then n
    else if BudgetCost(size) > Budget then 7
    else n + 1
  }

  /** The inputs for which compute_rounds is defined: the split variable does
      not exceed the input count, and the shift of the int 1 by n - split_var
      stays below 32. */
  predicate PlanDefined(n: nat, size: nat)
  {
    SplitVar(n, size) <= n && n - SplitVar(n, size) < 32
  }

  /** compute_splitting_var, with its search loop. */
  method ComputeSplittingVar(n: nat, size: nat) returns (splitVar: nat)
    ensures n <= 6 ==> splitVar == n
    ensures n >= 7 && BudgetCost(size) > Budget ==> splitVar == 7
    ensures n >= 7 && BudgetCost(size) <= Budget ==> splitVar == n + 1
    ensures splitVar <= n + 1
    ensures splitVar == SplitVar(n, size)
  {
    if n <= 6 {
      splitVar := n;
    } else {
      var v := size;
      var m: nat := 7;
      var cond := ((32 + Pow2(m - 3)) * v) % U32;
      var max := Pow2(29);
      Pow2Of29();
      while m <= n && cond <= max
        invariant 7 <= m <= n + 1
        invariant cond == BudgetCost(size) && max == Budget
        invariant cond > max ==> m == 7
        decreases n + 1 - m
      {
        m := m + 1;
      }
      splitVar := m;
    }
  }

  /** compute_rounds: 1 << (n - split_var). */
  function ComputeRounds(n: nat, splitVar: nat): (rounds: nat)
    requires splitVar <= n && n - splitVar < 32
    ensures rounds >= 1
    ensures rounds * Pow2(splitVar) == Pow2(n)
  {
    Pow2Add(n - splitVar, splitVar);
    assert n - splitVar + splitVar == n;
    Pow2(n - splitVar)
  }

  /** Up to six inputs everything is simulated in one round. */
  lemma SmallInputsOneRound(n: nat, size: nat)
    requires n <= 6
    ensures SplitVar(n, size) == n && PlanDefined(n, size)
    ensures ComputeRounds(n, SplitVar(n, size)) == 1
  {
  }

  /** The split variable exceeds the input count whenever there are at least
      seven inputs and the estimate fits the budget; compute_rounds then
      shifts by an underflowed amount. */
  lemma SplitVarOvershoots(n: nat, size: nat)
    requires n >= 7 && BudgetCost(size) <= Budget
    ensures SplitVar(n, size) == n + 1
    ensures !PlanDefined(n, size)
  {
  }

  /** With 39 or more inputs and the estimate over budget, 2^(n - 7) rounds
      do not fit the 32-bit shift. */
  lemma RoundsShiftTooWide(n: nat, size: nat)
    requires n >= 39 && BudgetCost(size) > Budget
    ensures SplitVar(n, size) == 7
    ensures !PlanDefined(n, size)
  {
  }

  /** Exactly when the round count is defined. */
  lemma PlanDefinedCases(n: nat, size: nat)
    ensures PlanDefined(n, size) <==> n <= 6 || (7 <= n <= 38 && BudgetCost(size) > Budget)
  {
  }

  /** An 8-input network of 100 nodes: the estimate 4800 is far within the
      budget, so the split variable is 9, one more than the input count. */
  lemma EightInputExample()
    ensures SplitVar(8, 100) == 9
  {
  }
}
