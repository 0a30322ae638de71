# Simulation-based combinational equivalence checking

A Dafny model of mockturtle's simulation-based equivalence checker
(`simulation_cec`). The checker builds the miter of two networks and
enumerates all 2^n assignments of its n primary inputs. The low `split_var`
inputs are simulated in parallel inside truth tables of 2^split_var bits. The
remaining inputs are enumerated over `rounds` rounds: in round k, input p at
or above the split variable holds the constant bit (p - split_var) of k. A
round passes when every output pattern, complemented where the output is
complemented, is all-zero.

Modules, in dependency order:

- `Bits`: powers of two, shifts, binary digits. A round point `j + k * 2^s`
  is the assignment simulated at bit j of round k. The round/bit pairs are a
  bijection onto `[0, rounds * 2^s)`.
- `TruthTables`: truth tables as `seq<bool>` of 2^s bits, with the constant,
  projection and complement tables and `is_const0`.
- `Networks`: the network as the checker sees it. It has ordered primary
  inputs, gates, complementable outputs, a size, and for each gate its
  boolean function of the input assignment. The pattern store maps nodes to
  truth tables. The external simulator is an abstract pointwise evaluation.
- `Planner`: `compute_splitting_var` and `compute_rounds`.
- `SimulationCecImpl`: `init_patterns`, `check`, `update_pattern` and `run`.
- `CecEntry`: the entry function `simulation_cec`.

The central theorem is `SimulationCecImpl.Run`. Where the round count is
defined, `run` returns true exactly when every output of the miter is 0
under all 2^n input assignments.

`compute_splitting_var` is modelled as written: the memory estimate `cond`
is computed once, before the search loop, for m = 7. With seven or more
inputs the result is therefore 7 when `48 * size` (in 32-bit arithmetic)
exceeds 2^29, and n + 1 otherwise. In the n + 1 case `compute_rounds` shifts
by the wrapped-around amount `n - split_var`, which is undefined. The
driver's theorem therefore carries the precondition `PlanDefined`, and
`Planner.SplitVarOvershoots` exposes the n + 1 path.

Four places in `include/mockturtle/algorithms/simulation_cec.hpp` read
differently from what a reader might expect. This is this model's reading of
the code, and in each case the model follows the code:

- The estimate `cond` at line 129 is written in terms of `m`, which suggests
  that it should track `m`. But it is computed once, before the loop at lines
  131-132, and the loop never updates it. So the search gives 7 or n + 1 and
  never a value in between. An 8-input network of 100 nodes, for example,
  gets split variable 9 (`Planner.EightInputExample`).
- When the miter cannot be built, `result` keeps its initial value `false`
  (line 236). The entry function then returns a present optional holding
  false, not `nullopt`. The documentation at lines 214-221 promises
  `nullopt` only for more than 40 inputs.
- With more than 40 inputs, the function returns at lines 238-239, before
  `*pst = st` at lines 249-250. The caller's statistics are left untouched.
- `update_pattern` does not assign a high input's table from the round bit.
  It complements the previous table whenever its `is_const0` disagrees with
  the bit (lines 189-197). This equals assigning the constant of the bit
  whenever the previous table is constant, and the model proves that it
  always is (`SimulationCecImpl.SetToBitConstant`,
  `SimulationCecImpl.SimulatedRoundUpdatable`).

## Model

| member | source | states |
|---|---|---|
| `Planner.BudgetCost` | include/mockturtle/algorithms/simulation_cec.hpp:129 | The estimate is taken in 32-bit unsigned arithmetic: it is below 2^32 and congruent to 48 * size modulo 2^32. |
| `Planner.SplitVar` | include/mockturtle/algorithms/simulation_cec.hpp:122-136 | The split variable is n, 7 or n + 1, never below 7 from seven inputs on. It stays within the input count exactly when n <= 6 or the estimate exceeds 2^29. |
| `Planner.ComputeSplittingVar` | include/mockturtle/algorithms/simulation_cec.hpp:122-136 | The search terminates. The result is n when n <= 6. For n >= 7 it is 7 when the 32-bit estimate exceeds 2^29, and n + 1 otherwise. It never exceeds n + 1. |
| `Planner.ComputeRounds` | include/mockturtle/algorithms/simulation_cec.hpp:138-140 | When split_var <= n and the shift fits, there is at least one round, and rounds * 2^split_var == 2^n. |
| `Planner.SmallInputsOneRound` | include/mockturtle/algorithms/simulation_cec.hpp:122-125 | Up to six inputs, the split variable is n, the plan is defined, and there is exactly one round. |
| `Planner.SplitVarOvershoots` | include/mockturtle/algorithms/simulation_cec.hpp:126-134 | With n >= 7 and the estimate within budget, the split variable is n + 1, so compute_rounds is not defined. |
| `Planner.RoundsShiftTooWide` | include/mockturtle/algorithms/simulation_cec.hpp:138-140 | With n >= 39 and the estimate over budget, the split variable is 7 and the shift amount n - 7 reaches 32, so compute_rounds is not defined. |
| `Planner.PlanDefinedCases` | include/mockturtle/algorithms/simulation_cec.hpp:122-140 | The round count is defined exactly when n <= 6, or 7 <= n <= 38 with the estimate over budget. |
| `Bits.BitOfRoundPoint` | include/mockturtle/algorithms/simulation_cec.hpp:182-198 | Bit p of j + k * 2^s is bit p of j below s and bit p - s of k at or above s. This is the digit that the repeated halving of the round counter reads. |
| `Bits.RoundPointInRange` | include/mockturtle/algorithms/simulation_cec.hpp:138-140 | Every point of rounds k < r lies below r * 2^s. |
| `Bits.RoundPointCover` | include/mockturtle/algorithms/simulation_cec.hpp:138-140 | Every assignment below r * 2^s is the point of some round k < r at some bit j < 2^s. |
| `Bits.RoundPointInjective` | include/mockturtle/algorithms/simulation_cec.hpp:138-140 | Distinct round/bit pairs give distinct assignments, so each assignment is covered once. |
| `Networks.Simulate` | include/mockturtle/algorithms/simulation_cec.hpp:97-99 | The simulator adds an entry for every gate and keeps every existing entry unchanged. |
| `SimulationCecImpl.InitPatterns` | include/mockturtle/algorithms/simulation_cec.hpp:142-153 | Every input, and nothing else, gets a table of 2^split_var bits. Below split_var, bit j of input p's table is bit p of j. At or above split_var, the table is all-zero. |
| `SimulationCecImpl.InitIsRoundZero` | include/mockturtle/algorithms/simulation_cec.hpp:142-153 | The initial store is the input store of round 0. |
| `SimulationCecImpl.InputPatternBits` | include/mockturtle/algorithms/simulation_cec.hpp:145-151 | Bit j of input p's round-k table is bit p of the assignment that round k simulates at bit j. |
| `SimulationCecImpl.OutputTableClear` | include/mockturtle/algorithms/simulation_cec.hpp:158-169 | An output's table, complemented when the output is complemented, is all-zero iff each bit equals the complementation flag. |
| `SimulationCecImpl.AllClear` | include/mockturtle/algorithms/simulation_cec.hpp:157-170 | The fold over the outputs is true iff every bit of every output table equals that output's complementation flag. |
| `SimulationCecImpl.Check` | include/mockturtle/algorithms/simulation_cec.hpp:155-172 | check is true iff every output table, complemented where needed, has no set bit. |
| `SimulationCecImpl.CheckOrderIrrelevant` | include/mockturtle/algorithms/simulation_cec.hpp:155-172 | The verdict of check does not depend on the order of the outputs. |
| `SimulationCecImpl.EraseGates` | include/mockturtle/algorithms/simulation_cec.hpp:177-180 | Erasing the gates removes exactly the gate keys and keeps every other entry unchanged. |
| `SimulationCecImpl.SetToBit` | include/mockturtle/algorithms/simulation_cec.hpp:187-197 | The update either keeps the table or complements it. It keeps it when `is_const0` already matches the complement of the bit, and complements it otherwise. With bit 1, a non-empty table is never all-zero afterwards. |
| `SimulationCecImpl.SetToBitConstant` | include/mockturtle/algorithms/simulation_cec.hpp:187-197 | On a constant table, the conditional complement yields the constant of the round bit, whichever constant it started from. |
| `SimulationCecImpl.SetHighInputs` | include/mockturtle/algorithms/simulation_cec.hpp:182-201 | The input loop sets each input at or above split_var to the complement rule applied with bit (p - split_var) of the round. Inputs below split_var and all non-inputs are unchanged. |
| `SimulationCecImpl.UpdatePattern` | include/mockturtle/algorithms/simulation_cec.hpp:175-202 | Every gate entry is erased and every other key is kept. Inputs below split_var and non-input entries are unchanged. Each input at or above split_var that held a constant now holds the constant bit (p - split_var) of the round. |
| `SimulationCecImpl.SimulatedRoundUpdatable` | include/mockturtle/algorithms/simulation_cec.hpp:184-201 | The simulated store of every round holds exactly the inputs and gates. Each input holds its round pattern, so the high inputs hold constant tables. |
| `SimulationCecImpl.UpdateGivesNextRound` | include/mockturtle/algorithms/simulation_cec.hpp:175-202 | Updating a store of inputs and gates whose low inputs hold projections gives exactly the input store of the new round. |
| `SimulationCecImpl.SimulateRound` | include/mockturtle/algorithms/simulation_cec.hpp:97-99 | Simulating the round-k input store gives each output node, at bit j, its value under assignment j + k * 2^s. |
| `SimulationCecImpl.CheckRound` | include/mockturtle/algorithms/simulation_cec.hpp:101-104 | check on a simulated round-k input store passes iff every output is 0 at all 2^s assignments of round k. |
| `SimulationCecImpl.CheckSimulatedRound` | include/mockturtle/algorithms/simulation_cec.hpp:109-114 | check on the simulated store of round k passes iff round k passes. |
| `SimulationCecImpl.RoundsCoverAllPoints` | include/mockturtle/algorithms/simulation_cec.hpp:106-117 | When r * 2^s == 2^n, all r rounds pass iff every output is 0 under all 2^n assignments. |
| `SimulationCecImpl.NextInputs` | include/mockturtle/algorithms/simulation_cec.hpp:108 | update_pattern on the simulated store of round k gives the input store of round k + 1. |
| `SimulationCecImpl.NextRound` | include/mockturtle/algorithms/simulation_cec.hpp:107-115 | One loop pass yields the simulated store of round k + 1, and its check passes iff round k + 1 passes. |
| `SimulationCecImpl.RoundsPassAll` | include/mockturtle/algorithms/simulation_cec.hpp:106-117 | The round-by-round record of passing rounds equals "every round below r passes". |
| `SimulationCecImpl.FirstFailure` | include/mockturtle/algorithms/simulation_cec.hpp:112-113 | When every round before f passes and round f < rounds fails, not all rounds pass, so returning false at f is the right verdict. |
| `SimulationCecImpl.LaterRounds` | include/mockturtle/algorithms/simulation_cec.hpp:106-117 | Given that round 0 passed, the loop returns true iff every round below rounds passes. Otherwise it stops at the first failing round: the ghost result `failed` is a round below rounds that fails, and every earlier round passes. |
| `SimulationCecImpl.Run` | include/mockturtle/algorithms/simulation_cec.hpp:81-118 | run records split_var and rounds, with rounds * 2^split_var == 2^n. It returns true iff all rounds pass, iff every miter output is 0 under all 2^n assignments. A false verdict is given at the first failing round, round 0 included: the ghost result `failed` fails and every earlier round passes. |
| `CecEntry.MiterVerdict` | include/mockturtle/algorithms/simulation_cec.hpp:241-247 | For a miter of two networks, being zero on all assignments is equivalent to the two networks being equivalent. |
| `CecEntry.SimulationCec` | include/mockturtle/algorithms/simulation_cec.hpp:222-253 | Over 40 inputs the result is absent and the statistics are untouched. When the miter fails, the result is false and the statistics, if requested, are zeros. Otherwise the result is run's verdict, and the statistics are written iff `pst` is non-null. For a true miter, the result is true iff the networks are equivalent. |

## Left out

- kitty's truth tables (`dynamic_truth_table`, `create_nth_var`, `~`, `is_const0`) are modelled as `seq<bool>` operations of the same meaning. Their word-level storage is not modelled.
- The miter builder (`miter.hpp`) is not part of this model. It is the parameter `miter` of `CecEntry.SimulationCec`. `CecEntry.IsMiterOf` states what a miter must satisfy.
- `default_simulator` and `simulate_nodes` (`simulation.hpp`) are not part of this model. Each gate carries its boolean function of the input assignment. The simulator fills in every gate missing from the store, pointwise per bit.
- `unordered_node_map` is a Dafny `map` from abstract node handles. Its memory behaviour is not modelled.
- The network's constant node is counted among the gates. Its table is erased and recomputed every round, which yields the same table as keeping it.
- The `static_assert` capability checks are compile-time only.
- Parallel execution of rounds: the source has none.
- 32-bit arithmetic: only the memory estimate `cond` wraps modulo 2^32. Input counts, node counts, the round counter and `rounds` are unbounded naturals. The split variable n + 1 never wraps because n <= 40 on every path that reaches the planner.
- `Planner.ComputeRounds` requires `split_var <= n` and `n - split_var < 32`, because the shift is undefined otherwise. The wrapped-around shift of the n + 1 path is not given a value.
- `SimulationCecImpl.Run` requires `PlanDefined`, so its theorem covers only networks with at most six inputs, or with 7 to 38 inputs and an estimate over 2^29. `Planner.SplitVarOvershoots` and `Planner.RoundsShiftTooWide` state what happens on the other paths.
- `CecEntry.SimulationCec` requires that a constructed miter is well formed and that its plan is defined, for the same reason.
- `SimulationCecImpl.UpdatePattern` requires every input to have an entry. The source's `operator[]` would insert an empty table for a missing one, which never happens on the paths through `run`.
- `SimulationCecImpl.NextRound` takes the index k of the round just checked. The source's loop counter `round` is k + 1.
