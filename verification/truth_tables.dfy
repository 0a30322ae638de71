/** Simulation vectors: the dynamic truth tables of s variables used by the
    checker, as sequences of 2^s bits. Bit j of a table is the value of its
    node for simulated point j. */
module TruthTables {
  import opened Bits

  type TruthTable = seq<bool>

  /** The constant table over s variables: all-zero for false, all-one for true. */
  function Const(s: nat, b: bool): TruthTable
  {
    seq(Pow2(s), _ => b)
  }

  /** The projection onto variable p over s variables: bit j is bit p of j. */
  function NthVar(s: nat, p: nat): TruthTable
  {
    seq(Pow2(s), j requires 0 <= j => Bit(j, p))
  }

  /** Bitwise complement (the `~` of a truth table). */
  function Not(t: TruthTable): TruthTable
  {
    seq(|t|, j requires 0 <= j < |t| => !t[j])
  }

  /** No bit of t is set. */
  predicate IsConst0(t: TruthTable)
  {
    forall j :: 0 <= j < |t| ==> !t[j]
  }

  /** t is one of the two constant tables over s variables. */
  predicate IsConstant(t: TruthTable, s: nat)
  {
    t == Const(s, false) || t == Const(s, true)
  }

  lemma NotConst(s: nat, b: bool)
    ensures Not(Const(s, b)) == Const(s, !b)
  {
  }

  /** A constant table is all-zero exactly when its constant is false. */
  lemma IsConst0Const(s: nat, b: bool)
    ensures IsConst0(Const(s, b)) <==> !b
  {
    assert Const(s, b)[0] == b;
  }
}
