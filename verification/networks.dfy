/** The logic network the checker runs on, reduced to what the checker sees:
    primary inputs in ordinal order, the gates, the primary outputs with
    their complementation flags, the size measure, and the boolean function
    each gate computes of the primary-input assignment. Also the external
    node simulator, as an abstract pointwise evaluation. */
module Networks {
  import opened Bits
  import opened TruthTables

  datatype Option<T> = None | Some(value: T)

  /** Node handles are opaque; identity is all the checker uses. */
  type Node = nat

  /** An output signal: a node, possibly complemented. */
  datatype Signal = Signal(node: Node, complemented: bool)

  /** `pis` is the primary-input order of foreach_pi, `gates` every other
      node (foreach_gate, with the constant node counted among them), `pos`
      the outputs of foreach_po, `size` the node count of size(). `eval(v)`
      maps an assignment of the primary inputs (bit p is input p) to the
      value of gate v. */
  datatype Network = Network(
    pis: seq<Node>,
    gates: seq<Node>,
    pos: seq<Signal>,
    size: nat,
    eval: Node -> seq<bool> -> bool)

  /** The simulation store: a truth table per node (unordered_node_map). */
  type PatternStore = map<Node, TruthTable>

  predicate Distinct(s: seq<Node>)
  {
    forall a, b :: 0 <= a < b < |s| ==> s[a] != s[b]
  }

  /** Inputs are distinct, gates are not inputs, outputs point at nodes of
      the network. */
  predicate WellFormed(net: Network)
  {
    && Distinct(net.pis)
    && (forall g :: g in net.gates ==> g !in net.pis)
    && (forall i :: 0 <= i < |net.pos| ==> net.pos[i].node in net.pis || net.pos[i].node in net.gates)
  }

  /** The ordinal of v among s. */
  function IndexOf(s: seq<Node>, v: Node): (i: nat)
    requires v in s
    ensures i < |s| && s[i] == v
  {
    if s[0] == v then 0 else 1 + IndexOf(s[1..], v)
  }

  /** Assignment number x of n inputs: input p takes bit p of x. */
  function Assignment(x: nat, n: nat): seq<bool>
  {
    seq(n, p requires 0 <= p => Bit(x, p))
  }

  /** The value of node v under input assignment a. */
  function Value(net: Network, v: Node, a: seq<bool>): bool
    requires |a| == |net.pis|
  {
    if v in net.pis then a[IndexOf(net.pis, v)] else net.eval(v)(a)
  }

  /** The value an output signal delivers under assignment a. */
  function OutputValue(net: Network, f: Signal, a: seq<bool>): bool
    requires |a| == |net.pis|
  {
    Value(net, f.node, a) != f.complemented
  }

  /** Every output of the network is 0 under assignment number x. */
  predicate MiterZero(net: Network, x: nat)
  {
    forall i :: 0 <= i < |net.pos| ==> !OutputValue(net, net.pos[i], Assignment(x, |net.pis|))
  }

  /** Every output is 0 under all 2^n assignments of the n inputs. */
  ghost predicate AllPointsZero(net: Network)
  {
    forall x :: 0 <= x < Pow2(|net.pis|) ==> MiterZero(net, x)
  }

  /** Every input has a pattern of 2^s bits. */
  predicate InputsReady(net: Network, s: nat, pats: PatternStore)
  {
    forall p :: 0 <= p < |net.pis| ==> net.pis[p] in pats && |pats[net.pis[p]]| == Pow2(s)
  }

  /** The input assignment simulated at bit j: bit j of every input pattern. */
  function Column(net: Network, s: nat, pats: PatternStore, j: nat): seq<bool>
    requires InputsReady(net, s, pats) && j < Pow2(s)
  {
    seq(|net.pis|, p requires 0 <= p < |net.pis| => pats[net.pis[p]][j])
  }

  /** The external simulator (simulate_nodes with a default simulator of s
      variables): every gate without an entry gets the table whose bit j is
      the gate's function of the inputs' bit j; existing entries are kept. */
  function Simulate(net: Network, s: nat, pats: PatternStore): (r: PatternStore)
    requires InputsReady(net, s, pats)
    ensures r.Keys == pats.Keys + (set g | g in net.gates)
    ensures forall v :: v in pats ==> r[v] == pats[v]
  {
    map v | v in pats.Keys + (set g | g in net.gates) ::
      if v in pats then pats[v]
      else seq(Pow2(s), j requires 0 <= j < Pow2(s) => net.eval(v)(Column(net, s, pats, j)))
  }
}
