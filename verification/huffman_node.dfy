/** The tree node of algoritmo.py: a leaf carries a character, an internal
    node carries no character and exactly two children. Nodes are compared
    by frequency only. */
module HuffmanNode {

  /** `HuffmanNode(char, freq)` with `char` set and no children is a `Leaf`;
      `HuffmanNode(None, freq)` with `left` and `right` set is an `Internal`. */
  datatype Node =
    | Leaf(ch: char, freq: nat)
    | Internal(freq: nat, left: Node, right: Node)

  /** The `__lt__` of a node: frequency alone decides. */
  predicate Less(a: Node, b: Node) {
    a.freq < b.freq
  }

  /** The leaf nodes reachable from `n`, with multiplicity. */
  function Leaves(n: Node): multiset<Node> {
    match n
    case Leaf(_, _) => multiset{n}
    case Internal(_, l, r) => Leaves(l) + Leaves(r)
  }

  /** Every internal node's frequency is the sum of its two children's. */
  predicate WellFormed(n: Node) {
    match n
    case Leaf(_, _) => true
    case Internal(f, l, r) => f == l.freq + r.freq && WellFormed(l) && WellFormed(r)
  }

  /** The sum of the frequencies of the leaves below `n`. */
  function LeafWeight(n: Node): nat {
    match n
    case Leaf(_, f) => f
    case Internal(_, l, r) => LeafWeight(l) + LeafWeight(r)
  }

  /** `Less` is the strict weak order induced by frequency: irreflexive,
      transitive, and two nodes are incomparable exactly when their
      frequencies are equal, whatever else distinguishes them. */
  lemma LessIsFrequencyOrder(a: Node, b: Node, c: Node)
    ensures !Less(a, a)
    ensures Less(a, b) && Less(b, c) ==> Less(a, c)
    ensures !Less(a, b) && !Less(b, a) <==> a.freq == b.freq
  {
  }

  /** In a well-formed tree the root's frequency is the total frequency of
      its leaves. */
  lemma {:induction false} WellFormedWeight(n: Node)
    requires WellFormed(n)
    ensures n.freq == LeafWeight(n)
  {
    match n
    case Leaf(_, _) =>
    case Internal(_, l, r) =>
      WellFormedWeight(l);
      WellFormedWeight(r);
  }
}
