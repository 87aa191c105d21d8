/** The step history of algoritmo.py: each recorded step is a description,
    a snapshot of the queued nodes and the nodes the step highlights. */
module TreeSteps {
  import opened HuffmanNode

  /** How a node is named in a merge description: its character, or the
      word for an internal node (`left.char or 'Interno'`). */
  datatype Label = CharLabel(c: char) | InternalLabel

  function LabelOf(n: Node): Label {
    match n
    case Leaf(c, _) => CharLabel(c)
    case Internal(_, _, _) => InternalLabel
  }

  /** The three kinds of description the builder writes: the initial nodes,
      one merge (names and frequencies of both popped nodes and of the new
      internal node), and the final tree. */
  datatype Description =
    | InitialNodes
    | Combining(left: Label, leftFreq: nat, right: Label, rightFreq: nat, total: nat)
    | FinalTree

  /** One entry of `steps_tree`. */
  datatype Step = Step(description: Description, nodes: seq<Node>, special: seq<Node>)

  /** `add_tree_step`: append one snapshot, leaving the earlier ones as they
      were. The stored node list is a copy of the given one (an empty list
      when the given one is empty); values cannot be aliased, so the copy
      holds the same nodes in the same order. */
  function AddStep(steps: seq<Step>, description: Description, current: seq<Node>, special: seq<Node>): (r: seq<Step>)
    ensures |r| == |steps| + 1
    ensures r[..|steps|] == steps
    ensures r[|steps|].description == description
    ensures r[|steps|].nodes == current
    ensures r[|steps|].special == special
  {
    steps + [Step(description, current, special)]
  }

  /** `n` is one of the nodes in `ms` and none there is `Less` than it. */
  ghost predicate MinOf(n: Node, ms: multiset<Node>) {
    n in ms && forall m :: m in ms ==> !Less(m, n)
  }

  /** Step `s` records one merge applied to the queue holding `before`: a
      minimum `left` was popped, then a minimum `right` of what remained, and
      their parent was pushed; the snapshot is the queue after the push and
      the highlighted nodes are `left`, `right` and the parent. */
  ghost predicate IsMergeOf(before: multiset<Node>, s: Step) {
    && |s.special| == 3
    && var left, right, parent := s.special[0], s.special[1], s.special[2];
    && parent == Internal(left.freq + right.freq, left, right)
    && MinOf(left, before)
    && MinOf(right, before - multiset{left})
    && multiset(s.nodes) == before - multiset{left} - multiset{right} + multiset{parent}
    && s.description == Combining(LabelOf(left), left.freq, LabelOf(right), right.freq, parent.freq)
  }

  /** The queue that step `i` of `chain` starts from: `before` for the
      first step, the snapshot of the previous step otherwise. */
  function QueueBefore(before: multiset<Node>, chain: seq<Step>, i: nat): multiset<Node>
    requires i < |chain|
  {
    if i == 0 then before else multiset(chain[i - 1].nodes)
  }

  /** `chain` records successive merges starting from the queue `before`:
      each step is a merge of the queue the previous step left behind. */
  ghost predicate MergeChain(before: multiset<Node>, chain: seq<Step>) {
    forall i {:trigger QueueBefore(before, chain, i)} ::
      0 <= i < |chain| ==> IsMergeOf(QueueBefore(before, chain, i), chain[i])
  }

  /** A merge followed by a chain from the queue it leaves is a chain. */
  lemma MergeChainCons(before: multiset<Node>, s: Step, tail: seq<Step>)
    requires IsMergeOf(before, s)
    requires MergeChain(multiset(s.nodes), tail)
    ensures MergeChain(before, [s] + tail)
  {
    var chain := [s] + tail;
    forall i | 0 <= i < |chain|
      ensures IsMergeOf(QueueBefore(before, chain, i), chain[i])
    {
      if i > 0 {
        assert chain[i] == tail[i - 1];
        assert QueueBefore(before, chain, i) == QueueBefore(multiset(s.nodes), tail, i - 1) by {
          if i > 1 {
            assert chain[i - 1] == tail[i - 2];
          }
        }
      }
    }
  }

  /** Each step of a merge chain shrinks the queue by one. */
  lemma MergeChainShrinks(before: multiset<Node>, chain: seq<Step>)
    requires MergeChain(before, chain)
    ensures forall i {:trigger QueueBefore(before, chain, i)} ::
      0 <= i < |chain| ==> |chain[i].nodes| + 1 == |QueueBefore(before, chain, i)|
  {
    forall i | 0 <= i < |chain|
      ensures |chain[i].nodes| + 1 == |QueueBefore(before, chain, i)|
    {
      MergeSelectsSmallest(QueueBefore(before, chain, i), chain[i]);
    }
  }

  /** Hence the snapshot of step `i` holds `i + 1` nodes fewer than the
      starting queue. */
  lemma {:induction false} MergeChainSizes(before: multiset<Node>, chain: seq<Step>, i: nat)
    requires MergeChain(before, chain)
    requires i < |chain|
    ensures |chain[i].nodes| + 1 + i == |before|
  {
    MergeChainShrinks(before, chain);
    ShrinkingSizes(before, chain, i);
  }

  lemma {:induction false} ShrinkingSizes(before: multiset<Node>, chain: seq<Step>, i: nat)
    requires forall j {:trigger QueueBefore(before, chain, j)} ::
      0 <= j < |chain| ==> |chain[j].nodes| + 1 == |QueueBefore(before, chain, j)|
    requires i < |chain|
    ensures |chain[i].nodes| + 1 + i == |before|
  {
    assert |chain[i].nodes| + 1 == |QueueBefore(before, chain, i)|;
    if i > 0 {
      ShrinkingSizes(before, chain, i - 1);
    }
  }

  /** What a recorded merge tells about the queue: it shrank by exactly one;
      both popped nodes came from it; `left` is no larger than `right`, and
      both are no larger than every node the snapshot still holds, the new
      parent included. */
  lemma MergeSelectsSmallest(before: multiset<Node>, s: Step)
    requires IsMergeOf(before, s)
    ensures |s.nodes| + 1 == |before|
    ensures s.special[0] in before && s.special[1] in before
    ensures s.special[0].freq <= s.special[1].freq
    ensures forall m :: m in s.nodes ==> s.special[0].freq <= m.freq && s.special[1].freq <= m.freq
  {
    var left, right, parent := s.special[0], s.special[1], s.special[2];
    var ms := before;
    assert right in ms;
    assert |ms - multiset{left}| == |ms| - 1;
    assert |ms - multiset{left} - multiset{right}| == |ms| - 2;
    forall m | m in s.nodes
      ensures right.freq <= m.freq
    {
      assert m in multiset(s.nodes);
      if m != parent {
        assert m in ms - multiset{left};
      }
    }
  }
}
