/** `build_huffman_tree` (algoritmo.py lines 162-191): seed the queue with one
    leaf per table entry, merge the two smallest nodes until one is left,
    and record a step for the seed, for every merge and for the final tree. */
module HuffmanBuilder {
  import opened Wrappers
  import opened HuffmanNode
  import opened Frequencies
  import opened PriorityQueue
  import opened TreeSteps

  /** The leaves pushed before the first step, in table order. */
  function Seed(t: Table): (q: seq<Node>)
    ensures |q| == |t|
    ensures forall i :: 0 <= i < |t| ==> q[i] == Leaf(t[i].0, t[i].1)
    ensures Weight(q) == Total(t)
    ensures QueueLeaves(q) == multiset(q)
    ensures forall n :: n in q ==> WellFormed(n)
  {
    if t == [] then []
    else
      var rest := Seed(t[1..]);
      assert ([Leaf(t[0].0, t[0].1)] + rest)[1..] == rest;
      [Leaf(t[0].0, t[0].1)] + rest
  }

  /** The tie hint for the `k`-th pop of a merge (0 when none is given). */
  function Hint(hints: seq<nat>, k: nat): nat {
    if k < |hints| then hints[k] else 0
  }

  /** The hints left once a merge has used its two. */
  function DropPair(hints: seq<nat>): seq<nat> {
    if |hints| < 2 then [] else hints[2..]
  }

  /** The number of merges a queue of `k` nodes goes through. */
  function Merges(k: nat): nat {
    if k == 0 then 0 else k - 1
  }

  /** The step a merge records: `left` and `right` were popped, their
      parent pushed onto `rest`, the snapshot is the queue after the push. */
  function MergeStep(left: Node, right: Node, rest: seq<Node>): Step {
    var parent := Internal(left.freq + right.freq, left, right);
    Step(Combining(LabelOf(left), left.freq, LabelOf(right), right.freq, parent.freq),
         rest + [parent], [left, right, parent])
  }

  /** One iteration of the `while` loop (algoritmo.py lines 174-186): pop
      `left`, pop `right`, push their parent, and describe the result as a
      step whose snapshot is the queue after the push. */
  function MergeOnce(q: seq<Node>, leftHint: nat, rightHint: nat): (s: Step)
    requires |q| > 1
    ensures IsMergeOf(multiset(q), s)
    ensures |s.nodes| == |q| - 1
    ensures Weight(s.nodes) == Weight(q)
    ensures QueueLeaves(s.nodes) == QueueLeaves(q)
    ensures (forall n :: n in q ==> WellFormed(n)) ==> forall n :: n in s.nodes ==> WellFormed(n)
  {
    var first := ExtractMin(q, leftHint);
    var second := ExtractMin(first.rest, rightHint);
    MergeRecorded(q, first, second);
    MergeConserves(q, first, second, Internal(first.node.freq + second.node.freq, first.node, second.node));
    MergeStep(first.node, second.node, second.rest)
  }

  /** The step built from two successive pops records a merge. */
  lemma MergeRecorded(q: seq<Node>, first: Pop, second: Pop)
    requires multiset(q) == multiset(first.rest) + multiset{first.node}
    requires forall m :: m in q ==> !Less(m, first.node)
    requires multiset(first.rest) == multiset(second.rest) + multiset{second.node}
    requires forall m :: m in first.rest ==> !Less(m, second.node)
    ensures IsMergeOf(multiset(q), MergeStep(first.node, second.node, second.rest))
  {
    var left, right := first.node, second.node;
    var parent := Internal(left.freq + right.freq, left, right);
    var s := MergeStep(left, right, second.rest);
    PopsAreMinima(q, first, second);
    SnapshotAfterPush(q, first, second, parent);
    assert s.special[0] == left && s.special[1] == right && s.special[2] == parent;
  }

  lemma PopsAreMinima(q: seq<Node>, first: Pop, second: Pop)
    requires multiset(q) == multiset(first.rest) + multiset{first.node}
    requires forall m :: m in q ==> !Less(m, first.node)
    requires multiset(first.rest) == multiset(second.rest) + multiset{second.node}
    requires forall m :: m in first.rest ==> !Less(m, second.node)
    ensures MinOf(first.node, multiset(q))
    ensures MinOf(second.node, multiset(q) - multiset{first.node})
  {
    assert multiset(first.rest) == multiset(q) - multiset{first.node};
  }

  lemma SnapshotAfterPush(q: seq<Node>, first: Pop, second: Pop, parent: Node)
    requires multiset(q) == multiset(first.rest) + multiset{first.node}
    requires multiset(first.rest) == multiset(second.rest) + multiset{second.node}
    ensures multiset(second.rest + [parent])
         == multiset(q) - multiset{first.node} - multiset{second.node} + multiset{parent}
  {
    assert multiset(first.rest) == multiset(q) - multiset{first.node};
    assert multiset(second.rest) == multiset(first.rest) - multiset{second.node};
  }

  /** Pushing the parent of the two popped nodes keeps the queue's total
      frequency, its leaves and the well-formedness of its trees. */
  lemma MergeConserves(q: seq<Node>, first: Pop, second: Pop, parent: Node)
    requires first.node in q && forall m :: m in first.rest ==> m in q
    requires second.node in first.rest && forall m :: m in second.rest ==> m in first.rest
    requires Weight(q) == first.node.freq + Weight(first.rest)
    requires QueueLeaves(q) == Leaves(first.node) + QueueLeaves(first.rest)
    requires Weight(first.rest) == second.node.freq + Weight(second.rest)
    requires QueueLeaves(first.rest) == Leaves(second.node) + QueueLeaves(second.rest)
    requires parent == Internal(first.node.freq + second.node.freq, first.node, second.node)
    ensures Weight(second.rest + [parent]) == Weight(q)
    ensures QueueLeaves(second.rest + [parent]) == QueueLeaves(q)
    ensures (forall n :: n in q ==> WellFormed(n)) ==> forall n :: n in second.rest + [parent] ==> WellFormed(n)
  {
    WeightAppend(second.rest, [parent]);
    LeavesAppend(second.rest, [parent]);
    assert Weight([parent]) == parent.freq;
    assert QueueLeaves([parent]) == Leaves(parent);
    if forall n :: n in q ==> WellFormed(n) {
      forall n | n in second.rest + [parent] ensures WellFormed(n) {
        if n != parent {
          assert n in second.rest;
        }
      }
    }
  }

  /** The state when the `while` loop stops. */
  datatype LoopResult = LoopResult(queue: seq<Node>, steps: seq<Step>)

  /** The `while len(self.nodes) > 1` loop (algoritmo.py lines 172-187):
      the steps it appends form a merge chain from the queue it started with,
      one per merge, and it stops with one node (none if the queue was
      empty) of the same total frequency and the same leaves. A queue that
      already holds at most one node is left as it is, and nothing is
      recorded; otherwise the node the loop stops with is exactly the
      snapshot of the last merge step (`LoopEndsAtLastSnapshot`). */
  function MergeLoop(q: seq<Node>, steps: seq<Step>, hints: seq<nat>): (r: LoopResult)
    ensures |r.queue| == if q == [] then 0 else 1
    ensures |q| <= 1 ==> r == LoopResult(q, steps)
    ensures |r.steps| == |steps| + Merges(|q|)
    ensures r.steps[..|steps|] == steps
    ensures MergeChain(multiset(q), r.steps[|steps|..])
    ensures Weight(r.queue) == Weight(q)
    ensures QueueLeaves(r.queue) == QueueLeaves(q)
    ensures (forall n :: n in q ==> WellFormed(n)) ==> forall n :: n in r.queue ==> WellFormed(n)
    decreases |q|
  {
    if |q| <= 1 then LoopResult(q, steps)
    else
      var s := MergeOnce(q, Hint(hints, 0), Hint(hints, 1));
      var steps' := AddStep(steps, s.description, s.nodes, s.special);
      var r := MergeLoop(s.nodes, steps', DropPair(hints));
      LoopStepsExtend(q, steps, s, steps', r.steps);
      r
  }

  /** A loop that merges at least once stops with what its last merge step
      snapshotted. */
  lemma {:induction false} LoopEndsAtLastSnapshot(q: seq<Node>, steps: seq<Step>, hints: seq<nat>)
    requires |q| > 1
    ensures var r := MergeLoop(q, steps, hints);
      |r.steps| > |steps| && r.steps[|r.steps| - 1].nodes == r.queue
    decreases |q|
  {
    var s := MergeOnce(q, Hint(hints, 0), Hint(hints, 1));
    var steps' := AddStep(steps, s.description, s.nodes, s.special);
    assert MergeLoop(q, steps, hints) == MergeLoop(s.nodes, steps', DropPair(hints));
    if |s.nodes| > 1 {
      LoopEndsAtLastSnapshot(s.nodes, steps', DropPair(hints));
    }
  }

  /** Bookkeeping for one turn of the loop: `steps'` is `steps` with `s`
      appended; if the steps after `steps'` form a chain from the snapshot
      of `s`, and `s` merges `q`, then the steps after `steps` form a chain
      from `q`. */
  lemma LoopStepsExtend(q: seq<Node>, steps: seq<Step>, s: Step, steps': seq<Step>, all: seq<Step>)
    requires IsMergeOf(multiset(q), s)
    requires |steps'| == |steps| + 1 && steps'[..|steps|] == steps && steps'[|steps|] == s
    requires |all| >= |steps'| && all[..|steps'|] == steps'
    requires MergeChain(multiset(s.nodes), all[|steps'|..])
    ensures all[..|steps|] == steps
    ensures MergeChain(multiset(q), all[|steps|..])
  {
    assert all[..|steps|] == steps'[..|steps|];
    assert all[|steps|..] == [s] + all[|steps'|..] by {
      assert all[|steps|] == all[..|steps'|][|steps|];
    }
    MergeChainCons(multiset(q), s, all[|steps'|..]);
  }

  /** What `build_huffman_tree` leaves behind: `root_node` (unset when the
      queue ended empty) and `steps_tree`. */
  datatype BuildResult = BuildResult(root: Option<Node>, steps: seq<Step>)

  /** `build_huffman_tree` on the frequency table `t`, with `hints` breaking
      ties between nodes of equal frequency. The first step shows the seeded
      leaves with nothing highlighted; a non-empty table then yields
      `|t| - 1` merge steps and a final step, and sets the root. An empty
      table yields the first step alone and no root. The merges and the root
      are described by `BuildMerges` and `BuildRoot`. */
  function BuildTree(t: Table, hints: seq<nat>): (b: BuildResult)
    ensures |b.steps| > 0 && b.steps[0] == Step(InitialNodes, Seed(t), [])
    ensures |t| == 0 ==> b.root == None && |b.steps| == 1
    ensures |t| > 0 ==> b.root.Some? && |b.steps| == |t| + 1
  {
    var seed := Seed(t);
    var initial := AddStep([], InitialNodes, seed, []);
    var loop := MergeLoop(seed, initial, hints);
    assert loop.steps[0] == loop.steps[..1][0];
    assert |loop.queue| > 0 ==> Finish(loop).steps[0] == Finish(loop).steps[..|loop.steps|][0];
    Finish(loop)
  }

  /** Lines 189-191: when a node is left it becomes the root and a final
      step highlighting it is recorded; otherwise nothing happens. */
  function Finish(loop: LoopResult): BuildResult {
    if |loop.queue| > 0 then
      BuildResult(Some(loop.queue[0]), AddStep(loop.steps, FinalTree, [], [loop.queue[0]]))
    else BuildResult(None, loop.steps)
  }

  /** The steps between the first and the last form a merge chain from the
      seeded leaves: each merges the two smallest nodes of the queue the
      step before left. */
  lemma BuildMerges(t: Table, hints: seq<nat>)
    requires |t| > 0
    ensures MergeChain(multiset(Seed(t)), BuildTree(t, hints).steps[1..|t|])
  {
    var seed := Seed(t);
    var loop := MergeLoop(seed, AddStep([], InitialNodes, seed, []), hints);
    ChainBeforeFinal(multiset(seed), loop.steps, Step(FinalTree, [], [loop.queue[0]]));
  }

  /** Appending the final step leaves the chain after the first step. */
  lemma ChainBeforeFinal(before: multiset<Node>, steps: seq<Step>, last: Step)
    requires |steps| > 0 && MergeChain(before, steps[1..])
    ensures MergeChain(before, (steps + [last])[1..|steps|])
  {
    assert (steps + [last])[1..|steps|] == steps[1..];
  }

  /** A queue of one node weighs that node and holds its leaves. */
  lemma SingletonQueue(q: seq<Node>)
    requires |q| == 1
    ensures Weight(q) == q[0].freq
    ensures QueueLeaves(q) == Leaves(q[0])
  {
    assert q[1..] == [];
  }

  /** The root is the node the step before the last showed alone: the
      parent pushed by the last merge, or the lone seeded leaf when nothing
      was merged. */
  lemma RootIsLastSnapshot(t: Table, hints: seq<nat>)
    requires |t| > 0
    ensures var b := BuildTree(t, hints);
      b.steps[|t| - 1].nodes == [b.root.value]
  {
    FinishFromSeed(Seed(t), hints);
  }

  /** The same, for any non-empty seeded queue. */
  lemma FinishFromSeed(seed: seq<Node>, hints: seq<nat>)
    requires |seed| > 0
    ensures var b := Finish(MergeLoop(seed, AddStep([], InitialNodes, seed, []), hints));
      b.root.Some? && |b.steps| == |seed| + 1 && b.steps[|seed| - 1].nodes == [b.root.value]
  {
    var initial := AddStep([], InitialNodes, seed, []);
    var loop := MergeLoop(seed, initial, hints);
    if |seed| > 1 {
      LoopEndsAtLastSnapshot(seed, initial, hints);
    }
    FinalKeepsHistory(loop, |seed|);
  }

  /** Finishing keeps the step before the final one, which shows the one
      node left, now the root. */
  lemma FinalKeepsHistory(loop: LoopResult, n: nat)
    requires |loop.queue| == 1 && |loop.steps| == n > 0
    requires loop.steps[n - 1].nodes == loop.queue
    ensures Finish(loop).root.Some? && |Finish(loop).steps| == n + 1
    ensures Finish(loop).steps[n - 1].nodes == [Finish(loop).root.value]
  {
    assert loop.queue == [loop.queue[0]];
  }

  /** So the root is the parent the last merge pushed (its third
      highlighted node), or, for a one-entry table, the seeded leaf itself. */
  lemma RootOfLastMerge(t: Table, hints: seq<nat>)
    requires |t| > 0
    ensures var b := BuildTree(t, hints);
      && (|t| == 1 ==> b.root.value == Leaf(t[0].0, t[0].1))
      && (|t| > 1 ==> |b.steps[|t| - 1].special| == 3 && b.root.value == b.steps[|t| - 1].special[2])
  {
    var b := BuildTree(t, hints);
    var root := b.root.value;
    RootIsLastSnapshot(t, hints);
    if |t| > 1 {
      MergeStepAt(t, hints, |t| - 1);
      LastMergeParent(multiset(b.steps[|t| - 2].nodes), b.steps[|t| - 1], root);
    } else {
      assert b.steps[0].nodes == [root];
    }
  }

  /** A merge whose snapshot is the single node `root` pushed `root`. */
  lemma LastMergeParent(before: multiset<Node>, s: Step, root: Node)
    requires IsMergeOf(before, s)
    requires s.nodes == [root]
    ensures root == s.special[2]
  {
    MergeSelectsSmallest(before, s);
    var left, right, parent := s.special[0], s.special[1], s.special[2];
    var kept := before - multiset{left} - multiset{right};
    assert multiset{root} == kept + multiset{parent};
    assert |kept| == 0;
    assert kept == multiset{};
  }

  /** The last step shows no nodes and highlights the root; the root is a
      well-formed tree whose frequency is the table's total and whose leaves
      are exactly the seeded ones; it is the node the step before the last
      showed alone. */
  lemma BuildRoot(t: Table, hints: seq<nat>)
    requires |t| > 0
    ensures var b := BuildTree(t, hints);
      && b.steps[|t|] == Step(FinalTree, [], [b.root.value])
      && b.steps[|t| - 1].nodes == [b.root.value]
      && b.root.value.freq == Total(t)
      && Leaves(b.root.value) == multiset(Seed(t))
      && WellFormed(b.root.value)
  {
    var seed := Seed(t);
    var initial := AddStep([], InitialNodes, seed, []);
    var loop := MergeLoop(seed, initial, hints);
    SingletonQueue(loop.queue);
    assert loop.queue[0] in loop.queue;
    RootIsLastSnapshot(t, hints);
  }

  /** The `i`-th step after the first, for `i` below the number of table
      entries, records a merge of the queue the step before showed: the
      snapshot lost one node; `left` and `right` were queued before; `left`
      is no larger than `right`, and both are no larger than any node left
      in the queue, the new parent included. */
  lemma MergeStepAt(t: Table, hints: seq<nat>, i: nat)
    requires 1 <= i < |t|
    ensures var b := BuildTree(t, hints);
      && IsMergeOf(multiset(b.steps[i - 1].nodes), b.steps[i])
      && |b.steps[i].nodes| == |t| - i
      && b.steps[i].special[0] in b.steps[i - 1].nodes
      && b.steps[i].special[1] in b.steps[i - 1].nodes
      && b.steps[i].special[0].freq <= b.steps[i].special[1].freq
      && forall m :: m in b.steps[i].nodes ==> b.steps[i].special[1].freq <= m.freq
  {
    var b := BuildTree(t, hints);
    BuildMerges(t, hints);
    ChainStep(b.steps, |t|, i);
  }

  /** Step `i` of a history whose steps `1..n` form a merge chain from the
      snapshot of step 0. */
  lemma ChainStep(steps: seq<Step>, n: nat, i: nat)
    requires 1 <= i < n <= |steps|
    requires MergeChain(multiset(steps[0].nodes), steps[1..n])
    ensures IsMergeOf(multiset(steps[i - 1].nodes), steps[i])
    ensures |steps[i].nodes| + i == |steps[0].nodes|
    ensures steps[i].special[0] in steps[i - 1].nodes && steps[i].special[1] in steps[i - 1].nodes
    ensures steps[i].special[0].freq <= steps[i].special[1].freq
    ensures forall m :: m in steps[i].nodes ==> steps[i].special[1].freq <= m.freq
  {
    var chain := steps[1..n];
    var before := multiset(steps[0].nodes);
    assert chain[i - 1] == steps[i];
    assert QueueBefore(before, chain, i - 1) == multiset(steps[i - 1].nodes) by {
      if i > 1 {
        assert chain[i - 2] == steps[i - 1];
      }
    }
    MergeChainSizes(before, chain, i - 1);
    MergeSelectsSmallest(multiset(steps[i - 1].nodes), steps[i]);
  }
}
