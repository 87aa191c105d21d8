/** The `heapq` min-queue of algoritmo.py, abstracted to a sequence of nodes.
    `heappop` removes a node of minimum frequency; which one among equal
    frequencies depends on the heap's array layout, so here a caller-supplied
    hint decides among the minimal nodes. */
module PriorityQueue {
  import opened HuffmanNode

  /** The node at `i` is a minimum of `q`: no node is `Less` than it. */
  predicate IsMinAt(q: seq<Node>, i: nat) {
    i < |q| && forall j :: 0 <= j < |q| ==> !Less(q[j], q[i])
  }

  /** The sum of the frequencies of the queued nodes. */
  function Weight(q: seq<Node>): nat {
    if q == [] then 0 else q[0].freq + Weight(q[1..])
  }

  /** The leaves reachable from the queued nodes, with multiplicity. */
  function QueueLeaves(q: seq<Node>): multiset<Node> {
    if q == [] then multiset{} else Leaves(q[0]) + QueueLeaves(q[1..])
  }

  lemma {:induction false} WeightAppend(a: seq<Node>, b: seq<Node>)
    ensures Weight(a + b) == Weight(a) + Weight(b)
  {
    if a != [] {
      assert (a + b)[1..] == a[1..] + b;
      WeightAppend(a[1..], b);
    } else {
      assert a + b == b;
    }
  }

  lemma {:induction false} LeavesAppend(a: seq<Node>, b: seq<Node>)
    ensures QueueLeaves(a + b) == QueueLeaves(a) + QueueLeaves(b)
  {
    if a != [] {
      assert (a + b)[1..] == a[1..] + b;
      LeavesAppend(a[1..], b);
    } else {
      assert a + b == b;
    }
  }

  /** The first minimum among `q[from..]`, given that `q[best]` is no
      larger than anything in `q[..from]` and is the first such node. */
  function FirstMinFrom(q: seq<Node>, best: nat, from: nat): (i: nat)
    requires best < from <= |q|
    requires forall j :: 0 <= j < from ==> !Less(q[j], q[best])
    requires forall j :: 0 <= j < best ==> Less(q[best], q[j])
    ensures IsMinAt(q, i)
    ensures forall j :: 0 <= j < i ==> Less(q[i], q[j])
    decreases |q| - from
  {
    if from == |q| then best
    else if Less(q[from], q[best]) then
      assert forall j :: 0 <= j < from ==> q[from].freq < q[j].freq by {
        forall j | 0 <= j < from ensures q[from].freq < q[j].freq {
          assert !Less(q[j], q[best]);
        }
      }
      FirstMinFrom(q, from, from + 1)
    else FirstMinFrom(q, best, from + 1)
  }

  /** The index of the node the queue gives up: the hinted one when it is a
      minimum, otherwise the first minimum. */
  function MinIndex(q: seq<Node>, hint: nat): (i: nat)
    requires |q| > 0
    ensures IsMinAt(q, i)
    ensures IsMinAt(q, hint) ==> i == hint
  {
    if IsMinAt(q, hint) then hint else FirstMinFrom(q, 0, 1)
  }

  /** The outcome of one `heappop`. */
  datatype Pop = Pop(node: Node, rest: seq<Node>)

  /** Remove the minimum chosen by `hint`. */
  function ExtractMin(q: seq<Node>, hint: nat): (p: Pop)
    requires |q| > 0
    ensures p.node in q
    ensures multiset(q) == multiset(p.rest) + multiset{p.node}
    ensures |p.rest| == |q| - 1
    ensures forall m :: m in q ==> !Less(m, p.node)
    ensures forall m :: m in p.rest ==> !Less(m, p.node)
    ensures Weight(q) == p.node.freq + Weight(p.rest)
    ensures QueueLeaves(q) == Leaves(p.node) + QueueLeaves(p.rest)
    ensures IsMinAt(q, hint) ==> p.node == q[hint]
  {
    var i := MinIndex(q, hint);
    RemoveAtMultiset(q, i);
    RemoveAtWeight(q, i);
    RemoveAtLeaves(q, i);
    Pop(q[i], q[..i] + q[i + 1..])
  }

  /** Taking out the node at `i` takes out one copy of it and keeps the
      other nodes. */
  lemma RemoveAtMultiset(q: seq<Node>, i: nat)
    requires i < |q|
    ensures multiset(q) == multiset(q[..i] + q[i + 1..]) + multiset{q[i]}
    ensures forall m :: m in q[..i] + q[i + 1..] ==> m in q
  {
    assert q == q[..i] + [q[i]] + q[i + 1..];
  }

  /** Taking out the node at `i` takes out its frequency. */
  lemma {:induction false} RemoveAtWeight(q: seq<Node>, i: nat)
    requires i < |q|
    ensures Weight(q) == q[i].freq + Weight(q[..i] + q[i + 1..])
  {
    var rest := q[..i] + q[i + 1..];
    if i == 0 {
      assert rest == q[1..];
    } else {
      RemoveAtWeight(q[1..], i - 1);
      assert rest[0] == q[0];
      assert rest[1..] == q[1..][..i - 1] + q[1..][i..];
    }
  }

  /** Taking out the node at `i` takes out its leaves. */
  lemma {:induction false} RemoveAtLeaves(q: seq<Node>, i: nat)
    requires i < |q|
    ensures QueueLeaves(q) == Leaves(q[i]) + QueueLeaves(q[..i] + q[i + 1..])
  {
    var rest := q[..i] + q[i + 1..];
    if i == 0 {
      assert rest == q[1..];
    } else {
      RemoveAtLeaves(q[1..], i - 1);
      assert rest[0] == q[0];
      assert rest[1..] == q[1..][..i - 1] + q[1..][i..];
    }
  }

  /** Ties are not pinned down: every minimum of a queue is the node some
      hint makes `ExtractMin` give up, and a hint never makes it give up a
      node that is not a minimum. */
  lemma AnyMinimumCanBePopped(q: seq<Node>, i: nat)
    requires i < |q|
    ensures IsMinAt(q, i) <==> ExtractMin(q, i).node == q[i]
  {
  }
}
