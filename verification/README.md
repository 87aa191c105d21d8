# Huffman tree construction, modelled in Dafny

This project models the core of `algoritmo.py`, an interactive Huffman-coding
teaching application. The modelled part:

- the frequency table `Counter(self.text)`;
- the tree node `HuffmanNode`, ordered by frequency alone;
- `build_huffman_tree`: it seeds a `heapq` min-queue with one leaf per
  character and merges the two smallest nodes until one is left. It records a
  step for the seed, for every merge and for the final tree;
- `add_tree_step`, which appends those steps.

Modules, one per concept of the program:

| module | file | models |
|---|---|---|
| `Wrappers` | `wrappers.dfy` | `Option`, for the unset `root_node` |
| `HuffmanNode` | `huffman_node.dfy` | `HuffmanNode`, its `__lt__`, leaves and well-formedness of a tree |
| `Frequencies` | `frequencies.dfy` | `Counter(text)` as a table of `(char, count)` entries in first-occurrence order |
| `PriorityQueue` | `priority_queue.dfy` | `heappop` as extraction of a minimum-frequency node from a sequence |
| `TreeSteps` | `tree_steps.dfy` | `steps_tree` entries, `add_tree_step`, and what a recorded merge means |
| `HuffmanBuilder` | `huffman_builder.dfy` | `build_huffman_tree`: seeding, the merge loop, the final step |
| `ProcessText` | `process_text.dfy` | the part of `process_text` that counts and builds, plus worked examples |

How the queue is modelled:

- The `heapq` list is a `seq<Node>`. The merge contracts compare snapshots as
  multisets; the list order of a snapshot is the model's own (see
  "## Left out").
- `__lt__` compares `freq` only. So when several nodes share the minimum
  frequency, which one `heappop` returns depends on the heap's array layout.
- The model does not fix that choice. `BuildTree` takes a stream of tie hints,
  two per merge. A hint picks the popped node when it indexes a minimum.
  Otherwise the first minimum is popped.
- Every contract about the build holds for every hint stream. So no particular
  tie order is asserted, and `AnyMinimumCanBePopped` shows every minimum is
  reachable.

The model follows the code:

- Ties are not broken by insertion order, because `__lt__` (lines 17-18)
  compares frequencies only.
- Step snapshots are not sorted. They are copies of the heap list, in heap
  order (`list(self.nodes)`, lines 169 and 187).
- The builder records the initial step even for an empty table (line 169).
  An empty text records nothing only because `process_text` returns before
  building (lines 125-126).

## Model

| member | source | states |
|---|---|---|
| HuffmanNode.LessIsFrequencyOrder | algoritmo.py:17-18 | node order is strict and transitive, and two nodes tie exactly when their frequencies are equal, whatever their characters or children |
| HuffmanNode.WellFormedWeight | algoritmo.py:178-180 | in a tree whose internal nodes carry the sum of their children's frequencies, the root's frequency is the total frequency of its leaves |
| Frequencies.Count | algoritmo.py:129 | the table has distinct keys and positive counts; the lookup of every character is its number of occurrences in the text; a character has an entry exactly when it occurs; the counts sum to the text length |
| Frequencies.CountEntries | algoritmo.py:129 | `(c, n)` is an entry exactly when `c` occurs in the text `n` times, and there are as many entries as distinct characters |
| HuffmanBuilder.Seed | algoritmo.py:164-166 | the model's initial sequence holds, entry by entry, one leaf per table entry carrying its character and count; its total frequency is the table's total; its trees are well formed and each is its own only leaf |
| ProcessText.SeedOfText | algoritmo.py:164-166 | the seeded leaves of a text's table are exactly its distinct characters, each present once and carrying its number of occurrences |
| PriorityQueue.ExtractMin | algoritmo.py:174-175 | `heappop` gives up a node of the queue that no other node is smaller than, and the rest is the queue minus one copy of it, with its frequency and leaves taken out; a hint that indexes a minimum picks that node |
| PriorityQueue.AnyMinimumCanBePopped | algoritmo.py:174-175 | a hint makes the pop give up the node at index `i` exactly when that node is a minimum, so every tie order is possible and no non-minimum is ever popped |
| TreeSteps.AddStep | algoritmo.py:193-198 | appending a step adds exactly one entry, leaves every earlier entry unchanged, and stores the given description, node list and highlighted nodes |
| TreeSteps.MergeChainCons | algoritmo.py:172-187 | a merge of a queue followed by a chain of merges from the queue it leaves is itself a chain of merges from the first queue |
| TreeSteps.MergeChainSizes | algoritmo.py:172-187 | after the `i`-th merge of a chain, the snapshot holds `i + 1` nodes fewer than the starting queue |
| TreeSteps.MergeSelectsSmallest | algoritmo.py:174-187 | a recorded merge shrinks the queue by one; `left` and `right` both came from it; `left.freq <= right.freq`; and both are no larger than any node in the snapshot after the push |
| HuffmanBuilder.MergeRecorded | algoritmo.py:174-187 | the step built from two successive pops records a merge: both popped nodes were minima, the parent is the internal node of their summed frequency with them as children, and the snapshot is the queue after the push |
| HuffmanBuilder.MergeConserves | algoritmo.py:178-183 | pushing the parent of the two popped nodes keeps the queue's total frequency, its multiset of leaves and the well-formedness of its trees |
| HuffmanBuilder.MergeOnce | algoritmo.py:174-187 | one loop iteration records a merge of the queue, shrinks it by one, and keeps its total frequency, its leaves and the well-formedness of its trees |
| HuffmanBuilder.LoopStepsExtend | algoritmo.py:187 | appending a merge step and then a chain from its snapshot keeps the earlier steps and gives a chain from the queue before the merge |
| HuffmanBuilder.MergeLoop | algoritmo.py:172-187 | the loop ends with one node, or none if the queue was empty; a queue of at most one node is left as it is and nothing is recorded; it appends one step per merge, `k - 1` for `k` queued nodes; earlier steps stay; the appended steps form a merge chain from the starting queue; total frequency, leaves and well-formedness are kept |
| HuffmanBuilder.LoopEndsAtLastSnapshot | algoritmo.py:172-187 | when the loop merges at least once, the node it stops with is exactly the snapshot of the last merge step it recorded |
| HuffmanBuilder.BuildTree | algoritmo.py:162-191 | the first step shows the seeded leaves and highlights nothing; a non-empty table gives a root and `k + 1` steps for `k` entries; an empty table gives no root and only the first step |
| HuffmanBuilder.BuildMerges | algoritmo.py:169-187 | the steps between the first and the last form a merge chain from the seeded leaves |
| HuffmanBuilder.BuildRoot | algoritmo.py:189-191 | the last step shows no nodes and highlights the root alone; the step before it shows the root alone; the root is well formed; its frequency is the table's total; its leaves are exactly the seeded leaves |
| HuffmanBuilder.RootIsLastSnapshot | algoritmo.py:187-190 | the root `nodes[0]` is the one node that step `k - 1` (the last merge, or the initial step for one entry) showed |
| HuffmanBuilder.LastMergeParent | algoritmo.py:178-187 | a recorded merge whose snapshot is a single node pushed that node: it is the merge's parent |
| HuffmanBuilder.RootOfLastMerge | algoritmo.py:172-190 | the root is the internal node the last merge created (the third highlighted node of step `k - 1`), or the lone seeded leaf for a one-entry table |
| HuffmanBuilder.ChainStep | algoritmo.py:172-187 | in a history whose steps after the first form a merge chain from the first snapshot, step `i` merges the snapshot of step `i - 1`, has `i` nodes fewer than the first, and pops minima in order |
| HuffmanBuilder.MergeStepAt | algoritmo.py:172-187 | each merge step of a build merges the snapshot of the step before it; its snapshot holds `k - i` nodes; both popped nodes were in the previous snapshot; `left.freq <= right.freq`; both are no larger than anything left |
| ProcessText.Process | algoritmo.py:123-139 | an empty text is ignored; otherwise the root's frequency is the text length, its leaves are exactly the distinct characters, each once with its count, and there is one step per distinct character plus one |
| ProcessText.CountExample | algoritmo.py:129 | the text "aaabbc" counts to a:3, b:2, c:1 in order of first occurrence |
| ProcessText.TieExample | algoritmo.py:17-18 | `a` of frequency 3 and an internal node of frequency 3 tie, and the pop may give up either one |
| ProcessText.FirstPopExample | algoritmo.py:174 | on a:3, b:2, c:1 the first pop gives up `c`, whatever the hint |
| ProcessText.SecondPopExample | algoritmo.py:175 | on a:3, b:2 the next pop gives up `b`, whatever the hint |
| ProcessText.SingleCharacterExample | algoritmo.py:162-191 | for "zzzz" the lone leaf is the root, no merge is recorded, and the steps are the initial leaf and the final tree |

## Left out

- Widget construction, reading the input box and switching tabs (lines 21-121, 124 and 151) are left out: they are interface plumbing. The text typed in is a parameter.
- Tree drawing with matplotlib and networkx is left out: it renders through foreign libraries.
- Displaying the frequency table (`show_frequencies`, called at line 136), with its sorting and `repr` escaping (lines 153-160), is left out: it is presentation only.
- A character of the text is modelled as a Dafny `char`, a Unicode scalar value. A Python `str` can also hold lone surrogate code points, which `Counter` would count but `Count` cannot receive.
- The `heapq` sift operations and array layout are left out. The queue is a sequence and a pop takes a minimum chosen by a hint.
- HuffmanBuilder.BuildTree: the list order of each snapshot is the model's, not heapq's. The first snapshot is in table order, and a merge snapshot keeps the previous snapshot's order with the two popped nodes taken out and the new parent appended. The program stores `list(self.nodes)` in heap order; for a:3, b:2, c:1 it stores `[c, a, b]` where the model has `[a, b, c]`. Only the multiset of each snapshot matches the program.
- Step descriptions are not rendered as Portuguese text. `Description` keeps their content as a structure: the two labels (character, or internal), the two frequencies and the new total. `LabelOf` stands for `left.char or 'Interno'`.
- `generate_codes`, `show_codes_and_stats` and the step navigation (called at lines 142-148) are left out: they consume the finished tree and step list and take no part in building them.
- `HuffmanBuilder.BuildTree` on an empty table: the program leaves any earlier `root_node` in place. The model reports no root, `None`. `process_text` never reaches this case, because it returns on empty text.
- The reset of `codes` and `current_step` in `process_text` (lines 131 and 133) is left out: it only serves the left-out code generation and navigation.
