/** `process_text` (algoritmo.py lines 123-139) as far as the tree goes: an
    empty text is ignored; otherwise the text is counted and the tree is
    built from the counts. */
module ProcessText {
  import opened Wrappers
  import opened HuffmanNode
  import opened Frequencies
  import opened PriorityQueue
  import opened TreeSteps
  import opened HuffmanBuilder

  /** The data one run leaves behind: `frequencies`, then `root_node` and
      `steps_tree`. */
  datatype Processed = Processed(frequencies: Table, build: BuildResult)

  /** The seeded leaves of a table with distinct keys: one leaf per entry,
      each exactly once. */
  lemma {:induction false} SeedLeaves(t: Table, l: Node)
    requires DistinctKeys(t)
    ensures multiset(Seed(t))[l] == if l.Leaf? && (l.ch, l.freq) in t then 1 else 0
  {
    if t != [] {
      var head := Leaf(t[0].0, t[0].1);
      KeysCons(t[0], t[1..]);
      assert t == [t[0]] + t[1..];
      assert Seed(t) == [head] + Seed(t[1..]);
      SeedLeaves(t[1..], l);
      if l == head {
        assert (l.ch, l.freq) !in t[1..];
      }
    }
  }

  /** The leaves seeded from the table of a text are exactly its distinct
      characters, each once, carrying its number of occurrences. */
  lemma SeedOfText(text: string)
    ensures forall c, n :: Leaf(c, n) in multiset(Seed(Count(text))) <==> c in text && n == multiset(text)[c]
    ensures forall l :: l in multiset(Seed(Count(text))) ==> l.Leaf? && multiset(Seed(Count(text)))[l] == 1
  {
    var t := Count(text);
    CountEntries(text);
    forall l ensures multiset(Seed(t))[l] == if l.Leaf? && (l.ch, l.freq) in t then 1 else 0 {
      SeedLeaves(t, l);
    }
  }

  /** One run of `process_text` on the text typed in, with `hints` breaking
      ties in the queue. Nothing happens for an empty text. Otherwise the
      root's frequency is the length of the text, its leaves are exactly the
      distinct characters of the text, each once and carrying its number of
      occurrences, and one step is recorded per distinct character plus
      one. */
  function Process(text: string, hints: seq<nat>): (r: Option<Processed>)
    ensures r.None? <==> text == []
    ensures r.Some? ==> r.value.frequencies == Count(text)
    ensures r.Some? ==> r.value.build.root.Some?
    ensures r.Some? ==> r.value.build.root.value.freq == |text|
    ensures r.Some? ==> forall c, n ::
      Leaf(c, n) in Leaves(r.value.build.root.value) <==> c in text && n == multiset(text)[c]
    ensures r.Some? ==> forall l :: l in Leaves(r.value.build.root.value) ==> l.Leaf? && Leaves(r.value.build.root.value)[l] == 1
    ensures r.Some? ==> |r.value.build.steps| == |Alphabet(text)| + 1
  {
    if text == [] then None
    else
      var t := Count(text);
      var b := BuildTree(t, hints);
      assert |t| > 0 by {
        assert text[0] in Keys(t);
      }
      BuildRoot(t, hints);
      CountEntries(text);
      SeedOfText(text);
      Some(Processed(t, b))
  }

  /** The text "aaabbc" counts to a:3, b:2, c:1, in order of first
      occurrence. */
  lemma CountExample()
    ensures Count("aaabbc") == [('a', 3), ('b', 2), ('c', 1)]
  {
    assert "a"[..0] == "";
    assert Count("a") == [('a', 1)];
    assert "aa"[..1] == "a";
    assert Count("aa") == [('a', 2)];
    assert "aaa"[..2] == "aa";
    assert Count("aaa") == [('a', 3)];
    assert "aaab"[..3] == "aaa";
    assert Count("aaab") == [('a', 3), ('b', 1)] by {
      assert Bump([('a', 3)], 'b') == [('a', 3)] + Bump([], 'b');
    }
    assert "aaabb"[..4] == "aaab";
    assert Count("aaabb") == [('a', 3), ('b', 2)] by {
      assert Bump([('a', 3), ('b', 1)], 'b') == [('a', 3)] + Bump([('b', 1)], 'b');
    }
    assert "aaabbc"[..5] == "aaabb";
    assert Bump([('a', 3), ('b', 2)], 'c') == [('a', 3)] + Bump([('b', 2)], 'c');
    assert Bump([('b', 2)], 'c') == [('b', 2)] + Bump([], 'c');
  }

  /** Ties are left to the queue: after the first merge on "aaabbc" the
      queue holds `a` and the internal node of `c` and `b`, both of
      frequency 3, and the hint decides which is popped first. */
  lemma TieExample(hint: nat)
    requires hint <= 1
    ensures var q := [Leaf('a', 3), Internal(3, Leaf('c', 1), Leaf('b', 2))];
      ExtractMin(q, hint) == Pop(q[hint], [q[1 - hint]])
  {
    var q := [Leaf('a', 3), Internal(3, Leaf('c', 1), Leaf('b', 2))];
    assert IsMinAt(q, hint);
    assert q[..hint] + q[hint + 1..] == [q[1 - hint]];
  }

  /** The first pop on a:3, b:2, c:1 takes `c`, whatever the hint: no tie
      arises. */
  lemma FirstPopExample(h0: nat)
    ensures ExtractMin([Leaf('a', 3), Leaf('b', 2), Leaf('c', 1)], h0) == Pop(Leaf('c', 1), [Leaf('a', 3), Leaf('b', 2)])
  {
    var q := [Leaf('a', 3), Leaf('b', 2), Leaf('c', 1)];
    if h0 == 2 {
      assert IsMinAt(q, 2);
    } else if h0 < 2 {
      assert !IsMinAt(q, h0) by { assert Less(q[2], q[h0]); }
    }
    assert FirstMinFrom(q, 1, 2) == 2 by {
      assert Less(q[2], q[1]);
      assert FirstMinFrom(q, 2, 3) == 2;
    }
    assert FirstMinFrom(q, 0, 1) == 2 by { assert Less(q[1], q[0]); }
    assert q[..2] + q[3..] == [q[0], q[1]];
  }

  /** The second pop on a:3, b:2 takes `b`, whatever the hint. */
  lemma SecondPopExample(h1: nat)
    ensures ExtractMin([Leaf('a', 3), Leaf('b', 2)], h1) == Pop(Leaf('b', 2), [Leaf('a', 3)])
  {
    var q' := [Leaf('a', 3), Leaf('b', 2)];
    assert MinIndex(q', h1) == 1 by {
      if h1 != 1 {
        assert !IsMinAt(q', h1) by {
          if h1 == 0 {
            assert Less(q'[1], q'[0]);
          }
        }
        assert FirstMinFrom(q', 0, 1) == 1 by {
          assert Less(q'[1], q'[0]);
          assert FirstMinFrom(q', 1, 2) == 1;
        }
      } else {
        assert IsMinAt(q', 1);
      }
    }
    assert q'[..1] + q'[2..] == [q'[0]];
  }

  /** A text with one distinct character: the leaf itself is the root, no
      merge is recorded, and the steps are the initial leaf and the final
      tree. */
  lemma SingleCharacterExample(hints: seq<nat>)
    ensures var r := Process("zzzz", hints);
      && r.Some?
      && r.value.build.root == Some(Leaf('z', 4))
      && r.value.build.steps == [Step(InitialNodes, [Leaf('z', 4)], []), Step(FinalTree, [], [Leaf('z', 4)])]
  {
    assert "zzzz"[..3] == "zzz";
    assert "zzz"[..2] == "zz";
    assert "zz"[..1] == "z";
    assert "z"[..0] == "";
    assert Count("zzzz") == [('z', 4)];
    var z := Leaf('z', 4);
    assert Seed([('z', 4)]) == [z];
    var initial := AddStep([], InitialNodes, [z], []);
    assert initial == [Step(InitialNodes, [z], [])];
    assert MergeLoop([z], initial, hints) == LoopResult([z], initial);
  }
}
