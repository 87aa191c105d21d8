/** The frequency table `Counter(text)`: one entry per distinct character,
    in order of first occurrence, holding how often that character occurs. */
module Frequencies {

  /** The items of a `Counter`, in iteration order. */
  type Table = seq<(char, nat)>

  /** The characters that have an entry. */
  function Keys(t: Table): set<char> {
    set p | p in t :: p.0
  }

  /** No character has two entries: the first entry's character has no
      later entry, and so on down the table. */
  predicate DistinctKeys(t: Table) {
    t == [] || (t[0].0 !in Keys(t[1..]) && DistinctKeys(t[1..]))
  }

  /** Every entry holds a positive count. */
  predicate PositiveCounts(t: Table) {
    forall p :: p in t ==> p.1 > 0
  }

  /** The count stored for `c`, 0 when `c` has no entry (as a `Counter`
      answers for a missing key). */
  function Lookup(t: Table, c: char): nat {
    if t == [] then 0
    else if t[0].0 == c then t[0].1
    else Lookup(t[1..], c)
  }

  /** The sum of all counts. */
  function Total(t: Table): nat {
    if t == [] then 0 else t[0].1 + Total(t[1..])
  }

  /** One step of counting: the entry for `c` goes up by one, or a new entry
      `(c, 1)` is appended when `c` has not been seen. */
  function Bump(t: Table, c: char): Table {
    if t == [] then [(c, 1)]
    else if t[0].0 == c then [(c, t[0].1 + 1)] + t[1..]
    else [t[0]] + Bump(t[1..], c)
  }

  lemma KeysCons(p: (char, nat), t: Table)
    ensures Keys([p] + t) == {p.0} + Keys(t)
    ensures ([p] + t)[0] == p && ([p] + t)[1..] == t
  {
    assert forall x :: x in [p] + t <==> x == p || x in t;
  }

  /** Counting `c` raises its count by one and leaves every other count. */
  lemma {:induction false} BumpLookup(t: Table, c: char, d: char)
    ensures Lookup(Bump(t, c), d) == Lookup(t, d) + (if d == c then 1 else 0)
  {
    if t != [] && t[0].0 != c {
      BumpLookup(t[1..], c, d);
      KeysCons(t[0], Bump(t[1..], c));
    } else if t != [] {
      KeysCons((c, t[0].1 + 1), t[1..]);
    }
  }

  /** Counting `c` gives `c` an entry and no other character a new one,
      keeps the entries distinct and raises the total by one. */
  lemma {:induction false} BumpKeysTotal(t: Table, c: char)
    ensures Keys(Bump(t, c)) == Keys(t) + {c}
    ensures Total(Bump(t, c)) == Total(t) + 1
    ensures DistinctKeys(t) ==> DistinctKeys(Bump(t, c))
  {
    if t == [] {
    } else if t[0].0 == c {
      KeysCons(t[0], t[1..]);
      KeysCons((c, t[0].1 + 1), t[1..]);
      assert t == [t[0]] + t[1..];
    } else {
      var rest := Bump(t[1..], c);
      BumpKeysTotal(t[1..], c);
      KeysCons(t[0], t[1..]);
      KeysCons(t[0], rest);
      assert t == [t[0]] + t[1..];
    }
  }

  /** Counting keeps the counts positive. */
  lemma {:induction false} BumpKeepsPositive(t: Table, c: char)
    requires PositiveCounts(t)
    ensures PositiveCounts(Bump(t, c))
  {
    if t == [] {
    } else if t[0].0 == c {
      forall p | p in Bump(t, c) ensures p.1 > 0 {
        assert p == (c, t[0].1 + 1) || p in t[1..];
      }
    } else {
      BumpKeepsPositive(t[1..], c);
      forall p | p in Bump(t, c) ensures p.1 > 0 {
        assert p == t[0] || p in Bump(t[1..], c);
      }
    }
  }

  /** `Counter(text)` (algoritmo.py line 129): the characters are counted
      left to right. The table has one entry per character of the text,
      holding how often it occurs there; no count is zero and the counts add
      up to the length of the text. */
  function Count(text: string): (t: Table)
    ensures DistinctKeys(t)
    ensures PositiveCounts(t)
    ensures forall c :: Lookup(t, c) == multiset(text)[c]
    ensures forall c :: c in Keys(t) <==> c in text
    ensures Total(t) == |text|
  {
    if text == [] then []
    else
      var init := text[..|text| - 1];
      var last := text[|text| - 1];
      assert text == init + [last];
      assert multiset(text) == multiset(init) + multiset{last};
      BumpKeysTotal(Count(init), last);
      BumpKeepsPositive(Count(init), last);
      forall c ensures Lookup(Bump(Count(init), last), c) == multiset(text)[c] {
        BumpLookup(Count(init), last, c);
      }
      Bump(Count(init), last)
  }

  /** The distinct characters of a text. */
  function Alphabet(text: string): set<char> {
    set c | c in text
  }

  /** With distinct keys, an entry `(c, n)` is present exactly when `c` has
      an entry and its lookup gives `n`. */
  lemma {:induction false} EntryIsLookup(t: Table, c: char, n: nat)
    requires DistinctKeys(t)
    ensures (c, n) in t <==> c in Keys(t) && Lookup(t, c) == n
  {
    if t != [] {
      KeysCons(t[0], t[1..]);
      assert t == [t[0]] + t[1..];
      EntryIsLookup(t[1..], c, n);
      if t[0].0 == c {
        assert (c, n) !in t[1..];
      }
    }
  }

  /** With distinct keys there are as many entries as distinct characters. */
  lemma {:induction false} DistinctKeysCount(t: Table)
    requires DistinctKeys(t)
    ensures |Keys(t)| == |t|
  {
    if t != [] {
      DistinctKeysCount(t[1..]);
      KeysCons(t[0], t[1..]);
      assert t == [t[0]] + t[1..];
    }
  }

  /** The table of a text: `(c, n)` is an entry exactly when `c` occurs in
      the text `n` times; there is one entry per distinct character. */
  lemma CountEntries(text: string)
    ensures forall c, n :: (c, n) in Count(text) <==> c in text && n == multiset(text)[c]
    ensures |Count(text)| == |Alphabet(text)|
  {
    var t := Count(text);
    forall c, n ensures (c, n) in t <==> c in text && n == multiset(text)[c] {
      EntryIsLookup(t, c, n);
    }
    DistinctKeysCount(t);
    assert Keys(t) == Alphabet(text);
  }
}
