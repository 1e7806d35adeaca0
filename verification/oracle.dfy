/** The three tries side by side, as the test suite (test/main.cpp) drives
    them: each is filled by inserting the same words in the same order, and
    all three must then hold the same words. The uncompressed trie also
    keeps the empty word, which the other two refuse to insert. */
module Oracle {
  import opened Strings
  import NaiveTrie
  import WordTrie
  import RadixTrie

  /** The words that occur in ws. */
  ghost function Among(ws: seq<string>): set<string>
  {
    set i | 0 <= i < |ws| :: ws[i]
  }

  lemma AmongSnoc(ws: seq<string>)
    requires ws != []
    ensures Among(ws) == Among(ws[..|ws| - 1]) + {ws[|ws| - 1]}
  {
    var init := ws[..|ws| - 1];
    forall w | w in Among(ws) ensures w in Among(init) + {ws[|ws| - 1]} {
      var i :| 0 <= i < |ws| && ws[i] == w;
      if i < |ws| - 1 { assert init[i] == w; }
    }
    forall w | w in Among(init) ensures w in Among(ws) {
      var i :| 0 <= i < |init| && init[i] == w;
      assert ws[i] == w;
    }
  }

  /** `impl1::trie` after inserting ws in order. */
  function FillNaive(ws: seq<string>): (t: NaiveTrie.Trie)
    ensures NaiveTrie.Valid(t)
    ensures NaiveTrie.Words(t) == Among(ws)
  {
    if ws == [] then
      NaiveTrie.EmptyHoldsNothing();
      NaiveTrie.Empty()
    else
      AmongSnoc(ws);
      NaiveTrie.Insert(FillNaive(ws[..|ws| - 1]), ws[|ws| - 1])
  }

  /** The values `impl2` would attach if it kept any: one unit per word. */
  function Units(n: nat): (r: seq<()>)
    ensures |r| == n
  {
    if n == 0 then [] else Units(n - 1) + [()]
  }

  /** `impl2::trie` after inserting ws in order; its lifted form is the
      `impl3` trie filled with the same words and unit values. */
  function FillWord(ws: seq<string>): (t: WordTrie.Trie)
    ensures WordTrie.Valid(t)
    ensures WordTrie.Lift(t) == FillRadix(ws, Units(|ws|))
  {
    if ws == [] then
      RadixTrie.EmptyHoldsNothing<()>();
      assert WordTrie.Lift(WordTrie.Empty()) == RadixTrie.Empty();
      WordTrie.Empty()
    else
      AmongSnoc(ws);
      assert Units(|ws|)[..|ws| - 1] == Units(|ws| - 1);
      WordTrie.Insert(FillWord(ws[..|ws| - 1]), ws[|ws| - 1])
  }

  /** Whether position i holds the first occurrence of its word in ks. */
  ghost predicate FirstAt(ks: seq<string>, i: int)
    requires 0 <= i < |ks|
  {
    forall j | 0 <= j < i :: ks[j] != ks[i]
  }

  /** `impl3::trie` after inserting ks[i] with value vs[i] in order: every
      non-empty key is stored, with the value of its first insertion. */
  function FillRadix<V>(ks: seq<string>, vs: seq<V>): (t: RadixTrie.Trie<V>)
    requires |ks| == |vs|
    ensures RadixTrie.Valid(t)
    ensures RadixTrie.Contents(t).Keys == Among(ks) - {[]}
    ensures forall i | 0 <= i < |ks| && ks[i] != [] && FirstAt(ks, i) ::
      ks[i] in RadixTrie.Contents(t) && RadixTrie.Contents(t)[ks[i]] == vs[i]
  {
    if ks == [] then
      RadixTrie.EmptyHoldsNothing<V>();
      RadixTrie.Empty()
    else
      var n := |ks| - 1;
      var before := FillRadix(ks[..n], vs[..n]);
      var t := RadixTrie.Insert(before, ks[n], vs[n]);
      AmongSnoc(ks);
      forall i | 0 <= i < |ks| && ks[i] != [] && FirstAt(ks, i)
        ensures ks[i] in RadixTrie.Contents(t) && RadixTrie.Contents(t)[ks[i]] == vs[i]
      {
        if i < n {
          assert ks[..n][i] == ks[i] && vs[..n][i] == vs[i];
          assert FirstAt(ks[..n], i);
        } else {
          assert ks[n] !in Among(ks[..n]);
        }
      }
      t
  }

  /** Filled with the same words, the three tries hold the same words,
      except that the uncompressed one also holds the empty word if it was
      inserted; the values `impl3` attaches play no part. */
  lemma SameWords<V>(ws: seq<string>, vs: seq<V>)
    requires |ws| == |vs|
    ensures NaiveTrie.Words(FillNaive(ws)) - {[]} == WordTrie.Words(FillWord(ws))
    ensures WordTrie.Words(FillWord(ws)) == RadixTrie.Contents(FillRadix(ws, vs)).Keys
    ensures [] in NaiveTrie.Words(FillNaive(ws)) <==> [] in ws
  {
  }

  /** Filled with the same words, the three tries list them identically in
      `get_words`: the same words, in the same order. */
  lemma SameListing<V>(ws: seq<string>, vs: seq<V>)
    requires |ws| == |vs|
    ensures NaiveTrie.GetWords(FillNaive(ws)) == WordTrie.GetWords(FillWord(ws))
    ensures WordTrie.GetWords(FillWord(ws)) == RadixTrie.GetWords(FillRadix(ws, vs))
  {
    SameWords(ws, vs);
    var l1 := NaiveTrie.GetWords(FillNaive(ws));
    var l2 := WordTrie.GetWords(FillWord(ws));
    var l3 := RadixTrie.GetWords(FillRadix(ws, vs));
    SortedUnique(l1, l2);
    SortedUnique(l2, l3);
  }
}
