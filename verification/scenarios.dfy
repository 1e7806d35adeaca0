/** The fixed scenario of the `impl3` test case (test/main.cpp:264-388),
    stated as facts about the model: six words inserted with the values 1 to
    6, then any number of further words inserted after them. The `zz` miss
    of the `impl2` test case (test/main.cpp:216-218) is restated for the same
    six words. */
module Scenarios {
  import opened Strings
  import RadixTrie
  import WordTrie
  import Oracle

  function Six(): seq<string>
  {
    ["cat", "bat", "cake", "bake", "abcd", "somereallylongword"]
  }

  function SixValues(): seq<int>
  {
    [1, 2, 3, 4, 5, 6]
  }

  /** A trie that holds exactly the six words. */
  ghost predicate HoldsSix(t: RadixTrie.Trie<int>)
  {
    && RadixTrie.Valid(t)
    && RadixTrie.Contents(t).Keys == {"cat", "bat", "cake", "bake", "abcd", "somereallylongword"}
  }

  /** Where the six words sit at the head of a longer insertion sequence. */
  lemma SixAt(ks: seq<string>, more: seq<string>)
    requires ks == Six() + more
    ensures ks[0] == "cat" && ks[1] == "bat" && ks[2] == "cake"
    ensures ks[3] == "bake" && ks[4] == "abcd" && ks[5] == "somereallylongword"
  {
  }

  /** The first insertion of a word fixes what `exists` and `value_at`
      report for it, whatever is inserted later. */
  lemma FirstInsertionKept(ks: seq<string>, vs: seq<int>, i: int, current: int)
    requires |ks| == |vs| && 0 <= i < |ks| && ks[i] != [] && Oracle.FirstAt(ks, i)
    ensures RadixTrie.Exists(Oracle.FillRadix(ks, vs), ks[i])
    ensures RadixTrie.ValueAt(Oracle.FillRadix(ks, vs), ks[i], current) == (true, vs[i])
  {
  }

  /** The six words are distinct, so each is inserted first where it stands. */
  lemma SixFirst(ks: seq<string>, more: seq<string>, i: int)
    requires ks == Six() + more && 0 <= i < 6
    ensures ks[i] == Six()[i] && ks[i] != [] && Oracle.FirstAt(ks, i)
  {
    SixAt(ks, more);
  }

  /** Each of the six words answers `exists` and reports the value it was
      inserted with, whatever is inserted after them. */
  lemma SixKept(more: seq<string>, extra: seq<int>, i: int, current: int)
    requires |more| == |extra| && 0 <= i < 6
    ensures var t := Oracle.FillRadix(Six() + more, SixValues() + extra);
      && RadixTrie.Exists(t, Six()[i])
      && RadixTrie.ValueAt(t, Six()[i], current) == (true, SixValues()[i])
  {
    var ks := Six() + more;
    var vs := SixValues() + extra;
    SixFirst(ks, more, i);
    assert vs[i] == SixValues()[i];
    FirstInsertionKept(ks, vs, i, current);
  }

  /** The values the test reads back, before and after the further words
      (inserted there with the value 10). */
  lemma StartingValues(more: seq<string>, extra: seq<int>, current: int)
    requires |more| == |extra|
    ensures var t := Oracle.FillRadix(Six() + more, SixValues() + extra);
      && RadixTrie.ValueAt(t, "cat", current) == (true, 1)
      && RadixTrie.ValueAt(t, "cake", current) == (true, 3)
      && RadixTrie.ValueAt(t, "abcd", current) == (true, 5)
      && RadixTrie.ValueAt(t, "somereallylongword", current) == (true, 6)
  {
    SixKept(more, extra, 0, current);
    SixKept(more, extra, 2, current);
    SixKept(more, extra, 4, current);
    SixKept(more, extra, 5, current);
  }

  /** The words the test looks up, before and after the further words, and
      the longest one completing to itself. */
  lemma StartingWords(more: seq<string>, extra: seq<int>, matching: string)
    requires |more| == |extra|
    ensures var t := Oracle.FillRadix(Six() + more, SixValues() + extra);
      && RadixTrie.Exists(t, "cat") && RadixTrie.Exists(t, "bake")
      && RadixTrie.Exists(t, "somereallylongword")
      && RadixTrie.PrefixMatch(t, "somereallylongword", matching) == (true, "somereallylongword")
  {
    var ks := Six() + more;
    var vs := SixValues() + extra;
    SixAt(ks, more);
    assert ks[0] in Oracle.Among(ks) && ks[3] in Oracle.Among(ks) && ks[5] in Oracle.Among(ks);
    RadixTrie.PrefixMatchStored(Oracle.FillRadix(ks, vs), "somereallylongword", matching);
  }

  /** The six words, as a set. */
  lemma AmongSix(ks: seq<string>)
    requires ks == Six()
    ensures Oracle.Among(ks) == {"cat", "bat", "cake", "bake", "abcd", "somereallylongword"}
  {
    SixAt(ks, []);
    assert ks + [] == ks;
    var stored := {"cat", "bat", "cake", "bake", "abcd", "somereallylongword"};
    forall w | w in Oracle.Among(ks) ensures w in stored {
      var i :| 0 <= i < |ks| && ks[i] == w;
    }
    assert ks[0] in Oracle.Among(ks) && ks[1] in Oracle.Among(ks) && ks[2] in Oracle.Among(ks);
    assert ks[3] in Oracle.Among(ks) && ks[4] in Oracle.Among(ks) && ks[5] in Oracle.Among(ks);
  }

  /** Inserting just the six words stores exactly them. */
  lemma SixStored(ks: seq<string>)
    requires ks == Six()
    ensures HoldsSix(Oracle.FillRadix(ks, SixValues()))
  {
    AmongSix(ks);
    assert [] !in Oracle.Among(ks);
  }

  /** Words that extend or garble a stored word are absent, and `value_at`
      leaves the caller's value alone for them. */
  lemma SixAbsent(t: RadixTrie.Trie<int>, current: int)
    requires HoldsSix(t)
    ensures !RadixTrie.Exists(t, "catt") && !RadixTrie.Exists(t, "bbake")
    ensures RadixTrie.ValueAt(t, "catt", current) == (false, current)
  {
  }

  lemma CompleteSo(t: RadixTrie.Trie<int>)
    requires HoldsSix(t)
    ensures RadixTrie.PrefixMatch(t, "so", []) == (true, "somereallylongword")
  {
    RadixTrie.PrefixMatchLeast(t, "so", [], "somereallylongword");
  }

  /** `ba` completes to `bake`, not `bat`: `k` sorts before `t`. */
  lemma CompleteBa(t: RadixTrie.Trie<int>)
    requires HoldsSix(t)
    ensures RadixTrie.PrefixMatch(t, "ba", []) == (true, "bake")
  {
    RadixTrie.PrefixMatchLeast(t, "ba", [], "bake");
    assert !LexLeq("bat", "bake") by {
      assert "bat"[1..] == "at" && "bake"[1..] == "ake";
      assert "at"[1..] == "t" && "ake"[1..] == "ke";
    }
  }

  /** No word starts with `zz`, and the caller's empty match stays empty. */
  lemma CompleteZz(t: RadixTrie.Trie<int>)
    requires HoldsSix(t)
    ensures RadixTrie.PrefixMatch(t, "zz", []) == (false, [])
  {
    RadixTrie.PrefixMatchLeast(t, "zz", [], "bake");
  }

  /** `impl2` filled with the six words (test/main.cpp:183-189) stores
      exactly them. */
  lemma SixWords(ks: seq<string>)
    requires ks == Six()
    ensures WordTrie.Valid(Oracle.FillWord(ks))
    ensures WordTrie.Words(Oracle.FillWord(ks)) == {"cat", "bat", "cake", "bake", "abcd", "somereallylongword"}
  {
    Oracle.SameWords(ks, SixValues());
    SixStored(ks);
  }

  /** In `impl2` too, `zz` matches nothing and the caller's empty match
      stays empty. */
  lemma WordCompleteZz(t: WordTrie.Trie)
    requires WordTrie.Valid(t)
    requires WordTrie.Words(t) == {"cat", "bat", "cake", "bake", "abcd", "somereallylongword"}
    ensures WordTrie.PrefixMatch(t, "zz", []) == (false, [])
  {
    WordTrie.PrefixMatchNoChild(t, "zz", []);
  }

  /** A rearrangement of `abcd` has four characters, none of them `k`. */
  lemma PermutationShape(p: string)
    requires multiset(p) == multiset("abcd")
    ensures |p| == 4 && 'k' !in p
  {
    assert |multiset(p)| == |p|;
    assert |multiset("abcd")| == |"abcd"|;
    assert 'k' !in multiset("abcd");
  }

  /** Such a string is none of the six words but `abcd`. */
  lemma NotOneOfSix(p: string)
    requires |p| == 4 && 'k' !in p && p != "abcd"
    ensures p !in {"cat", "bat", "cake", "bake", "abcd", "somereallylongword"}
  {
    assert "cake"[2] == 'k' && "bake"[2] == 'k';
  }

  /** No rearrangement of `abcd` other than itself is stored. */
  lemma PermutationsAbsent(t: RadixTrie.Trie<int>, p: string)
    requires HoldsSix(t)
    requires multiset(p) == multiset("abcd") && p != "abcd"
    ensures !RadixTrie.Exists(t, p)
  {
    PermutationShape(p);
    NotOneOfSix(p);
  }

  /** None of the six words starts with `thing invalid`. */
  lemma SixNotSpaced(ks: seq<string>, more: seq<string>, i: int)
    requires ks == Six() + more && 0 <= i < 6
    ensures !("thing invalid" <= ks[i])
  {
    SixAt(ks, more);
    assert |ks[i]| < 13 || ks[i][0] == 's';
  }

  /** Words of lower-case letters, as the test's random words are
      (test/main.cpp:48-57). */
  ghost predicate Lowercase(ws: seq<string>)
  {
    forall i, j | 0 <= i < |ws| && 0 <= j < |ws[i]| :: 'a' <= ws[i][j] <= 'z'
  }

  /** A lower-case word cannot start with `thing invalid`, whose sixth
      character is a space. */
  lemma LetterNotSpaced(ws: seq<string>, i: int)
    requires Lowercase(ws) && 0 <= i < |ws|
    ensures !("thing invalid" <= ws[i])
  {
    if |ws[i]| > 5 {
      assert 'a' <= ws[i][5];
    }
  }

  /** No word inserted starts with `thing invalid`. */
  lemma NoneSpaced(ks: seq<string>, more: seq<string>)
    requires ks == Six() + more && Lowercase(more)
    ensures forall i | 0 <= i < |ks| :: !("thing invalid" <= ks[i])
  {
    forall i | 0 <= i < |ks| ensures !("thing invalid" <= ks[i]) {
      if i < 6 {
        SixNotSpaced(ks, more, i);
      } else {
        assert ks[i] == more[i - 6];
        LetterNotSpaced(more, i - 6);
      }
    }
  }

  /** No stored word starts with `thing invalid`: it holds a space, which
      neither the six words nor lower-case further words do. */
  lemma NoSpacedMatch(more: seq<string>, extra: seq<int>, matching: string)
    requires |more| == |extra| && Lowercase(more)
    ensures !RadixTrie.PrefixMatch(Oracle.FillRadix(Six() + more, SixValues() + extra), "thing invalid", matching).0
  {
    var ks := Six() + more;
    var t := Oracle.FillRadix(ks, SixValues() + extra);
    NoneSpaced(ks, more);
    forall k | k in RadixTrie.Contents(t) ensures !("thing invalid" <= k) {
      var i :| 0 <= i < |ks| && ks[i] == k;
    }
    RadixTrie.PrefixMatchLeast(t, "thing invalid", matching, []);
  }
}
