/** The set-of-words trie of `impl2::trie` in include/trie.h: the same
    compressed design as `impl3`, but without values. A branch carries an
    `is_word` flag where `impl3` has a separate value-branch kind.

    `Lift` reads an `impl2` tree as an `impl3` tree whose values are all
    `()`: a word-branch becomes a value-branch. Each operation here is
    proved to commute with `Lift`, or to agree with its `impl3`
    counterpart, so the properties proved of `impl3` carry over. Where
    `impl2` behaves differently (the `exists` read past the end of the
    input, and `prefix_match` writing into the caller's string), the
    difference is stated exactly. */
module WordTrie {
  import opened Strings
  import Radix
  import RadixTrie

  datatype Node =
    | Branch(children: map<char, Node>, isWord: bool)
    | Leaf(data: string)

  /** The root is a plain branch whose flag is never set: `insert` ignores
      the empty word and never visits the root. */
  datatype Trie = Trie(root: map<char, Node>)

  function Empty(): Trie
  {
    Trie(map[])
  }

  /** The `impl3` tree with unit values that this tree stands for. */
  function LiftNode(n: Node): (r: Radix.Node<()>)
    ensures n.Leaf? <==> r.Leaf?
    ensures n.Branch? ==> r.children.Keys == n.children.Keys
    ensures n.Branch? ==> (r.ValueBranch? <==> n.isWord)
    decreases n
  {
    match n
    case Leaf(data) => Radix.Leaf(data, ())
    case Branch(ch, isWord) =>
      var lifted := map c | c in ch :: LiftNode(ch[c]);
      if isWord then Radix.ValueBranch(lifted, ()) else Radix.Branch(lifted)
  }

  function Lift(t: Trie): RadixTrie.Trie<()>
  {
    RadixTrie.Trie(LiftNode(Branch(t.root, false)).children)
  }

  /** The words the trie holds: those its lifted `impl3` tree stores. */
  ghost function Words(t: Trie): set<string>
  {
    RadixTrie.Contents(Lift(t)).Keys
  }

  /** Non-word branches below the root have a child: the assertion in
      `prefix_match` (include/trie.h:379) relies on it. */
  ghost predicate ValidNode(n: Node)
    decreases n
  {
    match n
    case Leaf(_) => true
    case Branch(ch, isWord) => (isWord || ch != map[]) && forall c | c in ch :: ValidNode(ch[c])
  }

  ghost predicate Valid(t: Trie)
  {
    forall c | c in t.root :: ValidNode(t.root[c])
  }

  lemma {:induction false} LiftValid(n: Node)
    ensures ValidNode(n) <==> Radix.Valid(LiftNode(n))
    decreases n
  {
    match n
    case Leaf(_) =>
    case Branch(ch, _) =>
      var l := LiftNode(n);
      forall c | c in ch ensures ValidNode(ch[c]) <==> Radix.Valid(l.children[c]) {
        LiftValid(ch[c]);
      }
  }

  lemma LiftValidTrie(t: Trie)
    ensures Valid(t) <==> RadixTrie.Valid(Lift(t))
  {
    forall c | c in t.root ensures ValidNode(t.root[c]) <==> Radix.Valid(Lift(t).root[c]) {
      LiftValid(t.root[c]);
    }
  }

  /** A new trie (`trie()`, include/trie.h:243) holds no word and is valid. */
  lemma EmptyHoldsNothing()
    ensures Words(Empty()) == {}
    ensures Valid(Empty())
  {
    assert Lift(Empty()) == RadixTrie.Empty<()>();
    RadixTrie.EmptyHoldsNothing<()>();
  }

  /** Lifting a branch whose child under k was replaced. */
  lemma LiftReplace(ch: map<char, Node>, isWord: bool, k: char, x: Node)
    ensures LiftNode(Branch(ch[k := x], isWord)).children == LiftNode(Branch(ch, isWord)).children[k := LiftNode(x)]
  {
  }

  /** A chain of single-child plain branches spelling s, ending in bottom:
      `build_branches` (include/trie.h:151-163) followed by the caller's
      writes to the bottom branch it returns. */
  function Chain(s: string, bottom: Node): (r: Node)
    ensures LiftNode(r) == Radix.Chain(s, LiftNode(bottom))
    decreases |s|
  {
    if s == [] then bottom
    else
      var r := Branch(map[s[0] := Chain(s[1..], bottom)], false);
      LiftReplace(map[], false, s[0], Chain(s[1..], bottom));
      r
  }

  /** `make_leaf` (include/trie.h:166-170). */
  function MakeLeaf(s: string): (r: Node)
    ensures LiftNode(r) == Radix.MakeLeaf(s, ())
  {
    Leaf(s)
  }

  function LiftOption(r: Radix.Option<Node>): Radix.Option<Radix.Node<()>>
  {
    match r
    case None => Radix.None
    case Some(n) => Radix.Some(LiftNode(n))
  }

  /** `breakup_leaf` (include/trie.h:173-234): the same three splits as in
      `impl3`, with the bottom branch's `is_word` flag set where `impl3`
      builds a value-branch. */
  function BreakupLeaf(data: string, rest: string): (r: Radix.Option<Node>)
    ensures LiftOption(r) == Radix.BreakupLeaf(data, (), rest, ())
    ensures r.None? <==> data == rest
  {
    var i := Mismatch(data, rest);
    if i == |data| && i == |rest| then
      Radix.None
    else if i == |data| then
      var leaf := MakeLeaf(rest[i + 1..]);
      LiftReplace(map[], true, rest[i], leaf);
      Radix.Some(Chain(data, Branch(map[rest[i] := leaf], true)))
    else if i == |rest| then
      var leaf := MakeLeaf(data[i + 1..]);
      LiftReplace(map[], true, data[i], leaf);
      Radix.Some(Chain(rest, Branch(map[data[i] := leaf], true)))
    else
      var kept := MakeLeaf(data[i + 1..]);
      var added := MakeLeaf(rest[i + 1..]);
      LiftReplace(map[data[i] := kept], false, rest[i], added);
      LiftReplace(map[], false, data[i], kept);
      Radix.Some(Chain(data[..i], Branch(map[data[i] := kept, rest[i] := added], false)))
  }

  /** The `insert_visitor` (include/trie.h:262-301) at node n with the
      unconsumed remainder `rest`: it does to the lifted tree exactly what
      the `impl3` visitor does with the value `()`. */
  function InsertAt(n: Node, rest: string): (r: Node)
    ensures LiftNode(r) == RadixTrie.InsertAt(LiftNode(n), rest, ())
    decreases n
  {
    match n
    case Branch(ch, isWord) =>
      if rest == [] then
        // annotate the branch as a word
        Branch(ch, true)
      else if rest[0] !in ch then
        var leaf := MakeLeaf(rest[1..]);
        LiftReplace(ch, isWord, rest[0], leaf);
        Branch(ch[rest[0] := leaf], isWord)
      else
        var child := InsertAt(ch[rest[0]], rest[1..]);
        LiftReplace(ch, isWord, rest[0], child);
        Branch(ch[rest[0] := child], isWord)
    case Leaf(data) =>
      match BreakupLeaf(data, rest)
      case None => n
      case Some(split) => split
  }

  /** `trie::insert` (include/trie.h:246-304): the empty word is ignored,
      any other word is added and every word already present stays. */
  function Insert(t: Trie, word: string): (r: Trie)
    ensures Lift(r) == RadixTrie.Insert(Lift(t), word, ())
    ensures word != [] ==> Words(r) == Words(t) + {word}
    ensures word == [] ==> r == t
    ensures Valid(t) ==> Valid(r)
  {
    var r := if word == [] then t
      else if word[0] !in t.root then Trie(t.root[word[0] := MakeLeaf(word[1..])])
      else Trie(t.root[word[0] := InsertAt(t.root[word[0]], word[1..])]);
    assert Lift(r) == RadixTrie.Insert(Lift(t), word, ()) by {
      if word != [] {
        var x := if word[0] !in t.root then MakeLeaf(word[1..]) else InsertAt(t.root[word[0]], word[1..]);
        LiftReplace(t.root, false, word[0], x);
      }
    }
    LiftValidTrie(t);
    LiftValidTrie(r);
    r
  }

  /** The `exists_visitor` (include/trie.h:313-344) at node n with the
      unconsumed remainder `rest`. On exhausted input at a branch that is
      not a word, the source goes on to look up `*first` at the end of the
      input; that read is modelled as a miss. */
  function ExistsAt(n: Node, rest: string): (found: bool)
    ensures found <==> Radix.Has(LiftNode(n), rest)
    decreases n
  {
    match n
    case Branch(ch, isWord) =>
      if rest == [] && isWord then true
      else if rest == [] then false
      else if rest[0] !in ch then false
      else ExistsAt(ch[rest[0]], rest[1..])
    case Leaf(data) =>
      |data| == |rest| && data == rest
  }

  /** `trie::exists` (include/trie.h:306-349). */
  function Exists(t: Trie, word: string): (found: bool)
    ensures found <==> word in Words(t)
  {
    Radix.WordsAt(LiftNode(Branch(t.root, false)), word);
    if word == [] then false
    else ExistsAt(Branch(t.root, false), word)
  }

  /** The children of a branch keep the shape `ValidNode` describes. */
  ghost predicate ValidChildren(n: Node)
  {
    n.Branch? ==> forall c | c in n.children :: ValidNode(n.children[c])
  }

  /** The `prefix_match_visitor` (include/trie.h:359-416) at node n with the
      unconsumed prefix `rest`, appending to `matched`. Each branch hop
      appends the character it eats. Once the prefix is exhausted, the
      visitor follows the least child until a word-branch or a leaf; a leaf
      appends its whole residue. A leaf that does not continue the prefix
      clears the string; a missing child leaves the characters eaten so
      far. */
  function PrefixWalk(n: Node, rest: string, matched: string): (r: (bool, string))
    requires ValidChildren(n) && (rest == [] ==> ValidNode(n))
    ensures r.0 ==> matched <= r.1 && rest <= r.1[|matched|..]
    ensures !r.0 ==> r.1 == [] || matched <= r.1
    decreases n
  {
    match n
    case Branch(ch, isWord) =>
      if rest == [] then
        if isWord then (true, matched)
        else
          var c := Least(ch.Keys);
          PrefixWalk(ch[c], [], matched + [c])
      else if rest[0] !in ch then (false, matched)
      else PrefixWalk(ch[rest[0]], rest[1..], matched + [rest[0]])
    case Leaf(data) =>
      if rest == [] then (true, matched + data)
      else if |rest| <= |data| && rest == data[..|rest|] then (true, matched + data)
      else (false, [])
  }

  /** With the prefix exhausted, the walk spells what `impl3`'s completion
      spells. */
  lemma {:induction false} WalkCompletes(n: Node, matched: string)
    requires ValidNode(n)
    ensures Radix.Valid(LiftNode(n))
    ensures PrefixWalk(n, [], matched) == (true, matched + RadixTrie.Complete(LiftNode(n)))
    decreases n
  {
    LiftValid(n);
    match n
    case Branch(ch, isWord) =>
      if !isWord {
        var l := LiftNode(n);
        var c := Least(ch.Keys);
        assert l.children.Keys == ch.Keys && l.children[c] == LiftNode(ch[c]);
        assert RadixTrie.Complete(l) == [c] + RadixTrie.Complete(LiftNode(ch[c]));
        WalkCompletes(ch[c], matched + [c]);
        assert matched + [c] + RadixTrie.Complete(LiftNode(ch[c])) == matched + ([c] + RadixTrie.Complete(LiftNode(ch[c])));
      } else {
        assert matched + [] == matched;
      }
    case Leaf(_) =>
  }

  /** One branch hop of the walk and of `impl3`'s prefix lookup. */
  lemma WalkStep(n: Node, rest: string, matched: string)
    requires n.Branch? && ValidChildren(n) && rest != [] && rest[0] in n.children
    ensures ValidChildren(n.children[rest[0]])
    ensures PrefixWalk(n, rest, matched) == PrefixWalk(n.children[rest[0]], rest[1..], matched + [rest[0]])
    ensures var lookup := RadixTrie.PrefixLookup(LiftNode(n.children[rest[0]]), rest[1..]);
      RadixTrie.PrefixLookup(LiftNode(n), rest) == (lookup.0, lookup.1 + 1)
  {
    assert LiftNode(n).children[rest[0]] == LiftNode(n.children[rest[0]]);
  }

  /** A miss at a branch, for the walk and for `impl3`'s prefix lookup. */
  lemma WalkMissingChild(n: Node, rest: string, matched: string)
    requires n.Branch? && ValidChildren(n) && rest != [] && rest[0] !in n.children
    ensures PrefixWalk(n, rest, matched) == (false, matched)
    ensures RadixTrie.PrefixLookup(LiftNode(n), rest).0.None?
  {
  }

  /** A leaf, for the walk and for `impl3`'s prefix lookup. */
  lemma WalkLeaf(n: Node, rest: string, matched: string)
    requires n.Leaf?
    ensures var lookup := RadixTrie.PrefixLookup(LiftNode(n), rest);
      && lookup.1 == 0
      && (PrefixWalk(n, rest, matched).0 <==> lookup.0.Some?)
      && (lookup.0.Some? ==> lookup.0.value == LiftNode(n) && PrefixWalk(n, rest, matched).1 == matched + n.data)
  {
    if rest == [] {
      assert rest == n.data[..0];
    }
  }

  /** The walk succeeds exactly where `impl3`'s prefix lookup lands, and then
      appends the consumed characters and the completion. */
  ghost predicate WalkMatchesLookup(n: Node, rest: string, matched: string)
    requires ValidChildren(n) && (rest == [] ==> ValidNode(n))
  {
    var lookup := RadixTrie.PrefixLookup(LiftNode(n), rest);
    && (PrefixWalk(n, rest, matched).0 <==> lookup.0.Some?)
    && (lookup.0.Some? ==> Radix.Valid(lookup.0.value))
    && (lookup.0.Some? ==>
          PrefixWalk(n, rest, matched).1 == matched + rest[..lookup.1] + RadixTrie.Complete(lookup.0.value))
  }

  /** One hop of the walk keeps the agreement with `impl3`'s lookup. */
  lemma WalkAgreesStep(n: Node, rest: string, matched: string)
    requires n.Branch? && ValidChildren(n) && rest != [] && rest[0] in n.children
    requires ValidChildren(n.children[rest[0]]) && (rest[1..] == [] ==> ValidNode(n.children[rest[0]]))
    requires WalkMatchesLookup(n.children[rest[0]], rest[1..], matched + [rest[0]])
    ensures WalkMatchesLookup(n, rest, matched)
  {
    var c := rest[0];
    WalkStep(n, rest, matched);
    var inner := RadixTrie.PrefixLookup(LiftNode(n.children[c]), rest[1..]);
    if inner.0.Some? {
      assert rest[..inner.1 + 1] == [c] + rest[1..][..inner.1];
      assert matched + [c] + rest[1..][..inner.1] == matched + rest[..inner.1 + 1];
    }
  }

  lemma {:induction false} WalkAgrees(n: Node, rest: string, matched: string)
    requires ValidChildren(n) && (rest == [] ==> ValidNode(n))
    ensures WalkMatchesLookup(n, rest, matched)
    decreases n
  {
    if n.Leaf? {
      WalkLeaf(n, rest, matched);
      assert rest[..0] == [];
      var lookup := RadixTrie.PrefixLookup(LiftNode(n), rest);
      if lookup.0.Some? {
        assert matched + rest[..lookup.1] + RadixTrie.Complete(lookup.0.value) == matched + n.data;
      }
    } else if rest == [] {
      WalkCompletes(n, matched);
      assert rest[..0] == [];
    } else if rest[0] !in n.children {
      WalkMissingChild(n, rest, matched);
    } else {
      WalkStep(n, rest, matched);
      WalkAgrees(n.children[rest[0]], rest[1..], matched + [rest[0]]);
      WalkAgreesStep(n, rest, matched);
    }
  }

  /** Whether the walk for `rest` below n ends at a leaf that disagrees
      with what is left of the prefix, rather than at a missing child. */
  ghost predicate MissAtLeaf(n: Node, rest: string)
    decreases n
  {
    match n
    case Branch(ch, _) => rest != [] && rest[0] in ch && MissAtLeaf(ch[rest[0]], rest[1..])
    case Leaf(data) => !(|rest| <= |data| && rest == data[..|rest|])
  }

  /** What a failed walk leaves: nothing after a leaf that disagrees with
      the prefix (include/trie.h:413); otherwise `matched` followed by the
      characters eaten before the missing child (include/trie.h:385-391),
      which are as many as `impl3`'s prefix lookup consumes. */
  ghost predicate MissLeaves(n: Node, rest: string, matched: string)
    requires ValidChildren(n) && (rest == [] ==> ValidNode(n))
  {
    var r := PrefixWalk(n, rest, matched);
    !r.0 ==> r.1 == if MissAtLeaf(n, rest) then []
                    else matched + rest[..RadixTrie.PrefixLookup(LiftNode(n), rest).1]
  }

  /** One hop of the walk keeps what a miss leaves. */
  lemma WalkMissesStep(n: Node, rest: string, matched: string)
    requires n.Branch? && ValidChildren(n) && rest != [] && rest[0] in n.children
    requires ValidChildren(n.children[rest[0]]) && (rest[1..] == [] ==> ValidNode(n.children[rest[0]]))
    requires MissLeaves(n.children[rest[0]], rest[1..], matched + [rest[0]])
    ensures MissLeaves(n, rest, matched)
  {
    var c := rest[0];
    WalkStep(n, rest, matched);
    assert MissAtLeaf(n, rest) == MissAtLeaf(n.children[c], rest[1..]);
    var k := RadixTrie.PrefixLookup(LiftNode(n.children[c]), rest[1..]).1;
    EatenOneMore(rest, matched, k);
  }

  /** The characters eaten after one more hop. */
  lemma EatenOneMore(rest: string, matched: string, k: nat)
    requires rest != [] && k <= |rest[1..]|
    ensures matched + [rest[0]] + rest[1..][..k] == matched + rest[..k + 1]
  {
    assert rest[..k + 1] == [rest[0]] + rest[1..][..k];
  }

  lemma {:induction false} WalkMisses(n: Node, rest: string, matched: string)
    requires ValidChildren(n) && (rest == [] ==> ValidNode(n))
    ensures MissLeaves(n, rest, matched)
    decreases n
  {
    if n.Leaf? {
      WalkLeaf(n, rest, matched);
      assert matched + rest[..0] == matched;
    } else if rest == [] {
      WalkCompletes(n, matched);
    } else if rest[0] !in n.children {
      WalkMissingChild(n, rest, matched);
      assert matched + rest[..0] == matched;
    } else {
      WalkStep(n, rest, matched);
      WalkMisses(n.children[rest[0]], rest[1..], matched + [rest[0]]);
      WalkMissesStep(n, rest, matched);
    }
  }

  /** `trie::prefix_match` (include/trie.h:351-421). The source never resets
      `matching_word`: on success the word found follows whatever the caller's
      string held. A miss at a missing child leaves that string followed by
      the characters of the prefix eaten before it; a miss at a leaf that
      disagrees with the prefix empties it. */
  function PrefixMatch(t: Trie, prefix: string, matching: string): (r: (bool, string))
    requires Valid(t)
    ensures r.0 ==> matching <= r.1 && r.1[|matching|..] in Words(t) && prefix <= r.1[|matching|..]
    ensures !r.0 ==> r.1 == if MissAtLeaf(Branch(t.root, false), prefix) then []
                            else matching + prefix[..RadixTrie.PrefixLookup(LiftNode(Branch(t.root, false)), prefix).1]
  {
    if prefix == [] then (false, matching)
    else
      var root := Branch(t.root, false);
      var r := PrefixWalk(root, prefix, matching);
      LiftValidTrie(t);
      WalkAgrees(root, prefix, matching);
      WalkMisses(root, prefix, matching);
      var lookup := RadixTrie.PrefixLookup(LiftNode(root), prefix);
      assert r.0 ==> r.1[|matching|..] == prefix[..lookup.1] + RadixTrie.Complete(lookup.0.value);
      assert r.0 ==> r.1[|matching|..] == RadixTrie.PrefixMatch(Lift(t), prefix, []).1;
      r
  }

  /** A prefix whose first character starts no stored word fails at the
      root and leaves the caller's string as it was. */
  lemma PrefixMatchNoChild(t: Trie, prefix: string, matching: string)
    requires Valid(t) && prefix != []
    requires forall w | w in Words(t) :: w == [] || w[0] != prefix[0]
    ensures PrefixMatch(t, prefix, matching) == (false, matching)
  {
    LiftValidTrie(t);
    if prefix[0] in t.root {
      assert prefix[0] in Lift(t).root;
      RadixTrie.ChildHasKey(Lift(t), prefix[0]);
    }
    var root := Branch(t.root, false);
    WalkMissingChild(root, prefix, matching);
  }

  /** The answer is `impl3`'s answer on the lifted trie, after the caller's
      `matching`; both succeed on the same prefixes. */
  lemma PrefixMatchAgrees(t: Trie, prefix: string, matching: string)
    requires Valid(t)
    ensures RadixTrie.Valid(Lift(t))
    ensures var r := PrefixMatch(t, prefix, matching);
      var r3 := RadixTrie.PrefixMatch(Lift(t), prefix, []);
      && (r.0 <==> r3.0)
      && (r.0 ==> r.1 == matching + r3.1)
  {
    LiftValidTrie(t);
    if prefix != [] {
      var root := Branch(t.root, false);
      WalkAgrees(root, prefix, matching);
      var (found, used) := RadixTrie.PrefixLookup(LiftNode(root), prefix);
      if found.Some? {
        var r3 := RadixTrie.PrefixMatch(Lift(t), prefix, []);
        assert r3.1 == prefix[..used] + RadixTrie.Complete(found.value);
      }
    }
  }

  /** `prefix_match` succeeds exactly when the prefix is non-empty and some
      stored word extends it, and its word is then the least such word. */
  lemma PrefixMatchLeast(t: Trie, prefix: string, matching: string, k: string)
    requires Valid(t)
    ensures var r := PrefixMatch(t, prefix, matching);
      && (r.0 <==> prefix != [] && exists w | w in Words(t) :: prefix <= w)
      && (r.0 && k in Words(t) && prefix <= k ==> LexLeq(r.1[|matching|..], k))
  {
    PrefixMatchAgrees(t, prefix, matching);
    var r := PrefixMatch(t, prefix, matching);
    var r3 := RadixTrie.PrefixMatch(Lift(t), prefix, []);
    RadixTrie.PrefixMatchLeast(Lift(t), prefix, [], k);
    if r.0 {
      assert r.1[|matching|..] == r3.1;
    }
  }

  /** The `print_visitor` of `get_words` (include/trie.h:423-451): a word
      branch emits its path before its children, a leaf emits its path and
      residue, children in ascending order of their characters. */
  function Enumerate(n: Node, path: string): (r: seq<string>)
    ensures r == RadixTrie.Enumerate(LiftNode(n), path)
    decreases n, 1
  {
    match n
    case Leaf(data) => [path + data]
    case Branch(ch, isWord) =>
      var below := EnumerateChildren(n, Ascending(ch.Keys), path);
      if isWord then [path] + below else below
  }

  function EnumerateChildren(n: Node, cs: seq<char>, path: string): (r: seq<string>)
    requires n.Branch?
    requires forall i | 0 <= i < |cs| :: cs[i] in n.children
    ensures r == RadixTrie.EnumerateChildren(LiftNode(n), cs, path)
    decreases n, 0, |cs|
  {
    if cs == [] then []
    else Enumerate(n.children[cs[0]], path + [cs[0]]) + EnumerateChildren(n, cs[1..], path)
  }

  /** `trie::get_words` (include/trie.h:423-451): each stored word once, in
      ascending order. */
  function GetWords(t: Trie): (r: seq<string>)
    ensures forall w :: w in r <==> w in Words(t)
    ensures Sorted(r) && Distinct(r)
    ensures |r| == |Words(t)|
  {
    var r := Enumerate(Branch(t.root, false), []);
    assert r == RadixTrie.GetWords(Lift(t));
    r
  }
}
