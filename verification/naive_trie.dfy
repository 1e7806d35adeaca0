/** The uncompressed trie `impl1::trie` (include/trie.h:13-102): one node per
    character, each with a word flag. It is the plain definition of a set of
    words the compressed tries are measured against.

    Unlike the other two tries it stores the empty word: `insert("")` marks
    the root. `exists("")` then answers true, but `get_words` starts below
    the root and never lists it. */
module NaiveTrie {
  import opened Strings

  /** `trie_node_t_`: children by character, and whether a word ends here. */
  datatype Node = Node(children: map<char, Node>, isWord: bool)

  datatype Trie = Trie(root: Node)

  function Empty(): Trie
  {
    Trie(Node(map[], false))
  }

  /** Whether the word w (spelled from n) ends at a word node below n. */
  ghost predicate Has(n: Node, w: string)
    decreases n
  {
    if w == [] then n.isWord
    else w[0] in n.children && Has(n.children[w[0]], w[1..])
  }

  /** The words below n, as a set. */
  ghost function Keys(n: Node): set<string>
    decreases n
  {
    (if n.isWord then {[]} else {})
      + set c, k | c in n.children && k in Keys(n.children[c]) :: [c] + k
  }

  lemma {:induction false} KeysAt(n: Node, w: string)
    ensures w in Keys(n) <==> Has(n, w)
    decreases n
  {
    var ch := n.children;
    if w != [] && w[0] in ch {
      KeysAt(ch[w[0]], w[1..]);
      if Has(ch[w[0]], w[1..]) {
        assert w == [w[0]] + w[1..];
      }
    }
    if w in Keys(n) && w != [] {
      var c, k :| c in ch && k in Keys(ch[c]) && w == [c] + k;
      assert w[0] == c && w[1..] == k;
      KeysAt(ch[c], k);
    }
  }

  ghost function Words(t: Trie): set<string>
  {
    Keys(t.root)
  }

  /** A new trie holds no word, not even the empty one. */
  lemma EmptyHoldsNothing()
    ensures Words(Empty()) == {}
  {
    forall w ensures w !in Words(Empty()) {
      KeysAt(Empty().root, w);
    }
  }

  /** Below the root every node lies on the path to a word: it is a word or
      it has a child. `insert` creates nodes only on the way to the word it
      marks. */
  ghost predicate ValidNode(n: Node)
    decreases n
  {
    && (n.isWord || n.children != map[])
    && forall c | c in n.children :: ValidNode(n.children[c])
  }

  ghost predicate ValidChildren(n: Node)
  {
    forall c | c in n.children :: ValidNode(n.children[c])
  }

  /** The root itself may be an empty non-word node. */
  ghost predicate Valid(t: Trie)
  {
    ValidChildren(t.root)
  }

  /** The loop of `insert` (include/trie.h:28-34): create or follow the node
      for each character, then mark the last one. */
  function InsertAt(n: Node, w: string): (r: Node)
    ensures forall x :: Has(r, x) <==> Has(n, x) || x == w
    ensures ValidChildren(n) ==> ValidNode(r)
    decreases |w|
  {
    if w == [] then n.(isWord := true)
    else
      var c := w[0];
      var child := if c in n.children then n.children[c] else Node(map[], false);
      assert ValidChildren(n) ==> ValidChildren(child);
      var r := n.(children := n.children[c := InsertAt(child, w[1..])]);
      assert c in r.children;
      assert forall x | x != [] && x[0] == c :: x == w <==> x[1..] == w[1..] by {
        forall x | x != [] && x[0] == c ensures x == w <==> x[1..] == w[1..] {
          assert x == [x[0]] + x[1..];
          assert w == [w[0]] + w[1..];
        }
      }
      r
  }

  function Insert(t: Trie, word: string): (r: Trie)
    ensures Words(r) == Words(t) + {word}
    ensures Valid(t) ==> Valid(r)
  {
    var r := Trie(InsertAt(t.root, word));
    forall w ensures w in Words(r) <==> w in Words(t) + {word} {
      KeysAt(r.root, w);
      KeysAt(t.root, w);
    }
    r
  }

  /** Whether following w from n stays on existing nodes. */
  ghost predicate Reaches(n: Node, w: string)
    decreases n
  {
    w == [] || (w[0] in n.children && Reaches(n.children[w[0]], w[1..]))
  }

  /** The node w leads to from n. */
  ghost function Sub(n: Node, w: string): Node
    requires Reaches(n, w)
    decreases n
  {
    if w == [] then n else Sub(n.children[w[0]], w[1..])
  }

  /** One more character of the walk. */
  lemma {:induction false} SubStep(n: Node, u: string, c: char)
    requires Reaches(n, u)
    ensures Reaches(n, u + [c]) <==> c in Sub(n, u).children
    ensures Reaches(n, u + [c]) ==> Sub(n, u + [c]) == Sub(n, u).children[c]
    decreases n
  {
    if u == [] {
      assert u + [c] == [c];
      assert [c][1..] == [];
    } else {
      assert (u + [c])[0] == u[0];
      assert (u + [c])[1..] == u[1..] + [c];
      SubStep(n.children[u[0]], u[1..], c);
    }
  }

  /** A word through u is a word of the node u leads to, and nothing passes
      through a path that leaves the trie. */
  lemma {:induction false} HasThrough(n: Node, u: string, v: string)
    ensures Has(n, u + v) <==> Reaches(n, u) && Has(Sub(n, u), v)
    decreases n
  {
    if u == [] {
      assert u + v == v;
    } else {
      assert (u + v)[0] == u[0];
      assert (u + v)[1..] == u[1..] + v;
      if u[0] in n.children {
        HasThrough(n.children[u[0]], u[1..], v);
      }
    }
  }

  /** Below the root, every node a path leads to is valid. */
  lemma {:induction false} SubValid(n: Node, u: string)
    requires ValidChildren(n) && Reaches(n, u) && u != []
    ensures ValidNode(Sub(n, u))
    decreases n
  {
    if u[1..] != [] {
      SubValid(n.children[u[0]], u[1..]);
    }
  }

  /** The descent shared by `exists` and `prefix_match` (include/trie.h:38-45
      and 53-60): follow w one child at a time, stopping at a missing child. */
  method Walk(n: Node, w: string) returns (reached: bool, node: Node)
    ensures reached <==> Reaches(n, w)
    ensures reached ==> node == Sub(n, w)
  {
    node := n;
    var i := 0;
    while i < |w|
      invariant i <= |w|
      invariant Reaches(n, w[..i]) && Sub(n, w[..i]) == node
    {
      var c := w[i];
      SubStep(n, w[..i], c);
      assert w[..i + 1] == w[..i] + [c];
      if c !in node.children {
        NoPathBeyond(n, w[..i + 1], w[i + 1..]);
        assert w == w[..i + 1] + w[i + 1..];
        return false, node;
      }
      node := node.children[c];
      i := i + 1;
    }
    assert w[..i] == w;
    reached := true;
  }

  /** A path that leaves the trie cannot be extended back into it. */
  lemma {:induction false} NoPathBeyond(n: Node, u: string, v: string)
    requires !Reaches(n, u)
    ensures !Reaches(n, u + v)
    decreases n
  {
    if u != [] {
      assert (u + v)[0] == u[0];
      assert (u + v)[1..] == u[1..] + v;
      if u[0] in n.children {
        NoPathBeyond(n.children[u[0]], u[1..], v);
      }
    }
  }

  /** No stored word extends a prefix that leaves the trie. */
  lemma NothingBeyond(t: Trie, prefix: string)
    requires !Reaches(t.root, prefix)
    ensures forall k | k in Words(t) :: !(prefix <= k)
  {
    forall k | k in Words(t) ensures !(prefix <= k) {
      KeysAt(t.root, k);
      if prefix <= k {
        PrefixThen(prefix, k, k[|prefix|..]);
        HasThrough(t.root, prefix, k[|prefix|..]);
      }
    }
  }

  /** `exists` (include/trie.h:36-48): walk the word's characters, failing
      on a missing child, and answer the last node's word flag. */
  method Exists(t: Trie, word: string) returns (found: bool)
    ensures found <==> word in Words(t)
  {
    var reached, node := Walk(t.root, word);
    assert word + [] == word;
    HasThrough(t.root, word, []);
    KeysAt(t.root, word);
    if !reached {
      return false;
    }
    found := node.isWord;
  }

  /** The path the completion loop of `prefix_match` follows from n: stop at
      a word node (or at a childless node), otherwise take the least child. */
  function First(n: Node): (w: string)
    ensures ValidNode(n) ==> Has(n, w)
    decreases n
  {
    if n.isWord || n.children == map[] then []
    else
      var c := Least(n.children.Keys);
      var rest := First(n.children[c]);
      assert ([c] + rest)[1..] == rest;
      [c] + rest
  }

  /** The completion is the least word below a node. */
  lemma {:induction false} FirstIsLeast(n: Node, k: string)
    requires Has(n, k)
    ensures LexLeq(First(n), k)
    decreases n
  {
    if !n.isWord {
      var c := Least(n.children.Keys);
      if k[0] == c {
        FirstIsLeast(n.children[c], k[1..]);
        assert ([c] + First(n.children[c]))[1..] == First(n.children[c]);
      }
    }
  }

  /** A trie whose root is a childless non-word node stores nothing. */
  lemma BareRootEmpty(t: Trie)
    requires !t.root.isWord && t.root.children == map[]
    ensures Words(t) == {}
  {
    forall w ensures w !in Words(t) {
      KeysAt(t.root, w);
    }
  }

  /** Below a prefix that leads to a valid node, the completion spells a
      stored word, and no stored word extending the prefix sorts before it. */
  lemma CompletionIsLeast(t: Trie, prefix: string)
    requires Reaches(t.root, prefix) && ValidNode(Sub(t.root, prefix))
    ensures var w := prefix + First(Sub(t.root, prefix));
      && w in Words(t)
      && forall k | k in Words(t) && prefix <= k :: LexLeq(w, k)
  {
    var start := Sub(t.root, prefix);
    var w := prefix + First(start);
    HasThrough(t.root, prefix, First(start));
    KeysAt(t.root, w);
    forall k | k in Words(t) && prefix <= k ensures LexLeq(w, k) {
      KeysAt(t.root, k);
      PrefixThen(prefix, k, k[|prefix|..]);
      HasThrough(t.root, prefix, k[|prefix|..]);
      FirstIsLeast(start, k[|prefix|..]);
      LexLeqPrepend(prefix, First(start), k[|prefix|..]);
    }
  }

  /** `prefix_match` (include/trie.h:50-81). Walk the prefix; a missing child
      fails and leaves `matching` as the caller passed it. Otherwise the
      answer starts as the prefix and follows least children until a word
      node. The empty prefix is accepted and completes from the root. The
      loop's guard against a childless non-word node is reachable only at
      an empty root; it fails after the answer was set to the prefix. */
  method PrefixMatch(t: Trie, prefix: string, matching: string) returns (found: bool, word: string)
    requires Valid(t)
    ensures found <==> exists k | k in Words(t) :: prefix <= k
    ensures found ==> word in Words(t) && prefix <= word
    ensures found ==> forall k | k in Words(t) && prefix <= k :: LexLeq(word, k)
    ensures !found ==> if prefix == [] then word == [] && Words(t) == {} else word == matching
  {
    var reached, node := Walk(t.root, prefix);
    if !reached {
      NothingBeyond(t, prefix);
      return false, matching;
    }
    ghost var start := node;
    ghost var target := prefix + First(start);
    assert ValidNode(start) || (prefix == [] && start == t.root) by {
      if prefix != [] { SubValid(t.root, prefix); }
    }
    word := prefix;
    if node.isWord {
      assert target == word + [];
    }
    assert !ValidNode(start) ==> start.children == map[] && !start.isWord;
    while !node.isWord
      invariant word + First(node) == target
      invariant ValidNode(node) || (word == [] && node == t.root)
      invariant ValidNode(start) || node == start
      decreases node
    {
      if node.children == map[] {
        BareRootEmpty(t);
        return false, word;
      }
      var c := Least(node.children.Keys);
      assert word + First(node) == (word + [c]) + First(node.children[c]);
      word := word + [c];
      node := node.children[c];
    }
    found := true;
    assert word == target;
    CompletionIsLeast(t, prefix);
  }

  /** `get_words_impl_` (include/trie.h:94-101): the path of a word node,
      then every child's words in ascending order of their characters. */
  function Collect(n: Node, path: string): (r: seq<string>)
    ensures forall i | 0 <= i < |r| :: path <= r[i]
    decreases n, 1
  {
    (if n.isWord then [path] else []) + CollectChildren(n, Ascending(n.children.Keys), path)
  }

  /** The loop over `node.children` in `get_words_impl_`. */
  function CollectChildren(n: Node, cs: seq<char>, path: string): (r: seq<string>)
    requires forall i | 0 <= i < |cs| :: cs[i] in n.children
    ensures forall i | 0 <= i < |r| :: |path| < |r[i]| && path <= r[i] && r[i][|path|] in cs
    decreases n, 0, |cs|
  {
    if cs == [] then []
    else Collect(n.children[cs[0]], path + [cs[0]]) + CollectChildren(n, cs[1..], path)
  }

  lemma {:induction false} CollectAt(n: Node, path: string, w: string)
    ensures w in Collect(n, path) <==> path <= w && Has(n, w[|path|..])
    decreases n, 1
  {
    var cs := Ascending(n.children.Keys);
    CollectChildrenAt(n, cs, path, w);
    if path <= w {
      var u := w[|path|..];
      if u != [] {
        assert u[0] == w[|path|] && u[1..] == w[|path| + 1..];
      } else {
        assert w == path by { PrefixThen(path, w, []); }
      }
    }
    assert w == path ==> w[|path|..] == [];
  }

  lemma {:induction false} CollectChildrenAt(n: Node, cs: seq<char>, path: string, w: string)
    requires forall i | 0 <= i < |cs| :: cs[i] in n.children
    ensures w in CollectChildren(n, cs, path) <==>
      |path| < |w| && path <= w && w[|path|] in cs && Has(n.children[w[|path|]], w[|path| + 1..])
    decreases n, 0, |cs|
  {
    if cs != [] {
      var c := cs[0];
      CollectAt(n.children[c], path + [c], w);
      CollectChildrenAt(n, cs[1..], path, w);
      ExtendedPrefix(path, c, w);
    }
  }

  /** A word node's path precedes the longer words below it, and a child's
      words precede those of every greater character. */
  lemma {:induction false} CollectSorted(n: Node, path: string)
    ensures Sorted(Collect(n, path))
    decreases n, 1
  {
    var cs := Ascending(n.children.Keys);
    var below := CollectChildren(n, cs, path);
    CollectChildrenSorted(n, cs, path);
    if n.isWord {
      forall i | 0 <= i < |below| ensures LexLeq(path, below[i]) && path != below[i] {
        CollectChildrenAt(n, cs, path, below[i]);
        PrefixLexLeq(path, below[i]);
      }
      ConsSorted(path, below);
    } else {
      assert Collect(n, path) == below;
    }
  }

  lemma {:induction false} CollectChildrenSorted(n: Node, cs: seq<char>, path: string)
    requires forall i | 0 <= i < |cs| :: cs[i] in n.children
    requires forall i, j | 0 <= i < j < |cs| :: cs[i] < cs[j]
    ensures Sorted(CollectChildren(n, cs, path))
    decreases n, 0, |cs|
  {
    if cs != [] {
      var c := cs[0];
      var a := Collect(n.children[c], path + [c]);
      var b := CollectChildren(n, cs[1..], path);
      CollectSorted(n.children[c], path + [c]);
      CollectChildrenSorted(n, cs[1..], path);
      forall i, j | 0 <= i < |a| && 0 <= j < |b| ensures LexLeq(a[i], b[j]) && a[i] != b[j] {
        CollectAt(n.children[c], path + [c], a[i]);
        CollectChildrenAt(n, cs[1..], path, b[j]);
        ExtendedPrefix(path, c, a[i]);
        ForkLexLeq(path, a[i], b[j]);
      }
      AppendSorted(a, b);
    }
  }

  /** The enumeration from the root's children meets every stored word
      but the empty one. */
  lemma RootCollectAt(t: Trie, w: string)
    ensures var cs := Ascending(t.root.children.Keys);
      w in CollectChildren(t.root, cs, []) <==> w in Words(t) && w != []
  {
    var empty: string := [];
    CollectChildrenAt(t.root, Ascending(t.root.children.Keys), empty, w);
    KeysAt(t.root, w);
    if w != [] {
      assert w[0..] == w;
      assert w[1..] == w[|empty| + 1..];
    }
  }

  /** The enumeration from the root's children lists every stored word but
      the empty one, once each and in ascending order. */
  lemma RootListing(t: Trie)
    ensures var r := CollectChildren(t.root, Ascending(t.root.children.Keys), []);
      && (forall w :: w in r <==> w in Words(t) - {[]})
      && Sorted(r) && Distinct(r)
      && |r| == |Words(t) - {[]}|
  {
    var cs := Ascending(t.root.children.Keys);
    var r := CollectChildren(t.root, cs, []);
    forall w ensures w in r <==> w in Words(t) - {[]} {
      RootCollectAt(t, w);
    }
    CollectChildrenSorted(t.root, cs, []);
    SortedDistinct(r);
    ListingCard(r, Words(t) - {[]});
  }

  /** `get_words` (include/trie.h:83-91): the words below each child of the
      root, so every stored word except the empty one, each once and in
      ascending order. */
  function GetWords(t: Trie): (r: seq<string>)
    ensures forall w :: w in r <==> w in Words(t) && w != []
    ensures Sorted(r) && Distinct(r)
    ensures |r| == |Words(t) - {[]}|
  {
    RootListing(t);
    CollectChildren(t.root, Ascending(t.root.children.Keys), [])
  }
}
