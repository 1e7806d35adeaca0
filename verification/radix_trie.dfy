/** The compressed trie of `impl3::trie<T>` in include/trie.h: insertion,
    exact lookup, prefix completion and enumeration, each a recursive descent
    over the immutable `Radix.Node` tree. Insertion returns the node that the
    parent installs in the slot it descended through, in place of the
    source's re-parenting through the `parent` field. */
module RadixTrie {
  import opened Strings
  import opened Radix

  /** The trie owns one plain root branch, kept as its children map: the root
      is never a value-branch and never a leaf. */
  datatype Trie<V> = Trie(root: map<char, Node<V>>)

  function Empty<V>(): Trie<V>
  {
    Trie(map[])
  }

  /** The keys stored in the trie and their values, as `get_words` lists them
      and `value_at` reports them. */
  ghost function Contents<V>(t: Trie<V>): map<string, V>
  {
    Words(Branch(t.root))
  }

  /** Every node below the root keeps the shape `Radix.Valid` describes. */
  ghost predicate Valid<V>(t: Trie<V>)
  {
    forall c | c in t.root :: Radix.Valid(t.root[c])
  }

  /** A fresh trie is valid and stores nothing. */
  lemma EmptyHoldsNothing<V>()
    ensures Contents(Empty<V>()) == map[]
    ensures Valid(Empty<V>())
  {
    var n: Node<V> := Branch(map[]);
    WordsAre(n, map[]);
  }

  /** The empty key is never stored, since the root is a plain branch. */
  lemma EmptyKeyAbsent<V>(t: Trie<V>)
    ensures [] !in Contents(t)
  {
    WordsAt(Branch(t.root), []);
  }

  /** Every child of the root of a valid trie leads to a stored key that
      starts with the child's character. */
  lemma ChildHasKey<V>(t: Trie<V>, c: char)
    requires Valid(t) && c in t.root
    ensures exists w | w in Contents(t) :: w != [] && w[0] == c
  {
    ValidNotEmpty(t.root[c]);
    var k :| k in Words(t.root[c]);
    WordsAt(t.root[c], k);
    assert ([c] + k)[1..] == k;
    WordsAt(Branch(t.root), [c] + k);
  }

  /** Descending through the child for rest[0], one word at a time: the new
      child x holds what the old child held (if any) and rest[1..], so the
      node gains rest and keeps every other word and value. */
  lemma DescendAt<V>(n: Node<V>, rest: string, value: V, x: Node<V>, w: string)
    requires !n.Leaf? && rest != [] && !Has(n, rest)
    requires forall u :: Has(x, u) <==> (rest[0] in n.children && Has(n.children[rest[0]], u)) || u == rest[1..]
    requires forall u | Has(x, u) :: Get(x, u) == if u == rest[1..] then value else Get(n.children[rest[0]], u)
    ensures var m := n.(children := n.children[rest[0] := x]);
      && (Has(m, w) <==> Has(n, w) || w == rest)
      && (Has(m, w) ==> Get(m, w) == if w == rest then value else Get(n, w))
  {
    if w != [] && w[0] == rest[0] {
      if w[1..] == rest[1..] {
        assert w == [w[0]] + w[1..];
        assert rest == [rest[0]] + rest[1..];
      }
    } else {
      assert w != rest;
    }
  }

  /** The node n after its child for rest[0] is replaced by x, where x is
      the old child with rest[1..] inserted (or a fresh leaf for it). When n
      already stores rest, x is the old child and nothing changes. */
  function Descend<V>(n: Node<V>, rest: string, value: V, x: Node<V>): (m: Node<V>)
    requires !n.Leaf? && rest != []
    requires rest[0] in n.children && Has(n.children[rest[0]], rest[1..]) ==> x == n.children[rest[0]]
    requires !Has(n, rest) ==> forall u :: Has(x, u) <==> (rest[0] in n.children && Has(n.children[rest[0]], u)) || u == rest[1..]
    requires !Has(n, rest) ==> forall u | Has(x, u) :: Get(x, u) == if u == rest[1..] then value else Get(n.children[rest[0]], u)
    ensures Has(n, rest) ==> m == n
    ensures !Has(n, rest) ==> forall w :: Has(m, w) <==> Has(n, w) || w == rest
    ensures !Has(n, rest) ==> forall w | Has(m, w) :: Get(m, w) == if w == rest then value else Get(n, w)
  {
    var m := n.(children := n.children[rest[0] := x]);
    assert Has(n, rest) ==> m == n by {
      if Has(n, rest) {
        assert n.children[rest[0] := x] == n.children;
      }
    }
    assert !Has(n, rest) ==> forall w :: ((Has(m, w) <==> Has(n, w) || w == rest)
      && (Has(m, w) ==> Get(m, w) == if w == rest then value else Get(n, w))) by {
      if !Has(n, rest) {
        forall w ensures (Has(m, w) <==> Has(n, w) || w == rest)
          && (Has(m, w) ==> Get(m, w) == if w == rest then value else Get(n, w))
        {
          DescendAt(n, rest, value, x, w);
        }
      }
    }
    m
  }

  /** The `insert_visitor` (include/trie.h:652-716) applied to node n with the
      unconsumed remainder `rest` of the key; the result is the node the
      parent keeps in n's slot. A remainder n already stores leaves n as it
      is, old value included; any other remainder is added with `value` and
      every other word keeps its value. */
  function InsertAt<V>(n: Node<V>, rest: string, value: V): (r: Node<V>)
    ensures Has(n, rest) ==> r == n
    ensures !Has(n, rest) ==> forall w :: Has(r, w) <==> Has(n, w) || w == rest
    ensures !Has(n, rest) ==> forall w | Has(r, w) :: Get(r, w) == if w == rest then value else Get(n, w)
    ensures Radix.Valid(n) ==> Radix.Valid(r)
    decreases n
  {
    match n
    case Branch(ch) =>
      if rest == [] then
        // the branch is gutted into a value-branch over the same children
        ValueBranch(ch, value)
      else if rest[0] !in ch then
        // a fresh leaf for the rest of the key
        Descend(n, rest, value, MakeLeaf(rest[1..], value))
      else
        Descend(n, rest, value, InsertAt(ch[rest[0]], rest[1..], value))
    case ValueBranch(ch, _) =>
      if rest == [] then
        // the key is already stored here: nothing changes
        n
      else if rest[0] !in ch then
        Descend(n, rest, value, MakeLeaf(rest[1..], value))
      else
        Descend(n, rest, value, InsertAt(ch[rest[0]], rest[1..], value))
    case Leaf(data, v) =>
      match BreakupLeaf(data, v, rest, value)
      case None => n
      case Some(split) => split
  }

  /** `trie::insert` (include/trie.h:636-720): the empty key is ignored, a
      key already stored keeps its old value and leaves the trie unchanged,
      and any other key is added with `value` while every other key keeps
      its value. */
  function Insert<V>(t: Trie<V>, key: string, value: V): (r: Trie<V>)
    ensures key == [] || key in Contents(t) ==> r == t
    ensures key != [] && key !in Contents(t) ==> Contents(r) == Contents(t)[key := value]
    ensures Valid(t) ==> Valid(r)
  {
    if key == [] then t
    else
      var root := Branch(t.root);
      WordsAt(root, key);
      var x := if key[0] !in t.root then MakeLeaf(key[1..], value) else InsertAt(t.root[key[0]], key[1..], value);
      var m := Descend(root, key, value, x);
      var r := Trie(m.children);
      assert key !in Contents(t) ==> Contents(r) == Contents(t)[key := value] by {
        if key !in Contents(t) {
          forall w ensures Has(m, w) <==> w in Contents(t)[key := value] {
            WordsAt(root, w);
          }
          forall w | w in Contents(t)[key := value] ensures Get(m, w) == Contents(t)[key := value][w] {
            WordsAt(root, w);
          }
          WordsAre(m, Contents(t)[key := value]);
        }
      }
      r
  }

  /** The `lookup_visitor` of `lookup_node_` (include/trie.h:846-894): the
      value-branch or leaf at which `rest` ends below n, if n stores it. A
      plain branch reached with the input exhausted is a miss, and a leaf
      matches only a remainder equal to its residue in length and content. */
  function Lookup<V>(n: Node<V>, rest: string): (r: Option<Node<V>>)
    ensures r.Some? <==> Has(n, rest)
    ensures r.Some? ==> !r.value.Branch? && r.value.value == Get(n, rest)
    decreases n
  {
    match n
    case Branch(ch) =>
      if rest == [] then None
      else if rest[0] !in ch then None
      else Lookup(ch[rest[0]], rest[1..])
    case ValueBranch(ch, _) =>
      if rest == [] then Some(n)
      else if rest[0] !in ch then None
      else Lookup(ch[rest[0]], rest[1..])
    case Leaf(data, _) =>
      // equal lengths, then equal characters
      if |data| == |rest| && data == rest then Some(n) else None
  }

  /** `lookup_node_` (include/trie.h:841-899): the empty key finds nothing;
      any other key finds the node holding its value exactly when the trie
      stores it. */
  function LookupNode<V>(t: Trie<V>, key: string): (r: Option<Node<V>>)
    ensures r.Some? <==> key in Contents(t)
    ensures r.Some? ==> !r.value.Branch? && r.value.value == Contents(t)[key]
  {
    WordsAt(Branch(t.root), key);
    if key == [] then None
    else Lookup(Branch(t.root), key)
  }

  /** `trie::exists` (include/trie.h:722-726). */
  function Exists<V>(t: Trie<V>, key: string): (found: bool)
    ensures found <==> key in Contents(t)
  {
    LookupNode(t, key).Some?
  }

  /** `trie::value_at` (include/trie.h:728-757): `current` is the caller's
      out-parameter, returned untouched when the key is not stored. */
  function ValueAt<V>(t: Trie<V>, key: string, current: V): (r: (bool, V))
    ensures r.0 <==> key in Contents(t)
    ensures r.0 ==> r.1 == Contents(t)[key]
    ensures !r.0 ==> r.1 == current
  {
    match LookupNode(t, key)
    case None => (false, current)
    case Some(node) =>
      match node
      case Branch(_) => (false, current)
      case ValueBranch(_, v) => (true, v)
      case Leaf(_, v) => (true, v)
  }

  /** Inserting a new key makes it found with its value, and every other key
      is found, with the same value, exactly when it was before. */
  lemma InsertThenLookup<V>(t: Trie<V>, key: string, value: V, other: string, current: V)
    requires key != [] && !Exists(t, key)
    ensures Exists(Insert(t, key, value), key)
    ensures ValueAt(Insert(t, key, value), key, current) == (true, value)
    ensures other != key ==> ValueAt(Insert(t, key, value), other, current) == ValueAt(t, other, current)
  {
  }

  /** Inserting a key already stored changes nothing, so its old value
      stays. */
  lemma InsertDuplicate<V>(t: Trie<V>, key: string, value: V, current: V)
    requires Exists(t, key)
    ensures Insert(t, key, value) == t
    ensures ValueAt(Insert(t, key, value), key, current) == ValueAt(t, key, current)
  {
  }

  /** The `lookup_prefix_visitor` of `lookup_node_prefix_`
      (include/trie.h:906-955): the node at which the prefix `rest` runs out
      below n, and how many of its characters the branch hops consumed
      (`prefix_end`). A leaf is a landing node when the rest of the prefix
      fits in its residue and agrees with it. */
  function PrefixLookup<V>(n: Node<V>, rest: string): (r: (Option<Node<V>>, nat))
    ensures r.1 <= |rest|
    ensures r.0.Some? && !r.0.value.Leaf? ==> r.1 == |rest|
    ensures r.0.Some? ==> Radix.Valid(n) ==> Radix.Valid(r.0.value)
    decreases n
  {
    match n
    case Branch(ch) =>
      if rest == [] then (Some(n), 0)
      else if rest[0] !in ch then (None, 0)
      else
        var (found, used) := PrefixLookup(ch[rest[0]], rest[1..]);
        (found, used + 1)
    case ValueBranch(ch, _) =>
      if rest == [] then (Some(n), 0)
      else if rest[0] !in ch then (None, 0)
      else
        var (found, used) := PrefixLookup(ch[rest[0]], rest[1..]);
        (found, used + 1)
    case Leaf(data, _) =>
      if |rest| <= |data| && rest == data[..|rest|] then (Some(n), 0) else (None, 0)
  }

  /** The words below n that extend `rest` are exactly the words of the node
      `PrefixLookup` lands on, spelled after the consumed characters; when
      it lands nowhere, no word below n extends `rest`. */
  lemma {:induction false} PrefixLookupAt<V>(n: Node<V>, rest: string, w: string)
    ensures var (found, used) := PrefixLookup(n, rest);
      found.Some? ==> ((Has(n, w) && rest <= w) <==> (rest[..used] <= w && Has(found.value, w[used..])))
    ensures PrefixLookup(n, rest).0.None? ==> !(Has(n, w) && rest <= w)
    decreases n
  {
    var (found, used) := PrefixLookup(n, rest);
    match n
    case Leaf(data, _) =>
      assert rest[..0] == [] && w[0..] == w;
      if rest <= w && w == data && |rest| <= |data| {
        assert rest == data[..|rest|];
      }
      if found.Some? && w == data {
        assert rest <= w;
      }
    case _ =>
      if rest == [] {
        assert w[0..] == w;
      } else if w != [] && rest[0] in n.children {
        var child := n.children[rest[0]];
        PrefixLookupAt(child, rest[1..], w[1..]);
        PrefixTail(rest, w);
        var (_, used') := PrefixLookup(child, rest[1..]);
        assert used == used' + 1;
        if found.Some? {
          assert rest[..used] == [rest[0]] + rest[1..][..used'];
          PrefixTail(rest[..used], w);
          if used <= |w| { assert w[1..][used'..] == w[used..]; }
        }
      } else if w != [] {
        if rest <= w { assert w[0] == rest[0]; }
      }
  }

  /** The `prefix_match_visitor` (include/trie.h:773-794) from the landing
      node: follow the least child character of each plain branch until a
      value-branch or a leaf. The word it spells is a stored word. */
  function Complete<V>(n: Node<V>): (w: string)
    requires Radix.Valid(n)
    ensures Has(n, w)
    decreases n
  {
    match n
    case Branch(ch) =>
      var c := Least(ch.Keys);
      var rest := Complete(ch[c]);
      assert ([c] + rest)[1..] == rest;
      [c] + rest
    case ValueBranch(_, _) => []
    case Leaf(data, _) => data
  }

  /** The word `Complete` spells is the lexicographically least stored word. */
  lemma {:induction false} CompleteIsLeast<V>(n: Node<V>, k: string)
    requires Radix.Valid(n) && Has(n, k)
    ensures LexLeq(Complete(n), k)
    decreases n
  {
    match n
    case Branch(ch) =>
      var c := Least(ch.Keys);
      if k[0] == c {
        CompleteIsLeast(ch[c], k[1..]);
        assert ([c] + Complete(ch[c]))[1..] == Complete(ch[c]);
      }
    case ValueBranch(_, _) =>
    case Leaf(data, _) =>
      PrefixLexLeq(data, k);
  }

  /** `trie::prefix_match` (include/trie.h:759-799): on success the answer is
      the consumed part of the prefix followed by `Complete`, a stored key
      that extends the prefix; on failure the caller's `matching` is left as
      it was. */
  function PrefixMatch<V>(t: Trie<V>, prefix: string, matching: string): (r: (bool, string))
    requires Valid(t)
    ensures !r.0 ==> r.1 == matching
    ensures r.0 ==> r.1 in Contents(t) && prefix <= r.1
  {
    if prefix == [] then (false, matching)
    else
      var root := Branch(t.root);
      match PrefixLookup(root, prefix)
      case (None, _) => (false, matching)
      case (Some(node), used) =>
        assert Radix.Valid(node) by {
          assert prefix[0] in t.root;
        }
        var w := prefix[..used] + Complete(node);
        PrefixLookupAt(root, prefix, w);
        assert w[used..] == Complete(node);
        WordsAt(root, w);
        (true, w)
  }

  /** `prefix_match` succeeds exactly when the prefix is non-empty and some
      stored key extends it, and then it answers the lexicographically least
      such key: below a plain branch it always takes the smallest child
      character. */
  lemma PrefixMatchLeast<V>(t: Trie<V>, prefix: string, matching: string, k: string)
    requires Valid(t)
    ensures var r := PrefixMatch(t, prefix, matching);
      && (r.0 <==> prefix != [] && exists key | key in Contents(t) :: prefix <= key)
      && (r.0 && k in Contents(t) && prefix <= k ==> LexLeq(r.1, k))
  {
    var root := Branch(t.root);
    var r := PrefixMatch(t, prefix, matching);
    if prefix != [] {
      var (found, used) := PrefixLookup(root, prefix);
      if found.None? {
        forall key | key in Contents(t) ensures !(prefix <= key) {
          WordsAt(root, key);
          PrefixLookupAt(root, prefix, key);
        }
      } else {
        assert r.0;
        if k in Contents(t) && prefix <= k {
          WordsAt(root, k);
          PrefixLookupAt(root, prefix, k);
          var node := found.value;
          assert Radix.Valid(node) by {
            assert prefix[0] in t.root;
          }
          CompleteIsLeast(node, k[used..]);
          LexLeqPrepend(prefix[..used], Complete(node), k[used..]);
          assert k == prefix[..used] + k[used..] by {
            assert k[..used] == prefix[..used];
          }
        }
      }
    }
  }

  /** A stored key is its own prefix match: no stored key that extends it
      sorts before it. */
  lemma PrefixMatchStored<V>(t: Trie<V>, key: string, matching: string)
    requires Valid(t) && key in Contents(t)
    ensures PrefixMatch(t, key, matching) == (key != [], if key != [] then key else matching)
  {
    PrefixMatchLeast(t, key, matching, key);
    var r := PrefixMatch(t, key, matching);
    if r.0 {
      PrefixLexLeq(key, r.1);
      LexLeqAntisymmetric(key, r.1);
    }
  }

  /** The `print_visitor` of `get_words` (include/trie.h:801-838) at node n,
      reached along `path`: a value-branch emits its path before its
      children, a leaf emits its path followed by its residue, and children
      are visited in the ascending order of their characters. */
  function Enumerate<V>(n: Node<V>, path: string): (r: seq<string>)
    ensures forall i | 0 <= i < |r| :: path <= r[i]
    decreases n, 1
  {
    match n
    case Leaf(data, _) => [path + data]
    case Branch(ch) => EnumerateChildren(n, Ascending(ch.Keys), path)
    case ValueBranch(ch, _) => [path] + EnumerateChildren(n, Ascending(ch.Keys), path)
  }

  /** The loop over `children` in the visitor: the children of n under the
      characters cs, in that order. */
  function EnumerateChildren<V>(n: Node<V>, cs: seq<char>, path: string): (r: seq<string>)
    requires !n.Leaf?
    requires forall i | 0 <= i < |cs| :: cs[i] in n.children
    ensures forall i | 0 <= i < |r| :: |path| < |r[i]| && path <= r[i] && r[i][|path|] in cs
    decreases n, 0, |cs|
  {
    if cs == [] then []
    else Enumerate(n.children[cs[0]], path + [cs[0]]) + EnumerateChildren(n, cs[1..], path)
  }

  /** Enumeration below n along `path` emits exactly the words n stores,
      each spelled after `path`. */
  lemma {:induction false} EnumerateAt<V>(n: Node<V>, path: string, w: string)
    ensures w in Enumerate(n, path) <==> path <= w && Has(n, w[|path|..])
    decreases n, 1
  {
    match n
    case Leaf(data, _) =>
      PrefixThen(path, w, data);
    case _ =>
      var cs := Ascending(n.children.Keys);
      EnumerateChildrenAt(n, cs, path, w);
      if path <= w {
        var u := w[|path|..];
        if u != [] {
          assert u[0] == w[|path|] && u[1..] == w[|path| + 1..];
        } else {
          assert w == path by { PrefixThen(path, w, []); }
        }
      }
      if n.ValueBranch? {
        assert w == path ==> w[|path|..] == [];
      }
  }

  lemma {:induction false} EnumerateChildrenAt<V>(n: Node<V>, cs: seq<char>, path: string, w: string)
    requires !n.Leaf?
    requires forall i | 0 <= i < |cs| :: cs[i] in n.children
    ensures w in EnumerateChildren(n, cs, path) <==>
      |path| < |w| && path <= w && w[|path|] in cs && Has(n.children[w[|path|]], w[|path| + 1..])
    decreases n, 0, |cs|
  {
    if cs != [] {
      var c := cs[0];
      EnumerateAt(n.children[c], path + [c], w);
      EnumerateChildrenAt(n, cs[1..], path, w);
      ExtendedPrefix(path, c, w);
    }
  }

  /** A value-branch emits its path before the longer words below it, and
      the words of a child come before those of every greater character:
      the enumeration is in strictly ascending order. */
  lemma {:induction false} EnumerateSorted<V>(n: Node<V>, path: string)
    ensures Sorted(Enumerate(n, path))
    decreases n, 1
  {
    match n
    case Leaf(_, _) =>
    case Branch(ch) =>
      EnumerateChildrenSorted(n, Ascending(ch.Keys), path);
    case ValueBranch(ch, _) =>
      var cs := Ascending(ch.Keys);
      EnumerateChildrenSorted(n, cs, path);
      var below := EnumerateChildren(n, cs, path);
      forall i | 0 <= i < |below| ensures LexLeq(path, below[i]) && path != below[i] {
        EnumerateChildrenAt(n, cs, path, below[i]);
        PrefixLexLeq(path, below[i]);
      }
      ConsSorted(path, below);
  }

  lemma {:induction false} EnumerateChildrenSorted<V>(n: Node<V>, cs: seq<char>, path: string)
    requires !n.Leaf?
    requires forall i | 0 <= i < |cs| :: cs[i] in n.children
    requires forall i, j | 0 <= i < j < |cs| :: cs[i] < cs[j]
    ensures Sorted(EnumerateChildren(n, cs, path))
    decreases n, 0, |cs|
  {
    if cs != [] {
      var c := cs[0];
      var a := Enumerate(n.children[c], path + [c]);
      var b := EnumerateChildren(n, cs[1..], path);
      EnumerateSorted(n.children[c], path + [c]);
      EnumerateChildrenSorted(n, cs[1..], path);
      forall i, j | 0 <= i < |a| && 0 <= j < |b| ensures LexLeq(a[i], b[j]) && a[i] != b[j] {
        EnumerateAt(n.children[c], path + [c], a[i]);
        EnumerateChildrenAt(n, cs[1..], path, b[j]);
        ExtendedPrefix(path, c, a[i]);
        ForkLexLeq(path, a[i], b[j]);
      }
      AppendSorted(a, b);
    }
  }

  /** `trie::get_words` (include/trie.h:801-838): every stored key exactly
      once, in ascending order, so the list is as long as the number of
      distinct keys inserted. */
  function GetWords<V>(t: Trie<V>): (r: seq<string>)
    ensures forall w :: w in r <==> w in Contents(t)
    ensures Sorted(r) && Distinct(r)
    ensures |r| == |Contents(t)|
  {
    var root := Branch(t.root);
    var empty: string := [];
    var r := Enumerate(root, empty);
    forall w ensures w in r <==> w in Contents(t) {
      EnumerateAt(root, empty, w);
      WordsAt(root, w);
      assert w[0..] == w;
    }
    EnumerateSorted(root, empty);
    SortedDistinct(r);
    ListingCard(r, Contents(t).Keys);
    r
  }
}
