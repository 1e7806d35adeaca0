/** The node kinds of the compressed trie (`impl3::detail` in include/trie.h)
    and the helpers that build the subtree replacing a split leaf.

    A node never stores the character that leads to it: that character is the
    key of the parent's children map. Everything a node stores is therefore
    spelled relative to its slot, and so are its abstractions: `Keys` and
    `Words` list what `get_words` would emit below the node, while `Has` and
    `Get` answer for one word at a time. `KeysAt` and `WordsAt` connect the
    two views. */
module Radix {
  import opened Strings

  datatype Node<V> =
    | Branch(children: map<char, Node<V>>)
    | ValueBranch(children: map<char, Node<V>>, value: V)
    | Leaf(data: string, value: V)

  datatype Option<T> = None | Some(value: T)

  /** The words stored at or below a node, as the enumeration of `get_words`
      produces them: a value-branch contributes the empty remainder, a leaf
      its residue, and every child contributes its words behind its own
      character. */
  ghost function Keys<V>(n: Node<V>): set<string>
    decreases n
  {
    match n
    case Leaf(data, _) => {data}
    case Branch(ch) => set c, k | c in ch && k in Keys(ch[c]) :: [c] + k
    case ValueBranch(ch, _) => {[]} + set c, k | c in ch && k in Keys(ch[c]) :: [c] + k
  }

  /** Whether the word w (spelled from n's slot) is stored below n, following
      w one character per branch hop. */
  ghost predicate Has<V>(n: Node<V>, w: string)
    decreases n
  {
    match n
    case Leaf(data, _) => w == data
    case Branch(ch) => w != [] && w[0] in ch && Has(ch[w[0]], w[1..])
    case ValueBranch(ch, _) => w == [] || (w[0] in ch && Has(ch[w[0]], w[1..]))
  }

  /** The value stored for a word that n holds. */
  ghost function Get<V>(n: Node<V>, w: string): V
    requires Has(n, w)
    decreases n
  {
    match n
    case Leaf(_, v) => v
    case Branch(ch) => Get(ch[w[0]], w[1..])
    case ValueBranch(ch, v) => if w == [] then v else Get(ch[w[0]], w[1..])
  }

  /** The enumeration and the descent agree on every word. */
  lemma {:induction false} KeysAt<V>(n: Node<V>, w: string)
    ensures w in Keys(n) <==> Has(n, w)
    decreases n
  {
    match n
    case Leaf(_, _) =>
    case _ =>
      var ch := n.children;
      if w != [] && w[0] in ch {
        KeysAt(ch[w[0]], w[1..]);
        if Has(ch[w[0]], w[1..]) {
          assert w == [w[0]] + w[1..];
        }
      }
      if w in Keys(n) && w != [] {
        var c, k :| c in ch && k in Keys(ch[c]) && w == [c] + k;
        assert w[0] == c && w[1..] == k;
        KeysAt(ch[c], k);
      }
  }

  /** The words below n with their values: the map `get_words` enumerates,
      paired with what `value_at` would report. */
  ghost function Words<V>(n: Node<V>): map<string, V>
  {
    assert forall w | w in Keys(n) :: Has(n, w) by {
      forall w | w in Keys(n) ensures Has(n, w) { KeysAt(n, w); }
    }
    map w | w in Keys(n) :: Get(n, w)
  }

  lemma WordsAt<V>(n: Node<V>, w: string)
    ensures w in Words(n) <==> Has(n, w)
    ensures w in Words(n) ==> Words(n)[w] == Get(n, w)
  {
    KeysAt(n, w);
  }

  /** A node whose words are, one by one, those of m has m as its words. */
  lemma WordsAre<V>(n: Node<V>, m: map<string, V>)
    requires forall w :: Has(n, w) <==> w in m
    requires forall w | w in m :: Get(n, w) == m[w]
    ensures Words(n) == m
  {
    forall w ensures w in Words(n) <==> w in m
      ensures w in m ==> Words(n)[w] == m[w]
    {
      WordsAt(n, w);
    }
  }

  /** The shape every node built by insertion keeps: a plain branch below the
      root has at least one child. Descending to the first child of a plain
      branch, as prefix completion does, relies on it. */
  ghost predicate Valid<V>(n: Node<V>)
    decreases n
  {
    match n
    case Leaf(_, _) => true
    case Branch(ch) => ch != map[] && forall c | c in ch :: Valid(ch[c])
    case ValueBranch(ch, _) => forall c | c in ch :: Valid(ch[c])
  }

  /** A valid node stores at least one word. */
  lemma {:induction false} ValidNotEmpty<V>(n: Node<V>)
    requires Valid(n)
    ensures Words(n) != map[]
    decreases n
  {
    match n
    case Leaf(d, _) =>
      WordsAt(n, d);
    case ValueBranch(_, _) =>
      WordsAt(n, []);
    case Branch(ch) =>
      var c :| c in ch;
      ValidNotEmpty(ch[c]);
      var k :| k in Words(ch[c]);
      WordsAt(ch[c], k);
      assert ([c] + k)[1..] == k;
      WordsAt(n, [c] + k);
  }

  /** A chain of single-child plain branches spelling s, ending in bottom. */
  function Chain<V>(s: string, bottom: Node<V>): (r: Node<V>)
    ensures Valid(r) <==> Valid(bottom)
    decreases |s|
  {
    if s == [] then bottom
    else
      var ch := map[s[0] := Chain(s[1..], bottom)];
      assert s[0] in ch;
      Branch(ch)
  }

  /** A chain holds exactly the bottom's words, each spelled after s. */
  lemma {:induction false} ChainAt<V>(s: string, bottom: Node<V>, w: string)
    ensures Has(Chain(s, bottom), w) <==> s <= w && Has(bottom, w[|s|..])
    ensures Has(Chain(s, bottom), w) ==> Get(Chain(s, bottom), w) == Get(bottom, w[|s|..])
    decreases |s|
  {
    if s == [] {
      assert w[|s|..] == w;
    } else if w != [] {
      ChainAt(s[1..], bottom, w[1..]);
      PrefixTail(s, w);
    }
  }

  /** `build_branches`: plain branches for each character of s, whose bottom
      branch receives the children `below` that the caller attaches to it. The
      result holds exactly the words of the bottom branch, spelled after s. */
  function BuildBranches<V>(s: string, below: map<char, Node<V>>): (r: Node<V>)
    ensures forall w :: Has(r, w) <==> s <= w && Has(Branch(below), w[|s|..])
    ensures forall w | Has(r, w) :: Get(r, w) == Get(Branch(below), w[|s|..])
    ensures Valid(r) <==> Valid(Branch(below))
  {
    var r := Chain(s, Branch(below));
    forall w ensures Has(r, w) <==> s <= w && Has(Branch(below), w[|s|..])
      ensures Has(r, w) ==> Get(r, w) == Get(Branch(below), w[|s|..])
    {
      ChainAt(s, Branch(below), w);
    }
    r
  }

  /** `build_branches_to_value`: like `BuildBranches`, but the node reached
      after the last character of s is a value-branch carrying v, so s itself
      becomes a stored word; the words below it are spelled after s. */
  function BuildBranchesToValue<V>(s: string, v: V, below: map<char, Node<V>>): (r: Node<V>)
    ensures forall w :: Has(r, w) <==> s <= w && Has(ValueBranch(below, v), w[|s|..])
    ensures forall w | Has(r, w) :: Get(r, w) == Get(ValueBranch(below, v), w[|s|..])
    ensures Has(r, s) && Get(r, s) == v
    ensures Valid(r) <==> Valid(ValueBranch(below, v))
  {
    var r := Chain(s, ValueBranch(below, v));
    forall w ensures Has(r, w) <==> s <= w && Has(ValueBranch(below, v), w[|s|..])
      ensures Has(r, w) ==> Get(r, w) == Get(ValueBranch(below, v), w[|s|..])
    {
      ChainAt(s, ValueBranch(below, v), w);
    }
    assert s[|s|..] == [];
    r
  }

  /** `make_leaf`: a leaf storing exactly the remainder s with value v. */
  function MakeLeaf<V>(s: string, v: V): (r: Node<V>)
    ensures forall w :: Has(r, w) <==> w == s
    ensures Has(r, s) && Get(r, s) == v
    ensures Valid(r)
  {
    Leaf(s, v)
  }

  /** `breakup_leaf`: the subtree that replaces a leaf holding `data` (with
      value `leafValue`) when the remainder `rest` (with value `value`) is
      inserted at its slot; `None` (the source's `nullptr`) when `rest` is
      the leaf's own residue and nothing changes. The subtree holds exactly
      the two words, each with its own value. */
  function BreakupLeaf<V>(data: string, leafValue: V, rest: string, value: V): (r: Option<Node<V>>)
    ensures r.None? <==> data == rest
    ensures r.Some? ==> forall w :: Has(r.value, w) <==> w == data || w == rest
    ensures r.Some? ==> Get(r.value, data) == leafValue && Get(r.value, rest) == value
    ensures r.Some? ==> Valid(r.value) && !r.value.Leaf?
  {
    var i := Mismatch(data, rest);
    if i == |data| && i == |rest| then
      assert data == data[..i] == rest[..i] == rest;
      None
    else if i == |data| then
      // the residue is a proper prefix of the new remainder
      assert data == rest[..i];
      var r := BuildBranchesToValue(data, leafValue, map[rest[i] := MakeLeaf(rest[i + 1..], value)]);
      forall w ensures Has(r, w) <==> w == data || w == rest {
        ExtendedAt(data, leafValue, rest, value, r, w);
      }
      ExtendedAt(data, leafValue, rest, value, r, rest);
      Some(r)
    else if i == |rest| then
      // the new remainder is a proper prefix of the residue
      assert rest == data[..i];
      var r := BuildBranchesToValue(rest, value, map[data[i] := MakeLeaf(data[i + 1..], leafValue)]);
      forall w ensures Has(r, w) <==> w == data || w == rest {
        ExtendedAt(rest, value, data, leafValue, r, w);
      }
      ExtendedAt(rest, value, data, leafValue, r, data);
      Some(r)
    else
      // both continue and differ at position i
      var below := map[data[i] := MakeLeaf(data[i + 1..], leafValue), rest[i] := MakeLeaf(rest[i + 1..], value)];
      assert data[i] in below && Valid(Branch(below));
      var r := BuildBranches(data[..i], below);
      forall w ensures Has(r, w) <==> w == data || w == rest {
        ForkedAt(data, leafValue, rest, value, i, r, w);
      }
      ForkedAt(data, leafValue, rest, value, i, r, data);
      ForkedAt(data, leafValue, rest, value, i, r, rest);
      Some(r)
  }

  /** The first two splits of `breakup_leaf`, one word at a time: `short` is
      a proper prefix of `long`, and the chain spelling `short` ends in a
      value-branch over a leaf for the rest of `long`. */
  lemma ExtendedAt<V>(short: string, x: V, long: string, y: V, r: Node<V>, w: string)
    requires |short| < |long| && short == long[..|short|]
    requires r == BuildBranchesToValue(short, x, map[long[|short|] := MakeLeaf(long[|short| + 1..], y)])
    ensures Has(r, w) <==> w == short || w == long
    ensures w == long ==> Get(r, w) == y
  {
    var i := |short|;
    var tail := long[i..];
    assert tail == [long[i]] + long[i + 1..];
    assert long == short + tail;
    if short <= w {
      var u := w[i..];
      assert w == short + u;
      if u != [] {
        assert u == [u[0]] + u[1..];
      }
      assert u == [] <==> w == short;
      assert u == tail <==> w == long;
      var bottom := ValueBranch(map[long[i] := MakeLeaf(long[i + 1..], y)], x);
      assert Has(bottom, u) <==> u == [] || u == tail;
      if w == long {
        assert Get(bottom, tail) == y;
      }
    }
  }

  /** The third split of `breakup_leaf`, one word at a time: the chain
      spelling the common prefix ends in a branch over two leaves. */
  lemma ForkedAt<V>(a: string, x: V, b: string, y: V, i: nat, r: Node<V>, w: string)
    requires i < |a| && i < |b| && a[..i] == b[..i] && a[i] != b[i]
    requires r == BuildBranches(a[..i], map[a[i] := MakeLeaf(a[i + 1..], x), b[i] := MakeLeaf(b[i + 1..], y)])
    ensures Has(r, w) <==> w == a || w == b
    ensures w == a ==> Get(r, w) == x
    ensures w == b ==> Get(r, w) == y
  {
    var p := a[..i];
    var ta := a[i..];
    var tb := b[i..];
    assert ta == [a[i]] + a[i + 1..];
    assert tb == [b[i]] + b[i + 1..];
    assert a == p + ta;
    assert b == p + tb;
    if p <= w {
      var u := w[i..];
      assert w == p + u;
      if u != [] {
        assert u == [u[0]] + u[1..];
      }
      assert u == ta <==> w == a;
      assert u == tb <==> w == b;
      var bottom := Branch(map[a[i] := MakeLeaf(a[i + 1..], x), b[i] := MakeLeaf(b[i + 1..], y)]);
      assert Has(bottom, u) <==> u == ta || u == tb;
      assert Get(bottom, ta) == x;
      assert Get(bottom, tb) == y;
    }
  }

  /** The map view of `breakup_leaf`: the replacement subtree stores the old
      residue with the leaf's old value and the new remainder with the new
      value, and nothing else. */
  lemma BreakupLeafWords<V>(data: string, leafValue: V, rest: string, value: V)
    requires data != rest
    ensures BreakupLeaf(data, leafValue, rest, value).Some?
    ensures Words(BreakupLeaf(data, leafValue, rest, value).value) == map[data := leafValue, rest := value]
  {
    WordsAre(BreakupLeaf(data, leafValue, rest, value).value, map[data := leafValue, rest := value]);
  }
}
