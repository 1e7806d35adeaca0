/** Character and string helpers shared by the three tries: the order in which
    `std::map<char, …>` visits children, the order in which `std::string`
    values compare, the common-prefix scan used when a leaf is split, and the
    duplicate-free lists that `get_words` returns. */
module Strings {

  /** The least character of a non-empty set: the key a `std::map` visits first. */
  function Least(s: set<char>): (m: char)
    requires s != {}
    ensures m in s
    ensures forall x | x in s :: m <= x
  {
    LeastExists(s);
    var m :| m in s && forall x | x in s :: m <= x; m
  }

  lemma {:induction false} LeastExists(s: set<char>)
    requires s != {}
    ensures exists m :: m in s && forall x | x in s :: m <= x
    decreases |s|
  {
    var y :| y in s;
    if s == {y} {
      assert forall x | x in s :: y <= x;
    } else {
      LeastExists(s - {y});
      var rest :| rest in s - {y} && forall x | x in s - {y} :: rest <= x;
      var m := if y < rest then y else rest;
      forall x | x in s ensures m <= x {
        if x != y { assert x in s - {y}; }
      }
      assert m in s;
    }
  }

  /** The characters of s in ascending order: the order in which a
      `std::map<char, …>` iterates its keys. */
  function Ascending(s: set<char>): (r: seq<char>)
    ensures forall c :: c in r <==> c in s
    ensures forall i, j | 0 <= i < j < |r| :: r[i] < r[j]
    decreases |s|
  {
    if s == {} then []
    else
      var m := Least(s);
      [m] + Ascending(s - {m})
  }

  /** Lexicographic order on strings, as `std::string` compares them: a proper
      prefix sorts before every extension of it. */
  predicate LexLeq(a: string, b: string)
    decreases |a|
  {
    a == [] || (b != [] && (a[0] < b[0] || (a[0] == b[0] && LexLeq(a[1..], b[1..]))))
  }

  /** A prefix sorts no later than the string it begins. */
  lemma {:induction false} PrefixLexLeq(a: string, b: string)
    requires a <= b
    ensures LexLeq(a, b)
    decreases |a|
  {
    if a != [] {
      assert a[0] == b[0];
      assert a[1..] <= b[1..];
      PrefixLexLeq(a[1..], b[1..]);
    }
  }

  /** Prepending a common string keeps the order. */
  lemma {:induction false} LexLeqPrepend(p: string, a: string, b: string)
    requires LexLeq(a, b)
    ensures LexLeq(p + a, p + b)
    decreases |p|
  {
    if p != [] {
      LexLeqPrepend(p[1..], a, b);
      assert (p + a)[0] == p[0] == (p + b)[0];
      assert (p + a)[1..] == p[1..] + a;
      assert (p + b)[1..] == p[1..] + b;
      assert LexLeq((p + a)[1..], (p + b)[1..]);
    } else {
      assert p + a == a && p + b == b;
    }
  }

  lemma {:induction false} LexLeqAntisymmetric(a: string, b: string)
    requires LexLeq(a, b) && LexLeq(b, a)
    ensures a == b
    decreases |a|
  {
    if a != [] && b != [] {
      LexLeqAntisymmetric(a[1..], b[1..]);
      assert a == [a[0]] + a[1..];
      assert b == [b[0]] + b[1..];
    }
  }

  lemma {:induction false} LexLeqTransitive(a: string, b: string, c: string)
    requires LexLeq(a, b) && LexLeq(b, c)
    ensures LexLeq(a, c)
    decreases |a|
  {
    if a != [] && b != [] && c != [] && a[0] == b[0] == c[0] {
      LexLeqTransitive(a[1..], b[1..], c[1..]);
    }
  }

  lemma {:induction false} LexLeqTotal(a: string, b: string)
    ensures LexLeq(a, b) || LexLeq(b, a)
    decreases |a|
  {
    if a != [] && b != [] && a[0] == b[0] {
      LexLeqTotal(a[1..], b[1..]);
    }
  }

  /** Length of the longest common prefix of a and b: where the equality scan
      that opens `breakup_leaf` stops. */
  function Mismatch(a: string, b: string): (i: nat)
    ensures i <= |a| && i <= |b|
    ensures a[..i] == b[..i]
    ensures i < |a| && i < |b| ==> a[i] != b[i]
    decreases |a|
  {
    if a == [] || b == [] || a[0] != b[0] then 0
    else
      var j := Mismatch(a[1..], b[1..]);
      assert a[..j + 1] == [a[0]] + a[1..][..j];
      assert b[..j + 1] == [b[0]] + b[1..][..j];
      j + 1
  }

  /** `p` begins `w` and is followed there by `t` exactly when `w` is `p + t`. */
  lemma PrefixThen(p: string, w: string, t: string)
    ensures (p <= w && w[|p|..] == t) <==> w == p + t
  {
    if w == p + t {
      assert w[..|p|] == p;
      assert w[|p|..] == t;
    }
    if p <= w && w[|p|..] == t {
      assert w == w[..|p|] + w[|p|..];
    }
  }

  /** A path extended by c prefixes w exactly when w continues the path
      with c; what follows is then the same suffix of w. */
  lemma ExtendedPrefix(path: string, c: char, w: string)
    ensures path + [c] <= w <==> |path| < |w| && path <= w && w[|path|] == c
    ensures path + [c] <= w ==> w[|path + [c]|..] == w[|path| + 1..]
  {
    var p := path + [c];
    if p <= w {
      assert w[|path|] == c;
      assert path <= w by { assert w[..|path|] == p[..|path|]; }
    }
    if |path| < |w| && path <= w && w[|path|] == c {
      assert w[..|p|] == w[..|path|] + [c];
    }
  }

  /** Dropping the first character of a non-empty prefix. */
  lemma PrefixTail(s: string, w: string)
    requires s != [] && w != []
    ensures s <= w <==> w[0] == s[0] && s[1..] <= w[1..]
    ensures s <= w ==> w[1..][|s| - 1..] == w[|s|..]
  {
    if s <= w {
      assert w[1..][..|s| - 1] == w[..|s|][1..];
    }
    if w[0] == s[0] && s[1..] <= w[1..] {
      assert w[..|s|] == [w[0]] + w[1..][..|s| - 1];
    }
  }

  /** Each sequence element occurs once. */
  ghost predicate Distinct<T>(s: seq<T>)
  {
    forall i, j | 0 <= i < j < |s| :: s[i] != s[j]
  }

  lemma ConsDistinct<T>(x: T, s: seq<T>)
    requires Distinct(s) && forall i | 0 <= i < |s| :: s[i] != x
    ensures Distinct([x] + s)
  {
  }

  lemma AppendDistinct<T>(a: seq<T>, b: seq<T>)
    requires Distinct(a) && Distinct(b)
    requires forall i, j | 0 <= i < |a| && 0 <= j < |b| :: a[i] != b[j]
    ensures Distinct(a + b)
  {
    forall i, j | 0 <= i < j < |a + b| ensures (a + b)[i] != (a + b)[j] {
      if j < |a| {
      } else if i >= |a| {
        assert (a + b)[i] == b[i - |a|] && (a + b)[j] == b[j - |a|];
      } else {
        assert (a + b)[j] == b[j - |a|];
      }
    }
  }

  /** A sequence without repetitions is as long as the set of its elements. */
  lemma {:induction false} DistinctCard<T>(s: seq<T>)
    requires Distinct(s)
    ensures |set x | x in s| == |s|
  {
    if s != [] {
      var tail := s[1..];
      assert Distinct(tail);
      DistinctCard(tail);
      assert (set x | x in s) == {s[0]} + (set x | x in tail);
      forall k | 0 <= k < |tail| ensures tail[k] != s[0] {
        assert tail[k] == s[k + 1];
      }
    }
  }

  /** Strictly ascending in the order of `LexLeq`: the order of `std::map`
      iteration over a trie. */
  ghost predicate Sorted(s: seq<string>)
  {
    forall i, j | 0 <= i < j < |s| :: LexLeq(s[i], s[j]) && s[i] != s[j]
  }

  /** Two strings that agree up to position |p| and differ there are ordered
      by their characters at |p|. */
  lemma {:induction false} ForkLexLeq(p: string, x: string, y: string)
    requires p <= x && p <= y && |p| < |x| && |p| < |y| && x[|p|] < y[|p|]
    ensures LexLeq(x, y) && x != y
    decreases |p|
  {
    if p != [] {
      assert x[1..][|p| - 1] == x[|p|] && y[1..][|p| - 1] == y[|p|];
      assert p[1..] <= x[1..] && p[1..] <= y[1..];
      ForkLexLeq(p[1..], x[1..], y[1..]);
    }
  }

  lemma ConsSorted(x: string, s: seq<string>)
    requires Sorted(s)
    requires forall i | 0 <= i < |s| :: LexLeq(x, s[i]) && x != s[i]
    ensures Sorted([x] + s)
  {
    forall i, j | 0 <= i < j < |[x] + s| ensures LexLeq(([x] + s)[i], ([x] + s)[j]) && ([x] + s)[i] != ([x] + s)[j] {
      assert ([x] + s)[j] == s[j - 1];
      if i > 0 { assert ([x] + s)[i] == s[i - 1]; }
    }
  }

  lemma AppendSorted(a: seq<string>, b: seq<string>)
    requires Sorted(a) && Sorted(b)
    requires forall i, j | 0 <= i < |a| && 0 <= j < |b| :: LexLeq(a[i], b[j]) && a[i] != b[j]
    ensures Sorted(a + b)
  {
    forall i, j | 0 <= i < j < |a + b| ensures LexLeq((a + b)[i], (a + b)[j]) && (a + b)[i] != (a + b)[j] {
      if j < |a| {
      } else if i >= |a| {
        assert (a + b)[i] == b[i - |a|] && (a + b)[j] == b[j - |a|];
      } else {
        assert (a + b)[j] == b[j - |a|];
      }
    }
  }

  /** A list of distinct elements is as long as the set it lists. */
  lemma ListingCard<T>(s: seq<T>, members: set<T>)
    requires Distinct(s)
    requires forall x :: x in s <==> x in members
    ensures |s| == |members|
  {
    DistinctCard(s);
    assert (set x | x in s) == members;
  }

  /** A list in strictly ascending order has no repetitions. */
  lemma SortedDistinct(s: seq<string>)
    requires Sorted(s)
    ensures Distinct(s)
  {
  }

  /** A set of strings has one strictly ascending listing. */
  lemma {:induction false} SortedUnique(a: seq<string>, b: seq<string>)
    requires Sorted(a) && Sorted(b)
    requires forall w :: w in a <==> w in b
    ensures a == b
    decreases |a|
  {
    assert a != [] ==> a[0] in b;
    assert b != [] ==> b[0] in a;
    if a != [] {
      assert a[0] in a && b[0] in b;
      var i :| 0 <= i < |b| && b[i] == a[0];
      var j :| 0 <= j < |a| && a[j] == b[0];
      if i > 0 && j > 0 {
        LexLeqAntisymmetric(a[0], a[j]);
      }
      assert a[0] == b[0];
      forall w ensures w in a[1..] <==> w in b[1..] {
        if w in a[1..] {
          var k :| 0 <= k < |a[1..]| && a[1..][k] == w;
          assert a[k + 1] == w && w != a[0];
          assert w in b;
          var m :| 0 <= m < |b| && b[m] == w;
          assert m > 0 && b[1..][m - 1] == w;
        }
        if w in b[1..] {
          var k :| 0 <= k < |b[1..]| && b[1..][k] == w;
          assert b[k + 1] == w && w != b[0];
          assert w in a;
          var m :| 0 <= m < |a| && a[m] == w;
          assert m > 0 && a[1..][m - 1] == w;
        }
      }
      SortedUnique(a[1..], b[1..]);
      assert a == [a[0]] + a[1..] && b == [b[0]] + b[1..];
    }
  }
}
