# Three string tries, modelled and proved in Dafny

The header `include/trie.h` defines three in-memory tries of strings:

- `impl1::trie`: one node per character, with an `is_word` flag on each node;
- `impl2::trie`: a compressed trie whose branches carry an `is_word` flag;
- `impl3::trie<T>`: a compressed radix trie with three node kinds:
  - a plain branch;
  - a value-branch, which stores a `T`;
  - a leaf, which holds the rest of a key and a `T`.

Each trie supports `insert`, `exists`, `prefix_match` and `get_words`. `impl3` adds `value_at`.

This project models all three as immutable Dafny datatypes with pure operations. Each operation is proved against an abstraction:

- for `impl3`, the map from stored key to value;
- for `impl2` and `impl1`, the set of stored words.

Modules:

- `Strings` covers the orders involved:
  - the order in which `std::map<char, …>` visits keys (`Least`, `Ascending`);
  - the order in which `std::string` values compare (`LexLeq`);
  - sorted, duplicate-free lists.
- `Radix` holds the `impl3` node kinds and the `detail` helpers `build_branches`, `build_branches_to_value`, `make_leaf` and `breakup_leaf`.
  - `Has`/`Get` say which words a node stores and with what value. `Words` collects them into a `map<string, V>`.
  - `Valid` is the shape that insertion keeps: every plain branch below the root has a child. The assertion in `prefix_match` relies on this invariant.
- `RadixTrie` holds the `impl3::trie<T>` operations.
- `WordTrie` holds `impl2::trie`. `Lift` reads an `impl2` tree as an `impl3` tree whose values are all `()`.
  - Every `impl2` operation is proved to commute with `Lift`, or to agree with its `impl3` counterpart.
  - The exact differences are stated, for example how `prefix_match` writes into the caller's string.
- `NaiveTrie` holds `impl1::trie`. Its descent and its completion are written as loops (methods).
- `Oracle` fills all three tries with the same word list and proves two things:
  - they hold the same words (except that `impl1` also keeps the empty word);
  - their `get_words` lists are identical.
- `Scenarios` restates the literal checks of the `impl3` test case. It covers six words inserted with the values 1 to 6, followed by any list of further words. It also restates the `zz` miss of the `impl2` test case for the same six words.

## Model

| member | source | states |
|---|---|---|
| Strings.Least | include/trie.h:75 | the first key a `std::map<char, …>` visits is in the key set and no greater than any other key |
| Strings.Ascending | include/trie.h:98-100 | iterating a `std::map<char, …>` visits exactly its keys, in strictly ascending order |
| Strings.Mismatch | include/trie.h:568-575 | the equality scan that opens `breakup_leaf` stops at the length of the longest common prefix: both strings agree before it, and it is the end of one of them or a position where they differ |
| Radix.Chain | include/trie.h:529-534 | a chain of plain branches built above a node is valid exactly when that node is |
| Radix.BuildBranches | include/trie.h:525-537 | the chain of plain branches spelling s stores exactly the words of the node below it, each preceded by s, with the same values; validity is unchanged |
| Radix.BuildBranchesToValue | include/trie.h:540-556 | like `BuildBranches`, but the node at the end of the chain is a value-branch, so s itself is stored with value v |
| Radix.MakeLeaf | include/trie.h:559-563 | a new leaf stores exactly its residue s with value v, and is valid even when s is empty |
| Radix.BreakupLeaf | include/trie.h:566-623 | no replacement subtree exactly when the new remainder equals the leaf's residue; otherwise a valid branch storing exactly the old residue with its old value and the new remainder with the new value |
| Radix.BreakupLeafWords | include/trie.h:566-623 | in all three split cases, the replacement's word map is exactly {residue ↦ old value, remainder ↦ new value} |
| Radix.ValidNotEmpty | include/trie.h:780-786 | every node that insertion builds stores at least one word, so the least-child descent of `prefix_match` always reaches one |
| RadixTrie.InsertAt | include/trie.h:652-716 | the insert visitor leaves a node that already stores the remainder untouched; otherwise it adds exactly the remainder with the new value and keeps every other word and value; it preserves validity |
| RadixTrie.Insert | include/trie.h:636-720 | the empty key and a key already stored leave the trie unchanged; any other key is added with its value and nothing else changes; validity is preserved |
| RadixTrie.EmptyHoldsNothing | include/trie.h:633 | a new trie stores no key and is valid |
| RadixTrie.Descend | include/trie.h:674-703 | descending into a child for the next character leaves the node unchanged when it already stores the remainder; otherwise the re-parented child adds exactly the remainder with the new value and keeps every other word and value |
| RadixTrie.InsertThenLookup | include/trie.h:636-757 | after inserting a new non-empty key, `exists` finds it and `value_at` returns its value; every other key reports what it reported before |
| RadixTrie.InsertDuplicate | include/trie.h:686-716 | inserting a stored key leaves the trie, and the value `value_at` reports, unchanged |
| RadixTrie.Lookup | include/trie.h:846-894 | the lookup visitor lands on a node exactly when the node stores the remainder; the node is a value-branch or leaf holding that word's value |
| RadixTrie.EmptyKeyAbsent | include/trie.h:841-842 | no trie stores the empty key |
| RadixTrie.LookupNode | include/trie.h:841-899 | `lookup_node_` finds a node exactly for the stored keys, and that node carries the key's value |
| RadixTrie.Exists | include/trie.h:722-726 | `exists` holds exactly for the stored keys |
| RadixTrie.ValueAt | include/trie.h:728-757 | `value_at` succeeds exactly for the stored keys and then returns the stored value; otherwise it leaves the caller's value alone |
| RadixTrie.PrefixLookup | include/trie.h:906-955 | the prefix lookup never consumes more than the prefix, and consumes all of it unless it lands in a leaf; on a valid trie it lands on a valid node |
| RadixTrie.PrefixLookupAt | include/trie.h:901-963 | a stored word extends the prefix exactly when it runs through the landing node: it begins with the consumed part and the node stores the rest; when the lookup fails, no stored word extends the prefix |
| RadixTrie.Complete | include/trie.h:780-793 | following the least child from a valid node until a value-branch or leaf spells a word that node stores |
| RadixTrie.CompleteIsLeast | include/trie.h:773-794 | following the least child down from a valid node yields a word it stores, and that word is the lexicographically least of its words |
| RadixTrie.PrefixMatch | include/trie.h:759-799 | on success the answer is a stored key that begins with the prefix; on failure the caller's string is returned untouched |
| RadixTrie.PrefixMatchLeast | include/trie.h:759-799 | `prefix_match` succeeds exactly when the prefix is non-empty and some stored key extends it, and its answer is the least such key |
| RadixTrie.PrefixMatchStored | include/trie.h:759-799 | a non-empty stored key completes to itself |
| RadixTrie.Enumerate | include/trie.h:812-832 | every word the print visitor lists begins with the path so far |
| RadixTrie.EnumerateChildren | include/trie.h:812-832 | every word listed from the children under the given characters extends the path by one of those characters |
| RadixTrie.EnumerateAt | include/trie.h:805-836 | the print visitor lists a word exactly when it begins with the path so far and the node stores the rest |
| RadixTrie.EnumerateSorted | include/trie.h:805-836 | the print visitor's list is strictly ascending: a value-branch's own word comes before the longer words below it, and the children are visited in ascending key order |
| RadixTrie.GetWords | include/trie.h:801-838 | `get_words` lists every stored key exactly once, in ascending order, so its length is the number of distinct keys stored |
| WordTrie.MakeLeaf | include/trie.h:166-170 | an `impl2` leaf lifts to the `impl3` leaf for the same residue |
| WordTrie.Chain | include/trie.h:151-163 | the plain-branch chain of `build_branches` lifts to the `impl3` chain |
| WordTrie.BreakupLeaf | include/trie.h:173-234 | `impl2`'s split lifts to `impl3`'s split in all three cases, and returns no subtree exactly when the new word equals the residue |
| WordTrie.InsertAt | include/trie.h:262-301 | `impl2`'s insert visitor lifts to `impl3`'s insert visitor |
| WordTrie.Insert | include/trie.h:246-304 | `insert` commutes with `Lift`; the empty word leaves the trie unchanged, any other word is added to the set; validity is preserved |
| WordTrie.EmptyHoldsNothing | include/trie.h:243 | a new trie holds no word and is valid |
| WordTrie.ExistsAt | include/trie.h:313-344 | the exists visitor finds exactly the remainders the lifted node stores |
| WordTrie.PrefixWalk | include/trie.h:369-415 | on success the visitor leaves the caller's string followed by a string that begins with the unconsumed prefix; on failure it leaves the string cleared or still starting with what it held |
| WordTrie.Exists | include/trie.h:306-349 | `exists` holds exactly for the stored words |
| WordTrie.WalkAgrees | include/trie.h:359-416 | the `impl2` prefix visitor succeeds exactly when `impl3`'s prefix lookup lands on a node, and then spells the consumed prefix followed by that node's least completion |
| WordTrie.WalkMisses | include/trie.h:369-415 | a failed walk clears the string after a leaf that disagrees with the prefix; after a missing child it holds what it held followed by the prefix characters eaten, as many as `impl3`'s prefix lookup consumes |
| WordTrie.PrefixMatch | include/trie.h:351-421 | on success the caller's string is followed by a stored word extending the prefix; on failure at a leaf that disagrees with the prefix the string is cleared, and on failure at a missing child it is followed by exactly the prefix characters eaten before that child, as many as `impl3`'s prefix lookup consumes |
| WordTrie.PrefixMatchAgrees | include/trie.h:351-421 | `impl2` and `impl3` succeed on the same prefixes, and `impl2` appends to the caller's string the word that `impl3` returns |
| WordTrie.PrefixMatchLeast | include/trie.h:351-421 | `prefix_match` succeeds exactly when the prefix is non-empty and some stored word extends it; the word appended is the least such |
| WordTrie.PrefixMatchNoChild | include/trie.h:385-391 | a prefix whose first character starts no stored word fails at the root and leaves the caller's string as it was |
| WordTrie.Enumerate | include/trie.h:427-446 | `impl2`'s print visitor lists what `impl3`'s lists for the lifted node |
| WordTrie.EnumerateChildren | include/trie.h:437-441 | `impl2`'s loop over a branch's children lists what `impl3`'s loop lists for the lifted branch |
| WordTrie.GetWords | include/trie.h:423-451 | `get_words` lists every stored word exactly once, in ascending order |
| NaiveTrie.InsertAt | include/trie.h:28-34 | creating or following one node per character and marking the last node adds exactly the word; every node keeps a word at or below it |
| NaiveTrie.Insert | include/trie.h:28-34 | `insert` adds exactly the word, including the empty word (which marks the root); validity is preserved |
| NaiveTrie.EmptyHoldsNothing | include/trie.h:25 | a new trie holds no word, not even the empty one |
| NaiveTrie.Walk | include/trie.h:38-45 | the character-by-character descent succeeds exactly when the path exists, and stops at the node the path leads to |
| NaiveTrie.Exists | include/trie.h:36-48 | `exists` holds exactly for the stored words, the empty word included |
| NaiveTrie.NothingBeyond | include/trie.h:53-58 | when the descent along the prefix hits a missing child, no stored word extends the prefix |
| NaiveTrie.First | include/trie.h:70-78 | following the first child until a word node spells a word stored below a valid node |
| NaiveTrie.FirstIsLeast | include/trie.h:69-78 | following the first child until a word node yields the lexicographically least word below the node |
| NaiveTrie.CompletionIsLeast | include/trie.h:62-80 | the prefix followed by that descent is a stored word, and it is the least stored word extending the prefix |
| NaiveTrie.PrefixMatch | include/trie.h:50-81 | succeeds exactly when some stored word extends the prefix and returns the least such; a missing child leaves the caller's string untouched; an empty trie with the empty prefix reaches the `assert` branch and fails with the empty string |
| NaiveTrie.Collect | include/trie.h:94-101 | every word the recursive helper lists begins with the path so far |
| NaiveTrie.CollectChildren | include/trie.h:94-101 | every word listed from the children under the given characters extends the path by one of those characters |
| NaiveTrie.CollectAt | include/trie.h:94-101 | the recursive helper lists a word exactly when it begins with the path so far and the node stores the rest |
| NaiveTrie.CollectSorted | include/trie.h:94-101 | the helper's list is strictly ascending |
| NaiveTrie.GetWords | include/trie.h:83-91 | `get_words` lists every stored word except the empty one, each once and in ascending order |
| Oracle.FillNaive | test/main.cpp:95-101 | `impl1` filled with a word list holds exactly the words of the list |
| Oracle.FillRadix | test/main.cpp:273-279 | `impl3` filled with keys and values holds exactly the non-empty keys, each with the value of its first insertion |
| Oracle.FillWord | test/main.cpp:184-190 | `impl2` filled with a word list is valid and lifts to `impl3` filled with the same words and unit values |
| Oracle.SameWords | test/main.cpp:86-262 | filled alike, `impl2` and `impl3` hold the same words, and `impl1` holds those plus the empty word exactly when it was inserted |
| Oracle.SameListing | test/main.cpp:86-262 | filled alike, the three `get_words` lists are identical |
| Scenarios.SixKept | test/main.cpp:360-379 | each of the six words is still stored with its original value, whatever other words are inserted after them |
| Scenarios.StartingValues | test/main.cpp:365-379 | `value_at` returns 1 for cat, 3 for cake, 5 for abcd and 6 for somereallylongword, before and after the further words |
| Scenarios.StartingWords | test/main.cpp:361-383 | cat, bake and somereallylongword exist, and the long word completes to itself, whatever is inserted after the six |
| Scenarios.SixStored | test/main.cpp:273-288 | inserting the six words stores exactly those six |
| Scenarios.SixAbsent | test/main.cpp:290-304 | catt and bbake are not stored, and `value_at` for catt fails and leaves the caller's value alone |
| Scenarios.CompleteSo | test/main.cpp:318-320 | `so` completes to somereallylongword |
| Scenarios.CompleteBa | test/main.cpp:322-324 | `ba` completes to bake rather than bat, because `k` sorts before `t` |
| Scenarios.CompleteZz | test/main.cpp:326-328 | `zz` matches nothing and the caller's empty string stays empty |
| Scenarios.SixWords | test/main.cpp:184-190 | `impl2` filled with the six words is valid and stores exactly those six |
| Scenarios.WordCompleteZz | test/main.cpp:216-218 | in `impl2` too, `zz` matches nothing and the caller's empty string stays empty |
| Scenarios.PermutationsAbsent | test/main.cpp:330-335 | no rearrangement of abcd other than abcd itself is stored |
| Scenarios.NoSpacedMatch | test/main.cpp:385-386 | `thing invalid` matches nothing when the further words are lower-case, as the test's random words are |

## Left out

- Ownership and dispatch are not modelled: visitor double dispatch, `unique_ptr`, virtual destructors, and re-parenting through `parent->children[*--first]`. Nodes are immutable values, and an insert returns the replacement node.
- `build_branches` returns a root and the address of its bottom node, which the caller then fills in. The model instead passes the bottom's children in as a parameter.
- Characters are ordered as Dafny orders `char`. This matches `std::string` comparison, which orders characters as `unsigned char`. It also matches the order of `std::map<char, …>` for 7-bit characters. Where `char` is signed, that map visits bytes from 0x80 upward before them, and that order is not modelled.
- Values are immutable. `impl3`'s insert moves the leaf's value out before it knows the key is a duplicate (include/trie.h:708). For `int` values, as in the tests, that changes nothing, and the model treats a duplicate insert as a no-op.
- `impl2`'s `exists` reads the end of the input when the input is exhausted at a branch that is not a word (include/trie.h:322-327). That read is undefined, so it is modelled as a miss.
- `impl1`'s `prefix_match` reaches `assert(false)` on a childless non-word node (include/trie.h:71-74). This happens only for the bare root with the empty prefix. The model is a release build: the call returns false.
- `impl1`'s `get_words` starts below the root, so an inserted empty word is stored but never listed. The model keeps this behaviour and states it.
- RadixTrie.PrefixMatch, WordTrie.PrefixMatch, NaiveTrie.PrefixMatch: require a valid trie, meaning the shape every trie built by `insert` from empty has. `Insert` in each module proves that insertion keeps it.
- `reserve`, iterator arithmetic and copying of strings are left out; they do not change any result.
- Random words come from I/O and randomness (test/main.cpp:38-73). The scenarios quantify over every list of further words instead.
- The Catch test scaffolding and benchmark/main.cpp are left out: they contain no trie logic.
