# A verified model of a JavaScript prefix tree (trie)

This project models `trie.js`, a trie of strings that supports
insertion with multiplicity, removal, update, exact and prefix counting,
membership, listing of all words and autocompletion.

Each JavaScript `Trie` object is one node. It has three fields. `words`
counts the insertions that end at the node. `prefixes` counts the
insertions that pass through the node on the way to a deeper node.
`children` maps one character to a child node. There is no wrapper object:
the program holds the root node and calls its methods.

The model has five modules:

- `Sums` (`sums.dfy`): finite sums over sets, used to say what the counters add up to.
- `TrieNodes` (`trie_node.dfy`): the node as a datatype
  `Node(words, prefixes, children: map<char, Node>)`. It has the recursive
  operations of `trie.js` as functions, each applied to the rest of the
  string `str[pos..]`. It also has the checked removal, the structural
  invariant `Valid` and the lemmas about insert, remove and update.
- `TrieCounting` (`trie_counting.dfy`): what the counters of a valid tree mean.
  `Paths(n)` is the finite set of strings spelled from a node. The
  `prefixes` counter at the node that p leads to equals the number of
  stored words, with multiplicity, that have p as a proper prefix.
- `TrieEnumeration` (`trie_enumeration.dfy`): `getAllWords` and
  `autoComplete` as methods. The `for…in` loop over the children becomes a
  `while` loop over the set of keys that picks the next key with `:|`. Each
  result is specified by the set of words it holds, each listed once, and
  never by its order.
- `TrieObject` (`trie_object.dfy`): the class `Trie`, whose field `root` is
  replaced by the mutating methods `Insert`, `Remove` and `Update`. It also
  has the listing methods on the root, with the root invariant as their
  precondition.

The counting queries `countWord`, `countPrefix` and `find` are the
functions `CountWord`, `CountPrefix` and `Find` of `TrieNodes`, applied to
the root.

At two points the code does something other than one might expect, and the
model follows the code:

- `countPrefix(p)` counts only the words that p is a *proper* prefix of.
  The node at the end of an inserted word gets `words++`, not `prefixes++`
  (trie.js:39, 43). So after inserting "hello" and "hell",
  `countPrefix("hello")` is 0, not 1, and `countPrefix("hell")` is 1
  (`TrieNodes.CountPrefixExample`).
- `remove` does not report a missing word. A missing child makes the
  JavaScript code fault, and an existing path with no stored word drives
  `words` negative. The model's `Remove` returns `NotFound` in both cases
  and changes nothing. The code as written is kept as `RemoveFrom`, which
  needs the path to exist (see Findings).

## Model

| member | source | states |
|---|---|---|
| `TrieNodes.CountFrom` | trie.js:102-110 | countWord after the start: the `words` counter of the node the whole string leads to, or 0 when a character has no child |
| `TrieNodes.CountWord` | trie.js:89-111 | 0 for the empty string and for a string that leaves the tree; otherwise the terminal node's `words` |
| `TrieNodes.PrefixFrom` | trie.js:135-143 | countPrefix after the start: the `prefixes` counter of the node the string leads to, or 0 on a missing child |
| `TrieNodes.CountPrefix` | trie.js:122-144 | 0 for the empty string and for a string that leaves the tree; otherwise the terminal node's `prefixes` |
| `TrieNodes.Find` | trie.js:153-163 | true iff the string is non-empty, has a path, and the terminal node's `words` is positive (that is, countWord > 0) |
| `TrieNodes.CountFromConcat` | trie.js:105-109 | the count of p + s from a node is the count of s from the node p leads to, and 0 if p leaves the tree |
| `TrieNodes.InsertFrom` | trie.js:38-50 | one insertion step: `words + prefixes` of the node grows by exactly one, and `words` is untouched unless the string ends here |
| `TrieNodes.Insert` | trie.js:25-51 | insert("") returns the node unchanged; any other insertion leaves the root's `words` alone and raises its `prefixes` by one |
| `TrieNodes.InsertFromCount` | trie.js:38-50 | inserting the rest s adds one to the count of s and to no other count |
| `TrieNodes.InsertCount` | trie.js:25-51 | insert(s) with s non-empty raises countWord(s) by exactly 1 and no other countWord changes; insert("") changes no count |
| `TrieNodes.InsertFromPrefix` | trie.js:38-50 | inserting the rest s adds one to the `prefixes` reached by each proper prefix of s and nowhere else |
| `TrieNodes.InsertPrefixCount` | trie.js:39-43 | countPrefix(t) grows by one exactly when t is a non-empty proper prefix of s; the word's own node is not counted |
| `TrieNodes.CountPrefixExample` | trie.js:39-43 | after inserting "hello" and "hell": countPrefix("hel") = 2, countPrefix("hell") = 1, countPrefix("hello") = 0 |
| `TrieNodes.InsertFromPaths` | trie.js:45-47 | insertion creates the path of s and keeps every existing path |
| `TrieNodes.RemoveFrom` | trie.js:69-77 | remove as written along an existing path: `words + prefixes` drops by one per node and no child is deleted |
| `TrieNodes.RemoveFromCount` | trie.js:69-77 | as written, removing along an existing path lowers the count of s by one and no other count, even below zero |
| `TrieNodes.RemoveFromPrefix` | trie.js:74 | as written, removing along s lowers `prefixes` at each proper prefix of s by one |
| `TrieNodes.RemoveFromPaths` | trie.js:74-77 | as written, removal keeps exactly the same paths: no pruning |
| `TrieNodes.RemoveFromUnstoredWord` | trie.js:69-71 | after insert("hello"), remove("hell") as written makes countWord("hell") = -1 and breaks the invariant; a later insert("hell") is not found; the checked Remove answers NotFound |
| `TrieNodes.Remove` | trie.js:54-78 | checked remove: NotFound exactly when s is non-empty and not stored; otherwise the as-written removal along an existing path, and a no-op for "" |
| `TrieNodes.RemoveCount` | trie.js:54-78 | a successful remove(s) lowers countWord(s) by exactly 1 and no other countWord changes |
| `TrieNodes.RemovePrefixCount` | trie.js:74 | a successful remove(s) lowers countPrefix of each non-empty proper prefix of s by one |
| `TrieNodes.RemoveKeepsPaths` | trie.js:74-77 | remove never deletes an entry of any `children` map |
| `TrieNodes.Update` | trie.js:81-87 | with either string empty the node comes back unchanged; otherwise NotFound exactly when the checked remove of the old word is NotFound, and on success the insertion of the new word into the result of that remove |
| `TrieNodes.UpdateCount` | trie.js:81-87 | update(a, b) with either string empty changes nothing; otherwise it is NotFound iff a is not stored, and on success it moves one count from a to b, as remove(a) then insert(b) |
| `TrieNodes.EmptyValid` | trie.js:6-10 | a new node satisfies the invariant and has no word at the root |
| `TrieNodes.InsertFromValid` | trie.js:38-50 | one insertion keeps `prefixes` equal to the sum of the children's `words + prefixes` at every node |
| `TrieNodes.InsertValid` | trie.js:25-51 | insert keeps the structural invariant and the root's `words` stays 0 |
| `TrieNodes.RemoveFromValid` | trie.js:69-77 | removing a stored word keeps the structural invariant at every node |
| `TrieNodes.RemoveValid` | trie.js:54-78 | a successful remove keeps the structural invariant and the root's `words` stays 0 |
| `TrieNodes.ValidCountsNonNegative` | trie.js:89-111 | in a valid tree no countWord is negative |
| `TrieNodes.InsertThenRemove` | trie.js:25-78 | in a valid tree, insert(s) then remove(s) succeeds and restores every countWord and countPrefix, while the path of a non-empty s stays: created nodes are not pruned |
| `TrieCounting.PathsExact` | trie.js:45-48 | Paths(n) is exactly the set of strings with a path from n |
| `TrieCounting.StoredWordsOnPaths` | trie.js:105-110 | every string with a non-zero count lies in Paths(n) |
| `TrieCounting.SumOfCounts` | trie.js:39-43 | in a valid tree the counts of all strings spelled from a node add up to its `words + prefixes` |
| `TrieCounting.CountPrefixCountsExtensions` | trie.js:122-144 | for non-empty p, countPrefix(p) is the number of stored words, with multiplicity, that have p as a proper prefix; 0 when p leaves the tree |
| `TrieCounting.RootPrefixesCountAllWords` | trie.js:43 | the root's `prefixes` is the total number of stored words, with multiplicity |
| `TrieEnumeration.GetAllWords` | trie.js:172-191 | prefix + w is in the result iff w's count from the node is positive; every result starts with prefix; no word is listed twice, whatever its multiplicity |
| `TrieEnumeration.AutoComplete` | trie.js:203-224 | str[..pos] + w is in the result iff str is non-empty, w starts with str[pos..] and w is stored below the node; every result starts with str; no duplicates; [] for "" and for a missing child |
| `TrieObject.Trie.constructor` | trie.js:6-10 | a new trie is empty: every countWord is 0 and the invariant holds |
| `TrieObject.Trie.Insert` | trie.js:25-51 | the root is replaced by the insertion; countWord(s) grows by one, countPrefix grows on the proper prefixes, all else unchanged; invariant kept |
| `TrieObject.Trie.Remove` | trie.js:54-78 | removes one occurrence of a stored word; `ok` is false, and nothing changes, exactly when a non-empty word is not stored; "" is a no-op with `ok` true; invariant kept |
| `TrieObject.Trie.Update` | trie.js:81-87 | moves one occurrence from the old word to the new one, or changes nothing when either is empty (`ok` true) or the old word is not stored (`ok` false) |
| `TrieObject.Trie.GetAllWords` | trie.js:172-191 | on the root: exactly the strings with countWord > 0, each once |
| `TrieObject.Trie.AutoComplete` | trie.js:203-224 | on the root: exactly the stored words that start with str, str included, each in full and once; [] for "" |
| `TrieObject.AutoCompleteScenario` | tests/testTrie.js:7-16 | after inserting hello, hell, Hello, hook and home into an empty tree, the stored words starting with "he" are exactly hello and hell |
| `TrieObject.AutoCompleteExample` | tests/testTrie.js:23-26 | autoComplete("he") on that tree contains "hello" and "hell" and nothing else |

## Left out

- Node identity and in-place update: a node is a value, and `Trie.Insert`, `Trie.Remove` and `Trie.Update` replace the whole `root` by the updated tree. The model does not capture that the JavaScript code changes each node object in place, nor any aliasing of node objects, which the program never creates.
- TrieObject.Trie.Remove: a call on a word that is not stored returns false and changes nothing. The code instead faults on a missing child after decrementing the ancestors' `prefixes` (trie.js:74-77), or drives `words` negative on an existing path. Those half-applied decrements are not modelled; `TrieNodes.RemoveFrom` keeps the as-written arithmetic along an existing path.
- TrieObject.Trie.Update: inherits the checked removal, so an unstored old word changes nothing instead of faulting or going negative.
- The boolean `ok` that `Trie.Remove` and `Trie.Update` return is the model's own: the JavaScript methods return nothing. It is false only for an unstored word and true for the no-op calls with an empty string.
- The order of the results of `getAllWords` and `autoComplete` comes from the key order of a JavaScript object (trie.js:186). The model picks the keys in an unspecified order and states results as sets without duplicates.
- The `T === undefined` guards (trie.js:66-68, 180-182) can never fire on a method receiver and are not modelled.
- `str[pos]` in JavaScript yields UTF-16 code units and `children` is a plain object. Characters are modelled as `char` and the children as `map<char, Node>`. One-character keys cannot clash with the names `Object.prototype` provides, which are all longer.
- JavaScript numbers are doubles, so counters lose precision above 2^53. The model's counters are unbounded integers.
- The optional `pos` argument: insert, remove, countWord and countPrefix recurse on the rest of the string instead of an index. `autoComplete` keeps `pos` and requires it to be within the string, which every call from the root respects.
- Pruning of emptied nodes and memory reclamation: the code does neither, and neither does the model.
- `module.exports` (trie.js:226) and the mocha/expect.js test harness are packaging, not behaviour.

## Findings

| source | as written | input that shows it | evidently intended | confidence | as-written member | corrected member |
|---|---|---|---|---|---|---|
| trie.js:54-78 | remove decrements `prefixes` along the path and `words` at its end without checking that the word is stored | insert("hello"), then remove("hell"): countWord("hell") becomes -1; a later insert("hell") leaves it at 0, so find("hell") is false | removing a word that is not stored is refused and changes nothing | medium; not executed | `TrieNodes.RemoveFromUnstoredWord` | `TrieNodes.Remove` |
