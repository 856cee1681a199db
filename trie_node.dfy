/**
 * The trie node of trie.js and its recursive operations.
 *
 * A JavaScript `Trie` object is one node: `words` counts the insertions that
 * end here, `prefixes` counts the insertions that pass through here on the
 * way to a deeper node, and `children` maps one character to a child node.
 * The source's methods take the whole string and a position `pos`; here each
 * recursive step receives the rest of the string, `str[pos..]`, instead.
 */
module TrieNodes {
  import opened Sums

  datatype Node = Node(words: int, prefixes: int, children: map<char, Node>)

  /** The outcome of a removal that checks that the word is stored. */
  datatype Result<T> = Ok(value: T) | NotFound

  /** A node as `new Trie()` creates it: no counts, no children. */
  const Empty: Node := Node(0, 0, map[])

  /** The child for k, or a new node when there is none yet (trie.js:45-48). */
  function ChildOrNew(n: Node, k: char): (c: Node)
  {
    if k in n.children then n.children[k] else Empty
  }

  // ---------------------------------------------------------------------
  // Paths through the tree

  /** Every character of s has a child to follow, starting from n. */
  predicate HasPath(n: Node, s: string)
    decreases |s|
  {
    |s| == 0 || (s[0] in n.children && HasPath(n.children[s[0]], s[1..]))
  }

  /** The node reached from n by following the characters of s. */
  function At(n: Node, s: string): Node
    requires HasPath(n, s)
    decreases |s|
  {
    if |s| == 0 then n else At(n.children[s[0]], s[1..])
  }

  /** Following p and then w is following p + w. */
  lemma {:induction false} PathConcat(n: Node, p: string, w: string)
    ensures HasPath(n, p + w) <==> HasPath(n, p) && HasPath(At(n, p), w)
    ensures HasPath(n, p + w) ==> At(n, p + w) == At(At(n, p), w)
    decreases |p|
  {
    if |p| > 0 {
      assert (p + w)[0] == p[0] && (p + w)[1..] == p[1..] + w;
      if p[0] in n.children {
        PathConcat(n.children[p[0]], p[1..], w);
      }
    } else {
      assert p + w == w;
    }
  }

  // ---------------------------------------------------------------------
  // Counting queries (trie.js:89-163)

  /**
   * countWord once `pos` is set: s is what is left of the string
   * (trie.js:102-110). A missing child gives 0; otherwise the result is the
   * `words` counter of the node the whole of s leads to.
   */
  function CountFrom(n: Node, s: string): (c: int)
    ensures c == if HasPath(n, s) then At(n, s).words else 0
    decreases |s|
  {
    if |s| == 0 then n.words
    else if s[0] in n.children then CountFrom(n.children[s[0]], s[1..])
    else 0
  }

  /** countWord(str): 0 for the empty string (trie.js:89-111). */
  function CountWord(n: Node, s: string): (c: int)
    ensures c == if s != [] && HasPath(n, s) then At(n, s).words else 0
  {
    if |s| == 0 then 0 else CountFrom(n, s)
  }

  /** countPrefix once `pos` is set: the `prefixes` counter at the end of s (trie.js:135-143). */
  function PrefixFrom(n: Node, s: string): (c: int)
    ensures c == if HasPath(n, s) then At(n, s).prefixes else 0
    decreases |s|
  {
    if |s| == 0 then n.prefixes
    else if s[0] in n.children then PrefixFrom(n.children[s[0]], s[1..])
    else 0
  }

  /** countPrefix(str): 0 for the empty string (trie.js:122-144). */
  function CountPrefix(n: Node, s: string): (c: int)
    ensures c == if s != [] && HasPath(n, s) then At(n, s).prefixes else 0
  {
    if |s| == 0 then 0 else PrefixFrom(n, s)
  }

  /** find(str): the word is stored at least once (trie.js:153-163). */
  function Find(n: Node, s: string): (found: bool)
    ensures found <==> s != [] && HasPath(n, s) && At(n, s).words > 0
  {
    if |s| == 0 then false else CountWord(n, s) > 0
  }

  /** The count stored for s in n + p is the count stored for p + s in n. */
  lemma CountFromConcat(n: Node, p: string, s: string)
    ensures CountFrom(n, p + s) == if HasPath(n, p) then CountFrom(At(n, p), s) else 0
  {
    PathConcat(n, p, s);
  }

  // ---------------------------------------------------------------------
  // Insertion (trie.js:25-51)

  /**
   * insert once `pos` is set: every node passed through gets `prefixes++`,
   * a missing child is created, and the last node gets `words++`.
   */
  function InsertFrom(n: Node, s: string): (r: Node)
    ensures r.words + r.prefixes == n.words + n.prefixes + 1
    ensures |s| > 0 ==> r.words == n.words
    decreases |s|
  {
    if |s| == 0 then n.(words := n.words + 1)
    else
      n.(prefixes := n.prefixes + 1,
         children := n.children[s[0] := InsertFrom(ChildOrNew(n, s[0]), s[1..])])
  }

  /** insert(str): the empty string is not inserted (trie.js:27-29). */
  function Insert(n: Node, s: string): (r: Node)
    ensures |s| == 0 ==> r == n
    ensures |s| > 0 ==> r.words == n.words && r.prefixes == n.prefixes + 1
  {
    if |s| == 0 then n else InsertFrom(n, s)
  }

  /** Inserting s adds exactly one to the count of s and changes no other count. */
  lemma {:induction false} InsertFromCount(n: Node, s: string, t: string)
    ensures CountFrom(InsertFrom(n, s), t) == CountFrom(n, t) + (if t == s then 1 else 0)
    decreases |s|
  {
    if |s| > 0 && |t| > 0 && t[0] == s[0] {
      var child := ChildOrNew(n, s[0]);
      InsertFromCount(child, s[1..], t[1..]);
      assert t == s <==> t[1..] == s[1..];
    }
  }

  /**
   * insert(s) raises countWord(s) by exactly one for a non-empty s and
   * leaves every other count as it was; insert("") changes nothing.
   */
  lemma InsertCount(n: Node, s: string, t: string)
    ensures CountWord(Insert(n, s), t) == CountWord(n, t) + (if s != [] && t == s then 1 else 0)
  {
    if |s| > 0 && |t| > 0 {
      InsertFromCount(n, s, t);
    }
  }

  /** t is a strict prefix of s. */
  predicate IsProperPrefix(t: string, s: string)
  {
    |t| < |s| && t == s[..|t|]
  }

  /** Inserting s adds one to the prefix counter of each proper prefix of s, and only there. */
  lemma {:induction false} InsertFromPrefix(n: Node, s: string, t: string)
    ensures PrefixFrom(InsertFrom(n, s), t) == PrefixFrom(n, t) + (if IsProperPrefix(t, s) then 1 else 0)
    decreases |s|
  {
    if |s| > 0 && |t| > 0 && t[0] == s[0] {
      var child := ChildOrNew(n, s[0]);
      InsertFromPrefix(child, s[1..], t[1..]);
      assert IsProperPrefix(t, s) <==> IsProperPrefix(t[1..], s[1..]);
    }
  }

  /**
   * countPrefix(t) grows by one under insert(s) exactly when t is a
   * non-empty proper prefix of s: the last node of s gets `words++`, not
   * `prefixes++` (trie.js:39, 43).
   */
  lemma InsertPrefixCount(n: Node, s: string, t: string)
    ensures CountPrefix(Insert(n, s), t)
         == CountPrefix(n, t) + (if t != [] && IsProperPrefix(t, s) then 1 else 0)
  {
    if |s| > 0 && |t| > 0 {
      InsertFromPrefix(n, s, t);
    }
  }

  /**
   * After inserting "hello" and "hell", countPrefix("hel") is 2, while
   * "hell" and "hello" count only the words strictly longer than themselves.
   */
  lemma CountPrefixExample()
    ensures var n := Insert(Insert(Empty, "hello"), "hell");
      CountPrefix(n, "hel") == 2 && CountPrefix(n, "hell") == 1 && CountPrefix(n, "hello") == 0
  {
  }

  /** Insertion only adds children: every path stays, and s itself becomes a path. */
  lemma {:induction false} InsertFromPaths(n: Node, s: string, t: string)
    ensures HasPath(InsertFrom(n, s), s)
    ensures HasPath(n, t) ==> HasPath(InsertFrom(n, s), t)
    decreases |s|
  {
    if |s| > 0 {
      InsertFromPaths(ChildOrNew(n, s[0]), s[1..], if |t| > 0 then t[1..] else t);
    }
  }

  // ---------------------------------------------------------------------
  // Removal (trie.js:54-78)

  /**
   * remove once `pos` is set, as written: `prefixes--` on every node passed
   * through and `words--` on the last one, with no check that the word is
   * stored. The path must exist, or the source dereferences an undefined
   * child (trie.js:76-77). Children are never deleted.
   */
  function RemoveFrom(n: Node, s: string): (r: Node)
    requires HasPath(n, s)
    ensures r.words + r.prefixes == n.words + n.prefixes - 1
    ensures |s| > 0 ==> r.words == n.words
    ensures r.children.Keys == n.children.Keys
    decreases |s|
  {
    if |s| == 0 then n.(words := n.words - 1)
    else
      n.(prefixes := n.prefixes - 1,
         children := n.children[s[0] := RemoveFrom(n.children[s[0]], s[1..])])
  }

  /** Removing along an existing path lowers the count of s by one and no other count. */
  lemma {:induction false} RemoveFromCount(n: Node, s: string, t: string)
    requires HasPath(n, s)
    ensures CountFrom(RemoveFrom(n, s), t) == CountFrom(n, t) - (if t == s then 1 else 0)
    decreases |s|
  {
    if |s| > 0 && |t| > 0 && t[0] == s[0] {
      RemoveFromCount(n.children[s[0]], s[1..], t[1..]);
      assert t == s <==> t[1..] == s[1..];
    }
  }

  /** Removing along s lowers the prefix counter of each proper prefix of s by one. */
  lemma {:induction false} RemoveFromPrefix(n: Node, s: string, t: string)
    requires HasPath(n, s)
    ensures PrefixFrom(RemoveFrom(n, s), t) == PrefixFrom(n, t) - (if IsProperPrefix(t, s) then 1 else 0)
    decreases |s|
  {
    if |s| > 0 && |t| > 0 && t[0] == s[0] {
      RemoveFromPrefix(n.children[s[0]], s[1..], t[1..]);
      assert IsProperPrefix(t, s) <==> IsProperPrefix(t[1..], s[1..]);
    }
  }

  /** No pruning: exactly the same paths exist after a removal. */
  lemma {:induction false} RemoveFromPaths(n: Node, s: string, t: string)
    requires HasPath(n, s)
    ensures HasPath(RemoveFrom(n, s), t) <==> HasPath(n, t)
    decreases |s|
  {
    if |s| > 0 && |t| > 0 && t[0] == s[0] {
      RemoveFromPaths(n.children[s[0]], s[1..], t[1..]);
    }
  }

  /**
   * remove(str) with the existence check that the source leaves to its
   * callers: a word that `find` does not report is NotFound and nothing
   * changes; the empty string is a no-op (trie.js:55-57).
   */
  function Remove(n: Node, s: string): (r: Result<Node>)
    ensures r.NotFound? <==> s != [] && CountWord(n, s) <= 0
    ensures r.Ok? && s != [] ==> HasPath(n, s) && r.value == RemoveFrom(n, s)
    ensures s == [] ==> r == Ok(n)
  {
    if |s| == 0 then Ok(n)
    else if !Find(n, s) then NotFound
    else Ok(RemoveFrom(n, s))
  }

  /**
   * remove as written has no existence check. On "hell", after inserting
   * only "hello", the path exists, so nothing faults, but the `words`
   * counter of the "hell" node drops to -1: the tree is no longer valid,
   * and a later insert("hell") brings the count back only to 0, so find
   * does not report the word just inserted. The checked Remove refuses the
   * same call and leaves the tree as it was.
   */
  lemma RemoveFromUnstoredWord()
    ensures HasPath(Insert(Empty, "hello"), "hell")
    ensures var n := Insert(Empty, "hello");
      && HasPath(n, "hell")
      && CountWord(RemoveFrom(n, "hell"), "hell") == -1
      && !Valid(RemoveFrom(n, "hell"))
      && !Find(Insert(RemoveFrom(n, "hell"), "hell"), "hell")
      && Remove(n, "hell") == NotFound
  {
    var n := Insert(Empty, "hello");
    InsertFromPaths(Empty, "hello", "");
    assert "hello" == "hell" + "o";
    PathConcat(n, "hell", "o");
    InsertCount(Empty, "hello", "hell");
    assert CountWord(n, "hell") == 0;
    var m := RemoveFrom(n, "hell");
    RemoveFromCount(n, "hell", "hell");
    if Valid(m) {
      ValidCountsNonNegative(m, "hell");
    }
    InsertCount(m, "hell", "hell");
  }

  /**
   * A successful remove(s) lowers countWord(s) by exactly one and leaves
   * every other count as it was.
   */
  lemma RemoveCount(n: Node, s: string, t: string)
    requires Remove(n, s).Ok?
    ensures CountWord(Remove(n, s).value, t) == CountWord(n, t) - (if s != [] && t == s then 1 else 0)
  {
    if |s| > 0 && |t| > 0 {
      RemoveFromCount(n, s, t);
    }
  }

  /** A successful remove(s) lowers countPrefix of each non-empty proper prefix of s by one. */
  lemma RemovePrefixCount(n: Node, s: string, t: string)
    requires Remove(n, s).Ok?
    ensures CountPrefix(Remove(n, s).value, t)
         == CountPrefix(n, t) - (if t != [] && IsProperPrefix(t, s) then 1 else 0)
  {
    if |s| > 0 && |t| > 0 {
      RemoveFromPrefix(n, s, t);
    }
  }

  /** remove never deletes an entry from any `children` map. */
  lemma RemoveKeepsPaths(n: Node, s: string, t: string)
    requires Remove(n, s).Ok?
    ensures HasPath(Remove(n, s).value, t) <==> HasPath(n, t)
  {
    if |s| > 0 {
      RemoveFromPaths(n, s, t);
    }
  }

  // ---------------------------------------------------------------------
  // Update (trie.js:81-87)

  /**
   * update(strOld, strNew): nothing at all when either string is empty,
   * otherwise remove(strOld) and then insert(strNew). The removal is the
   * checked one, so an unstored strOld leaves the tree unchanged.
   */
  function Update(n: Node, oldWord: string, newWord: string): (r: Result<Node>)
    ensures oldWord == [] || newWord == [] ==> r == Ok(n)
    ensures r.NotFound? <==> oldWord != [] && newWord != [] && Remove(n, oldWord).NotFound?
    ensures oldWord != [] && newWord != [] && Remove(n, oldWord).Ok? ==>
      r == Ok(Insert(Remove(n, oldWord).value, newWord))
  {
    if |oldWord| == 0 || |newWord| == 0 then Ok(n)
    else
      match Remove(n, oldWord)
      case NotFound => NotFound
      case Ok(m) => Ok(Insert(m, newWord))
  }

  /**
   * update(a, b) with both strings non-empty moves one occurrence from a to
   * b, and is NotFound exactly when a is not stored; with either string
   * empty it changes nothing, not even a partial removal.
   */
  lemma UpdateCount(n: Node, a: string, b: string, t: string)
    ensures a == [] || b == [] ==> Update(n, a, b) == Ok(n)
    ensures Update(n, a, b).NotFound? <==> a != [] && b != [] && CountWord(n, a) <= 0
    ensures Update(n, a, b).Ok? && a != [] && b != [] ==>
      CountWord(Update(n, a, b).value, t)
        == CountWord(n, t) - (if t == a then 1 else 0) + (if t == b then 1 else 0)
  {
    if a != [] && b != [] && Remove(n, a).Ok? {
      RemoveCount(n, a, t);
      InsertCount(Remove(n, a).value, b, t);
    }
  }

  // ---------------------------------------------------------------------
  // The structural invariant

  /** How many insertions end at or pass through n. */
  function Weight(n: Node): (w: int)
  {
    n.words + n.prefixes
  }

  /** The weight of each child, 0 for a character without a child. */
  function ChildWeights(m: map<char, Node>): (f: char -> int)
  {
    k => if k in m then Weight(m[k]) else 0
  }

  /**
   * At every node, `words` is never negative and `prefixes` is the sum of
   * `words + prefixes` over the children: an insertion that passes through a
   * node ends at or passes through exactly one of its children.
   */
  ghost predicate Valid(n: Node)
    decreases n
  {
    && n.words >= 0
    && n.prefixes == Sum(n.children.Keys, ChildWeights(n.children))
    && forall k :: k in n.children ==> Valid(n.children[k])
  }

  /** The invariant of the root: also, nothing ends at the root (trie.js:27-29). */
  ghost predicate ValidRoot(n: Node)
  {
    Valid(n) && n.words == 0
  }

  /** Replacing one child by one whose weight differs by d changes `prefixes`' target sum by d. */
  lemma ChildWeightsUpdate(m: map<char, Node>, k: char, c: Node)
    ensures Sum(m[k := c].Keys, ChildWeights(m[k := c]))
         == Sum(m.Keys, ChildWeights(m)) - (if k in m then Weight(m[k]) else 0) + Weight(c)
  {
    assert m[k := c].Keys == m.Keys + {k};
    SumPointChange(m.Keys, ChildWeights(m), ChildWeights(m[k := c]), k);
  }

  lemma EmptyValid()
    ensures ValidRoot(Empty)
  {
  }

  /**
   * Replacing the child for k by a valid node whose weight differs by d,
   * and moving `prefixes` by the same d, keeps the node valid.
   */
  lemma ReplaceChildValid(n: Node, k: char, c: Node, d: int)
    requires Valid(n) && Valid(c)
    requires Weight(c) == ChildWeights(n.children)(k) + d
    ensures Valid(n.(prefixes := n.prefixes + d, children := n.children[k := c]))
  {
    ChildWeightsUpdate(n.children, k, c);
    var m := n.children[k := c];
    assert forall j :: j in m ==> Valid(m[j]);
  }

  /** insert keeps the invariant at every node. */
  lemma {:induction false} InsertFromValid(n: Node, s: string)
    requires Valid(n)
    ensures Valid(InsertFrom(n, s))
    decreases |s|
  {
    if |s| > 0 {
      var child := ChildOrNew(n, s[0]);
      if s[0] !in n.children {
        EmptyValid();
      }
      InsertFromValid(child, s[1..]);
      ReplaceChildValid(n, s[0], InsertFrom(child, s[1..]), 1);
    }
  }

  /**
   * insert keeps the structural invariant, and the root still has no word
   * ending at it.
   */
  lemma InsertValid(n: Node, s: string)
    requires ValidRoot(n)
    ensures ValidRoot(Insert(n, s))
  {
    if |s| > 0 {
      InsertFromValid(n, s);
    }
  }

  /** Removing a stored word keeps the invariant at every node. */
  lemma {:induction false} RemoveFromValid(n: Node, s: string)
    requires Valid(n) && HasPath(n, s) && CountFrom(n, s) > 0
    ensures Valid(RemoveFrom(n, s))
    decreases |s|
  {
    if |s| > 0 {
      var child := n.children[s[0]];
      RemoveFromValid(child, s[1..]);
      ReplaceChildValid(n, s[0], RemoveFrom(child, s[1..]), -1);
    }
  }

  /**
   * A successful remove keeps the structural invariant, and the root still
   * has no word ending at it.
   */
  lemma RemoveValid(n: Node, s: string)
    requires ValidRoot(n) && Remove(n, s).Ok?
    ensures ValidRoot(Remove(n, s).value)
  {
    if |s| > 0 {
      RemoveFromValid(n, s);
    }
  }

  /** Under the invariant no count is negative. */
  lemma ValidCountsNonNegative(n: Node, s: string)
    requires Valid(n)
    ensures CountFrom(n, s) >= 0 && CountWord(n, s) >= 0
  {
  }

  /** Every node of a valid tree is valid. */
  lemma {:induction false} ValidAt(n: Node, s: string)
    requires Valid(n) && HasPath(n, s)
    ensures Valid(At(n, s))
    decreases |s|
  {
    if |s| > 0 {
      ValidAt(n.children[s[0]], s[1..]);
    }
  }

  /**
   * insert(s) followed by remove(s) succeeds and gives every countWord and
   * countPrefix its old value back, although a node that the insertion
   * created stays in place (no pruning).
   */
  lemma InsertThenRemove(n: Node, s: string, t: string)
    requires Valid(n)
    ensures Remove(Insert(n, s), s).Ok?
    ensures CountWord(Remove(Insert(n, s), s).value, t) == CountWord(n, t)
    ensures CountPrefix(Remove(Insert(n, s), s).value, t) == CountPrefix(n, t)
    ensures s != [] ==> HasPath(Remove(Insert(n, s), s).value, s)
  {
    ValidCountsNonNegative(n, s);
    InsertCount(n, s, s);
    InsertCount(n, s, t);
    InsertPrefixCount(n, s, t);
    RemoveCount(Insert(n, s), s, t);
    RemovePrefixCount(Insert(n, s), s, t);
    if s != [] {
      InsertFromPaths(n, s, s);
      RemoveKeepsPaths(Insert(n, s), s, s);
    }
  }
}
