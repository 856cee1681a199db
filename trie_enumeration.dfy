/**
 * Listing the stored words: getAllWords and autoComplete of trie.js.
 *
 * getAllWords walks the children with a `for…in` loop whose order is the
 * key order of a JavaScript object; the model picks the next key with `:|`,
 * so nothing below depends on the order, and the results are specified as
 * the set of words they hold, each exactly once.
 */
module TrieEnumeration {
  import opened TrieNodes

  /** p is a prefix of s (not necessarily a proper one). */
  predicate StartsWith(s: string, p: string)
  {
    |p| <= |s| && s[..|p|] == p
  }

  /** No string occurs twice. */
  predicate Distinct(ws: seq<string>)
  {
    forall i, j :: 0 <= i < j < |ws| ==> ws[i] != ws[j]
  }

  /** Two lists without duplicates and without common strings concatenate without duplicates. */
  lemma DistinctConcat(a: seq<string>, b: seq<string>)
    requires Distinct(a) && Distinct(b)
    requires forall x, y :: x in a && y in b ==> x != y
    ensures Distinct(a + b)
  {
    forall i, j | 0 <= i < j < |a + b| ensures (a + b)[i] != (a + b)[j] {
      if j >= |a| && i < |a| {
        assert (a + b)[i] in a && (a + b)[j] in b;
      }
    }
  }

  /** A string below child k, with p in front, is p + [k] + the rest. */
  lemma BelowChild(p: string, k: char, y: string)
    requires StartsWith(y, p + [k])
    ensures StartsWith(y, p) && |y| > |p| && y[|p|] == k
    ensures y[|p|..] == [k] + y[|p| + 1..]
    ensures y == (p + [k]) + y[|p| + 1..]
  {
  }

  /**
   * What getAllWords has gathered in ret once the children still in todo
   * are all that is left: every stored word of n, with prefix in front,
   * except those that go through a child in todo, each once.
   */
  ghost predicate Gathered(n: Node, prefix: string, ret: seq<string>, todo: set<char>)
  {
    && (forall x :: x in ret ==>
          && StartsWith(x, prefix)
          && CountFrom(n, x[|prefix|..]) > 0
          && (|x| == |prefix| || x[|prefix|] !in todo))
    && (forall w :: CountFrom(n, w) > 0 && (w == [] || w[0] !in todo) ==> prefix + w in ret)
    && Distinct(ret)
  }

  /** Each word listed below child k is a stored word of n that goes through k. */
  lemma ListedBelowChild(n: Node, prefix: string, k: char, y: string)
    requires k in n.children
    requires StartsWith(y, prefix + [k]) && CountFrom(n.children[k], y[|prefix| + 1..]) > 0
    ensures StartsWith(y, prefix) && |y| > |prefix| && y[|prefix|] == k
    ensures CountFrom(n, y[|prefix|..]) > 0
  {
  }

  /** Each stored word of n that goes through k is listed below child k. */
  lemma StoredBelowChild(n: Node, prefix: string, k: char, w: string)
    requires k in n.children && w != [] && w[0] == k
    ensures prefix + w == (prefix + [k]) + w[1..]
    ensures CountFrom(n, w) == CountFrom(n.children[k], w[1..])
  {
  }

  /** Appending the words below child k moves k out of todo. */
  lemma GatherChild(n: Node, prefix: string, ret: seq<string>, todo: set<char>, k: char, sub: seq<string>)
    requires Gathered(n, prefix, ret, todo) && k in todo && k in n.children
    requires forall w :: (prefix + [k]) + w in sub <==> CountFrom(n.children[k], w) > 0
    requires forall y :: y in sub ==> StartsWith(y, prefix + [k])
    requires Distinct(sub)
    ensures Gathered(n, prefix, ret + sub, todo - {k})
  {
    forall y | y in sub
      ensures StartsWith(y, prefix) && |y| > |prefix| && y[|prefix|] == k
      ensures CountFrom(n, y[|prefix|..]) > 0
    {
      BelowChild(prefix, k, y);
      ListedBelowChild(n, prefix, k, y);
    }
    forall w | CountFrom(n, w) > 0 && w != [] && w[0] == k
      ensures prefix + w in sub
    {
      StoredBelowChild(n, prefix, k, w);
    }
    DistinctConcat(ret, sub);
  }

  /** With nothing left to do, ret holds exactly the stored words of n behind prefix. */
  lemma GatheredAll(n: Node, prefix: string, ret: seq<string>)
    requires Gathered(n, prefix, ret, {})
    ensures forall w :: prefix + w in ret <==> CountFrom(n, w) > 0
  {
  }

  /**
   * getAllWords(str) on node n (trie.js:172-191): the words stored from n,
   * each with `prefix` in front and each listed once, however many times it
   * was inserted. The prefix defaults to the empty string (trie.js:177-179).
   */
  method GetAllWords(n: Node, prefix: string := []) returns (ret: seq<string>)
    ensures forall w :: prefix + w in ret <==> CountFrom(n, w) > 0
    ensures forall x :: x in ret ==> StartsWith(x, prefix)
    ensures Distinct(ret)
    decreases n
  {
    ret := [];
    if n.words > 0 {
      ret := [prefix];
      assert prefix + [] == prefix;
    }
    var todo := n.children.Keys;
    while todo != {}
      invariant todo <= n.children.Keys
      invariant Gathered(n, prefix, ret, todo)
      decreases todo
    {
      var k :| k in todo;
      var sub := GetAllWords(n.children[k], prefix + [k]);
      GatherChild(n, prefix, ret, todo, k, sub);
      ret := ret + sub;
      todo := todo - {k};
    }
    GatheredAll(n, prefix, ret);
  }

  /** The string [c] + w seen one step further along str. */
  lemma StepAlong(str: string, pos: nat, w: string)
    requires pos < |str| && |w| > 0 && w[0] == str[pos]
    ensures str[..pos] + w == str[..pos + 1] + w[1..]
    ensures StartsWith(w, str[pos..]) <==> StartsWith(w[1..], str[pos + 1..])
  {
  }

  /** A string that extends str[..pos] + w and str agrees with str at pos. */
  lemma ExtendsAt(str: string, pos: nat, w: string)
    requires pos < |str| && StartsWith(str[..pos] + w, str)
    ensures |w| > 0 && w[0] == str[pos]
  {
  }

  /**
   * autoComplete(str, pos) on node n (trie.js:203-224), n being the node
   * that str[..pos] leads to: the stored words that start with str, each
   * given in full and listed once. The empty string gives [] rather than
   * every word, and a character with no child gives [].
   */
  method AutoComplete(n: Node, str: string, pos: nat := 0) returns (ret: seq<string>)
    requires pos < |str| || pos == 0
    ensures forall w :: str[..pos] + w in ret <==>
      str != [] && StartsWith(w, str[pos..]) && CountFrom(n, w) > 0
    ensures forall x :: x in ret ==> StartsWith(x, str)
    ensures Distinct(ret)
    decreases |str| - pos
  {
    if |str| == 0 {
      return [];
    }
    var k := str[pos];
    if k !in n.children {
      forall w | StartsWith(w, str[pos..]) ensures CountFrom(n, w) == 0 {
        assert w[0] == str[pos..][0] == k;
      }
      return [];
    }
    var child := n.children[k];
    if pos == |str| - 1 {
      ret := GetAllWords(child, str);
      assert str[..pos + 1] == str;
    } else {
      ret := AutoComplete(child, str, pos + 1);
    }
    forall w | str[..pos] + w in ret
      ensures StartsWith(w, str[pos..]) && CountFrom(n, w) > 0
    {
      ExtendsAt(str, pos, w);
      StepAlong(str, pos, w);
    }
    forall w | StartsWith(w, str[pos..]) && CountFrom(n, w) > 0
      ensures str[..pos] + w in ret
    {
      assert w[0] == str[pos..][0] == k;
      StepAlong(str, pos, w);
    }
  }
}
