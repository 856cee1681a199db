/**
 * What the counters of a valid trie add up to: `prefixes` at the node a
 * prefix p leads to is the number of stored words, with multiplicity, that
 * have p as a proper prefix.
 */
module TrieCounting {
  import opened Sums
  import opened TrieNodes

  /** Every string spelled by a path from n, the empty string included. */
  ghost function Paths(n: Node): (r: set<string>)
    ensures [] in r
    decreases n
  {
    {[]} + set k, w | k in n.children && w in Paths(n.children[k]) :: [k] + w
  }

  /** Paths(n) holds exactly the strings that have a path from n. */
  lemma {:induction false} PathsExact(n: Node, s: string)
    ensures s in Paths(n) <==> HasPath(n, s)
    decreases |s|
  {
    if |s| > 0 {
      if s[0] in n.children {
        PathsExact(n.children[s[0]], s[1..]);
        assert s == [s[0]] + s[1..];
      }
      if s in Paths(n) {
        var k, w :| k in n.children && w in Paths(n.children[k]) && s == [k] + w;
        assert k == s[0] && w == s[1..];
      }
    }
  }

  /** A string off every path has count 0: Paths(n) holds every stored word. */
  lemma StoredWordsOnPaths(n: Node, s: string)
    requires CountWord(n, s) != 0
    ensures s in Paths(n)
  {
    PathsExact(n, s);
  }

  /** The counts of n as a function, for sums. */
  function Counts(n: Node): (f: string -> int)
  {
    w => CountFrom(n, w)
  }

  /** countWord of n as a function, for sums. */
  function WordCounts(n: Node): (f: string -> int)
  {
    w => CountWord(n, w)
  }

  /** The paths from n that start with one of the characters in ks. */
  ghost function PathsVia(n: Node, ks: set<char>): (r: set<string>)
  {
    set k, w | k in ks && k in n.children && w in Paths(n.children[k]) :: [k] + w
  }

  /** Taking the paths through child k out of the paths via ks. */
  lemma PathsViaSplit(n: Node, ks: set<char>, k: char)
    requires ks <= n.children.Keys && k in ks
    ensures PathsVia(n, ks) == PathsVia(n, ks - {k}) + Prepend([k], Paths(n.children[k]))
    ensures PathsVia(n, ks - {k}) !! Prepend([k], Paths(n.children[k]))
  {
    var child := n.children[k];
    forall v | v in PathsVia(n, ks) ensures v in PathsVia(n, ks - {k}) + Prepend([k], Paths(child)) {
      var j, w :| j in ks && j in n.children && w in Paths(n.children[j]) && v == [j] + w;
      if j != k {
        assert v in PathsVia(n, ks - {k});
      }
    }
    forall v | v in PathsVia(n, ks - {k}) ensures v !in Prepend([k], Paths(child)) {
      var j, w :| j in ks - {k} && j in n.children && w in Paths(n.children[j]) && v == [j] + w;
      assert v[0] == j;
    }
  }

  /** Below the child for k, the counts of n are the counts of that child. */
  lemma CountsBelowChild(n: Node, k: char)
    requires k in n.children
    ensures forall w :: w in Paths(n.children[k]) ==> Counts(n.children[k])(w) == Counts(n)([k] + w)
  {
  }

  /** The counts below the children named in ks add up to those children's weights. */
  lemma {:induction false} SumPathsVia(n: Node, ks: set<char>)
    requires ks <= n.children.Keys
    requires forall k :: k in ks ==> Sum(Paths(n.children[k]), Counts(n.children[k])) == Weight(n.children[k])
    ensures Sum(PathsVia(n, ks), Counts(n)) == Sum(ks, ChildWeights(n.children))
    decreases ks
  {
    if ks == {} {
      assert PathsVia(n, ks) == {};
    } else {
      var k :| k in ks;
      SumPathsViaStep(n, ks, k);
      SumPathsVia(n, ks - {k});
      SumRemove(ks, ChildWeights(n.children), k);
    }
  }

  /** One child's paths contribute the sum of that child's counts. */
  lemma SumPathsViaStep(n: Node, ks: set<char>, k: char)
    requires ks <= n.children.Keys && k in ks
    ensures Sum(PathsVia(n, ks), Counts(n))
         == Sum(PathsVia(n, ks - {k}), Counts(n)) + Sum(Paths(n.children[k]), Counts(n.children[k]))
  {
    var child := n.children[k];
    PathsViaSplit(n, ks, k);
    SumDisjointUnion(PathsVia(n, ks - {k}), Prepend([k], Paths(child)), Counts(n));
    CountsBelowChild(n, k);
    SumPrepend([k], Paths(child), Counts(n), Counts(child));
  }

  /** Apart from the empty string, every path goes through some child. */
  lemma PathsSplit(n: Node)
    ensures Paths(n) - {[]} == PathsVia(n, n.children.Keys)
  {
  }

  /**
   * In a valid tree the counts of all strings spelled from n add up to the
   * number of insertions that end at or pass through n.
   */
  lemma {:induction false} SumOfCounts(n: Node)
    requires Valid(n)
    ensures Sum(Paths(n), Counts(n)) == n.words + n.prefixes
    decreases n
  {
    forall k | k in n.children
      ensures Sum(Paths(n.children[k]), Counts(n.children[k])) == Weight(n.children[k])
    {
      SumOfCounts(n.children[k]);
    }
    SumPathsVia(n, n.children.Keys);
    PathsSplit(n);
    SumRemove(Paths(n), Counts(n), []);
  }

  /** The stored words, as strings spelled from n, that have p as a proper prefix. */
  ghost function ProperExtensions(n: Node, p: string): (r: set<string>)
  {
    set w | w in Paths(n) && IsProperPrefix(p, w)
  }

  /** When p leaves the tree, no path extends it. */
  lemma NoExtensionsOffPath(n: Node, p: string)
    requires !HasPath(n, p)
    ensures ProperExtensions(n, p) == {}
  {
  }

  /** The proper extensions of p are p followed by a non-empty path from the node p leads to. */
  lemma ExtensionsAt(n: Node, p: string)
    requires HasPath(n, p)
    ensures ProperExtensions(n, p) == Prepend(p, Paths(At(n, p)) - {[]})
  {
    var a := At(n, p);
    forall w | w in ProperExtensions(n, p) ensures w in Prepend(p, Paths(a) - {[]}) {
      var v := w[|p|..];
      assert w == p + v;
      PathsExact(n, w);
      PathConcat(n, p, v);
      PathsExact(a, v);
    }
    forall w | w in Prepend(p, Paths(a) - {[]}) ensures w in ProperExtensions(n, p) {
      var v :| v in Paths(a) - {[]} && w == p + v;
      PathsExact(a, v);
      PathConcat(n, p, v);
      PathsExact(n, w);
      assert w[..|p|] == p;
    }
  }

  /**
   * countPrefix(p), for a non-empty p, is the number of stored words, with
   * multiplicity, that have p as a proper prefix: a word equal to p is not
   * counted. A p that leaves the tree has no such word and gives 0.
   */
  lemma CountPrefixCountsExtensions(n: Node, p: string)
    requires Valid(n) && p != []
    ensures CountPrefix(n, p) == Sum(ProperExtensions(n, p), WordCounts(n))
  {
    if !HasPath(n, p) {
      NoExtensionsOffPath(n, p);
    } else {
      ValidAt(n, p);
      ExtensionsAt(n, p);
      SumBelowAt(n, p);
    }
  }

  /** A non-empty v below the node p leads to has the count of p + v. */
  lemma WordCountBelow(n: Node, p: string, v: string)
    requires HasPath(n, p) && v != []
    ensures CountWord(n, p + v) == CountFrom(At(n, p), v)
  {
    assert |p + v| > 0;
    CountFromConcat(n, p, v);
  }

  /** The counts strictly below the node p leads to, seen from n. */
  lemma SumBelowAt(n: Node, p: string)
    requires HasPath(n, p) && Valid(At(n, p))
    ensures At(n, p).prefixes == Sum(Prepend(p, Paths(At(n, p)) - {[]}), WordCounts(n))
  {
    var a := At(n, p);
    var below := Paths(a) - {[]};
    SumOfCounts(a);
    SumRemove(Paths(a), Counts(a), []);
    assert Counts(a)([]) == a.words;
    assert Sum(below, Counts(a)) == a.prefixes;
    forall v | v in below ensures Counts(a)(v) == WordCounts(n)(p + v) {
      WordCountBelow(n, p, v);
    }
    SumPrepend(p, below, WordCounts(n), Counts(a));
  }

  /** At the root every insertion passes through, so `prefixes` counts every stored word. */
  lemma RootPrefixesCountAllWords(n: Node)
    requires ValidRoot(n)
    ensures n.prefixes == Sum(Paths(n), WordCounts(n))
  {
    SumOfCounts(n);
    SumCongruent(Paths(n), Counts(n), WordCounts(n));
  }
}
