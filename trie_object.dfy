/**
 * The trie as the program uses it: one root node, created empty, whose
 * methods change it in place (trie.js:6-10, 25-87) and list its words
 * (trie.js:172-224). The counting queries are the functions CountWord,
 * CountPrefix and Find of TrieNodes, applied to `root`.
 */
module TrieObject {
  import opened TrieNodes
  import opened TrieEnumeration

  class Trie {
    var root: Node

    /** The structural invariant, with no word ending at the root. */
    ghost predicate Valid()
      reads this
    {
      ValidRoot(root)
    }

    /** `new Trie()`: no words, no children (trie.js:6-10). */
    constructor ()
      ensures Valid() && root == Empty
      ensures forall t :: CountWord(root, t) == 0
    {
      root := Empty;
      EmptyValid();
    }

    /** insert(str) (trie.js:25-51). */
    method Insert(s: string)
      requires Valid()
      modifies this
      ensures Valid()
      ensures root == TrieNodes.Insert(old(root), s)
      ensures forall t :: CountWord(root, t) == old(CountWord(root, t)) + (if s != [] && t == s then 1 else 0)
      ensures forall t :: CountPrefix(root, t)
                       == old(CountPrefix(root, t)) + (if t != [] && IsProperPrefix(t, s) then 1 else 0)
    {
      InsertValid(root, s);
      forall t ensures CountWord(TrieNodes.Insert(root, s), t) == CountWord(root, t) + (if s != [] && t == s then 1 else 0)
                    && CountPrefix(TrieNodes.Insert(root, s), t)
                       == CountPrefix(root, t) + (if t != [] && IsProperPrefix(t, s) then 1 else 0)
      {
        InsertCount(root, s, t);
        InsertPrefixCount(root, s, t);
      }
      root := TrieNodes.Insert(root, s);
    }

    /**
     * remove(str) (trie.js:54-78), with the existence check: when s is
     * not stored, `ok` is false and nothing changes. `ok` is true both
     * when one occurrence was removed and for the empty string, which
     * removes nothing (trie.js:55-57).
     */
    method Remove(s: string) returns (ok: bool)
      requires Valid()
      modifies this
      ensures Valid()
      ensures ok <==> s == [] || old(Find(root, s))
      ensures ok ==> root == TrieNodes.Remove(old(root), s).value
      ensures !ok ==> root == old(root)
      ensures forall t :: CountWord(root, t) == old(CountWord(root, t)) - (if ok && s != [] && t == s then 1 else 0)
    {
      var r := TrieNodes.Remove(root, s);
      ValidCountsNonNegative(root, s);
      match r
      case NotFound =>
        ok := false;
      case Ok(m) =>
        RemoveValid(root, s);
        forall t ensures CountWord(m, t) == CountWord(root, t) - (if s != [] && t == s then 1 else 0) {
          RemoveCount(root, s, t);
        }
        root := m;
        ok := true;
    }

    /**
     * update(strOld, strNew) (trie.js:81-87): remove(strOld) then
     * insert(strNew), or nothing at all when either string is empty or
     * strOld is not stored. `ok` is false only in the last case; it is
     * true when either string is empty, although nothing changes then.
     */
    method Update(oldWord: string, newWord: string) returns (ok: bool)
      requires Valid()
      modifies this
      ensures Valid()
      ensures ok <==> oldWord == [] || newWord == [] || old(Find(root, oldWord))
      ensures ok ==> root == TrieNodes.Update(old(root), oldWord, newWord).value
      ensures !ok ==> root == old(root)
      ensures forall t :: (CountWord(root, t)
                           == old(CountWord(root, t))
                              - (if ok && oldWord != [] && newWord != [] && t == oldWord then 1 else 0)
                              + (if ok && oldWord != [] && newWord != [] && t == newWord then 1 else 0))
    {
      ValidCountsNonNegative(root, oldWord);
      var r := TrieNodes.Update(root, oldWord, newWord);
      forall t ensures r.Ok? && oldWord != [] && newWord != [] ==>
        CountWord(r.value, t) == CountWord(root, t) - (if t == oldWord then 1 else 0) + (if t == newWord then 1 else 0)
      {
        UpdateCount(root, oldWord, newWord, t);
      }
      UpdateCount(root, oldWord, newWord, oldWord);
      match r
      case NotFound =>
        ok := false;
      case Ok(m) =>
        if oldWord != [] && newWord != [] {
          RemoveValid(root, oldWord);
          InsertValid(TrieNodes.Remove(root, oldWord).value, newWord);
        }
        root := m;
        ok := true;
    }

    /**
     * getAllWords() on the root (trie.js:172-191): every word whose count
     * is positive, each exactly once, and nothing else.
     */
    method GetAllWords() returns (words: seq<string>)
      requires Valid()
      ensures forall w :: w in words <==> CountWord(root, w) > 0
      ensures Distinct(words)
    {
      words := TrieEnumeration.GetAllWords(root);
      forall w ensures w in words <==> CountWord(root, w) > 0 {
        assert [] + w == w;
      }
    }

    /**
     * autoComplete(str) on the root (trie.js:203-224): the words with a
     * positive count that start with str, str itself included, each in full
     * and once; [] for the empty string.
     */
    method AutoComplete(str: string) returns (words: seq<string>)
      requires Valid()
      ensures forall w :: w in words <==> str != [] && StartsWith(w, str) && CountWord(root, w) > 0
      ensures Distinct(words)
    {
      words := TrieEnumeration.AutoComplete(root, str);
      forall w ensures w in words <==> str != [] && StartsWith(w, str) && CountWord(root, w) > 0 {
        assert str[..0] + w == w && str[0..] == str;
      }
    }
  }

  /**
   * The repository's own scenario: on a tree with no words, insert "hello",
   * "hell", "Hello", "hook" and "home"; then exactly "hello" and "hell" are
   * stored words starting with "he".
   */
  lemma {:induction false} AutoCompleteScenario(n0: Node, w: string)
    requires forall t :: CountWord(n0, t) == 0
    ensures var n := Insert(Insert(Insert(Insert(Insert(n0, "hello"), "hell"), "Hello"), "hook"), "home");
      StartsWith(w, "he") && CountWord(n, w) > 0 <==> w == "hello" || w == "hell"
  {
    var n1 := Insert(n0, "hello");
    var n2 := Insert(n1, "hell");
    var n3 := Insert(n2, "Hello");
    var n4 := Insert(n3, "hook");
    InsertCount(n0, "hello", w);
    InsertCount(n1, "hell", w);
    InsertCount(n2, "Hello", w);
    InsertCount(n3, "hook", w);
    InsertCount(n4, "home", w);
    assert StartsWith("hello", "he") && StartsWith("hell", "he");
    assert !StartsWith("Hello", "he") && !StartsWith("hook", "he") && !StartsWith("home", "he");
  }

  /**
   * The same scenario run through autoComplete (tests/testTrie.js:7-16,
   * 23-26): the result holds "hello" and "hell" and nothing else.
   */
  method AutoCompleteExample(n0: Node) returns (res: seq<string>)
    requires forall t :: CountWord(n0, t) == 0
    ensures "hello" in res && "hell" in res
    ensures forall w :: w in res ==> w == "hello" || w == "hell"
  {
    var n := Insert(Insert(Insert(Insert(Insert(n0, "hello"), "hell"), "Hello"), "hook"), "home");
    res := TrieEnumeration.AutoComplete(n, "he");
    forall w ensures w in res <==> w == "hello" || w == "hell" {
      AutoCompleteScenario(n0, w);
      assert "he"[..0] + w == w && "he"[0..] == "he";
    }
  }
}
