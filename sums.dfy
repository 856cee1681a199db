/**
 * Finite sums over sets: the counters of a trie node are sums of the
 * counters below it, and the number of stored words with a given prefix is
 * a sum of word counts over a finite set of strings.
 */
module Sums {

  /** The sum of f over the finite set s, in no particular order. */
  ghost function Sum<T>(s: set<T>, f: T -> int): int
    decreases s
  {
    if s == {} then 0 else var x :| x in s; f(x) + Sum(s - {x}, f)
  }

  /** Any element may be taken out first: the sum does not depend on the order. */
  lemma {:induction false} SumRemove<T>(s: set<T>, f: T -> int, x: T)
    requires x in s
    ensures Sum(s, f) == f(x) + Sum(s - {x}, f)
    decreases s
  {
    var y :| y in s && Sum(s, f) == f(y) + Sum(s - {y}, f);
    if y != x {
      SumRemove(s - {y}, f, x);
      SumRemove(s - {x}, f, y);
      assert s - {y} - {x} == s - {x} - {y};
    }
  }

  /** Adding an element that is not yet there adds its value. */
  lemma SumInsert<T>(s: set<T>, f: T -> int, x: T)
    requires x !in s
    ensures Sum(s + {x}, f) == Sum(s, f) + f(x)
  {
    SumRemove(s + {x}, f, x);
    assert s + {x} - {x} == s;
  }

  /** The sum only looks at the values of f on s. */
  lemma {:induction false} SumCongruent<T>(s: set<T>, f: T -> int, g: T -> int)
    requires forall x :: x in s ==> f(x) == g(x)
    ensures Sum(s, f) == Sum(s, g)
    decreases s
  {
    if s != {} {
      var x :| x in s;
      SumRemove(s, f, x);
      SumRemove(s, g, x);
      SumCongruent(s - {x}, f, g);
    }
  }

  /** Values that are never negative have a sum that is never negative. */
  lemma {:induction false} SumNonNegative<T>(s: set<T>, f: T -> int)
    requires forall x :: x in s ==> f(x) >= 0
    ensures Sum(s, f) >= 0
    decreases s
  {
    if s != {} {
      var x :| x in s;
      SumRemove(s, f, x);
      SumNonNegative(s - {x}, f);
    }
  }

  /** The sum over a disjoint union is the sum of the sums. */
  lemma {:induction false} SumDisjointUnion<T>(a: set<T>, b: set<T>, f: T -> int)
    requires a !! b
    ensures Sum(a + b, f) == Sum(a, f) + Sum(b, f)
    decreases a
  {
    if a != {} {
      var x :| x in a;
      SumRemove(a, f, x);
      SumRemove(a + b, f, x);
      assert a + b - {x} == (a - {x}) + b;
      SumDisjointUnion(a - {x}, b, f);
    } else {
      assert a + b == b;
    }
  }

  /**
   * Changing f at one point x, and making sure x is in the set, changes the
   * sum by the difference at x.
   */
  lemma SumPointChange<T>(s: set<T>, f: T -> int, g: T -> int, x: T)
    requires forall y :: y in s && y != x ==> f(y) == g(y)
    ensures Sum(s + {x}, g) == Sum(s, f) - (if x in s then f(x) else 0) + g(x)
  {
    SumRemove(s + {x}, g, x);
    SumCongruent(s - {x}, f, g);
    assert s + {x} - {x} == s - {x};
    if x in s {
      SumRemove(s, f, x);
    } else {
      assert s - {x} == s;
    }
  }

  /** The set of p + w for w in s. */
  ghost function Prepend<T>(p: seq<T>, s: set<seq<T>>): (r: set<seq<T>>)
    ensures forall w :: w in s ==> p + w in r
  {
    set w | w in s :: p + w
  }

  /** Prepending a fixed p is injective, so it leaves sums unchanged. */
  lemma {:induction false} SumPrepend<T>(p: seq<T>, s: set<seq<T>>, f: seq<T> -> int, g: seq<T> -> int)
    requires forall w :: w in s ==> g(w) == f(p + w)
    ensures Sum(Prepend(p, s), f) == Sum(s, g)
    decreases s
  {
    if s != {} {
      var w :| w in s;
      SumRemove(s, g, w);
      SumRemove(Prepend(p, s), f, p + w);
      assert Prepend(p, s) - {p + w} == Prepend(p, s - {w}) by {
        forall v | v in Prepend(p, s) - {p + w} ensures v in Prepend(p, s - {w}) {
          var u :| u in s && v == p + u;
          assert u != w;
        }
        forall v | v in Prepend(p, s - {w}) ensures v in Prepend(p, s) - {p + w} {
          var u :| u in s - {w} && v == p + u;
          assert v[|p|..] == u && (p + w)[|p|..] == w;
        }
      }
      SumPrepend(p, s - {w}, f, g);
    }
  }
}
