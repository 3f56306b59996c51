/** A sequence that lists a set: each element once, in any order. */
module Listing {
  ghost predicate Lists<T>(s: seq<T>, elements: set<T>) {
    multiset(s) == multiset(elements)
  }

  lemma ListsOneMore<T>(s: seq<T>, elements: set<T>, x: T)
    requires Lists(s, elements) && x !in elements
    ensures Lists(s + [x], elements + {x})
  {
  }

  /** A loop that takes x out of todo has visited one more element of all. */
  lemma VisitedOneMore<T>(all: set<T>, todo: set<T>, x: T)
    requires x in todo && todo <= all
    ensures all - (todo - {x}) == (all - todo) + {x}
    ensures x !in all - todo
  {
  }

  lemma CountsAgree<T>(s: seq<T>, elements: set<T>)
    requires Lists(s, elements)
    ensures |s| == |elements|
  {
    assert |multiset(s)| == |s|;
    assert |multiset(elements)| == |elements|;
  }

  lemma ListsMembers<T>(s: seq<T>, elements: set<T>)
    requires Lists(s, elements)
    ensures forall x :: x in s <==> x in elements
    ensures |s| == |elements|
    ensures forall i, j | 0 <= i < j < |s| :: s[i] != s[j]
  {
    forall x ensures x in s <==> x in elements {
      assert x in s <==> x in multiset(s);
    }
    CountsAgree(s, elements);
    forall i, j | 0 <= i < j < |s| ensures s[i] != s[j] {
      assert s == s[..j] + [s[j]] + s[j + 1..];
      assert multiset(s)[s[j]] <= 1;
      assert multiset(s) == multiset(s[..j]) + multiset{s[j]} + multiset(s[j + 1..]);
      assert s[j] !in multiset(s[..j]);
      assert s[i] in multiset(s[..j]);
    }
  }

  lemma SameList<T>(s: seq<T>, t: seq<T>, elements: set<T>)
    requires Lists(s, elements)
    ensures Lists(t, elements) <==> multiset(s) == multiset(t)
  {
  }
}
