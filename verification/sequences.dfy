/** Selecting the elements of a table or log that satisfy a `where` condition, keeping their order. */
module Sequences {

  /** The elements of `s` that satisfy `p`. */
  function Filter<T(!new)>(s: seq<T>, p: T -> bool): (r: seq<T>)
    ensures forall x :: x in r <==> x in s && p(x)
    ensures |r| <= |s|
  {
    if s == [] then []
    else if p(s[0]) then [s[0]] + Filter(s[1..], p) else Filter(s[1..], p)
  }

  /** `Filter` keeps each selected element exactly as often as it occurs, and drops every other. */
  lemma {:induction false} FilterCounts<T(!new)>(s: seq<T>, p: T -> bool, x: T)
    ensures multiset(Filter(s, p))[x] == if p(x) then multiset(s)[x] else 0
  {
    if s != [] {
      assert s == [s[0]] + s[1..];
      FilterCounts(s[1..], p, x);
    }
  }

  /** A condition that every element meets selects the whole sequence, in order. */
  lemma {:induction false} FilterAll<T(!new)>(s: seq<T>, p: T -> bool)
    requires forall x :: x in s ==> p(x)
    ensures Filter(s, p) == s
  {
    if s != [] {
      FilterAll(s[1..], p);
    }
  }

  /** Appending two pieces one after the other appends their concatenation. Stated as a
      lemma so that a long proof can use the regrouping without searching for it. */
  lemma AppendTwice<T>(s: seq<T>, a: seq<T>, b: seq<T>)
    ensures s + a + b == s + (a + b)
  {
  }
}
