/** Generic facts about sequences: regrouping a concatenation, and the
    multiset of a sequence, used where an order is shown not to matter. */
module Sequences {

  /** Moving one element across a concatenation. */
  lemma Regroup<T>(a: seq<T>, x: T, b: seq<T>)
    ensures (a + [x]) + b == a + ([x] + b)
  {
  }

  /** Removing the element at j takes one copy of it out of the multiset. */
  lemma RemoveAt<T>(t: seq<T>, j: nat)
    requires j < |t|
    ensures multiset(t[..j] + t[j + 1..]) == multiset(t) - multiset{t[j]}
  {
    assert t == t[..j] + [t[j]] + t[j + 1..];
  }

  /** Taking the same element out of two sequences with the same elements
      leaves two sequences with the same elements. */
  lemma RemoveMatching<T>(s: seq<T>, i: nat, t: seq<T>, j: nat)
    requires multiset(s) == multiset(t)
    requires i < |s| && j < |t| && s[i] == t[j]
    ensures multiset(s[..i] + s[i + 1..]) == multiset(t[..j] + t[j + 1..])
  {
    RemoveAt(s, i);
    RemoveAt(t, j);
  }

  /** No element occurs twice. */
  ghost predicate Distinct<T>(s: seq<T>) {
    forall i, j :: 0 <= i < j < |s| ==> s[i] != s[j]
  }

  /** In a sequence without repetitions every element occurs once. */
  lemma {:induction false} DistinctMultiplicity<T>(s: seq<T>, x: T)
    requires Distinct(s)
    ensures multiset(s)[x] == if x in s then 1 else 0
    decreases |s|
  {
    if |s| > 0 {
      var n := |s| - 1;
      var init := s[..n];
      assert s == init + [s[n]];
      assert Distinct(init) by {
        assert forall i :: 0 <= i < n ==> init[i] == s[i];
      }
      assert s[n] !in init by {
        forall i | 0 <= i < n ensures init[i] != s[n] {
          assert init[i] == s[i];
        }
      }
      DistinctMultiplicity(init, x);
    }
  }

  /** Two sequences without repetitions that have the same elements have
      the same multiset: they differ at most in order. */
  lemma SameDistinct<T>(s: seq<T>, t: seq<T>)
    requires Distinct(s) && Distinct(t)
    requires forall x :: x in s <==> x in t
    ensures multiset(s) == multiset(t)
  {
    forall x ensures multiset(s)[x] == multiset(t)[x] {
      DistinctMultiplicity(s, x);
      DistinctMultiplicity(t, x);
    }
  }
}
