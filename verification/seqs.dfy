/** Counting over sequences, the one aggregation every query in the
    analysis layer performs in its loop over the vertices. */
module Seqs {

  /** No element occurs twice (a graph's vertex sequence has this shape). */
  predicate Distinct<T(==)>(s: seq<T>) {
    forall i, j :: 0 <= i < j < |s| ==> s[i] != s[j]
  }

  /** The number of positions of `s` whose element satisfies `P`,
      counted in iteration order as a `for` loop with a counter does. */
  function CountIf<T>(s: seq<T>, P: T -> bool): (n: nat)
    ensures n <= |s|
  {
    if |s| == 0 then 0
    else CountIf(s[..|s| - 1], P) + (if P(s[|s| - 1]) then 1 else 0)
  }

  /** The count is zero exactly when no element satisfies `P`. */
  lemma {:induction false} CountIfZero<T>(s: seq<T>, P: T -> bool)
    ensures CountIf(s, P) == 0 <==> forall i :: 0 <= i < |s| ==> !P(s[i])
  {
    if |s| > 0 {
      var s' := s[..|s| - 1];
      assert forall i :: 0 <= i < |s'| ==> s'[i] == s[i];
      CountIfZero(s', P);
    }
  }

  /** The elements of `s` that satisfy `P`, in their order in `s`. */
  function Filter<T(!new)>(s: seq<T>, P: T -> bool): (r: seq<T>)
    ensures |r| == CountIf(s, P)
    ensures forall x :: x in r <==> x in s && P(x)
  {
    if |s| == 0 then []
    else
      var s' := s[..|s| - 1];
      assert forall x :: x in s <==> x in s' || x == s[|s| - 1] by {
        assert s == s' + [s[|s| - 1]];
      }
      Filter(s', P) + (if P(s[|s| - 1]) then [s[|s| - 1]] else [])
  }

  /** Counting the first `i + 1` elements adds the `i`-th element's
      contribution to the count of the first `i`. */
  lemma CountIfStep<T>(s: seq<T>, P: T -> bool, i: nat)
    requires i < |s|
    ensures CountIf(s[..i + 1], P) == CountIf(s[..i], P) + (if P(s[i]) then 1 else 0)
  {
    assert s[..i + 1][..i] == s[..i];
  }

  /** The first element satisfying `P` brings the count of the prefix
      ending at it to one. */
  lemma CountIfFirstHit<T>(s: seq<T>, P: T -> bool, i: nat)
    requires i < |s| && P(s[i])
    requires forall t :: 0 <= t < i ==> !P(s[t])
    ensures CountIf(s[..i + 1], P) == 1
  {
    CountIfStep(s, P, i);
    CountIfZero(s[..i], P);
  }

  /** Weakening the predicate never lowers the count. */
  lemma {:induction false} CountIfMonotone<T>(s: seq<T>, P: T -> bool, Q: T -> bool)
    requires forall i :: 0 <= i < |s| && P(s[i]) ==> Q(s[i])
    ensures CountIf(s, P) <= CountIf(s, Q)
  {
    if |s| > 0 {
      var s' := s[..|s| - 1];
      assert forall i :: 0 <= i < |s'| ==> s'[i] == s[i];
      CountIfMonotone(s', P, Q);
    }
  }

  /** On a sequence without repetitions the positional count is the size
      of the set of satisfying elements. */
  lemma {:induction false} CountIfIsSetSize<T>(s: seq<T>, P: T -> bool, S: set<T>)
    requires Distinct(s)
    requires forall x :: x in S <==> x in s && P(x)
    ensures CountIf(s, P) == |S|
  {
    if |s| == 0 {
      assert S == {};
    } else {
      var s' := s[..|s| - 1];
      var last := s[|s| - 1];
      assert Distinct(s');
      assert last !in s';
      assert forall x :: x in s <==> x in s' || x == last by {
        assert s == s' + [last];
      }
      if P(last) {
        CountIfIsSetSize(s', P, S - {last});
      } else {
        CountIfIsSetSize(s', P, S);
      }
    }
  }

  /** Whether an element's key equals `d`. */
  function KeyIs<T>(key: T -> int, d: int): T -> bool {
    x => key(x) == d
  }

  /** Position `j` holds the first element of `s` whose key is at least
      every element's key. */
  predicate IsFirstMax<T>(s: seq<T>, key: T -> int, j: int) {
    && 0 <= j < |s|
    && (forall t :: 0 <= t < |s| ==> key(s[t]) <= key(s[j]))
    && (forall t :: 0 <= t < j ==> key(s[t]) < key(s[j]))
  }

  /** There is only one first maximum. */
  lemma FirstMaxUnique<T>(s: seq<T>, key: T -> int, j: int, k: int)
    requires IsFirstMax(s, key, j) && IsFirstMax(s, key, k)
    ensures j == k
  {
    assert key(s[j]) == key(s[k]);
  }

  /** Some element of a non-empty set, the same one every time it is asked. */
  ghost function Pick<T>(s: set<T>): (x: T)
    requires s != {}
    ensures x in s
  {
    var x :| x in s; x
  }
}
