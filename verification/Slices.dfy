/** Lemmas about Go slices: removing an element by moving the last one into its place. */
module Slices {

  lemma WithoutOne<T>(front: seq<T>, x: T, middle: seq<T>, last: T)
    ensures multiset(front + [last] + middle) == multiset(front + [x] + middle + [last]) - multiset{x}
  {
  }

  lemma SwapPieces<T>(before: seq<T>, after: seq<T>, i: nat)
    requires i < |before| - 1 && |after| == |before| - 1
    requires forall j :: 0 <= j < |after| ==> after[j] == if j == i then before[|before| - 1] else before[j]
    ensures before == before[..i] + [before[i]] + before[i + 1..|before| - 1] + [before[|before| - 1]]
    ensures after == before[..i] + [before[|before| - 1]] + before[i + 1..|before| - 1]
  {
  }

  lemma SwapRemove<T>(before: seq<T>, after: seq<T>, i: nat)
    requires i < |before| && |after| == |before| - 1
    requires forall j :: 0 <= j < |after| ==> after[j] == if j == i then before[|before| - 1] else before[j]
    ensures multiset(after) == multiset(before) - multiset{before[i]}
  {
    if i == |before| - 1 {
      assert before == after + [before[i]];
    } else {
      SwapPieces(before, after, i);
      WithoutOne(before[..i], before[i], before[i + 1..|before| - 1], before[|before| - 1]);
    }
  }

  lemma MoveToFront<T>(s: seq<T>, i: nat)
    requires i < |s|
    ensures multiset([s[i]] + (s[..i] + s[i + 1..])) == multiset(s)
  {
    assert s == s[..i] + ([s[i]] + s[i + 1..]);
  }

  ghost predicate Distinct<T>(s: seq<T>) { forall i, j :: 0 <= i < j < |s| ==> s[i] != s[j] }

  lemma DistinctNext<T>(s: seq<T>, x: T)
    requires Distinct(s)
    ensures Distinct(s + [x]) <==> x !in s
  {
    assert (s + [x])[|s|] == x;
    assert forall i :: 0 <= i < |s| ==> (s + [x])[i] == s[i];
  }

  lemma {:induction false} DistinctCounts<T>(s: seq<T>)
    ensures Distinct(s) <==> forall x :: multiset(s)[x] <= 1
  {
    if s != [] {
      var front, last := s[..|s| - 1], s[|s| - 1];
      assert s == front + [last];
      DistinctCounts(front);
      if last in front {
        assert multiset(s)[last] >= 2;
        var i :| 0 <= i < |front| && front[i] == last;
        assert s[i] == s[|s| - 1];
      } else {
        assert last !in multiset(front);
        assert forall x :: multiset(s)[x] == multiset(front)[x] + if x == last then 1 else 0;
        assert Distinct(front) ==> Distinct(s);
        assert Distinct(s) ==> Distinct(front);
      }
    }
  }

  ghost function Elements<T>(s: seq<T>): set<T> { set x | x in s }

  lemma {:induction false} DistinctSize<T>(s: seq<T>)
    requires Distinct(s)
    ensures |Elements(s)| == |s|
  {
    if s != [] {
      var front, last := s[..|s| - 1], s[|s| - 1];
      DistinctSize(front);
      assert s == front + [last];
      assert Elements(s) == Elements(front) + {last};
    }
  }
}
