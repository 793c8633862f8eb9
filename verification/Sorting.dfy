/** Sorting and deduplication of index lists. */
module Sorting {

  predicate Increasing(s: seq<nat>) {
    forall i, j :: 0 <= i < j < |s| ==> s[i] < s[j]
  }

  predicate NonDecreasing(s: seq<nat>) {
    forall i, j :: 0 <= i < j < |s| ==> s[i] <= s[j]
  }

  predicate Distinct(s: seq<nat>) {
    forall i, j :: 0 <= i < j < |s| ==> s[i] != s[j]
  }

  function InsertNat(x: nat, s: seq<nat>): seq<nat> {
    if s == [] || x <= s[0] then [x] + s else [s[0]] + InsertNat(x, s[1..])
  }

  /** The library sort. */
  function Sort(s: seq<nat>): seq<nat> {
    if s == [] then [] else InsertNat(s[0], Sort(s[1..]))
  }

  lemma {:induction false} InsertCount(x: nat, s: seq<nat>)
    ensures multiset(InsertNat(x, s)) == multiset(s) + multiset{x}
  {
    if s != [] && x > s[0] {
      InsertCount(x, s[1..]);
      assert s == [s[0]] + s[1..];
    }
  }

  lemma {:induction false} InsertSorted(x: nat, s: seq<nat>)
    requires NonDecreasing(s)
    ensures NonDecreasing(InsertNat(x, s)) && forall y :: y in InsertNat(x, s) ==> y == x || y in s
  {
    if s != [] && x > s[0] {
      InsertSorted(x, s[1..]);
      SmallestFirst(s[0], InsertNat(x, s[1..]));
    }
  }

  lemma {:induction false} SmallestFirst(x: nat, s: seq<nat>)
    requires NonDecreasing(s) && forall y :: y in s ==> x <= y
    ensures NonDecreasing([x] + s)
  {
    forall i, j | 0 <= i < j < |s| + 1
      ensures ([x] + s)[i] <= ([x] + s)[j]
    {
      assert s[j - 1] in s;
    }
  }

  lemma {:induction false} LeastFirst(x: nat, s: seq<nat>)
    requires Increasing(s) && forall y :: y in s ==> x < y
    ensures Increasing([x] + s)
  {
    forall i, j | 0 <= i < j < |s| + 1
      ensures ([x] + s)[i] < ([x] + s)[j]
    {
      assert s[j - 1] in s;
    }
  }

  lemma {:induction false} SortCorrect(s: seq<nat>)
    ensures NonDecreasing(Sort(s)) && multiset(Sort(s)) == multiset(s)
  {
    if s != [] {
      SortCorrect(s[1..]);
      InsertSorted(s[0], Sort(s[1..]));
      InsertCount(s[0], Sort(s[1..]));
      assert s == [s[0]] + s[1..];
    }
  }

  lemma {:induction false} SortedStays(s: seq<nat>)
    requires NonDecreasing(s)
    ensures Sort(s) == s
  {
    if s != [] {
      SortedStays(s[1..]);
      assert s == [s[0]] + s[1..];
    }
  }

  lemma {:induction false} SortElements(s: seq<nat>)
    ensures NonDecreasing(Sort(s)) && forall x :: x in Sort(s) <==> x in s
  {
    SortCorrect(s);
    assert forall x :: x in Sort(s) <==> x in multiset(Sort(s));
  }

  lemma {:induction false} DistinctCount(s: seq<nat>, x: nat)
    requires Distinct(s)
    ensures multiset(s)[x] <= 1
  {
    if s != [] {
      DistinctCount(s[1..], x);
      assert s == [s[0]] + s[1..];
      if x == s[0] {
        assert x !in s[1..];
      }
    }
  }

  lemma {:induction false} TwiceCounts(s: seq<nat>, i: nat, j: nat)
    requires i < j < |s| && s[i] == s[j]
    ensures multiset(s)[s[i]] >= 2
  {
    assert s == s[..i] + [s[i]] + s[i + 1..j] + [s[j]] + s[j + 1..];
  }

  /** Sorting distinct indices gives an increasing sequence of the same indices. */
  lemma {:induction false} SortDistinct(s: seq<nat>)
    requires Distinct(s)
    ensures Increasing(Sort(s)) && forall x :: x in Sort(s) <==> x in s
  {
    SortCorrect(s);
    SortElements(s);
    var r := Sort(s);
    forall i, j | 0 <= i < j < |r|
      ensures r[i] < r[j]
    {
      if r[i] == r[j] {
        TwiceCounts(r, i, j);
        DistinctCount(s, r[i]);
      }
    }
  }

  /** `dedup`: removes adjacent repetitions. */
  function Dedup(s: seq<nat>): seq<nat> {
    if |s| < 2 then s else if s[0] == s[1] then Dedup(s[1..]) else [s[0]] + Dedup(s[1..])
  }

  lemma {:induction false} DedupElements(s: seq<nat>, x: nat)
    ensures x in Dedup(s) <==> x in s
  {
    if |s| >= 2 {
      DedupElements(s[1..], x);
      assert s == [s[0]] + s[1..] && s[1] in s[1..];
    }
  }

  lemma {:induction false} DedupIncreasing(s: seq<nat>)
    requires NonDecreasing(s)
    ensures Increasing(Dedup(s))
  {
    if |s| >= 2 {
      var rest := s[1..];
      DedupIncreasing(rest);
      if s[0] != s[1] {
        forall y | y in Dedup(rest)
          ensures s[0] < y
        {
          DedupElements(rest, y);
          AboveHead(s, y);
        }
        LeastFirst(s[0], Dedup(rest));
      }
    }
  }

  lemma {:induction false} AboveHead(s: seq<nat>, y: nat)
    requires NonDecreasing(s) && |s| >= 2 && s[0] != s[1] && y in s[1..]
    ensures s[0] < y
  {
    var k :| 0 <= k < |s[1..]| && s[1..][k] == y;
    assert s[1] <= s[k + 1] == y;
  }

  lemma {:induction false} IncreasingStays(s: seq<nat>)
    requires Increasing(s)
    ensures Dedup(s) == s
  {
    if |s| >= 2 {
      IncreasingStays(s[1..]);
      assert s == [s[0]] + s[1..];
    }
  }

  function SortedSet(s: seq<nat>): seq<nat> {
    Dedup(Sort(s))
  }

  /** The sorted, repetition-free form is the list itself exactly if the list was increasing. */
  lemma {:induction false} SortedSetExactly(s: seq<nat>)
    ensures Increasing(SortedSet(s)) && (forall x :: x in SortedSet(s) <==> x in s)
    ensures SortedSet(s) == s <==> Increasing(s)
  {
    SortElements(s);
    DedupIncreasing(Sort(s));
    forall x: nat
      ensures x in SortedSet(s) <==> x in s
    {
      DedupElements(Sort(s), x);
    }
    if Increasing(s) {
      SortedStays(s);
      IncreasingStays(s);
    }
  }
}
