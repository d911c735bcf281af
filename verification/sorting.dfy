/** Collections.sort(list, Collections.reverseOrder()) on a list of certainty
    factors, as the time-range evaluator of the certainty-factor algebra uses it:
    an insertion sort into descending order. */
module Sorting {

  predicate Descending(s: seq<real>) {
    forall i, j :: 0 <= i < j < |s| ==> s[i] >= s[j]
  }

  /** Inserting `x` into a descending list before the first entry it is not below. */
  function Insert(x: real, s: seq<real>): (r: seq<real>)
    ensures |r| == |s| + 1
    ensures multiset(r) == multiset(s) + multiset{x}
    decreases |s|
  {
    if |s| == 0 then [x]
    else if x >= s[0] then [x] + s
    else
      assert s == [s[0]] + s[1..];
      [s[0]] + Insert(x, s[1..])
  }

  lemma TailDescending(s: seq<real>)
    requires |s| > 0 && Descending(s)
    ensures Descending(s[1..])
  {
    forall i, j | 0 <= i < j < |s[1..]| ensures s[1..][i] >= s[1..][j] {
      assert s[1..][i] == s[i + 1] && s[1..][j] == s[j + 1];
    }
  }

  /** Every entry of a list is bounded by a bound of its multiset. */
  lemma BoundedByMultiset(s: seq<real>, t: seq<real>, b: real)
    requires multiset(s) == multiset(t) && forall j :: 0 <= j < |t| ==> b >= t[j]
    ensures forall k :: 0 <= k < |s| ==> b >= s[k]
  {
    forall k | 0 <= k < |s| ensures b >= s[k] {
      assert s[k] in multiset(t);
      var j :| 0 <= j < |t| && t[j] == s[k];
    }
  }

  /** Insertion keeps a list descending. */
  lemma {:induction false} InsertDescending(x: real, s: seq<real>)
    requires Descending(s)
    ensures Descending(Insert(x, s))
    decreases |s|
  {
    if |s| > 0 && x < s[0] {
      var rest := Insert(x, s[1..]);
      TailDescending(s);
      InsertDescending(x, s[1..]);
      BoundedByMultiset(rest, s[1..] + [x], s[0]);
      assert Insert(x, s) == [s[0]] + rest;
    }
  }

  /** The sorted list: the same entries, largest first. */
  function SortDesc(s: seq<real>): (r: seq<real>)
    ensures |r| == |s|
    ensures multiset(r) == multiset(s)
    ensures Descending(r)
    decreases |s|
  {
    if |s| == 0 then []
    else
      assert s == [s[0]] + s[1..];
      InsertDescending(s[0], SortDesc(s[1..]));
      Insert(s[0], SortDesc(s[1..]))
  }

  /** A descending list is its own sort: sorting twice changes nothing. */
  lemma {:induction false} SortDescSorted(s: seq<real>)
    requires Descending(s)
    ensures SortDesc(s) == s
    decreases |s|
  {
    if |s| > 0 {
      TailDescending(s);
      SortDescSorted(s[1..]);
      if |s| > 1 {
        assert s[0] >= s[1..][0];
      }
      assert [s[0]] + s[1..] == s;
    }
  }

  /** In a descending list the non-negative entries come first: an entry that is
      not negative has no negative entry before it. */
  lemma DescendingSigns(s: seq<real>, i: nat, j: nat)
    requires Descending(s) && i < j < |s|
    ensures s[j] >= 0.0 ==> s[i] >= 0.0
    ensures s[i] <= 0.0 ==> s[j] <= 0.0
  {
  }
}
