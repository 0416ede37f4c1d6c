/** Chronological order of the collected timestamps (`dates = sorted(dates)`). */
module Sorting {

  /** Every earlier position holds a value no larger than every later one. */
  predicate Ascending(s: seq<int>)
  {
    forall j, k :: 0 <= j < k < |s| ==> s[j] <= s[k]
  }

  /** The adjacent-pairs form of the same order. */
  predicate AdjacentAscending(s: seq<int>)
  {
    forall k :: 0 <= k < |s| - 1 ==> s[k] <= s[k + 1]
  }

  /** Checking adjacent pairs is enough to know the whole sequence is in order. */
  lemma {:induction false} AdjacentAscendingIff(s: seq<int>)
    ensures Ascending(s) <==> AdjacentAscending(s)
  {
    if AdjacentAscending(s) && |s| >= 2 {
      var t := s[1..];
      assert AdjacentAscending(t) by {
        forall k | 0 <= k < |t| - 1 ensures t[k] <= t[k + 1] {
          assert t[k] == s[k + 1] && t[k + 1] == s[k + 2];
        }
      }
      AdjacentAscendingIff(t);
      forall j, k | 0 <= j < k < |s| ensures s[j] <= s[k] {
        if j == 0 {
          assert s[0] <= s[1];
          if k > 1 { assert t[0] <= t[k - 1]; }
        } else {
          assert t[j - 1] <= t[k - 1];
        }
      }
    }
  }

  /** Places `x` in front of the first element not smaller than it. */
  function Insert(x: int, s: seq<int>): (r: seq<int>)
    requires Ascending(s)
    ensures |r| == |s| + 1
    ensures r[0] == x || (s != [] && r[0] == s[0])
    ensures Ascending(r)
    ensures multiset(r) == multiset(s) + multiset{x}
  {
    if s == [] || x <= s[0] then
      [x] + s
    else
      assert s == [s[0]] + s[1..];
      [s[0]] + Insert(x, s[1..])
  }

  /** The ingested timestamps in ascending order. */
  function SortAscending(s: seq<int>): (r: seq<int>)
    ensures Ascending(r)
    ensures multiset(r) == multiset(s)
  {
    if s == [] then
      []
    else
      assert s == [s[0]] + s[1..];
      Insert(s[0], SortAscending(s[1..]))
  }

  /** The first element of an ascending sequence is its least value. */
  lemma HeadIsLeast(r: seq<int>, x: int)
    requires Ascending(r) && r != [] && x in multiset(r)
    ensures r[0] <= x
  {
    assert x in r;
    var k :| 0 <= k < |r| && r[k] == x;
  }

  lemma TailMultiset(r: seq<int>)
    requires r != []
    ensures multiset(r[1..]) == multiset(r) - multiset{r[0]}
  {
    assert r == [r[0]] + r[1..];
  }

  /** Two ascending arrangements of the same values are equal: any correct
      sort of the timestamps yields exactly the sequence `SortAscending` gives. */
  lemma {:induction false} AscendingPermutationUnique(r: seq<int>, t: seq<int>)
    requires Ascending(r) && Ascending(t)
    requires multiset(r) == multiset(t)
    ensures r == t
  {
    assert |r| == |multiset(r)| == |multiset(t)| == |t|;
    if r != [] {
      HeadIsLeast(r, t[0]);
      HeadIsLeast(t, r[0]);
      assert r[0] == t[0];
      TailMultiset(r);
      TailMultiset(t);
      assert multiset(r[1..]) == multiset(t[1..]);
      AscendingPermutationUnique(r[1..], t[1..]);
      assert r == [r[0]] + r[1..];
      assert t == [t[0]] + t[1..];
    }
  }
}
