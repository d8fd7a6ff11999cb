/** The two orders a pending list can be in, and splicing one job into it. */
module Ordering {
  import opened Jobs

  /** Execution times never decrease along the list. */
  predicate Sorted(s: seq<Job>) {
    forall i, j :: 0 <= i < j < |s| ==> ExecTime(s[i]) <= ExecTime(s[j])
  }

  /** Jobs are in order of (execution time, submission time). */
  predicate KeySorted(s: seq<Job>) {
    forall i, j :: 0 <= i < j < |s| ==> !KeyLess(s[j], s[i])
  }

  function Last(s: seq<Job>): Job
    requires |s| > 0
  {
    s[|s| - 1]
  }

  /** `s` with `x` placed at index `k`; every other job keeps its relative order. */
  function Splice(s: seq<Job>, k: nat, x: Job): (r: seq<Job>)
    requires k <= |s|
    ensures |r| == |s| + 1 && r[k] == x
    ensures forall i {:trigger r[i]} :: 0 <= i < k ==> r[i] == s[i]
    ensures forall i {:trigger r[i]} :: k < i <= |s| ==> r[i] == s[i - 1]
    ensures multiset(r) == multiset(s) + multiset{x}
  {
    assert s == s[..k] + s[k..];
    s[..k] + [x] + s[k..]
  }

  lemma KeySortedIsSorted(s: seq<Job>)
    requires KeySorted(s)
    ensures Sorted(s)
  {
    forall i, j | 0 <= i < j < |s|
      ensures ExecTime(s[i]) <= ExecTime(s[j])
    {
      assert !KeyLess(s[j], s[i]);
    }
  }

  /** Splicing a job between neighbours whose execution times bracket its own
      keeps the list sorted. */
  lemma SpliceSorted(s: seq<Job>, k: nat, x: Job)
    requires Sorted(s) && k <= |s|
    requires k > 0 ==> ExecTime(s[k - 1]) <= ExecTime(x)
    requires k < |s| ==> ExecTime(x) <= ExecTime(s[k])
    ensures Sorted(Splice(s, k, x))
  {
    var r := Splice(s, k, x);
    forall i, j | 0 <= i < j < |r|
      ensures ExecTime(r[i]) <= ExecTime(r[j])
    {
      if j < k {
        assert r[i] == s[i] && r[j] == s[j];
      } else if j == k {
        assert r[i] == s[i];
        assert ExecTime(s[i]) <= ExecTime(s[k - 1]);
      } else if i < k {
        assert r[i] == s[i] && r[j] == s[j - 1];
        assert ExecTime(s[i]) <= ExecTime(s[j - 1]);
      } else if i == k {
        assert r[j] == s[j - 1];
        assert ExecTime(s[k]) <= ExecTime(s[j - 1]);
      } else {
        assert r[i] == s[i - 1] && r[j] == s[j - 1];
      }
    }
  }

  /** The same for the (execution time, submission time) order. */
  lemma SpliceKeySorted(s: seq<Job>, k: nat, x: Job)
    requires KeySorted(s) && k <= |s|
    requires k > 0 ==> !KeyLess(x, s[k - 1])
    requires k < |s| ==> !KeyLess(s[k], x)
    ensures KeySorted(Splice(s, k, x))
  {
    var r := Splice(s, k, x);
    forall i, j | 0 <= i < j < |r|
      ensures !KeyLess(r[j], r[i])
    {
      if j < k {
        assert r[i] == s[i] && r[j] == s[j];
      } else if j == k {
        assert r[i] == s[i];
        assert !KeyLess(s[k - 1], s[i]);
      } else if i < k {
        assert r[i] == s[i] && r[j] == s[j - 1];
        assert !KeyLess(s[j - 1], s[i]);
      } else if i == k {
        assert r[j] == s[j - 1];
        assert !KeyLess(s[j - 1], s[k]);
      } else {
        assert r[i] == s[i - 1] && r[j] == s[j - 1];
      }
    }
  }
}
