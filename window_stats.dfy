/**
 * Order statistics of one window of samples: the minimum, the maximum and
 * the median that NumPy's `min`, `max` and `median` compute for the
 * adaptive median filter.  A window always has an odd number of samples
 * here, so the median is the middle element of the sorted window and no
 * averaging of two middle values happens.
 */
module WindowStats {

  /** The least sample of a non-empty window. */
  function Min(s: seq<int>): (r: int)
    requires |s| > 0
    ensures r in s
    ensures forall x :: x in s ==> r <= x
  {
    if |s| == 1 then s[0]
    else
      var rest := Min(s[1..]);
      assert forall x :: x in s ==> x == s[0] || x in s[1..];
      if s[0] <= rest then s[0] else rest
  }

  /** The greatest sample of a non-empty window. */
  function Max(s: seq<int>): (r: int)
    requires |s| > 0
    ensures r in s
    ensures forall x :: x in s ==> x <= r
  {
    if |s| == 1 then s[0]
    else
      var rest := Max(s[1..]);
      assert forall x :: x in s ==> x == s[0] || x in s[1..];
      if rest <= s[0] then s[0] else rest
  }

  /** The minimum is the one sample that is at most every sample. */
  lemma MinUnique(s: seq<int>, v: int)
    requires v in s && forall x :: x in s ==> v <= x
    ensures Min(s) == v
  {
  }

  /** The maximum is the one sample that is at least every sample. */
  lemma MaxUnique(s: seq<int>, v: int)
    requires v in s && forall x :: x in s ==> x <= v
    ensures Max(s) == v
  {
  }

  predicate Sorted(s: seq<int>)
  {
    forall i, j :: 0 <= i < j < |s| ==> s[i] <= s[j]
  }

  lemma SortedCons(a: int, t: seq<int>)
    requires Sorted(t)
    requires forall y :: y in t ==> a <= y
    ensures Sorted([a] + t)
  {
    forall i, j | 0 <= i < j < |[a] + t|
      ensures ([a] + t)[i] <= ([a] + t)[j]
    {
      assert ([a] + t)[j] == t[j - 1];
      if 0 < i {
        assert ([a] + t)[i] == t[i - 1];
      } else {
        assert t[j - 1] in t;
      }
    }
  }

  /** Inserts `x` before the first sample of `s` that is at least `x`. */
  function Insert(x: int, s: seq<int>): seq<int>
  {
    if s == [] || x <= s[0] then [x] + s else [s[0]] + Insert(x, s[1..])
  }

  /** Inserting into a sorted sequence keeps it sorted and adds exactly `x`. */
  lemma {:induction false} InsertSorted(x: int, s: seq<int>)
    requires Sorted(s)
    ensures Sorted(Insert(x, s))
    ensures multiset(Insert(x, s)) == multiset(s) + multiset{x}
  {
    if s == [] || x <= s[0] {
      if s != [] {
        assert forall y :: y in s ==> s[0] <= y by {
          forall y | y in s ensures s[0] <= y {
            var k :| 0 <= k < |s| && s[k] == y;
            if k > 0 { assert s[0] <= s[k]; }
          }
        }
      }
      SortedCons(x, s);
    } else {
      assert s == [s[0]] + s[1..];
      var tail := Insert(x, s[1..]);
      InsertSorted(x, s[1..]);
      forall y | y in tail
        ensures s[0] <= y
      {
        assert y in multiset(tail);
        if y != x {
          assert y in multiset(s[1..]);
        }
      }
      SortedCons(s[0], tail);
    }
  }

  /** The window in ascending order (insertion sort). */
  function Sort(s: seq<int>): seq<int>
  {
    if s == [] then [] else Insert(s[0], Sort(s[1..]))
  }

  /** The sorted window is in ascending order and holds exactly the window's samples. */
  lemma {:induction false} SortSorted(s: seq<int>)
    ensures Sorted(Sort(s))
    ensures multiset(Sort(s)) == multiset(s)
    ensures |Sort(s)| == |s|
  {
    if s != [] {
      assert s == [s[0]] + s[1..];
      SortSorted(s[1..]);
      InsertSorted(s[0], Sort(s[1..]));
    }
    assert |Sort(s)| == |multiset(Sort(s))|;
  }

  /** The median of an odd-sized window: the middle of the sorted window. */
  function Median(s: seq<int>): (r: int)
    requires |s| % 2 == 1
    ensures r in s
    ensures Min(s) <= r <= Max(s)
  {
    SortSorted(s);
    var t := Sort(s);
    assert t[|s| / 2] in multiset(s);
    t[|s| / 2]
  }

  // ---------------------------------------------------------------------
  // An independent description of the median by ranks: at least half of
  // the window lies at or below it and at least half at or above it.
  // ---------------------------------------------------------------------

  /** `x` lies at or below `v` (when `below`) or at or above `v` (otherwise). */
  predicate OnSide(x: int, v: int, below: bool)
  {
    if below then x <= v else v <= x
  }

  /** The number of samples of `s` on the given side of `v`. */
  function Count(s: seq<int>, v: int, below: bool): (n: nat)
    ensures n <= |s|
  {
    if s == [] then 0 else (if OnSide(s[0], v, below) then 1 else 0) + Count(s[1..], v, below)
  }

  lemma {:induction false} CountAppend(a: seq<int>, b: seq<int>, v: int, below: bool)
    ensures Count(a + b, v, below) == Count(a, v, below) + Count(b, v, below)
  {
    if a == [] {
      assert a + b == b;
    } else {
      assert (a + b)[1..] == a[1..] + b;
      CountAppend(a[1..], b, v, below);
    }
  }

  lemma {:induction false} CountAll(s: seq<int>, v: int, below: bool)
    requires forall k :: 0 <= k < |s| ==> OnSide(s[k], v, below)
    ensures Count(s, v, below) == |s|
  {
    if s != [] {
      CountAll(s[1..], v, below);
    }
  }

  lemma {:induction false} CountNone(s: seq<int>, v: int, below: bool)
    requires forall k :: 0 <= k < |s| ==> !OnSide(s[k], v, below)
    ensures Count(s, v, below) == 0
  {
    if s != [] {
      CountNone(s[1..], v, below);
    }
  }

  /** Taking out the sample at position k takes it out of the multiset and of the count. */
  lemma RemoveAt(t: seq<int>, k: nat, v: int, below: bool)
    requires k < |t|
    ensures multiset(t[..k] + t[k + 1..]) == multiset(t) - multiset{t[k]}
    ensures Count(t, v, below) == Count(t[..k] + t[k + 1..], v, below) + (if OnSide(t[k], v, below) then 1 else 0)
  {
    var x := t[k];
    assert t == t[..k] + ([x] + t[k + 1..]);
    assert multiset(t) == multiset(t[..k]) + multiset{x} + multiset(t[k + 1..]);
    CountAppend(t[..k], [x] + t[k + 1..], v, below);
    CountAppend(t[..k], t[k + 1..], v, below);
    assert ([x] + t[k + 1..])[1..] == t[k + 1..];
  }

  /** Counting depends only on the multiset of samples. */
  lemma {:induction false} CountPermutation(s: seq<int>, t: seq<int>, v: int, below: bool)
    requires multiset(s) == multiset(t)
    ensures Count(s, v, below) == Count(t, v, below)
  {
    if s == [] {
      assert |t| == |multiset(t)| == 0;
    } else {
      var x := s[0];
      assert x in multiset(t);
      var k :| 0 <= k < |t| && t[k] == x;
      RemoveAt(t, k, v, below);
      assert s == [x] + s[1..];
      assert multiset(s[1..]) == multiset(s) - multiset{x};
      CountPermutation(s[1..], t[..k] + t[k + 1..], v, below);
    }
  }

  /** In a sorted window, `t[k]` and everything before it lie at or below `t[k]`. */
  lemma SortedCountAtMost(t: seq<int>, k: nat)
    requires Sorted(t) && k < |t|
    ensures Count(t, t[k], true) > k
  {
    var pre := t[..k + 1];
    assert t == pre + t[k + 1..];
    CountAppend(pre, t[k + 1..], t[k], true);
    CountAll(pre, t[k], true);
  }

  /** In a sorted window, `t[k]` and everything after it lie at or above `t[k]`. */
  lemma SortedCountAtLeast(t: seq<int>, k: nat)
    requires Sorted(t) && k < |t|
    ensures Count(t, t[k], false) >= |t| - k
  {
    var post := t[k..];
    assert t == t[..k] + post;
    CountAppend(t[..k], post, t[k], false);
    CountAll(post, t[k], false);
  }

  /** The median has at least half the window at or below it and at least half at or above it. */
  lemma MedianRank(s: seq<int>)
    requires |s| % 2 == 1
    ensures Count(s, Median(s), true) > |s| / 2
    ensures Count(s, Median(s), false) > |s| / 2
  {
    var t, k := Sort(s), |s| / 2;
    SortSorted(s);
    assert Median(s) == t[k];
    SortedCountAtMost(t, k);
    SortedCountAtLeast(t, k);
    CountPermutation(s, t, t[k], true);
    CountPermutation(s, t, t[k], false);
  }

  /** In a sorted window, only the samples before position k can lie at or below a value under `t[k]`. */
  lemma SortedAtMostBound(t: seq<int>, k: nat, v: int)
    requires Sorted(t) && k < |t| && v < t[k]
    ensures Count(t, v, true) <= k
  {
    var post := t[k..];
    assert t == t[..k] + post;
    CountAppend(t[..k], post, v, true);
    assert forall i :: 0 <= i < |post| ==> post[i] == t[k + i];
    CountNone(post, v, true);
  }

  /** In a sorted window, only the samples after position k can lie at or above a value over `t[k]`. */
  lemma SortedAtLeastBound(t: seq<int>, k: nat, v: int)
    requires Sorted(t) && k < |t| && t[k] < v
    ensures Count(t, v, false) < |t| - k
  {
    var pre := t[..k + 1];
    assert t == pre + t[k + 1..];
    CountAppend(pre, t[k + 1..], v, false);
    CountNone(pre, v, false);
  }

  /** Conversely, a value with that rank property is the median. */
  lemma MedianByRank(s: seq<int>, v: int)
    requires |s| % 2 == 1
    requires Count(s, v, true) > |s| / 2
    requires Count(s, v, false) > |s| / 2
    ensures Median(s) == v
  {
    var t, k := Sort(s), |s| / 2;
    SortSorted(s);
    assert Median(s) == t[k];
    CountPermutation(s, t, v, true);
    CountPermutation(s, t, v, false);
    if v < t[k] {
      SortedAtMostBound(t, k, v);
    } else if t[k] < v {
      SortedAtLeastBound(t, k, v);
    }
  }
}
