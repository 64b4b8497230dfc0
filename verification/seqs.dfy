/** Sequence operations shared by the stores: the list comprehension
    `[x for x in s if keep(x)]`, the generator search
    `next((x for x in s if p(x)), None)` and the order-keeping relation
    between a list and what a filter leaves of it.
 */
module Seqs {
  import opened Common

  /** `[x for x in s if keep(x)]`. */
  function Filter<T(==,!new)>(s: seq<T>, keep: T -> bool): (r: seq<T>)
    ensures |r| <= |s|
    ensures forall x :: x in r <==> x in s && keep(x)
  {
    if |s| == 0 then []
    else (if keep(s[0]) then [s[0]] else []) + Filter(s[1..], keep)
  }

  /** `r` is `s` with some elements left out and the rest in their order. */
  predicate IsSubsequence<T(==)>(r: seq<T>, s: seq<T>)
    decreases |s|
  {
    if |r| == 0 then true
    else if |s| == 0 then false
    else (r[0] == s[0] && IsSubsequence(r[1..], s[1..])) || IsSubsequence(r, s[1..])
  }

  /** `k` is the position of the first element satisfying `p`. */
  predicate FirstAt<T>(s: seq<T>, p: T -> bool, k: int) {
    && 0 <= k < |s|
    && p(s[k])
    && forall j :: 0 <= j < k ==> !p(s[j])
  }

  /** There is only one first match. */
  lemma FirstAtUnique<T>(s: seq<T>, p: T -> bool, k: int, k': int)
    requires FirstAt(s, p, k) && FirstAt(s, p, k')
    ensures k == k'
  {
  }

  /** The index of the first element satisfying `p`, as Python's
      `next(...)` over a generator and JavaScript's `find` find it. */
  function FirstIndex<T>(s: seq<T>, p: T -> bool): (r: Option<nat>)
    ensures r.Some? ==> FirstAt(s, p, r.value)
    ensures r.None? <==> forall j :: 0 <= j < |s| ==> !p(s[j])
  {
    if |s| == 0 then None
    else if p(s[0]) then Some(0)
    else match FirstIndex(s[1..], p)
      case None => None
      case Some(i) => Some(i + 1)
  }

  /** The number of elements satisfying `p`. */
  function Count<T>(s: seq<T>, p: T -> bool): (n: nat)
    ensures n <= |s|
    ensures n == 0 <==> forall j :: 0 <= j < |s| ==> !p(s[j])
  {
    if |s| == 0 then 0
    else (if p(s[0]) then 1 else 0) + Count(s[1..], p)
  }

  /** Filtering distributes over concatenation: the kept elements of `a`
      come first, in their order, then those of `b`. */
  lemma {:induction false} FilterConcat<T(!new)>(a: seq<T>, b: seq<T>, keep: T -> bool)
    ensures Filter(a + b, keep) == Filter(a, keep) + Filter(b, keep)
  {
    if |a| == 0 {
      assert a + b == b;
    } else {
      assert (a + b)[0] == a[0];
      assert (a + b)[1..] == a[1..] + b;
      FilterConcat(a[1..], b, keep);
    }
  }

  /** A filter that keeps every element returns the list itself. */
  lemma {:induction false} FilterKeepsAll<T(!new)>(s: seq<T>, keep: T -> bool)
    requires forall j :: 0 <= j < |s| ==> keep(s[j])
    ensures Filter(s, keep) == s
  {
    if |s| > 0 {
      assert forall j :: 0 <= j < |s[1..]| ==> keep(s[1..][j]) by {
        forall j | 0 <= j < |s[1..]| ensures keep(s[1..][j]) {
          assert s[1..][j] == s[j + 1];
        }
      }
      FilterKeepsAll(s[1..], keep);
      assert s == [s[0]] + s[1..];
    }
  }

  /** A filter that keeps no element returns the empty list. */
  lemma {:induction false} FilterKeepsNone<T(!new)>(s: seq<T>, keep: T -> bool)
    requires forall j :: 0 <= j < |s| ==> !keep(s[j])
    ensures Filter(s, keep) == []
  {
    if |s| > 0 {
      assert forall j :: 0 <= j < |s[1..]| ==> !keep(s[1..][j]) by {
        forall j | 0 <= j < |s[1..]| ensures !keep(s[1..][j]) {
          assert s[1..][j] == s[j + 1];
        }
      }
      FilterKeepsNone(s[1..], keep);
    }
  }

  /** A filter that drops some element returns a strictly shorter list. */
  lemma {:induction false} FilterShrinks<T(!new)>(s: seq<T>, keep: T -> bool, i: nat)
    requires i < |s| && !keep(s[i])
    ensures |Filter(s, keep)| < |s|
  {
    if i > 0 {
      assert s[1..][i - 1] == s[i];
      FilterShrinks(s[1..], keep, i - 1);
    }
  }

  /** The length of a filter equals the length of the list exactly when
      nothing was dropped. */
  lemma FilterSameLength<T(!new)>(s: seq<T>, keep: T -> bool)
    ensures |Filter(s, keep)| == |s| <==> forall j :: 0 <= j < |s| ==> keep(s[j])
  {
    if forall j :: 0 <= j < |s| ==> keep(s[j]) {
      FilterKeepsAll(s, keep);
    } else {
      var i :| 0 <= i < |s| && !keep(s[i]);
      FilterShrinks(s, keep, i);
    }
  }

  /** What a filter keeps and what it drops add up to the whole list, so a
      filter keeps every copy of every element it does not drop. */
  lemma {:induction false} FilterCount<T(!new)>(s: seq<T>, keep: T -> bool, drop: T -> bool)
    requires forall x :: drop(x) <==> !keep(x)
    ensures |Filter(s, keep)| + Count(s, drop) == |s|
  {
    if |s| > 0 {
      FilterCount(s[1..], keep, drop);
    }
  }

  /** What a filter keeps appears in the original list in the same order. */
  lemma {:induction false} FilterIsSubsequence<T(!new)>(s: seq<T>, keep: T -> bool)
    ensures IsSubsequence(Filter(s, keep), s)
  {
    if |s| > 0 {
      FilterIsSubsequence(s[1..], keep);
      var r := Filter(s, keep);
      if keep(s[0]) {
        assert r == [s[0]] + Filter(s[1..], keep);
        assert r[0] == s[0] && r[1..] == Filter(s[1..], keep);
      } else {
        assert r == Filter(s[1..], keep);
        if |r| > 0 {
          assert IsSubsequence(r, s[1..]);
        }
      }
    }
  }

  /** A list is a subsequence of itself extended at the end. */
  lemma {:induction false} SubsequenceOfPrefix<T>(r: seq<T>, s: seq<T>, t: seq<T>)
    requires IsSubsequence(r, s)
    ensures IsSubsequence(r, s + t)
    decreases |s|
  {
    if |r| > 0 {
      assert |s| > 0;
      assert (s + t)[0] == s[0];
      assert (s + t)[1..] == s[1..] + t;
      if r[0] == s[0] && IsSubsequence(r[1..], s[1..]) {
        SubsequenceOfPrefix(r[1..], s[1..], t);
      } else {
        SubsequenceOfPrefix(r, s[1..], t);
      }
    }
  }
}
