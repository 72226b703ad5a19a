/**
 * The two sequence operations behind the store's queries: keeping the rows a
 * WHERE clause selects (and JavaScript's Array.prototype.filter), and putting
 * rows in the order an ORDER BY clause asks for.
 */
module Seqs {
  import opened Wrappers

  /** s[i] is the first element of s that satisfies p. */
  predicate FirstAt<T>(s: seq<T>, p: T -> bool, i: int)
  {
    0 <= i < |s| && p(s[i]) && forall j :: 0 <= j < i ==> !p(s[j])
  }

  /** The first element of s that satisfies p, as `SELECT ... WHERE p` followed by fetchone(). */
  function FirstWhere<T(!new)>(s: seq<T>, p: T -> bool): (r: Option<T>)
    ensures r.Some? <==> exists i :: 0 <= i < |s| && p(s[i])
    ensures r.Some? ==> exists i :: FirstAt(s, p, i) && s[i] == r.value
  {
    if s == [] then None
    else if p(s[0]) then Some(s[0])
    else
      var r := FirstWhere(s[1..], p);
      FirstWhereShift(s, p, r);
      r
  }

  lemma FirstWhereShift<T(!new)>(s: seq<T>, p: T -> bool, r: Option<T>)
    requires s != [] && !p(s[0])
    requires r.Some? <==> exists i :: 0 <= i < |s[1..]| && p(s[1..][i])
    requires r.Some? ==> exists i :: FirstAt(s[1..], p, i) && s[1..][i] == r.value
    ensures r.Some? <==> exists i :: 0 <= i < |s| && p(s[i])
    ensures r.Some? ==> exists i :: FirstAt(s, p, i) && s[i] == r.value
  {
    if exists i :: 0 <= i < |s| && p(s[i]) {
      var i :| 0 <= i < |s| && p(s[i]);
      assert s[1..][i - 1] == s[i];
    }
    if r.Some? {
      var i :| FirstAt(s[1..], p, i) && s[1..][i] == r.value;
      assert forall j :: 0 <= j < i + 1 ==> !p(s[j]) by {
        forall j | 0 <= j < i + 1 ensures !p(s[j]) {
          if j > 0 { assert s[j] == s[1..][j - 1]; }
        }
      }
      assert s[i + 1] == r.value && FirstAt(s, p, i + 1);
    }
  }

  /** The elements of s for which keep holds, in their original order. */
  function Filter<T(!new)>(s: seq<T>, keep: T -> bool): (r: seq<T>)
    ensures |r| <= |s|
    ensures forall x :: x in r <==> x in s && keep(x)
  {
    if s == [] then []
    else
      assert s == [s[0]] + s[1..];
      (if keep(s[0]) then [s[0]] else []) + Filter(s[1..], keep)
  }

  /** Filter keeps every copy of a kept element and no copy of a dropped one. */
  lemma {:induction false} FilterMultiset<T(!new)>(s: seq<T>, keep: T -> bool)
    ensures forall x :: multiset(Filter(s, keep))[x] == if keep(x) then multiset(s)[x] else 0
  {
    if s != [] {
      FilterMultiset(s[1..], keep);
      assert s == [s[0]] + s[1..];
    }
  }

  /** Filtering distributes over concatenation, so the kept elements keep their relative order. */
  lemma {:induction false} FilterAppend<T(!new)>(a: seq<T>, b: seq<T>, keep: T -> bool)
    ensures Filter(a + b, keep) == Filter(a, keep) + Filter(b, keep)
  {
    if a == [] {
      assert a + b == b;
    } else {
      var head: seq<T> := if keep(a[0]) then [a[0]] else [];
      FilterAppend(a[1..], b, keep);
      assert (a + b)[0] == a[0] && (a + b)[1..] == a[1..] + b;
      assert Filter(a + b, keep) == head + Filter(a[1..] + b, keep);
      assert Filter(a, keep) == head + Filter(a[1..], keep);
    }
  }

  /** Filtering with a test that holds for every element changes nothing. */
  lemma {:induction false} FilterKeepsAll<T(!new)>(s: seq<T>, keep: T -> bool)
    requires forall i :: 0 <= i < |s| ==> keep(s[i])
    ensures Filter(s, keep) == s
  {
    if s != [] {
      FilterKeepsAll(s[1..], keep);
      assert s == [s[0]] + s[1..];
    }
  }

  /** Filtering twice, with a second test that implies the first, is filtering once with the second. */
  lemma {:induction false} FilterFilter<T(!new)>(s: seq<T>, first: T -> bool, second: T -> bool)
    requires forall x :: second(x) ==> first(x)
    ensures Filter(Filter(s, first), second) == Filter(s, second)
  {
    if s != [] {
      FilterFilter(s[1..], first, second);
      var head: seq<T> := if first(s[0]) then [s[0]] else [];
      FilterAppend(head, Filter(s[1..], first), second);
      if first(s[0]) {
        assert Filter(head, second) == (if second(s[0]) then [s[0]] else []) + Filter([], second);
      }
    }
  }

  /** Two tests that agree on every element of s select the same elements. */
  lemma {:induction false} FilterAgree<T(!new)>(s: seq<T>, p: T -> bool, q: T -> bool)
    requires forall i :: 0 <= i < |s| ==> p(s[i]) == q(s[i])
    ensures Filter(s, p) == Filter(s, q)
  {
    if s != [] {
      assert forall i :: 0 <= i < |s[1..]| ==> s[1..][i] == s[i + 1];
      FilterAgree(s[1..], p, q);
    }
  }

  /** Filtering with a test that fails for every element leaves nothing. */
  lemma {:induction false} FilterDropsAll<T(!new)>(s: seq<T>, keep: T -> bool)
    requires forall i :: 0 <= i < |s| ==> !keep(s[i])
    ensures Filter(s, keep) == []
  {
    if s != [] {
      assert forall i :: 0 <= i < |s[1..]| ==> s[1..][i] == s[i + 1];
      FilterDropsAll(s[1..], keep);
    }
  }

  /** Elements the test drops on either side of m do not change what it selects. */
  lemma FilterAround<T(!new)>(a: seq<T>, m: seq<T>, c: seq<T>, keep: T -> bool)
    requires forall i :: 0 <= i < |a| ==> !keep(a[i])
    requires forall i :: 0 <= i < |c| ==> !keep(c[i])
    ensures Filter(a + m + c, keep) == Filter(m, keep)
  {
    FilterAppend(a + m, c, keep);
    FilterAppend(a, m, keep);
    FilterDropsAll(a, keep);
    FilterDropsAll(c, keep);
  }

  /** Filtering keeps an ordering: a subsequence of a sorted sequence is sorted. */
  lemma {:induction false} FilterSorted<T(!new)>(s: seq<T>, keep: T -> bool, lt: (T, T) -> bool)
    requires SortedBy(s, lt)
    ensures SortedBy(Filter(s, keep), lt)
  {
    if s != [] {
      FilterSorted(s[1..], keep, lt);
      var rest := Filter(s[1..], keep);
      assert forall k :: 0 <= k < |rest| ==> rest[k] in s[1..];
      assert forall x :: x in s[1..] ==> lt(s[0], x);
    }
  }

  /** Appending an element that comes after every element keeps a sequence sorted. */
  lemma AppendSorted<T(!new)>(s: seq<T>, x: T, lt: (T, T) -> bool)
    requires SortedBy(s, lt)
    requires forall k :: 0 <= k < |s| ==> lt(s[k], x)
    ensures SortedBy(s + [x], lt)
  {
    var r := s + [x];
    forall i, j | 0 <= i < j < |r| ensures lt(r[i], r[j]) {
      if j < |s| { assert r[i] == s[i] && r[j] == s[j]; }
    }
  }

  /** Filtering out exactly one position removes that element and keeps the rest in order. */
  lemma FilterDropsOne<T(!new)>(s: seq<T>, keep: T -> bool, i: int)
    requires 0 <= i < |s| && !keep(s[i])
    requires forall k :: 0 <= k < |s| && k != i ==> keep(s[k])
    ensures Filter(s, keep) == s[..i] + s[i + 1..]
  {
    var before, after := s[..i], s[i + 1..];
    PartsKept(s, keep, i, before, after);
    FilterKeepsAll(before, keep);
    FilterKeepsAll(after, keep);
    FilterDropsMiddle(before, s[i], after, keep);
  }

  /** The runs before and after position i pass the test, and s is made of them and s[i]. */
  lemma PartsKept<T(!new)>(s: seq<T>, keep: T -> bool, i: int, before: seq<T>, after: seq<T>)
    requires 0 <= i < |s| && before == s[..i] && after == s[i + 1..]
    requires forall k :: 0 <= k < |s| && k != i ==> keep(s[k])
    ensures forall k :: 0 <= k < |before| ==> keep(before[k])
    ensures forall k :: 0 <= k < |after| ==> keep(after[k])
    ensures s == before + [s[i]] + after
  {
    assert forall k :: 0 <= k < |after| ==> after[k] == s[i + 1 + k];
  }

  /** Filtering drops a failing element between two runs that pass. */
  lemma FilterDropsMiddle<T(!new)>(before: seq<T>, x: T, after: seq<T>, keep: T -> bool)
    requires Filter(before, keep) == before && !keep(x) && Filter(after, keep) == after
    ensures Filter(before + [x] + after, keep) == before + after
  {
    var single := [x];
    FilterDropsAll(single, keep);
    var front := before + single;
    FilterAppend(before, single, keep);
    assert Filter(front, keep) == before;
    FilterAppend(front, after, keep);
  }





  /** le is a total preorder: any two elements compare, and comparison chains. */
  ghost predicate TotalPreorder<T(!new)>(le: (T, T) -> bool)
  {
    && (forall a, b :: le(a, b) || le(b, a))
    && (forall a, b, c :: le(a, b) && le(b, c) ==> le(a, c))
  }

  /** Every element of s comes no later than each element after it. */
  ghost predicate SortedBy<T(!new)>(s: seq<T>, le: (T, T) -> bool)
  {
    forall i, j :: 0 <= i < j < |s| ==> le(s[i], s[j])
  }

  /** x placed before the first element of s that x does not come before. */
  function InsertBy<T(!new)>(x: T, s: seq<T>, le: (T, T) -> bool): (r: seq<T>)
    requires TotalPreorder(le) && SortedBy(s, le)
    ensures SortedBy(r, le)
    ensures multiset(r) == multiset(s) + multiset{x}
    ensures |r| == |s| + 1
  {
    if s == [] then [x]
    else if le(x, s[0]) then
      assert s == [s[0]] + s[1..];
      [x] + s
    else
      var rest := InsertBy(x, s[1..], le);
      assert s == [s[0]] + s[1..];
      assert le(s[0], x);
      assert forall k :: 0 <= k < |rest| ==> le(s[0], rest[k]) by {
        forall k | 0 <= k < |rest| ensures le(s[0], rest[k]) {
          assert rest[k] in multiset(rest);
        }
      }
      [s[0]] + rest
  }

  /** Insertion sort: the elements of s, ordered by le. */
  function SortBy<T(!new)>(s: seq<T>, le: (T, T) -> bool): (r: seq<T>)
    requires TotalPreorder(le)
    ensures SortedBy(r, le)
    ensures multiset(r) == multiset(s)
    ensures |r| == |s|
  {
    if s == [] then []
    else
      assert s == [s[0]] + s[1..];
      InsertBy(s[0], SortBy(s[1..], le), le)
  }
}
