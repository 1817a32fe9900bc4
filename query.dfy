/** The shapes of the source's SQL queries over a table whose rows are numbered
    0 .. n-1 in creation order: the matching row numbers in ascending or
    descending creation order (`ORDER BY creation`), the first or the newest
    match (`LIMIT 1`), and `SUM(...)` over the matches. */
module Query {
  import opened Wrappers

  /** Row numbers below `n` that satisfy `p`, oldest first. */
  function IndicesAsc(n: nat, p: nat -> bool): (r: seq<nat>)
    ensures forall i: nat :: i in r <==> i < n && p(i)
    ensures forall k :: 0 <= k < |r| ==> r[k] < n
    ensures forall a, b :: 0 <= a < b < |r| ==> r[a] < r[b]
  {
    if n == 0 then []
    else
      var older := IndicesAsc(n - 1, p);
      assert forall a :: 0 <= a < |older| ==> older[a] in older;
      older + (if p(n - 1) then [n - 1] else [])
  }

  /** Row numbers below `n` that satisfy `p`, newest first (`ORDER BY creation DESC`). */
  function IndicesDesc(n: nat, p: nat -> bool): (r: seq<nat>)
    ensures forall i: nat :: i in r <==> i < n && p(i)
    ensures forall k :: 0 <= k < |r| ==> r[k] < n
    ensures forall a, b :: 0 <= a < b < |r| ==> r[a] > r[b]
  {
    if n == 0 then []
    else
      var older := IndicesDesc(n - 1, p);
      assert forall a :: 0 <= a < |older| ==> older[a] in older;
      (if p(n - 1) then [n - 1] else []) + older
  }

  /** The newest row below `n` that satisfies `p` (`ORDER BY creation DESC LIMIT 1`). */
  function LastWhere(n: nat, p: nat -> bool): (r: Option<nat>)
    ensures r.Some? ==> r.value < n && p(r.value) && forall k :: r.value < k < n ==> !p(k)
    ensures r.None? ==> forall k :: 0 <= k < n ==> !p(k)
  {
    if n == 0 then None else if p(n - 1) then Some(n - 1) else LastWhere(n - 1, p)
  }

  /** The oldest row below `n` that satisfies `p` (a `LIMIT 1` or `[0]` with no order). */
  function FirstWhere(n: nat, p: nat -> bool): (r: Option<nat>)
    ensures r.Some? ==> r.value < n && p(r.value) && forall k :: 0 <= k < r.value ==> !p(k)
    ensures r.None? ==> forall k :: 0 <= k < n ==> !p(k)
  {
    FirstFrom(0, n, p)
  }

  function FirstFrom(lo: nat, n: nat, p: nat -> bool): (r: Option<nat>)
    requires lo <= n
    ensures r.Some? ==> lo <= r.value < n && p(r.value) && forall k :: lo <= k < r.value ==> !p(k)
    ensures r.None? ==> forall k :: lo <= k < n ==> !p(k)
    decreases n - lo
  {
    if lo == n then None else if p(lo) then Some(lo) else FirstFrom(lo + 1, n, p)
  }

  /** `SUM(f)` over the rows below `n` that satisfy `p`, with `COALESCE(..., 0)`. */
  function SumWhere(n: nat, p: nat -> bool, f: nat -> int): int
  {
    if n == 0 then 0 else SumWhere(n - 1, p, f) + (if p(n - 1) then f(n - 1) else 0)
  }

  /** A sum with no matching row is zero, which is what `or 0` turns NULL into. */
  lemma {:induction false} SumWhereNone(n: nat, p: nat -> bool, f: nat -> int)
    requires forall k :: 0 <= k < n ==> !p(k)
    ensures SumWhere(n, p, f) == 0
  {
    if n > 0 {
      SumWhereNone(n - 1, p, f);
    }
  }

  /** Sums over two conditions that agree below `n`, of two values that agree
      where the condition holds, are equal. */
  lemma {:induction false} SumWhereCongruent(n: nat, p: nat -> bool, q: nat -> bool, f: nat -> int, g: nat -> int)
    requires forall k :: 0 <= k < n ==> p(k) == q(k) && (p(k) ==> f(k) == g(k))
    ensures SumWhere(n, p, f) == SumWhere(n, q, g)
  {
    if n > 0 {
      SumWhereCongruent(n - 1, p, q, f, g);
    }
  }

  /** A sum of values that are never negative where the condition holds is not negative. */
  lemma {:induction false} SumWhereNonNegative(n: nat, p: nat -> bool, f: nat -> int)
    requires forall k :: 0 <= k < n && p(k) ==> f(k) >= 0
    ensures SumWhere(n, p, f) >= 0
  {
    if n > 0 {
      SumWhereNonNegative(n - 1, p, f);
    }
  }

  /** A sum over a condition that is the disjoint union of two conditions splits. */
  lemma {:induction false} SumWhereSplit(n: nat, p: nat -> bool, q: nat -> bool, pq: nat -> bool, f: nat -> int)
    requires forall k :: 0 <= k < n ==> (pq(k) <==> p(k) || q(k)) && !(p(k) && q(k))
    ensures SumWhere(n, pq, f) == SumWhere(n, p, f) + SumWhere(n, q, f)
  {
    if n > 0 {
      SumWhereSplit(n - 1, p, q, pq, f);
    }
  }

  /** Keeps the elements satisfying `p`, in their order. */
  function Filter<T(!new)>(s: seq<T>, p: T -> bool): (r: seq<T>)
    ensures |r| <= |s|
    ensures forall x :: x in r <==> x in s && p(x)
    ensures forall x :: multiset(r)[x] == if p(x) then multiset(s)[x] else 0
  {
    if s == [] then []
    else
      assert s == [s[0]] + s[1..];
      (if p(s[0]) then [s[0]] else []) + Filter(s[1..], p)
  }

  /** The list back to front (`list[::-1]`). */
  function Reverse<T>(s: seq<T>): (r: seq<T>)
    ensures |r| == |s|
    ensures forall i :: 0 <= i < |s| ==> r[i] == s[|s| - 1 - i]
  {
    seq(|s|, i requires 0 <= i < |s| => s[|s| - 1 - i])
  }

  /** In a strictly decreasing list every element occurs exactly once. */
  lemma {:induction false} DescendingOccursOnce(r: seq<nat>, x: nat)
    requires forall a, b :: 0 <= a < b < |r| ==> r[a] > r[b]
    ensures multiset(r)[x] == if x in r then 1 else 0
  {
    if r != [] {
      assert r == [r[0]] + r[1..];
      DescendingOccursOnce(r[1..], x);
      if x == r[0] {
        assert forall k :: 0 <= k < |r[1..]| ==> r[1..][k] < r[0];
      }
    }
  }

  /** The head of a list is one of its members. */
  lemma HeadListed(r: seq<nat>)
    requires r != []
    ensures r[0] in r
  {
  }

  /** A list of indices with no member is empty. */
  lemma NoMembers(r: seq<nat>)
    requires forall i: nat :: i !in r
    ensures r == []
  {
    if r != [] {
      HeadListed(r);
      assert false;
    }
  }
}
