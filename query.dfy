/**
 * Row selection as a queryset `.filter(...)` does it: the rows of a table
 * that satisfy a condition, in table order.
 */
module Query {

  /** The elements of `s` satisfying `p`, in their original order. */
  function Filter<T>(s: seq<T>, p: T -> bool): (r: seq<T>)
    ensures |r| <= |s|
    ensures forall x :: x in r ==> x in s && p(x)
  {
    if s == [] then []
    else if p(s[0]) then [s[0]] + Filter(s[1..], p)
    else Filter(s[1..], p)
  }

  /** Filtering keeps every satisfying element as often as it occurs and drops every other one. */
  lemma {:induction false} FilterCount<T>(s: seq<T>, p: T -> bool, x: T)
    ensures multiset(Filter(s, p))[x] == if p(x) then multiset(s)[x] else 0
  {
    if s != [] {
      FilterCount(s[1..], p, x);
      assert s == [s[0]] + s[1..];
    }
  }

  /** An element is selected exactly when it is in `s` and satisfies `p`. */
  lemma FilterExact<T>(s: seq<T>, p: T -> bool, x: T)
    ensures x in Filter(s, p) <==> x in s && p(x)
  {
    FilterCount(s, p, x);
  }

  /**
   * Filtering by a condition and by its negation splits `s`: no element is
   * selected by both, and together the two selections hold every element of `s`.
   */
  lemma {:induction false} FilterPartition<T>(s: seq<T>, p: T -> bool, q: T -> bool)
    requires forall x :: q(x) == !p(x)
    ensures forall x :: !(x in Filter(s, p) && x in Filter(s, q))
    ensures multiset(Filter(s, p)) + multiset(Filter(s, q)) == multiset(s)
    ensures |Filter(s, p)| + |Filter(s, q)| == |s|
  {
    if s != [] {
      FilterPartition(s[1..], p, q);
      assert s == [s[0]] + s[1..];
    }
  }

  /** Replacing an element that `p` rejects by another that `p` rejects leaves the selection unchanged. */
  lemma {:induction false} FilterUpdateRejected<T>(s: seq<T>, p: T -> bool, i: nat, v: T)
    requires i < |s| && !p(s[i]) && !p(v)
    ensures Filter(s[i := v], p) == Filter(s, p)
  {
    if i > 0 {
      FilterUpdateRejected(s[1..], p, i - 1, v);
      assert s[i := v][1..] == s[1..][i - 1 := v];
    }
  }

  /** Appending an element that `p` rejects leaves the selection unchanged. */
  lemma {:induction false} FilterAppendRejected<T>(s: seq<T>, p: T -> bool, v: T)
    requires !p(v)
    ensures Filter(s + [v], p) == Filter(s, p)
  {
    if s != [] {
      FilterAppendRejected(s[1..], p, v);
      assert (s + [v])[1..] == s[1..] + [v];
    }
  }

  /** Appending an element that `p` accepts adds it at the end of the selection. */
  lemma {:induction false} FilterAppendAccepted<T>(s: seq<T>, p: T -> bool, v: T)
    requires p(v)
    ensures Filter(s + [v], p) == Filter(s, p) + [v]
  {
    if s != [] {
      FilterAppendAccepted(s[1..], p, v);
      assert (s + [v])[1..] == s[1..] + [v];
    }
  }
}
