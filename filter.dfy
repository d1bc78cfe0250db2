/** Index filters: the ascending list of the positions of a sequence whose
    element satisfies a predicate.  The window scan is one such filter; the
    facts about it that do not depend on the window test are proved here
    once, for any predicate. */
module IndexFilter {

  /** The positions of `s` whose element satisfies `p`, in ascending order,
      built by scanning `s` from the front as a loop would. */
  function IndicesWhere<T>(s: seq<T>, p: T -> bool): (r: seq<int>)
    ensures |r| <= |s|
  {
    if s == [] then []
    else
      var last := |s| - 1;
      IndicesWhere(s[..last], p) + (if p(s[last]) then [last] else [])
  }

  predicate StrictlyAscending(s: seq<int>)
  {
    forall i, j :: 0 <= i < j < |s| ==> s[i] < s[j]
  }

  /** `r` lists, in ascending order, exactly the positions of `s` whose
      element satisfies `p`. */
  predicate IsIndicesWhere<T>(r: seq<int>, s: seq<T>, p: T -> bool)
  {
    StrictlyAscending(r) &&
    (forall k :: 0 <= k < |r| ==> 0 <= r[k] < |s| && p(s[r[k]])) &&
    (forall i :: 0 <= i < |s| && p(s[i]) ==> i in r)
  }

  /** `IndicesWhere` is ascending, lists only satisfying positions and misses
      none of them. */
  lemma {:induction false} IndicesWhereIsFilter<T>(s: seq<T>, p: T -> bool)
    ensures IsIndicesWhere(IndicesWhere(s, p), s, p)
  {
    if s != [] {
      var last := |s| - 1;
      var front := s[..last];
      IndicesWhereIsFilter(front, p);
      var r0 := IndicesWhere(front, p);
      var r := IndicesWhere(s, p);
      assert forall k :: 0 <= k < |r0| ==> s[r0[k]] == front[r0[k]];
      forall i | 0 <= i < |s| && p(s[i])
        ensures i in r
      {
        if i < last {
          assert front[i] == s[i];
          assert i in r0;
        }
      }
    }
  }

  /** Two ascending lists with the same elements are equal. */
  lemma {:induction false} AscendingUnique(a: seq<int>, b: seq<int>)
    requires StrictlyAscending(a) && StrictlyAscending(b)
    requires forall x :: x in a <==> x in b
    ensures a == b
  {
    if a != [] {
      assert a[0] in a;
    }
    if b != [] {
      assert b[0] in b;
    }
    if a != [] && b != [] {
      assert a[0] in b && b[0] in a;
      assert a[0] == b[0];
      forall x
        ensures x in a[1..] <==> x in b[1..]
      {
        if x in a[1..] {
          assert x in b && x > a[0];
        }
        if x in b[1..] {
          assert x in a && x > b[0];
        }
      }
      AscendingUnique(a[1..], b[1..]);
      assert a == [a[0]] + a[1..];
      assert b == [b[0]] + b[1..];
    }
  }

  /** The filter's promise determines its result: a list meets it exactly
      when it is `IndicesWhere`. */
  lemma IndicesWhereUnique<T>(r: seq<int>, s: seq<T>, p: T -> bool)
    ensures IsIndicesWhere(r, s, p) <==> r == IndicesWhere(s, p)
  {
    var spec := IndicesWhere(s, p);
    IndicesWhereIsFilter(s, p);
    if IsIndicesWhere(r, s, p) {
      forall x
        ensures x in r <==> x in spec
      {
        if x in r {
          var k :| 0 <= k < |r| && r[k] == x;
        }
        if x in spec {
          var k :| 0 <= k < |spec| && spec[k] == x;
        }
      }
      AscendingUnique(r, spec);
    }
  }

  /** Filtering a prefix yields a prefix of the full result. */
  lemma {:induction false} IndicesWherePrefix<T>(s: seq<T>, n: nat, p: T -> bool)
    requires n <= |s|
    ensures IndicesWhere(s[..n], p) <= IndicesWhere(s, p)
  {
    if n < |s| {
      var last := |s| - 1;
      assert s[..last][..n] == s[..n];
      IndicesWherePrefix(s[..last], n, p);
    } else {
      assert s[..n] == s;
    }
  }

  /** Filtering one more element appends its position when it satisfies `p`. */
  lemma IndicesWhereStep<T>(s: seq<T>, i: nat, p: T -> bool)
    requires i < |s|
    ensures IndicesWhere(s[..i + 1], p) == IndicesWhere(s[..i], p) + (if p(s[i]) then [i] else [])
  {
    assert s[..i + 1][..i] == s[..i];
  }

  /** An ascending list that holds every integer between its first and last
      entries steps by one. */
  lemma ConsecutiveRun(r: seq<int>)
    requires r != [] && StrictlyAscending(r)
    requires forall x :: r[0] <= x <= r[|r| - 1] ==> x in r
    ensures forall t :: 0 <= t < |r| ==> r[t] == r[0] + t
  {
    var t := 0;
    while t < |r| - 1
      invariant 0 <= t < |r|
      invariant forall u :: 0 <= u <= t ==> r[u] == r[0] + u
    {
      var next := r[t] + 1;
      assert r[t] < r[t + 1] <= r[|r| - 1];
      assert next in r;
      var q :| 0 <= q < |r| && r[q] == next;
      assert q > t;
      assert r[t + 1] <= r[q];
      t := t + 1;
    }
  }
}
