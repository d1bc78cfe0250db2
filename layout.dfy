/** Lists of boxes laid out along one axis, each described by an offset and
    a size.  The spacer arithmetic of the window scanner relies on these
    facts; they do not depend on how a box is encoded, so they are proved
    here once, for any offset and size accessors. */
module Layout {

  /** The boxes are laid end to end: each starts where the one before ends. */
  predicate Stacked<T>(s: seq<T>, off: T -> int, len: T -> int)
  {
    forall i, j {:trigger off(s[j]), len(s[i])} ::
      0 <= i && j == i + 1 < |s| ==> off(s[j]) == off(s[i]) + len(s[i])
  }

  /** No box has a negative size. */
  predicate NonNegativeSizes<T>(s: seq<T>, len: T -> int)
  {
    forall k {:trigger len(s[k])} :: 0 <= k < |s| ==> len(s[k]) >= 0
  }

  /** The sum of the sizes of the boxes: the length they take up together. */
  function TotalSize<T>(s: seq<T>, len: T -> int): int
  {
    if s == [] then 0 else TotalSize(s[..|s| - 1], len) + len(s[|s| - 1])
  }

  /** Every stretch of a stacked list is stacked. */
  lemma StackedPart<T>(s: seq<T>, off: T -> int, len: T -> int, lo: nat, hi: nat)
    requires lo <= hi <= |s| && Stacked(s, off, len)
    ensures Stacked(s[lo..hi], off, len)
  {
    var part := s[lo..hi];
    forall i, j | 0 <= i && j == i + 1 < |part|
      ensures off(part[j]) == off(part[i]) + len(part[i])
    {
      assert part[j] == s[lo + j] && part[i] == s[lo + i];
    }
  }

  /** A stacked list ends at its first offset plus the sum of its sizes. */
  lemma {:induction false} StackedSpan<T>(s: seq<T>, off: T -> int, len: T -> int)
    requires s != [] && Stacked(s, off, len)
    ensures off(s[|s| - 1]) + len(s[|s| - 1]) == off(s[0]) + TotalSize(s, len)
  {
    var last := |s| - 1;
    var front := s[..last];
    if last > 0 {
      StackedPart(s, off, len, 0, last);
      assert s[0..last] == front;
      StackedSpan(front, off, len);
      assert front[last - 1] == s[last - 1] && front[0] == s[0];
      var before := last - 1;
      assert off(s[last]) == off(s[before]) + len(s[before]);
    } else {
      assert front == [];
    }
  }

  /** In a stacked list the boxes `first .. last` together are as long as the
      distance from the offset of `first` to the end of `last`. */
  lemma StretchSize<T>(s: seq<T>, off: T -> int, len: T -> int, first: nat, last: nat)
    requires first <= last < |s| && Stacked(s, off, len)
    ensures TotalSize(s[first..last + 1], len) == off(s[last]) + len(s[last]) - off(s[first])
  {
    var stretch := s[first..last + 1];
    StackedPart(s, off, len, first, last + 1);
    StackedSpan(stretch, off, len);
    assert stretch[0] == s[first] && stretch[|stretch| - 1] == s[last];
  }

  /** Along a stacked list of boxes of non-negative size, offsets and ends
      never decrease. */
  lemma {:induction false} EndsGrow<T>(s: seq<T>, off: T -> int, len: T -> int, i: nat, j: nat)
    requires i <= j < |s| && Stacked(s, off, len) && NonNegativeSizes(s, len)
    ensures off(s[i]) <= off(s[j])
    ensures off(s[i]) + len(s[i]) <= off(s[j]) + len(s[j])
  {
    if i < j {
      EndsGrow(s, off, len, i, j - 1);
      var before := j - 1;
      assert off(s[j]) == off(s[before]) + len(s[before]);
      assert len(s[before]) >= 0 && len(s[j]) >= 0;
    }
  }
}
