/** The batch scan of the window scanner
    (packages/core/src/wasm/items_manager.c, lines 28-44).

    One linear pass over the first `itemsCount` packed records writes the
    index of every record that passes `IsItemInWindow` into a result buffer,
    in ascending order, and returns how many it wrote. */
module Scanner {
  import opened CInt
  import opened Packing
  import opened Window
  import opened IndexFilter

  /** The overlap test for one cursor and margin, as a predicate on records. */
  function InWindow(cursorOffset: Int32, cursorSize: Int32, windowSize: Int32): Int64 -> bool
  {
    (item: Int64) => IsItemInWindow(item, cursorOffset, cursorSize, windowSize)
  }

  /** The indices of the records of `items` that are in the window, ascending:
      what the scan computes. */
  function InWindowIndices(items: seq<Int64>, cursorOffset: Int32, cursorSize: Int32,
                           windowSize: Int32): seq<int>
  {
    IndicesWhere(items, InWindow(cursorOffset, cursorSize, windowSize))
  }

  /** `r` lists, in ascending order, exactly the indices of the records of
      `items` that are in the window: the scan's promise. */
  predicate IsScanOf(r: seq<int>, items: seq<Int64>, cursorOffset: Int32, cursorSize: Int32,
                     windowSize: Int32)
  {
    IsIndicesWhere(r, items, InWindow(cursorOffset, cursorSize, windowSize))
  }

  /** The number of records the loop visits: none when the count is negative. */
  function Scanned(itemsCount: Int32): nat
  {
    if itemsCount < 0 then 0 else itemsCount
  }

  /** The scan's result is exactly the list of in-window indices, and that
      list is the only one that keeps the scan's promise. */
  lemma ScanIsUnique(r: seq<int>, items: seq<Int64>, cursorOffset: Int32, cursorSize: Int32,
                     windowSize: Int32)
    ensures IsScanOf(r, items, cursorOffset, cursorSize, windowSize) <==>
            r == InWindowIndices(items, cursorOffset, cursorSize, windowSize)
  {
    IndicesWhereUnique(r, items, InWindow(cursorOffset, cursorSize, windowSize));
  }

  /** `result[count] = value`: the front `count` entries grow by `value`, and
      the entries after it stay as they were. */
  method Append(result: array<Int64>, count: nat, value: Int64)
    requires count < result.Length
    modifies result
    ensures result[..count + 1] == old(result[..count]) + [value]
    ensures forall k :: count < k < result.Length ==> result[k] == old(result[k])
  {
    result[count] := value;
    assert result[..count + 1] == old(result[..count]) + [value];
  }

  /** The loop of `get_item_indices_in_window`, for any per-record test:
      visits records `0 .. itemsCount - 1` in order and appends the index of
      each one that passes to `result`, returning how many it appended.
      `result` may be `items` itself: the write for record `i` lands at a
      position no later than `i`, after record `i` has been read, so every
      record is tested with its original value. */
  method CollectIndices(items: array<Int64>, result: array<Int64>, itemsCount: Int32,
                        test: Int64 -> bool)
    returns (count: Int32)
    requires itemsCount <= items.Length
    requires |IndicesWhere(items[..Scanned(itemsCount)], test)| <= result.Length
    modifies result
    ensures 0 <= count <= Scanned(itemsCount) && count <= result.Length
    ensures result[..count] == IndicesWhere(old(items[..Scanned(itemsCount)]), test)
    ensures forall k :: count <= k < result.Length ==> result[k] == old(result[k])
    ensures result != items ==> items[..] == old(items[..])
  {
    ghost var scanned := items[..Scanned(itemsCount)];
    ghost var all := IndicesWhere(scanned, test);
    var resultCount := 0;
    var i := 0;
    while i < itemsCount
      invariant 0 <= resultCount <= i <= |scanned|
      invariant resultCount <= |all| <= result.Length
      invariant result != items ==> unchanged(items)
      invariant result[..resultCount] == IndicesWhere(scanned[..i], test)
      invariant forall k :: resultCount <= k < result.Length ==> result[k] == old(result[k])
    {
      var item := items[i];
      assert item == scanned[i] by {
        if result == items {
          assert items[i] == old(items[i]);
        }
      }
      assert |IndicesWhere(scanned[..i + 1], test)| <= |all| by {
        IndicesWherePrefix(scanned, i + 1, test);
      }
      if test(item) {
        assert IndicesWhere(scanned[..i + 1], test) == IndicesWhere(scanned[..i], test) + [i] by {
          IndicesWhereStep(scanned, i, test);
        }
        Append(result, resultCount, i);
        resultCount := resultCount + 1;
      } else {
        assert IndicesWhere(scanned[..i + 1], test) == IndicesWhere(scanned[..i], test) by {
          IndicesWhereStep(scanned, i, test);
        }
      }
      i := i + 1;
    }
    assert scanned[..i] == scanned;
    count := resultCount;
  }

  /** `get_item_indices_in_window`: the indices of the first `itemsCount`
      records that are in the window, ascending, written to the front of
      `result`; the rest of `result` is left as it was, and so are the records
      unless `result` is the record buffer itself. */
  method GetItemIndicesInWindow(items: array<Int64>, result: array<Int64>, itemsCount: Int32,
                                cursorOffset: Int32, cursorSize: Int32, windowSize: Int32)
    returns (count: Int32)
    requires itemsCount <= items.Length
    requires |InWindowIndices(items[..Scanned(itemsCount)], cursorOffset, cursorSize, windowSize)|
             <= result.Length
    modifies result
    ensures 0 <= count <= Scanned(itemsCount) && count <= result.Length
    ensures result[..count] ==
            InWindowIndices(old(items[..Scanned(itemsCount)]), cursorOffset, cursorSize, windowSize)
    ensures forall k :: count <= k < result.Length ==> result[k] == old(result[k])
    ensures result != items ==> items[..] == old(items[..])
  {
    count := CollectIndices(items, result, itemsCount, InWindow(cursorOffset, cursorSize, windowSize));
  }

  /** Offsets and end positions both never decrease along the list. */
  predicate SortedLayout(items: seq<Int64>)
  {
    forall i, j :: 0 <= i <= j < |items| ==>
      GetItemOffset(items[i]) <= GetItemOffset(items[j]) && ItemEnd(items[i]) <= ItemEnd(items[j])
  }

  /** On a sorted layout a record between two in-window records is in the window. */
  lemma InWindowBetween(items: seq<Int64>, cursorOffset: Int32, cursorSize: Int32,
                        windowSize: Int32, i: nat, j: nat, k: nat)
    requires SortedLayout(items) && i <= j <= k < |items|
    requires IsItemInWindow(items[i], cursorOffset, cursorSize, windowSize)
    requires IsItemInWindow(items[k], cursorOffset, cursorSize, windowSize)
    ensures IsItemInWindow(items[j], cursorOffset, cursorSize, windowSize)
  {
    assert GetItemOffset(items[j]) <= GetItemOffset(items[k]);
    assert ItemEnd(items[i]) <= ItemEnd(items[j]);
  }

  /** On a sorted layout the matches are one contiguous run: a record is in
      the window exactly when its index lies between the first and the last
      result, and the results step by one. */
  lemma MatchesAreContiguous(items: seq<Int64>, cursorOffset: Int32, cursorSize: Int32,
                             windowSize: Int32)
    requires SortedLayout(items)
    ensures var r := InWindowIndices(items, cursorOffset, cursorSize, windowSize);
      r != [] ==>
        (forall i :: 0 <= i < |items| ==>
           (IsItemInWindow(items[i], cursorOffset, cursorSize, windowSize) <==> r[0] <= i <= r[|r| - 1])) &&
        (forall t :: 0 <= t < |r| ==> r[t] == r[0] + t)
  {
    var p := InWindow(cursorOffset, cursorSize, windowSize);
    var r := IndicesWhere(items, p);
    IndicesWhereIsFilter(items, p);
    if r != [] {
      var first, last := r[0], r[|r| - 1];
      assert p(items[first]) && p(items[last]);
      forall i | 0 <= i < |items|
        ensures IsItemInWindow(items[i], cursorOffset, cursorSize, windowSize) <==> first <= i <= last
      {
        if IsItemInWindow(items[i], cursorOffset, cursorSize, windowSize) {
          assert p(items[i]);
          var k :| 0 <= k < |r| && r[k] == i;
        }
        if first <= i <= last {
          InWindowBetween(items, cursorOffset, cursorSize, windowSize, first, i, last);
        }
      }
      forall x | first <= x <= last
        ensures x in r
      {
        InWindowBetween(items, cursorOffset, cursorSize, windowSize, first, x, last);
        assert p(items[x]);
      }
      ConsecutiveRun(r);
    }
  }

  /** The in-window indices for a margin are among those for any wider margin:
      the visible range lies inside the render range. */
  lemma WiderMarginKeepsIndices(items: seq<Int64>, cursorOffset: Int32, cursorSize: Int32,
                                margin: Int32, widerMargin: Int32)
    requires margin <= widerMargin
    ensures forall i :: i in InWindowIndices(items, cursorOffset, cursorSize, margin) ==>
                        i in InWindowIndices(items, cursorOffset, cursorSize, widerMargin)
  {
    var narrow := InWindow(cursorOffset, cursorSize, margin);
    var wide := InWindow(cursorOffset, cursorSize, widerMargin);
    var rn := IndicesWhere(items, narrow);
    IndicesWhereIsFilter(items, narrow);
    IndicesWhereIsFilter(items, wide);
    forall i | i in rn
      ensures i in IndicesWhere(items, wide)
    {
      var k :| 0 <= k < |rn| && rn[k] == i;
      WiderMarginKeepsItem(items[i], cursorOffset, cursorSize, margin, widerMargin);
      assert wide(items[i]);
    }
  }
}
