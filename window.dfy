/** The overlap test of the window scanner
    (packages/core/src/wasm/items_manager.c, lines 16-26).

    An item covers `[offset, offset + size]`; the window is the cursor
    interval widened on both sides by a margin,
    `[cursorOffset - margin, cursorOffset + cursorSize + margin]`.  Both ends
    of both intervals are inclusive. */
module Window {
  import opened CInt
  import opened Packing

  /** `is_item_in_window`.  The parameters are `long long` in the source; its
      only caller passes C `int` values, whose sums cannot overflow.
      `InWindowIsOverlap` states what the test means. */
  predicate IsItemInWindow(item: Int64, cursorOffset: Int32, cursorSize: Int32, windowSize: Int32)
  {
    GetItemOffset(item) <= cursorOffset + cursorSize + windowSize &&
    ItemEnd(item) >= cursorOffset - windowSize
  }

  /** `x` lies in the closed interval `[lo, hi]`. */
  predicate Within(x: int, lo: int, hi: int)
  {
    lo <= x <= hi
  }

  /** Two closed intervals overlap when some point lies in both. */
  ghost predicate Overlap(lo1: int, hi1: int, lo2: int, hi2: int)
  {
    exists x :: Within(x, lo1, hi1) && Within(x, lo2, hi2)
  }

  /** For an item of non-negative size and a non-empty window, the test is
      exactly "the two closed intervals share a point": touching counts. */
  lemma InWindowIsOverlap(item: Int64, cursorOffset: Int32, cursorSize: Int32, windowSize: Int32)
    requires GetItemSize(item) >= 0 && cursorSize + 2 * windowSize >= 0
    ensures IsItemInWindow(item, cursorOffset, cursorSize, windowSize) <==>
      Overlap(GetItemOffset(item), ItemEnd(item),
              cursorOffset - windowSize, cursorOffset + cursorSize + windowSize)
  {
    var lo, hi := cursorOffset - windowSize, cursorOffset + cursorSize + windowSize;
    var start := GetItemOffset(item);
    if IsItemInWindow(item, cursorOffset, cursorSize, windowSize) {
      var x := if start < lo then lo else start;
      assert Within(x, start, ItemEnd(item)) && Within(x, lo, hi);
    }
  }

  /** Widening the margin never drops an item: what is in the window for the
      visible margin is in it for any larger (render) margin. */
  lemma WiderMarginKeepsItem(item: Int64, cursorOffset: Int32, cursorSize: Int32,
                             margin: Int32, widerMargin: Int32)
    requires margin <= widerMargin
    requires IsItemInWindow(item, cursorOffset, cursorSize, margin)
    ensures IsItemInWindow(item, cursorOffset, cursorSize, widerMargin)
  {
  }
}
