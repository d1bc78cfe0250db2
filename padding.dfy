/** The spacer sizes of the window scanner
    (packages/core/src/wasm/items_manager.c, lines 46-68).

    The top spacer stands for every record before the first one in the window,
    the bottom spacer for every record after the last one.  Both functions
    only read the record buffer, so they are modelled on its contents.  Both
    compute in `long long` and return a C `int`, which keeps the low 32 bits. */
module Padding {
  import opened CInt
  import opened Packing
  import opened Scanner
  import opened Layout

  /** `get_top_padding`: the offset of the first record in the window.  An
      offset of 2^31 or more wraps to a negative `int`. */
  function GetTopPadding(items: seq<Int64>, firstItemIndex: Int32): (r: Int32)
    requires 0 <= firstItemIndex < |items|
    ensures GetItemOffset(items[firstItemIndex]) < TwoTo31 ==> r == GetItemOffset(items[firstItemIndex])
    ensures GetItemOffset(items[firstItemIndex]) >= TwoTo31 ==>
              r == GetItemOffset(items[firstItemIndex]) - TwoTo32
  {
    ToInt32(GetItemOffset(items[firstItemIndex]))
  }

  /** `get_bottom_padding`: how far the end of the last record lies beyond
      the end of the last record in the window, reduced to a C `int`. */
  function GetBottomPadding(items: seq<Int64>, totalItems: Int32, lastItemIndex: Int32): (r: Int32)
    requires 1 <= totalItems <= |items| && 0 <= lastItemIndex < |items|
    ensures var gap := ItemEnd(items[totalItems - 1]) - ItemEnd(items[lastItemIndex]);
      (-TwoTo31 <= gap < TwoTo31 ==> r == gap) && (r - gap) % TwoTo32 == 0
  {
    var lastItem := items[totalItems - 1];
    var lastItemInWindow := items[lastItemIndex];
    ToInt32(GetItemOffset(lastItem) + GetItemSize(lastItem) -
            GetItemOffset(lastItemInWindow) - GetItemSize(lastItemInWindow))
  }

  /** The top padding of a record made by `MakeItem` is the offset it was made
      with; in particular it is 0 for a record at offset 0. */
  lemma TopPaddingOfMadeItem(items: seq<Int64>, firstItemIndex: Int32, size: Int32, offset: Int32)
    requires 0 <= firstItemIndex < |items|
    requires 0 <= offset && items[firstItemIndex] == MakeItem(size, offset)
    ensures GetTopPadding(items, firstItemIndex) == offset
  {
    RoundTrip(size, offset);
  }

  /** When the last record in the window is the last record, nothing lies
      below it and the bottom padding is 0. */
  lemma BottomPaddingAtEnd(items: seq<Int64>, totalItems: Int32)
    requires 1 <= totalItems <= |items|
    ensures GetBottomPadding(items, totalItems, totalItems - 1) == 0
  {
  }

  /** When the last record ends no earlier than the last record in the window
      and the gap between the two ends fits a C `int`, the bottom padding is
      that gap, exactly, and so it is not negative. */
  lemma BottomPaddingNonNegative(items: seq<Int64>, totalItems: Int32, lastItemIndex: Int32)
    requires 1 <= totalItems <= |items| && 0 <= lastItemIndex < |items|
    requires ItemEnd(items[lastItemIndex]) <= ItemEnd(items[totalItems - 1])
    requires ItemEnd(items[totalItems - 1]) - ItemEnd(items[lastItemIndex]) < TwoTo31
    ensures GetBottomPadding(items, totalItems, lastItemIndex) ==
            ItemEnd(items[totalItems - 1]) - ItemEnd(items[lastItemIndex]) >= 0
  {
  }

  /** The spacers around a window on any layout, gaps between records
      included: the top padding, the span from the start of the first record
      in the window to the end of the last one, and the bottom padding reach
      the end of the last record, provided the first offset and the bottom
      gap fit a C `int`. */
  lemma PaddingAroundWindow(items: seq<Int64>, totalItems: Int32, firstItemIndex: Int32,
                            lastItemIndex: Int32)
    requires 1 <= totalItems <= |items|
    requires 0 <= firstItemIndex < |items| && 0 <= lastItemIndex < |items|
    requires GetItemOffset(items[firstItemIndex]) < TwoTo31
    requires -TwoTo31 <= ItemEnd(items[totalItems - 1]) - ItemEnd(items[lastItemIndex]) < TwoTo31
    ensures GetTopPadding(items, firstItemIndex) +
            (ItemEnd(items[lastItemIndex]) - GetItemOffset(items[firstItemIndex])) +
            GetBottomPadding(items, totalItems, lastItemIndex) ==
            ItemEnd(items[totalItems - 1])
  {
  }

  /** The offset and the size of a record, as the accessors `Layout` takes. */
  function OffsetOf(item: Int64): int
  {
    GetItemOffset(item)
  }

  function SizeOf(item: Int64): int
  {
    GetItemSize(item)
  }

  /** The padding identity: on a list of records laid end to end from
      offset 0, of non-negative sizes and whose height fits a C `int`, the
      top padding, the heights of the records `first .. last` and the bottom
      padding add up to the height of the whole list, so the spacers keep
      the scroll extent. */
  lemma PaddingIdentity(items: seq<Int64>, firstItemIndex: Int32, lastItemIndex: Int32)
    requires 0 <= firstItemIndex <= lastItemIndex < |items| < TwoTo31
    requires Stacked(items, OffsetOf, SizeOf) && NonNegativeSizes(items, SizeOf)
    requires GetItemOffset(items[0]) == 0 && ItemEnd(items[|items| - 1]) < TwoTo31
    ensures GetTopPadding(items, firstItemIndex) +
            TotalSize(items[firstItemIndex..lastItemIndex + 1], SizeOf) +
            GetBottomPadding(items, |items|, lastItemIndex) ==
            TotalSize(items, SizeOf)
  {
    var final := |items| - 1;
    assert TotalSize(items, SizeOf) == ItemEnd(items[final]) by {
      StackedSpan(items, OffsetOf, SizeOf);
    }
    assert TotalSize(items[firstItemIndex..lastItemIndex + 1], SizeOf) ==
           ItemEnd(items[lastItemIndex]) - GetItemOffset(items[firstItemIndex]) by {
      StretchSize(items, OffsetOf, SizeOf, firstItemIndex, lastItemIndex);
    }
    assert GetTopPadding(items, firstItemIndex) == GetItemOffset(items[firstItemIndex]) by {
      EndsGrow(items, OffsetOf, SizeOf, firstItemIndex, final);
    }
    assert GetBottomPadding(items, |items|, lastItemIndex) ==
           ItemEnd(items[final]) - ItemEnd(items[lastItemIndex]) by {
      EndsGrow(items, OffsetOf, SizeOf, lastItemIndex, final);
    }
  }
}
