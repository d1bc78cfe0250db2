/** Worked examples of the window scanner on one concrete list: five records
    of heights 100, 200, 300, 400 and 500 laid end to end from offset 0, a
    cursor 200 high, a visible margin of 200 and a render margin of 400. */
module Scenarios {
  import opened CInt
  import opened Packing
  import opened Window
  import opened IndexFilter
  import opened Scanner
  import opened Padding

  const FiveItems: seq<Int64> :=
    [MakeItem(100, 0), MakeItem(200, 100), MakeItem(300, 300), MakeItem(400, 600), MakeItem(500, 1000)]

  /** The records of `FiveItems` unpack to the heights and offsets they were
      made with. */
  lemma FiveItemsFields()
    ensures |FiveItems| == 5
    ensures GetItemSize(FiveItems[0]) == 100 && GetItemOffset(FiveItems[0]) == 0
    ensures GetItemSize(FiveItems[1]) == 200 && GetItemOffset(FiveItems[1]) == 100
    ensures GetItemSize(FiveItems[2]) == 300 && GetItemOffset(FiveItems[2]) == 300
    ensures GetItemSize(FiveItems[3]) == 400 && GetItemOffset(FiveItems[3]) == 600
    ensures GetItemSize(FiveItems[4]) == 500 && GetItemOffset(FiveItems[4]) == 1000
  {
    RoundTrip(100, 0);
    RoundTrip(200, 100);
    RoundTrip(300, 300);
    RoundTrip(400, 600);
    RoundTrip(500, 1000);
  }

  /** `r` is the scan of `FiveItems` when it lists, in ascending order,
      exactly the records whose test is true. */
  lemma ScanOfFive(r: seq<int>, cursorOffset: Int32, cursorSize: Int32, windowSize: Int32)
    requires StrictlyAscending(r)
    requires forall k :: 0 <= k < |r| ==> 0 <= r[k] < 5
    requires forall i :: 0 <= i < 5 ==>
               (IsItemInWindow(FiveItems[i], cursorOffset, cursorSize, windowSize) <==> i in r)
    ensures InWindowIndices(FiveItems, cursorOffset, cursorSize, windowSize) == r
  {
    FiveItemsFields();
    ScanIsUnique(r, FiveItems, cursorOffset, cursorSize, windowSize);
    var p := InWindow(cursorOffset, cursorSize, windowSize);
    forall k | 0 <= k < |r|
      ensures p(FiveItems[r[k]])
    {
      assert r[k] in r;
    }
  }

  /** Cursor at offset 0: records 0-2 are visible, record 3 is only
      rendered, record 4 is hidden; nothing is above the window and 500 is
      below the last rendered record. */
  lemma CursorAtTop()
    ensures InWindowIndices(FiveItems, 0, 200, 200) == [0, 1, 2]
    ensures InWindowIndices(FiveItems, 0, 200, 400) == [0, 1, 2, 3]
    ensures GetTopPadding(FiveItems, 0) == 0
    ensures GetBottomPadding(FiveItems, 5, 3) == 500
  {
    FiveItemsFields();
    assert InWindowIndices(FiveItems, 0, 200, 200) == [0, 1, 2] by {
      ScanOfFive([0, 1, 2], 0, 200, 200);
    }
    assert InWindowIndices(FiveItems, 0, 200, 400) == [0, 1, 2, 3] by {
      ScanOfFive([0, 1, 2, 3], 0, 200, 400);
    }
  }

  /** Cursor moved to offset 600: record 0 is hidden, record 1 is only
      rendered, records 2-4 are visible; the top spacer is the 100 of
      record 0 and nothing is below the window. */
  lemma CursorMovedDown()
    ensures InWindowIndices(FiveItems, 600, 200, 200) == [2, 3, 4]
    ensures InWindowIndices(FiveItems, 600, 200, 400) == [1, 2, 3, 4]
    ensures GetTopPadding(FiveItems, 1) == 100
    ensures GetBottomPadding(FiveItems, 5, 4) == 0
  {
    FiveItemsFields();
    assert InWindowIndices(FiveItems, 600, 200, 200) == [2, 3, 4] by {
      ScanOfFive([2, 3, 4], 600, 200, 200);
    }
    assert InWindowIndices(FiveItems, 600, 200, 400) == [1, 2, 3, 4] by {
      ScanOfFive([1, 2, 3, 4], 600, 200, 400);
    }
  }
}
