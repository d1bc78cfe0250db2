# Native window scanner of the virtualizer, in Dafny

The virtualizer renders only the part of a long list that lies near the
viewport (the *cursor*). Its native scanner, `packages/core/src/wasm/items_manager.c`,
does the per-item work for large lists:

- each item is packed into one 64-bit C `long long`: its size in the high
  32 bits and its offset in the low 32 bits;
- an overlap test decides whether an item's interval `[offset, offset + size]`
  meets the cursor interval widened on both sides by a margin;
- a batch scan writes the ascending indices of all items that pass the test
  into a result buffer;
- two padding functions give the height of the spacers above and below the
  rendered items.

The project models each of these and proves what the scanner relies on.
Packing and unpacking round-trip exactly when the offset is non-negative. The
overlap test is a closed-interval overlap. The scan is exactly the filter of
the test and touches nothing else. On a sorted layout the matches form one
contiguous run. The spacers preserve the height of the list.

Modules, one per file:

- `CInt` (`cint.dfy`): C `int` and `long long` as subset types of `int`.
  The two's-complement conversion to `int` and the 64-bit bit pattern. `|`
  and `&` are defined on the bit pattern, bit by bit, with the lemmas that say
  what they compute. The two shifts are defined arithmetically: `<< 32` as
  the product with 2^32 and `>> 32` as division by 2^32 rounded toward minus
  infinity, the two's-complement meaning described under "Left out".
- `Packing` (`packing.dfy`): `get_item_size`, `get_item_offset`, `make_item`.
  Each is defined by the value it yields. A lemma proves that the source's
  shift, mask or or expression yields exactly that value.
- `Window` (`window.dfy`): `is_item_in_window`.
- `IndexFilter` (`filter.dfy`): the ascending list of positions whose element
  passes a test, for any test, and its uniqueness.
- `Scanner` (`scanner.dfy`): `get_item_indices_in_window`, as an imperative
  loop over arrays, plus the facts about its result.
- `Layout` (`layout.dfy`): lists of boxes laid end to end, for any offset and
  size accessors.
- `Padding` (`padding.dfy`): `get_top_padding`, `get_bottom_padding` and the
  padding identity.
- `Scenarios` (`scenarios.dfy`): two worked examples on a five-item list.

Two facts about the code shape the types:

- `make_item` takes C `int` (signed) sizes and offsets, so `MakeItem` takes
  `Int32` arguments, and a negative offset is a possible input.
- `get_item_indices_in_window` writes into a `long long*` buffer, so `result`
  is an `array<Int64>`. It may be the record buffer itself.

## Model

| member | source | states |
|---|---|---|
| CInt.ToInt32 | packages/core/src/wasm/items_manager.c:51 | the conversion of a `long long` value to the `int` return type keeps it modulo 2^32, and keeps it unchanged when it fits an `int` |
| CInt.FromBits64 | packages/core/src/wasm/items_manager.c:13 | reading a 64-bit pattern as a `long long` is the inverse of taking the pattern |
| CInt.OrDisjoint | packages/core/src/wasm/items_manager.c:13 | the bitwise or of a word whose low k bits are clear and a value below 2^k is their sum |
| CInt.OrHighOnes | packages/core/src/wasm/items_manager.c:13 | the bitwise or of a word whose low k bits are clear and a value with every bit from k up set is that value |
| CInt.AndLowMask | packages/core/src/wasm/items_manager.c:8 | bitwise and with the mask of the low k bits keeps exactly the low k bits |
| CInt.LowBitsMod | packages/core/src/wasm/items_manager.c:8 | the low k bits of a natural number are its remainder modulo 2^k |
| Packing.GetItemOffset | packages/core/src/wasm/items_manager.c:7-9 | the offset field is a non-negative number below 2^32 |
| Packing.OffsetIsLowMask | packages/core/src/wasm/items_manager.c:7-9 | `item & 0xffffffff` is the item modulo 2^32, for every `long long` item, negative ones included |
| Packing.MakeItem | packages/core/src/wasm/items_manager.c:11-14 | the low 32 bits of a packed record are the bit pattern of the offset it was made with |
| Packing.MakeItemIsShiftOr | packages/core/src/wasm/items_manager.c:11-14 | the shift of the size by 32 bits, or-ed with the widened offset, is `size * 2^32 + offset` for a non-negative offset, and is the offset itself for a negative one |
| Packing.ItemDecomposition | packages/core/src/wasm/items_manager.c:3-9 | `item >> 32` is the signed high half rounded toward minus infinity: the size field times 2^32 is at most the record and more than it minus 2^32, and the record is its size field times 2^32 plus its offset field |
| Packing.RoundTrip | packages/core/src/wasm/items_manager.c:3-14 | unpacking a packed record gives back both its size and its offset if and only if the offset is non-negative, for every size (a negative size through the wrapping shift) |
| Packing.NegativeOffsetCorrupts | packages/core/src/wasm/items_manager.c:11-14 | a negative offset sign-extends over the size bits: the record unpacks to size -1 and offset + 2^32 |
| Packing.UnpackThenPack | packages/core/src/wasm/items_manager.c:3-14 | every record whose offset field fits a non-negative `int` is rebuilt exactly by packing its own fields |
| Window.InWindowIsOverlap | packages/core/src/wasm/items_manager.c:16-26 | for an item of non-negative size and a non-empty window, the test holds if and only if the two closed intervals share a point, so touching counts |
| Window.WiderMarginKeepsItem | packages/core/src/wasm/items_manager.c:22-25 | an item in the window for one margin is in it for every larger margin |
| IndexFilter.IndicesWhereIsFilter | packages/core/src/wasm/items_manager.c:37-43 | the filter result is strictly ascending, lists only valid positions that pass the test, and misses none that does |
| IndexFilter.IndicesWhereUnique | packages/core/src/wasm/items_manager.c:37-43 | a list is ascending, sound and complete for the test if and only if it is the filter result |
| IndexFilter.IndicesWherePrefix | packages/core/src/wasm/items_manager.c:38-42 | filtering a prefix of the records gives a prefix of the full result |
| IndexFilter.IndicesWhereStep | packages/core/src/wasm/items_manager.c:39-41 | visiting one more record appends its index exactly when it passes the test |
| IndexFilter.ConsecutiveRun | packages/core/src/wasm/items_manager.c:37-43 | an ascending list holding every integer between its ends steps by one |
| Scanner.ScanIsUnique | packages/core/src/wasm/items_manager.c:37-43 | the in-window index list is the only list that is ascending, sound and complete for the overlap test |
| Scanner.Append | packages/core/src/wasm/items_manager.c:40 | storing at `result[result_count]` extends the written front of the buffer by the index and keeps the entries after it |
| Scanner.CollectIndices | packages/core/src/wasm/items_manager.c:37-43 | the loop writes the filter of the first `itemsCount` records, as they were on entry, to the front of `result`, returns its length, at most `itemsCount` (0 for a negative count), and leaves the rest of `result` unchanged; `items` is unchanged unless it is `result` itself |
| Scanner.GetItemIndicesInWindow | packages/core/src/wasm/items_manager.c:28-44 | the returned count and `result[0..count)` are the ascending in-window indices of the first `itemsCount` records as they were on entry, also when `result` is the record buffer; nothing else changes |
| Scanner.InWindowBetween | packages/core/src/wasm/items_manager.c:22-25 | on a sorted layout an item between two in-window items is in the window |
| Scanner.MatchesAreContiguous | packages/core/src/wasm/items_manager.c:38-43 | on a layout with non-decreasing offsets and ends, an item is in the window if and only if its index lies between the first and last result, and the results step by one |
| Scanner.WiderMarginKeepsIndices | packages/core/src/wasm/items_manager.c:38-43 | every index the scan returns for one margin it also returns for every larger margin |
| Layout.StackedPart | packages/core/src/wasm/items_manager.c:54-68 | every stretch of a list laid end to end is laid end to end |
| Layout.StackedSpan | packages/core/src/wasm/items_manager.c:54-68 | a list laid end to end ends at its first offset plus the sum of its sizes |
| Layout.StretchSize | packages/core/src/wasm/items_manager.c:54-68 | the items `first .. last` of such a list are as high as the distance from the offset of `first` to the end of `last` |
| Layout.EndsGrow | packages/core/src/wasm/items_manager.c:54-68 | along such a list with non-negative sizes, offsets and ends never decrease |
| Padding.GetTopPadding | packages/core/src/wasm/items_manager.c:46-52 | the top padding is the offset of the first in-window record, wrapped to a negative `int` when the offset is 2^31 or more |
| Padding.GetBottomPadding | packages/core/src/wasm/items_manager.c:54-68 | the bottom padding is the end of the last record minus the end of the last in-window record, exact when it fits an `int` and otherwise equal to it modulo 2^32 |
| Padding.TopPaddingOfMadeItem | packages/core/src/wasm/items_manager.c:51 | the top padding of a record packed with a non-negative offset is that offset, so 0 for a record at offset 0 |
| Padding.BottomPaddingAtEnd | packages/core/src/wasm/items_manager.c:60-67 | the bottom padding is 0 when the last in-window record is the last record |
| Padding.BottomPaddingNonNegative | packages/core/src/wasm/items_manager.c:60-67 | when the last record ends no earlier than the last in-window record and the gap fits an `int`, the bottom padding is exactly that gap and is not negative |
| Padding.PaddingAroundWindow | packages/core/src/wasm/items_manager.c:46-68 | on any layout, gaps included, top padding + the span from the start of the first in-window record to the end of the last + bottom padding = the end of the last record, when the first offset and the bottom gap fit an `int` |
| Padding.PaddingIdentity | packages/core/src/wasm/items_manager.c:46-68 | on a list laid end to end from offset 0, top padding + heights of the in-window items + bottom padding = height of the whole list |
| Scenarios.FiveItemsFields | packages/core/src/wasm/items_manager.c:3-14 | the five example records unpack to the heights 100..500 and offsets 0, 100, 300, 600, 1000 they were packed with |
| Scenarios.CursorAtTop | packages/core/src/wasm/items_manager.c:28-68 | cursor {0, 200}: visible margin 200 gives items 0-2, render margin 400 gives items 0-3, top padding 0, bottom padding 500 |
| Scenarios.CursorMovedDown | packages/core/src/wasm/items_manager.c:28-68 | cursor {600, 200}: visible margin gives items 2-4, render margin gives items 1-4, top padding 100, bottom padding 0 |

## Left out

- The Emscripten export plumbing: `#include <emscripten.h>` and the
  `EMSCRIPTEN_KEEPALIVE` markers. The JavaScript side that copies records into
  wasm memory and reads the results back is not part of this model either.
  Both are foreign-call wiring with no behaviour of their own.
- The tiering into hidden, rendered and visible items, the running-average
  size estimator, the throttled update coordinator, the DOM observers, timers
  and spacer styling. They live in TypeScript files that are not part of this
  model. The tiers appear only as the visible and render margins of the
  examples.
- CInt.ShiftLeft32, CInt.ShiftRight32, CInt.ToInt32: take the two's-complement
  results the WebAssembly target produces in three cases that the C standard
  leaves open. `(long long) size << 32` with a negative `size` is undefined
  behaviour (C11 section 6.5.7, paragraph 4); the model takes `size * 2^32`,
  which is what the target's shift yields. `item >> 32` on a
  negative `item` is implementation-defined (same section, paragraph 5). The
  `long long` to `int` conversions of the padding results are
  implementation-defined when out of range (C11 section 6.3.1.3, paragraph 3).
  The negative-size part of `Packing.RoundTrip` and `Packing.MakeItemIsShiftOr`
  rests on the first of these.
- Window.IsItemInWindow: takes the cursor and margin as `Int32`, where the
  source declares `long long`. Its only caller passes C `int` values. Inputs
  outside the `int` range are therefore not modelled.
- Scanner.GetItemIndicesInWindow: requires `result` to have room for every
  match. The source writes past the end of a shorter buffer without checking,
  which is undefined behaviour in C.
- Padding.GetTopPadding, Padding.GetBottomPadding: model the record buffer
  by its contents, as a sequence. Both functions only read it. Out-of-range
  indices, which the source does not check, are excluded by preconditions.
- Window.InWindowIsOverlap: requires a non-negative item size and a non-empty
  widened window. For a negative size or an inverted window, the test is not
  an interval overlap, so the lemma says nothing there.
- Padding.PaddingIdentity: requires items laid end to end from offset 0,
  non-negative sizes and a total height below 2^31. Outside that range the
  `int` returns wrap.
- Padding.BottomPaddingNonNegative: requires the gap between the two ends to
  be below 2^31. A larger gap leaves the `int` range and wraps, as
  `GetBottomPadding` states.
