/** The packed item record of the window scanner
    (packages/core/src/wasm/items_manager.c, lines 3-14).

    An item is one C `long long`: its size in the high 32 bits, its offset in
    the low 32 bits.  Each function is defined by the value it yields, and a
    lemma proves that the source's shift, mask or or, written with the
    operators of `CInt`, yields exactly that value. */
module Packing {
  import opened CInt

  /** `get_item_size`: `item >> 32`, the signed high half.
      `ItemDecomposition` states what it yields. */
  function GetItemSize(item: Int64): (r: Int32)
  {
    ShiftRight32(item)
  }

  /** `get_item_offset`: the low 32 bits of the record read as an unsigned
      number.  `OffsetIsLowMask` proves that the source's `item & 0xffffffff`
      computes it. */
  function GetItemOffset(item: Int64): (r: Int64)
    ensures 0 <= r < TwoTo32
  {
    item % TwoTo32
  }

  /** `make_item`: the size in the high half and the offset in the low half;
      a negative offset is sign-extended over the high half and the record is
      the offset itself.  `MakeItemIsShiftOr` proves that the source's
      `((long long) size << 32) | (long long) offset` computes it. */
  function MakeItem(size: Int32, offset: Int32): (r: Int64)
    ensures r % TwoTo32 == offset % TwoTo32
  {
    if offset >= 0 then
      ModUnique(size * TwoTo32 + offset, TwoTo32, size, offset);
      size * TwoTo32 + offset
    else
      offset
  }

  /** `item & 0xffffffff` keeps the low 32 bits: it is `GetItemOffset`. */
  lemma OffsetIsLowMask(item: Int64)
    ensures And64(item, 0xFFFF_FFFF) == GetItemOffset(item)
  {
    Pow2Of64();
    Pow2Of32();
    var u := Bits64(item);
    AndLowMask(u, 64, 32);
    LowBitsMod(u, 32);
    if item < 0 {
      ModUnique(u, TwoTo32, item / TwoTo32 + TwoTo32, item % TwoTo32);
    }
  }

  /** `((long long) size << 32) | (long long) offset` is `MakeItem`: with a
      non-negative offset the two halves sit side by side; a negative offset,
      widened to `long long`, has every high bit set, which swallows the
      shifted size. */
  lemma MakeItemIsShiftOr(size: Int32, offset: Int32)
    ensures Or64(ShiftLeft32(size), offset) == MakeItem(size, offset)
  {
    Pow2Of64();
    Pow2Of32();
    var shifted := ShiftLeft32(size);
    assert shifted == size * TwoTo32;
    var a, b := Bits64(shifted), Bits64(offset);
    var q := if size >= 0 then size else size + TwoTo32;
    assert a == q * TwoTo32;
    ModUnique(a, TwoTo32, q, 0);
    if offset >= 0 {
      OrDisjoint(a, b, 64, 32);
    } else {
      OrHighOnes(a, b, 64, 32);
    }
  }

  /** The end position of an item, `offset + size`, as the source sums it. */
  function ItemEnd(item: Int64): int
  {
    GetItemOffset(item) + GetItemSize(item)
  }

  /** Packing then unpacking gives back both fields exactly when the offset is
      not negative, whatever the size. */
  lemma RoundTrip(size: Int32, offset: Int32)
    ensures offset >= 0 <==>
      GetItemSize(MakeItem(size, offset)) == size &&
      GetItemOffset(MakeItem(size, offset)) == offset
  {
    var w := MakeItem(size, offset);
    if offset >= 0 {
      ModUnique(w, TwoTo32, size, offset);
    } else {
      NegativeOffsetCorrupts(size, offset);
    }
  }

  /** A negative offset fills the size bits: the record unpacks to size -1
      and to the offset plus 2^32, and the size given is lost. */
  lemma NegativeOffsetCorrupts(size: Int32, offset: Int32)
    requires offset < 0
    ensures MakeItem(size, offset) == offset
    ensures GetItemSize(MakeItem(size, offset)) == -1
    ensures GetItemOffset(MakeItem(size, offset)) == offset + TwoTo32
  {
    ModUnique(offset, TwoTo32, -1, offset + TwoTo32);
  }

  /** Every record is its size field times 2^32 plus its offset field: the
      size is the signed high half, rounded toward minus infinity. */
  lemma ItemDecomposition(item: Int64)
    ensures item == GetItemSize(item) * TwoTo32 + GetItemOffset(item)
    ensures GetItemSize(item) * TwoTo32 <= item < GetItemSize(item) * TwoTo32 + TwoTo32
  {
  }

  /** Every record whose offset half fits a non-negative C `int` is made by
      `MakeItem` from its own fields: on that range packing is a bijection. */
  lemma UnpackThenPack(item: Int64)
    requires GetItemOffset(item) < TwoTo31
    ensures MakeItem(GetItemSize(item), GetItemOffset(item)) == item
  {
    ItemDecomposition(item);
  }
}
