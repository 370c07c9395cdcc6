/*
 * The stateful part of InfiniteCollectionView: the accumulated index offset,
 * the current page index and the one-shot initial-layout flag, with the
 * handlers that read and update them. Everything the toolkit computes
 * (scroll geometry, hit tests, visible cells) arrives as a parameter, and
 * every call the view makes into the host or the toolkit is returned as a
 * value.
 */
module InfiniteCollection {
  import opened InfiniteIndex

  /** What `collectionView(_:didSelectItemAt:)` forwards to the delegate: the
      logical index (Swift label `didSelectItemAt usableIndexPath`) and the
      rendered slot that was tapped (Swift label `dequeueForItemAt`). */
  datatype Selection = Selection(logicalIndex: int, slotIndex: int)

  class InfiniteCollectionView {
    var indexOffset: int
    var pageIndex: int
    var isInitialData: bool

    /** The offset only ever grows from 0 and the page index is always an
        output of `correctedIndex`, so neither is negative. */
    ghost predicate Valid()
      reads this
    {
      indexOffset >= 0 && pageIndex >= 0
    }

    constructor ()
      ensures Valid()
      ensures indexOffset == 0 && pageIndex == 0 && !isInitialData
    {
      indexOffset := 0;
      pageIndex := 0;
      isInitialData := false;
    }

    /** `shiftContentArray`: adds `offset` to the index offset and touches
        nothing else. Its one caller passes a corrected index, never negative. */
    method ShiftContentArray(offset: int)
      requires Valid() && offset >= 0
      modifies this`indexOffset
      ensures Valid()
      ensures indexOffset == old(indexOffset) + offset
      ensures pageIndex == old(pageIndex) && isInitialData == old(isInitialData)
    {
      indexOffset := indexOffset + offset;
    }

    /** The integer skeleton of `centerIfNeeded`. `shiftCells` is the shift
        count the scroll geometry produced, or None when the view was within
        a quarter of the content width of its center; `centeredSlot` is what
        the hit test at the viewport's center returned after the shift. The
        result is the page index reported to the delegate, if any.
        `correctedIndex` is only reached when one of the two is present. */
    method CenterIfNeeded(src: Source, shiftCells: Option<int>, centeredSlot: Option<int>)
        returns (reported: Option<int>)
      requires shiftCells.Some? || centeredSlot.Some? ==> ValidSource(src)
      requires Valid()
      modifies this`indexOffset, this`pageIndex
      ensures Valid()
      ensures indexOffset == ShiftedOffset(src, old(indexOffset), shiftCells)
      ensures pageIndex == DerivedPage(src, indexOffset, old(pageIndex), centeredSlot)
      ensures isInitialData == old(isInitialData)
      ensures reported == if centeredSlot.Some? then Some(pageIndex) else None
    {
      if shiftCells.Some? {
        ShiftContentArray(CorrectedIndex(src, shiftCells.value));
      }
      if centeredSlot.None? {
        return None;
      }
      pageIndex := CorrectedIndex(src, centeredSlot.value - indexOffset);
      reported := Some(pageIndex);
    }

    /** `layoutSubviews`: the first layout pass that sees a non-zero item
        count sets the one-shot flag and re-centers; every other pass leaves
        the state alone. */
    method LayoutSubviews(src: Source, shiftCells: Option<int>, centeredSlot: Option<int>)
        returns (recentered: bool, reported: Option<int>)
      requires Valid()
      modifies this
      ensures Valid()
      ensures recentered <==> !old(isInitialData) && ItemCount(src) != 0
      ensures isInitialData == (old(isInitialData) || ItemCount(src) != 0)
      ensures recentered ==>
        indexOffset == ShiftedOffset(src, old(indexOffset), shiftCells) &&
        pageIndex == DerivedPage(src, indexOffset, old(pageIndex), centeredSlot) &&
        reported == (if centeredSlot.Some? then Some(pageIndex) else None)
      ensures !recentered ==>
        indexOffset == old(indexOffset) && pageIndex == old(pageIndex) && reported == None
    {
      recentered, reported := false, None;
      if !isInitialData && ItemCount(src) != 0 {
        isInitialData := true;
        reported := CenterIfNeeded(src, shiftCells, centeredSlot);
        recentered := true;
      }
    }

    /** `selectItem(at:animated:scrollPosition:)`: the slot handed to the
        superclass, or None when no cell is visible or the visible cell
        already shows the requested logical item. */
    method SelectItem(src: Source, item: int, visibleSlot: Option<int>) returns (selected: Option<int>)
      requires ValidSource(src)
      ensures visibleSlot.None? ==> selected.None?
      ensures visibleSlot.Some? ==>
        (selected.Some? <==> CorrectedIndex(src, item + indexOffset) != CorrectedIndex(src, visibleSlot.value))
      ensures visibleSlot.Some? ==>
        (selected.None? <==> CorrectedIndex(src, item) == LogicalIndex(src, indexOffset, visibleSlot.value))
      ensures selected.Some? ==> selected.value == CorrectedIndex(src, item + indexOffset)
      ensures selected.Some? ==> LogicalIndex(src, indexOffset, selected.value) == CorrectedIndex(src, item)
    {
      var corrected := CorrectedIndex(src, item + indexOffset);
      if visibleSlot.None? {
        return None;
      }
      var test := CorrectedIndex(src, visibleSlot.value);
      SelectGuardMeansSameItem(src, indexOffset, item, visibleSlot.value);
      if corrected == test {
        return None;
      }
      if src.Present? {
        assert corrected == SlotInCopy(src.count, indexOffset, item, 0);
      }
      selected := Some(corrected);
    }

    /** `collectionView(_:cellForItemAt:)`: the logical index the data source
        is asked to render at `slot`, or None when there is no data source
        and the default cell is dequeued. The slot itself is passed to the
        data source unchanged, as `dequeueForItemAt`. */
    method CellForItemAt(src: Source, slot: int) returns (logical: Option<int>)
      requires ValidSource(src)
      ensures logical.None? <==> src.Absent?
      ensures logical.Some? ==> logical.value == LogicalIndex(src, indexOffset, slot)
      ensures logical.Some? ==> 0 <= logical.value < src.count
    {
      if src.Absent? {
        return None;
      }
      logical := Some(CorrectedIndex(src, slot - indexOffset));
    }

    /** `collectionView(_:didSelectItemAt:)`: the selection forwarded to the
        delegate, or None when no delegate handles it (`listens` is false). */
    method DidSelectItemAt(src: Source, listens: bool, slot: int) returns (forwarded: Option<Selection>)
      requires listens ==> ValidSource(src)
      ensures forwarded.Some? <==> listens
      ensures forwarded.Some? ==> forwarded.value.slotIndex == slot
      ensures forwarded.Some? ==> forwarded.value.logicalIndex == LogicalIndex(src, indexOffset, slot)
      ensures forwarded.Some? && src.Present? ==> 0 <= forwarded.value.logicalIndex < src.count
      ensures forwarded.Some? && src.Absent? ==> forwarded.value.logicalIndex == 0
    {
      if !listens {
        return None;
      }
      forwarded := Some(Selection(CorrectedIndex(src, slot - indexOffset), slot));
    }
  }
}
