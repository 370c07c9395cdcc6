# InfiniteCollectionView index model

InfiniteCollectionView is a UIKit collection view that fakes an endless
carousel. It renders `dummyCount × N` slots (three copies of the host's N
items). It maps every rendered slot back to a logical item with a floor
modulo, `correctedIndex(slot - indexOffset)`. When the user scrolls far
enough from the middle, it snaps the scroll position back and adds the
*corrected* shift count to `indexOffset`.

This project models the integer part of that widget in Dafny:

- `infinite_index.dfy` (module `InfiniteIndex`) holds the pure arithmetic.
  It covers the data source as a value (`Absent`, or `Present(count)`),
  `correctedIndex`, the padded slot count, the slot-to-item mapping and its
  inverse, and the lemmas about them. These are periodicity, congruence,
  three slots per item, the re-centering keeping the page, and the meaning of
  the re-selection guard.
- `infinite_collection_view.dfy` (module `InfiniteCollection`) holds the
  class `InfiniteCollectionView`. It has the three fields the Swift class
  updates in place: `indexOffset`, `pageIndex` and `isInitialData`. Its
  methods are `shiftContentArray`, the integer skeleton of `centerIfNeeded`,
  `layoutSubviews`, `selectItem`, `cellForItemAt` and `didSelectItemAt`.
  Each toolkit result arrives as a parameter: the shift count computed from
  scroll geometry, the slot found by the center hit test, and the slot of the
  first visible cell. Each call into the host or the superclass comes back as
  a returned value.

Two points about the code that are easy to misread:

- `correctedIndex` returns 0 only when the data source is absent. It does
  not do so for a present source with zero items. That case reaches
  `Float(i) / Float(0)`, and converting the resulting NaN or infinity to
  `Int` traps. The model therefore requires `ValidSource(src)` wherever the
  code would call `correctedIndex`.
- Adding the *corrected* shift count does not keep `indexOffset` within
  one logical cycle. Only each increment is bounded, to `[0, N)`, so
  `indexOffset` never decreases and grows without bound.
  `CenterIfNeeded`'s contract states exactly that, through `ShiftedOffset`.

## Model

| member | source | states |
|---|---|---|
| InfiniteIndex.ItemCount | Sources/InfiniteCollectionView.swift:77 | the count `number(ofItems:) ?? 0` is 0 exactly when no source is attached or it has no items; a non-zero count implies an attached source that `correctedIndex` can divide by, which is what the guard of `layoutSubviews` relies on before re-centering |
| InfiniteIndex.SlotCount | Sources/InfiniteCollectionView.swift:145-148 | `dummyCount * N` (3N) slots with a data source, where N = `number(ofItems:) ?? 0`, and 0 without one; no slots exactly when there are no items |
| InfiniteIndex.FloorQuotient | Sources/InfiniteCollectionView.swift:135-136 | the quotient is the floor of i / n: `n*q <= i < n*q + n` |
| InfiniteIndex.CorrectedIndex | Sources/InfiniteCollectionView.swift:130-139 | 0 with no data source; for N > 0 the result is in `[0, N)`, equals i on the fast path `0 <= i < N`, and is the mathematical remainder of i modulo N |
| InfiniteIndex.Periodic | Sources/InfiniteCollectionView.swift:135-138 | `correctedIndex(i + k*N) == correctedIndex(i)` for every integer k |
| InfiniteIndex.Congruent | Sources/InfiniteCollectionView.swift:135-138 | two offsets correct to the same index exactly when their difference is a multiple of N (both directions) |
| InfiniteIndex.LogicalIndex | Sources/InfiniteCollectionView.swift:151 | the logical index of a slot, `correctedIndex(slot - indexOffset)`, is in `[0, N)`, or 0 without a source |
| InfiniteIndex.SlotInCopy | Sources/InfiniteCollectionView.swift:56 | the slot `correctedIndex(item + indexOffset)` (copy 0), and its equivalent in copies 1 and 2, lies in that copy and maps back to `correctedIndex(item)`: the inverse of the slot-to-item mapping |
| InfiniteIndex.ItemSlots | Sources/InfiniteCollectionView.swift:26 | within `3*N` slots, the slots that show a given item are exactly its three copy slots |
| InfiniteIndex.EachItemFillsDummyCountSlots | Sources/InfiniteCollectionView.swift:145-148 | no slots without a source; with N items every one of the `3*N` slots shows an item in `[0, N)`, and each item is shown by exactly `dummyCount` (3) slots |
| InfiniteIndex.ShiftedOffset | Sources/InfiniteCollectionView.swift:117 | the offset after a pass is unchanged when no shift is due; otherwise it grows by an amount in `[0, N)` that is congruent to the raw shift count modulo N |
| InfiniteIndex.DerivedPage | Sources/InfiniteCollectionView.swift:121-122 | the page is left unchanged when the hit test finds no slot; otherwise it is the logical index of the centered slot, in `[0, N)`, or 0 without a source |
| InfiniteIndex.CorrectedShiftMapsLikeRaw | Sources/InfiniteCollectionView.swift:117 | adding the corrected shift count to the offset maps every slot to the same item as adding the raw shift count would |
| InfiniteIndex.RecenterKeepsPage | Sources/InfiniteCollectionView.swift:104-124 | the item centered at slot s before a shift of k cells is still the item at slot s + k after the offset is bumped: the page does not change across re-centering |
| InfiniteIndex.SelectGuardMeansSameItem | Sources/InfiniteCollectionView.swift:65-69 | the guard `correctedIndex(item + indexOffset) == correctedIndex(visibleSlot)` holds exactly when the visible cell already shows logical item `correctedIndex(item)` |
| InfiniteCollection.InfiniteCollectionView.constructor | Sources/InfiniteCollectionView.swift:28-30 | a new view starts with offset 0, page 0 and the flag clear |
| InfiniteCollection.InfiniteCollectionView.ShiftContentArray | Sources/InfiniteCollectionView.swift:126-128 | adds its argument (never negative at its one call site, line 117) to `indexOffset` and keeps the state invariant; `pageIndex` and `isInitialData` are unchanged |
| InfiniteCollection.InfiniteCollectionView.CenterIfNeeded | Sources/InfiniteCollectionView.swift:104-124 | `indexOffset` grows by the corrected shift when a shift is due. `pageIndex` is re-derived from the centered slot with the new offset and reported, or left alone when no slot is found. The flag is untouched and the state invariant is kept |
| InfiniteCollection.InfiniteCollectionView.LayoutSubviews | Sources/InfiniteCollectionView.swift:75-81 | the flag only goes from false to true, and only on a pass with N != 0. The pass re-centers exactly on that transition; every other pass changes nothing |
| InfiniteCollection.InfiniteCollectionView.SelectItem | Sources/InfiniteCollectionView.swift:53-73 | nothing with no visible cell. Otherwise exactly one selection at slot `correctedIndex(item + indexOffset)`, made exactly when that differs from `correctedIndex(visibleSlot)`, which happens exactly when the visible cell does not already show the item; the selected slot shows the requested item |
| InfiniteCollection.InfiniteCollectionView.CellForItemAt | Sources/InfiniteCollectionView.swift:150-155 | with a data source, asks it for logical item `correctedIndex(slot - indexOffset)`, which is in `[0, N)`; without one, falls back to the default cell |
| InfiniteCollection.InfiniteCollectionView.DidSelectItemAt | Sources/InfiniteCollectionView.swift:161-163 | forwards the tap exactly when a delegate handles it, with the raw slot and the logical index `correctedIndex(slot - indexOffset)`, which is in `[0, N)` (0 without a source) |

## Left out

- InfiniteIndex.CorrectedIndex: uses exact integer floor division. Swift computes the floor with 32-bit `Float`, which is guaranteed to agree with it while `|i|` and N are below 2^24. The model does not capture the rounding beyond that bound, which a long session can reach because `indexOffset` only grows.
- Swift's 64-bit `Int` overflow traps (`indexOffset += offset`, `item + indexOffset`) are not modelled; Dafny integers are unbounded.
- A negative item count from the data source is not modelled: `Source.count` is a `nat`.
- The data source is asked for its count several times per handler; the model reads it once per call (the `src` parameter), assuming it does not change within one handler.
- The force-unwraps `indexPath!` (line 56) and `visibleIndexPath!` (lines 63-65) trap on nil. The model takes a plain item and treats only the "no visible cell" case as absent.
- The scroll geometry of `centerIfNeeded` is not modelled: `centerX`, `distFromCenter`, the quarter-width threshold, floor/ceil of the cell count, the fractional correction and the `contentOffset` writes (lines 105-116). It is floating-point layout arithmetic; its outcome is the `shiftCells` parameter. `RecenterKeepsPage` assumes that a shift of k cells moves the centered item from slot s to slot s + k.
- `reloadData` (line 118), cell dequeue and registration, and `visibleCells` and `indexPathForItem(at:)` are toolkit calls. Their results are parameters.
- `rotate` (lines 49-51), `itemWidth` and `totalContentWidth` (lines 87-95) are CGFloat layout arithmetic.
- Notification observer registration in `configure` and `deinit` (lines 45-47, 97-102) is event-system plumbing.
- `scrollViewDidScroll` (lines 170-172) only calls `centerIfNeeded`, which is modelled. `scrollViewDidEndDecelerating` and `scrollViewDidEndDragging` (lines 174-181) only forward `pageIndex` to the delegate.
- InfiniteCollection.InfiniteCollectionView.CenterIfNeeded: the page index is reported whenever the hit test finds a slot. The model does not distinguish whether a delegate is attached to receive it.
