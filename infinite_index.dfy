/*
 * Index arithmetic of InfiniteCollectionView: the padded slot space, the
 * floor-modulo `correctedIndex` and the translation from a rendered slot to
 * the host's logical item index.
 */
module InfiniteIndex {

  datatype Option<T> = None | Some(value: T)

  /** The host data source as the view sees it: not attached (a nil weak
      reference), or attached and reporting `count` items. */
  datatype Source = Absent | Present(count: nat)

  /** Number of copies of the logical collection that are rendered. */
  const DummyCount: nat := 3

  /** `infiniteDataSource?.number(ofItems:) ?? 0`. A non-zero count means a
      source is attached that `correctedIndex` can divide by, which is what
      the guard of `layoutSubviews` relies on before re-centering. */
  function ItemCount(src: Source): (n: nat)
    ensures n != 0 ==> src.Present? && ValidSource(src)
    ensures n == 0 <==> src.Absent? || src.count == 0
  {
    if src.Present? then src.count else 0
  }

  /** A source for which `correctedIndex` returns instead of trapping: absent,
      or present with at least one item. With zero items the Swift code
      divides by zero in Float and converts NaN or an infinity to Int. */
  predicate ValidSource(src: Source)
  {
    src.Present? ==> src.count > 0
  }

  /** Number of rendered slots: `dummyCount * N`, and 0 without a source. */
  function SlotCount(src: Source): (r: nat)
    ensures src.Absent? ==> r == 0
    ensures src.Present? ==> r == DummyCount * src.count
    ensures r == 0 <==> ItemCount(src) == 0
  {
    DummyCount * ItemCount(src)
  }

  /** Multiplying by a positive whole number does not make n smaller. */
  lemma MulAtLeast(n: int, d: int)
    requires n > 0 && d >= 1
    ensures n * d >= n
  {
  }

  /** A decomposition x == n * q + r with r in [0, n) is the one that Dafny's
      `/` and `%` compute. */
  lemma DivModUnique(n: int, x: int, q: int, r: int)
    requires n > 0 && x == n * q + r && 0 <= r < n
    ensures x / n == q && x % n == r
  {
    var q0, r0 := x / n, x % n;
    assert n * q - n * q0 == r0 - r;
    if q > q0 {
      assert n * (q - q0) == n * q - n * q0;
      MulAtLeast(n, q - q0);
      assert false;
    } else if q < q0 {
      assert n * (q0 - q) == n * q0 - n * q;
      MulAtLeast(n, q0 - q);
      assert false;
    }
  }

  /** The floor of i / n, as `Int(floor(Float(i) / Float(n)))` computes it
      while both magnitudes stay below 2^24. */
  function FloorQuotient(i: int, n: int): (q: int)
    requires n > 0
    ensures n * q <= i < n * q + n
  {
    i / n
  }

  /** `correctedIndex`: maps any slot offset into [0, N) by floor modulo, with
      a fast path for values already in range and 0 when there is no source.
      For N > 0 the result is the mathematical remainder of i modulo N. */
  function CorrectedIndex(src: Source, i: int): (r: int)
    requires ValidSource(src)
    ensures src.Absent? ==> r == 0
    ensures src.Present? ==> 0 <= r < src.count
    ensures src.Present? && 0 <= i < src.count ==> r == i
    ensures src.Present? ==> r == i % src.count
  {
    match src
    case Absent => 0
    case Present(n) =>
      if n > i && i >= 0 then
        DivModUnique(n, i, 0, i);
        i
      else
        i - n * FloorQuotient(i, n)
  }

  /** The logical index shown at rendered slot `slot` when the accumulated
      shift is `offset`: `correctedIndex(slot - indexOffset)`. */
  function LogicalIndex(src: Source, offset: int, slot: int): (r: int)
    requires ValidSource(src)
    ensures src.Absent? ==> r == 0
    ensures src.Present? ==> 0 <= r < src.count
  {
    CorrectedIndex(src, slot - offset)
  }

  /** The offset after a re-centering pass: unchanged when no shift was due,
      otherwise bumped by the corrected shift count, which is congruent to
      the raw one and lies in [0, N). */
  function ShiftedOffset(src: Source, offset: int, shiftCells: Option<int>): (r: int)
    requires shiftCells.Some? ==> ValidSource(src)
    ensures shiftCells.None? || src.Absent? ==> r == offset
    ensures offset <= r
    ensures shiftCells.Some? && src.Present? ==> r < offset + src.count
    ensures shiftCells.Some? && src.Present? ==> (r - offset) % src.count == shiftCells.value % src.count
  {
    if shiftCells.Some? then offset + CorrectedIndex(src, shiftCells.value) else offset
  }

  /** The page index after a scroll tick: derived from the centered slot when
      the hit test found one, left as it was otherwise. */
  function DerivedPage(src: Source, offset: int, page: int, centeredSlot: Option<int>): (r: int)
    requires centeredSlot.Some? ==> ValidSource(src)
    ensures centeredSlot.None? ==> r == page
    ensures centeredSlot.Some? && src.Present? ==> 0 <= r < src.count
    ensures centeredSlot.Some? && src.Absent? ==> r == 0
  {
    if centeredSlot.Some? then LogicalIndex(src, offset, centeredSlot.value) else page
  }

  /** Periodicity: moving a whole number of cycles does not change the result. */
  lemma Periodic(n: nat, i: int, k: int)
    requires n > 0
    ensures CorrectedIndex(Present(n), i + k * n) == CorrectedIndex(Present(n), i)
  {
    var q := i / n;
    assert i + k * n == n * (q + k) + i % n;
    DivModUnique(n, i + k * n, q + k, i % n);
  }

  /** Two offsets give the same corrected index exactly when they are
      congruent modulo N. */
  lemma Congruent(n: nat, a: int, b: int)
    requires n > 0
    ensures CorrectedIndex(Present(n), a) == CorrectedIndex(Present(n), b) <==> (a - b) % n == 0
  {
    var qa, qb := a / n, b / n;
    if a % n == b % n {
      assert a - b == n * (qa - qb) + 0;
      DivModUnique(n, a - b, qa - qb, 0);
    }
    if (a - b) % n == 0 {
      var m := (a - b) / n;
      assert a == b + m * n;
      Periodic(n, b, m);
    }
  }

  /** The slot of logical item `item` in copy `copy` of the padded list. Copy 0
      holds the slot `selectItem` computes, `correctedIndex(item + indexOffset)`.
      It lies in that copy and shows `item` again: the inverse of
      `LogicalIndex`. */
  function SlotInCopy(n: nat, offset: int, item: int, copy: nat): (s: int)
    requires n > 0
    ensures copy * n <= s < copy * n + n
    ensures LogicalIndex(Present(n), offset, s) == CorrectedIndex(Present(n), item)
  {
    var src := Present(n);
    var q := FloorQuotient(item + offset, n);
    var s := copy * n + CorrectedIndex(src, item + offset);
    assert s - offset == item + (copy - q) * n;
    Periodic(n, item, copy - q);
    s
  }

  /** A slot of the padded list that shows `item` has the remainder of
      `item + offset`; it is therefore one of the item's three copy slots. */
  lemma HitIsCopySlot(n: nat, offset: int, item: int, s: int)
    requires n > 0 && 0 <= item < n && 0 <= s < DummyCount * n
    requires LogicalIndex(Present(n), offset, s) == item
    ensures s == SlotInCopy(n, offset, item, 0) || s == SlotInCopy(n, offset, item, 1)
         || s == SlotInCopy(n, offset, item, 2)
  {
    var src := Present(n);
    assert CorrectedIndex(src, s - offset) == CorrectedIndex(src, item);
    Congruent(n, s - offset, item);
    assert s - (item + offset) == s - offset - item;
    Congruent(n, s, item + offset);
    var rem := CorrectedIndex(src, item + offset);
    assert s % n == rem;
    if s < n {
      DivModUnique(n, s, 0, s);
      assert s == 0 * n + rem;
    } else if s < 2 * n {
      DivModUnique(n, s, 1, s - n);
      assert s == 1 * n + rem;
    } else {
      DivModUnique(n, s, 2, s - 2 * n);
      assert s == 2 * n + rem;
    }
  }

  /** The slots of the padded list that show `item` are its three copy slots. */
  lemma ItemSlots(n: nat, offset: int, item: int)
    requires n > 0 && 0 <= item < n
    ensures (set s | 0 <= s < DummyCount * n && LogicalIndex(Present(n), offset, s) == item)
      == {SlotInCopy(n, offset, item, 0), SlotInCopy(n, offset, item, 1), SlotInCopy(n, offset, item, 2)}
  {
    var a, b, c := SlotInCopy(n, offset, item, 0), SlotInCopy(n, offset, item, 1), SlotInCopy(n, offset, item, 2);
    var hits := set s | 0 <= s < DummyCount * n && LogicalIndex(Present(n), offset, s) == item;
    forall s | s in hits
      ensures s in {a, b, c}
    {
      HitIsCopySlot(n, offset, item, s);
    }
    assert a in hits && b in hits && c in hits;
  }

  /** The padded list holds exactly DummyCount slots for each logical item,
      one per copy, and every rendered slot shows an item in [0, N); without
      a source there are no slots. */
  lemma EachItemFillsDummyCountSlots(src: Source, offset: int, item: int)
    requires ValidSource(src)
    ensures src.Absent? ==> SlotCount(src) == 0
    ensures src.Present? ==> forall s :: 0 <= s < SlotCount(src) ==> 0 <= LogicalIndex(src, offset, s) < src.count
    ensures src.Present? && 0 <= item < src.count ==>
      |set s | 0 <= s < SlotCount(src) && LogicalIndex(src, offset, s) == item| == DummyCount
  {
    if src.Present? && 0 <= item < src.count {
      var n := src.count;
      ItemSlots(n, offset, item);
      var a, b, c := SlotInCopy(n, offset, item, 0), SlotInCopy(n, offset, item, 1), SlotInCopy(n, offset, item, 2);
      assert a < b < c;
      assert |{a, b, c}| == 3;
    }
  }

  /** Correcting the shift count before adding it to the offset leaves the
      slot-to-item mapping as the raw shift would have made it. */
  lemma CorrectedShiftMapsLikeRaw(src: Source, offset: int, shift: int, slot: int)
    requires ValidSource(src)
    ensures LogicalIndex(src, offset + CorrectedIndex(src, shift), slot) == LogicalIndex(src, offset + shift, slot)
  {
    if src.Present? {
      var n := src.count;
      var q := FloorQuotient(shift, n);
      assert slot - (offset + CorrectedIndex(src, shift)) == slot - (offset + shift) + q * n;
      Periodic(n, slot - (offset + shift), q);
    }
  }

  /** Re-centering keeps the logical page: when a shift of `shift` cells moves
      the item that was centered at `slot` to slot `slot + shift`, the
      bumped offset maps that slot to the same logical index as before. */
  lemma RecenterKeepsPage(src: Source, offset: int, shift: int, slot: int)
    requires ValidSource(src)
    ensures LogicalIndex(src, ShiftedOffset(src, offset, Some(shift)), slot + shift) == LogicalIndex(src, offset, slot)
  {
    CorrectedShiftMapsLikeRaw(src, offset, shift, slot + shift);
    assert slot + shift - (offset + shift) == slot - offset;
  }

  /** The re-selection guard of `selectItem` compares copy-0 slots; it holds
      exactly when the visible cell already shows the requested logical item. */
  lemma SelectGuardMeansSameItem(src: Source, offset: int, item: int, visibleSlot: int)
    requires ValidSource(src)
    ensures CorrectedIndex(src, item + offset) == CorrectedIndex(src, visibleSlot)
        <==> CorrectedIndex(src, item) == LogicalIndex(src, offset, visibleSlot)
  {
    if src.Present? {
      var n := src.count;
      Congruent(n, item + offset, visibleSlot);
      Congruent(n, item, visibleSlot - offset);
      assert (item + offset) - visibleSlot == item - (visibleSlot - offset);
    }
  }
}
