/**
 Page and slot arithmetic of the table file (src/storage.c, layout helpers).
 */
module Layout {
  import opened Bytes

  const PAGE_SIZE: nat := 4096
  const NAME_SIZE: nat := 32
  const HEADER_SIZE: nat := 64
  const ROW_SIZE: nat := 36
  const ROWS_PER_PAGE: nat := PAGE_SIZE / ROW_SIZE

  /** Offset of a row's first byte in unbounded arithmetic. */
  function TrueOffset(row: nat): nat {
    HEADER_SIZE + PAGE_SIZE * (row / ROWS_PER_PAGE) + ROW_SIZE * (row % ROWS_PER_PAGE)
  }

  /** Number of bytes a table with `count` rows needs, in unbounded arithmetic. */
  function TrueSize(count: nat): nat {
    if count == 0 then HEADER_SIZE else TrueOffset(count - 1) + ROW_SIZE
  }

  function OffsetForRow(row: uint64): (r: Option<uint64>)
    ensures r == if TrueOffset(row) <= U64_MAX then Some(TrueOffset(row)) else None
  {
    var page: uint64 := row / ROWS_PER_PAGE;
    var slot: uint64 := row % ROWS_PER_PAGE;
    match CheckedMul(page, PAGE_SIZE)
    case None => None
    case Some(base) =>
      match CheckedMul(slot, ROW_SIZE)
      case None => None
      case Some(within) =>
        match CheckedAdd(base, within)
        case None => None
        case Some(data) => CheckedAdd(data, HEADER_SIZE)
  }

  function RowForOffset(offset: uint64): Option<uint64> {
    if offset < HEADER_SIZE then None else
    var data := offset - HEADER_SIZE;
    var page := data / PAGE_SIZE;
    var within := data % PAGE_SIZE;
    if within % ROW_SIZE != 0 then None else
    var slot := within / ROW_SIZE;
    if slot >= ROWS_PER_PAGE then None else
    match CheckedMul(page, ROWS_PER_PAGE)
    case None => None
    case Some(first) => CheckedAdd(first, slot)
  }

  lemma RowForOffsetFinds(n: uint64)
    requires TrueOffset(n) <= U64_MAX
    ensures RowForOffset(TrueOffset(n)) == Some(n)
  {
    var page, slot := n / 113, n % 113;
    var data := 4096 * page + 36 * slot;
    assert data / 4096 == page && data % 4096 == 36 * slot;
    assert (36 * slot) % 36 == 0 && (36 * slot) / 36 == slot;
  }

  lemma RowForOffsetFound(offset: uint64)
    requires RowForOffset(offset).Some?
    ensures TrueOffset(RowForOffset(offset).value) == offset
  {
    var data := offset - HEADER_SIZE;
    var page, slot := data / 4096, (data % 4096) / 36;
    var row := RowForOffset(offset).value;
    assert row == page * 113 + slot;
    assert row / 113 == page && row % 113 == slot;
  }

  lemma RowForOffsetExact(offset: uint64)
    ensures var r := RowForOffset(offset);
            (r.Some? <==> exists n: uint64 :: TrueOffset(n) == offset)
            && (r.Some? ==> TrueOffset(r.value) == offset)
  {
    if RowForOffset(offset).Some? { RowForOffsetFound(offset); }
    forall n: uint64 | TrueOffset(n) == offset
      ensures RowForOffset(offset).Some?
    {
      RowForOffsetFinds(n);
    }
  }

  /** Forward then back: the row number is recovered whenever the forward call succeeds. */
  lemma RowOfOffsetOfRow(row: uint64)
    requires OffsetForRow(row).Some?
    ensures RowForOffset(OffsetForRow(row).value) == Some(row)
  {
    RowForOffsetFinds(row);
  }

  /** Rows are strictly increasing in the file and their slots do not overlap. */
  lemma OffsetsIncrease(a: nat, b: nat)
    requires a < b
    ensures HEADER_SIZE <= TrueOffset(a) && TrueOffset(a) + ROW_SIZE <= TrueOffset(b)
  {
    if a / 113 == b / 113 {
      assert a % 113 < b % 113;
    } else {
      assert a / 113 < b / 113;
    }
  }

  /**
   The layout, step by step, in plain numbers: the first row is at 64; the next starts 36 bytes
   on if it still ends in the same page, and otherwise where the next page begins.
   */
  lemma NextRowStarts(row: nat)
    ensures TrueOffset(0) == 64 && TrueOffset(row) >= 64
    ensures var page := (TrueOffset(row) - 64) / 4096;
            TrueOffset(row + 1) ==
              if TrueOffset(row) + 36 + 36 <= 64 + 4096 * (page + 1) then TrueOffset(row) + 36
              else 64 + 4096 * (page + 1)
    ensures TrueSize(0) == 64 && TrueSize(row + 1) == TrueOffset(row) + 36
  {
    var page, slot := row / 113, row % 113;
    assert TrueOffset(row) - 64 == 4096 * page + 36 * slot;
    assert (4096 * page + 36 * slot) / 4096 == page;
    if slot < 112 {
      assert (row + 1) / 113 == page && (row + 1) % 113 == slot + 1;
    } else {
      assert (row + 1) / 113 == page + 1 && (row + 1) % 113 == 0;
    }
  }

  /** Nothing else is laid out so. */
  lemma {:induction false} OnlyLayout(starts: nat -> int, row: nat)
    requires starts(0) == 64
    requires forall k: nat :: k < row ==>
               var page := (starts(k) - 64) / 4096;
               starts(k + 1) == if starts(k) + 36 + 36 <= 64 + 4096 * (page + 1) then starts(k) + 36
                                else 64 + 4096 * (page + 1)
    ensures starts(row) == TrueOffset(row)
  {
    if row > 0 {
      OnlyLayout(starts, row - 1);
      NextRowStarts(row - 1);
    }
  }

  /** A slot lies inside the row area of one page: past the header, before the padding. */
  lemma SlotStaysInPage(row: nat)
    ensures var page := row / ROWS_PER_PAGE;
            var start := HEADER_SIZE + PAGE_SIZE * page;
            start <= TrueOffset(row)
            && TrueOffset(row) + ROW_SIZE <= start + ROW_SIZE * ROWS_PER_PAGE < start + PAGE_SIZE
  {
  }

  function LogicalSize(count: uint64): (r: Option<uint64>)
    ensures r == if TrueSize(count) <= U64_MAX then Some(TrueSize(count)) else None
  {
    if count == 0 then Some(HEADER_SIZE) else
    match OffsetForRow(count - 1)
    case None => None
    case Some(last) => CheckedAdd(last, ROW_SIZE)
  }

  /** The old table always ends at or before the slot of the next row. */
  lemma SizeBeforeNextRow(count: nat)
    ensures HEADER_SIZE <= TrueSize(count) <= TrueOffset(count) < TrueSize(count + 1)
  {
    if count > 0 { OffsetsIncrease(count - 1, count); }
  }

  lemma SizesIncrease(a: nat, b: nat)
    requires a <= b
    ensures TrueSize(a) <= TrueSize(b)
  {
    if a < b {
      if a > 0 { OffsetsIncrease(a - 1, b - 1); }
    }
  }

  function IsValidRowOffset(offset: uint64, fileSize: uint64, rowCount: uint64): (r: bool)
    ensures r <==> exists n: uint64 :: n < rowCount && TrueOffset(n) == offset
                                       && offset + ROW_SIZE <= fileSize
  {
    RowForOffsetExact(offset);
    match RowForOffset(offset)
    case None => false
    case Some(row) =>
      UniqueRow(offset);
      if row >= rowCount then false else
      if OffsetForRow(row) != Some(offset) then false else
      match CheckedAdd(offset, ROW_SIZE)
      case None => false
      case Some(end) => end <= fileSize
  }

  lemma UniqueRow(offset: nat)
    ensures forall a: nat, b: nat :: TrueOffset(a) == offset && TrueOffset(b) == offset ==> a == b
  {
    forall a: nat, b: nat | TrueOffset(a) == offset && TrueOffset(b) == offset
      ensures a == b
    {
      if a < b { OffsetsIncrease(a, b); }
      if b < a { OffsetsIncrease(b, a); }
    }
  }
}
