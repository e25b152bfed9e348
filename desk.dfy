/** Desk geometry: the bijection between a desk's (row, col) and its linear
    slot index, and the separator-count distance between two rows.

    The west zone has rows 30 down to 1, with per-row seat counts from a table;
    the east zone has rows 77 down to 60, three seats per row. Slots are
    numbered through the west zone first (row 30 first), then the east zone
    (row 77 first). */
module Desks {
  import opened Common

  /** Seats per west row, listed from row 30 down to row 1. */
  const WestSideColCounts: seq<int> :=
    [4, 4,                                  // rows 30, 29
     5, 5, 5, 5, 5, 5,                      // rows 28 .. 23
     3, 3, 3, 3, 3, 3, 3, 3,                // rows 22 .. 15
     2, 2, 2, 2, 2, 2, 2, 2, 2, 2, 2, 2,    // rows 14 .. 3
     3, 3]                                  // rows 2, 1

  const WestRows: int := 30
  const EastSeatsPerRow: int := 3
  const WestDesks: int := 92
  const TotalDesks: int := 146

  predicate IsWestRow(row: int) { 1 <= row <= 30 }
  predicate IsEastRow(row: int) { 60 <= row <= 77 }
  predicate IsLegalRow(row: int) { IsWestRow(row) || IsEastRow(row) }

  /** Number of seats in a legal row. */
  function SeatsInRow(row: int): int
    requires IsLegalRow(row)
  {
    if IsWestRow(row) then WestSideColCounts[30 - row] else EastSeatsPerRow
  }

  /** Seats in the first k rows of the west table (rows 30 down to 31 - k). */
  function WestPrefix(k: nat): int
    requires k <= |WestSideColCounts|
  {
    if k == 0 then 0 else WestPrefix(k - 1) + WestSideColCounts[k - 1]
  }

  /** The table as runs of equal counts. */
  function ColCountOf(i: int): int {
    if i < 2 then 4 else if i < 8 then 5 else if i < 16 then 3 else if i < 28 then 2 else 3
  }

  lemma ColCountAt(i: int)
    requires 0 <= i < 30
    ensures |WestSideColCounts| == 30 && WestSideColCounts[i] == ColCountOf(i)
  {
    assert WestSideColCounts == [4, 4] + [5, 5, 5, 5, 5, 5] + [3, 3, 3, 3, 3, 3, 3, 3]
      + [2, 2, 2, 2, 2, 2, 2, 2, 2, 2, 2, 2] + [3, 3];
  }

  /** Closed form of the cumulative seat count of the first k west rows. */
  function WestPrefixOf(k: int): int {
    if k <= 2 then 4 * k
    else if k <= 8 then 8 + 5 * (k - 2)
    else if k <= 16 then 38 + 3 * (k - 8)
    else if k <= 28 then 62 + 2 * (k - 16)
    else 86 + 3 * (k - 28)
  }

  lemma {:induction false} WestPrefixClosed(k: nat)
    requires k <= 30
    ensures |WestSideColCounts| == 30
    ensures WestPrefix(k) == WestPrefixOf(k)
  {
    ColCountAt(0);
    if k > 0 {
      WestPrefixClosed(k - 1);
      ColCountAt(k - 1);
    }
  }

  lemma WestTotal()
    ensures |WestSideColCounts| == 30
    ensures WestPrefix(30) == WestDesks
    ensures WestDesks + EastSeatsPerRow * 18 == TotalDesks
  {
    WestPrefixClosed(30);
  }

  /** Every row of the table has at least two seats, so the prefix sums grow strictly. */
  lemma WestPrefixMonotone(i: nat, j: nat)
    requires i <= j <= 30
    ensures WestPrefix(i) + 2 * (j - i) <= WestPrefix(j)
  {
    WestPrefixClosed(i);
    WestPrefixClosed(j);
  }

  /** The linear index of a desk in a legal row: the seats of every row before it
      in the fixed order, plus col - 1. */
  function DeskIndex(row: int, col: int): int
    requires IsLegalRow(row)
  {
    if IsWestRow(row) then WestPrefix(30 - row) + col - 1
    else WestPrefix(30) + EastSeatsPerRow * (77 - row) + col - 1
  }

  /** The west table slot holding linear index t, when 0 <= t: the first slot
      i >= k whose cumulative seat count exceeds t. */
  function WestSlot(t: int, k: nat): (i: nat)
    requires k <= 30
    ensures k <= i <= 30
    decreases 30 - k
  {
    if k == 30 || WestPrefix(k + 1) > t then k else WestSlot(t, k + 1)
  }

  /** The desk that `Desk.ConvertIndexToDesk` produces for a target index, as a
      pair (row, col), or None when no desk has that index. */
  function DeskAt(t: int): Option<(int, int)> {
    if t >= TotalDesks then None
    else if t < WestDesks then
      var i := WestSlot(t, 0);
      Some((30 - i, t - WestPrefix(i) + 1))
    else Some((77 - (t - WestDesks) / 3, (t - WestDesks) % 3 + 1))
  }

  lemma {:induction false} WestSlotFinds(t: int, k: nat, i: nat)
    requires k <= i < 30
    requires WestPrefix(i) <= t < WestPrefix(i + 1)
    requires forall m :: k < m <= i ==> WestPrefix(m) <= t
    ensures WestSlot(t, k) == i
    decreases i - k
  {
    if k < i {
      WestSlotFinds(t, k + 1, i);
    }
  }

  lemma {:induction false} WestSlotBounds(t: int, k: nat)
    requires k < 30
    requires WestPrefix(k) <= t < WestDesks
    ensures k <= WestSlot(t, k) < 30
    ensures WestPrefix(WestSlot(t, k)) <= t < WestPrefix(WestSlot(t, k) + 1)
    decreases 30 - k
  {
    WestPrefixClosed(k + 1);
    if WestPrefix(k + 1) <= t {
      WestSlotBounds(t, k + 1);
    }
  }

  /** Every index below 146 converts to a desk whose own index is that index;
      for 0 <= t the desk is legal and its column lies within its row. */
  lemma IndexToDeskToIndex(t: int)
    requires t < TotalDesks
    ensures DeskAt(t).Some?
    ensures IsLegalRow(DeskAt(t).value.0)
    ensures DeskIndex(DeskAt(t).value.0, DeskAt(t).value.1) == t
    ensures 0 <= t ==> 1 <= DeskAt(t).value.1 <= SeatsInRow(DeskAt(t).value.0)
  {
    WestTotal();
    if t < WestDesks {
      if t >= 0 {
        WestSlotBounds(t, 0);
      }
    }
  }

  /** Every legal desk whose column lies within its row converts back to
      exactly that (row, col). */
  lemma DeskToIndexToDesk(row: int, col: int)
    requires IsLegalRow(row) && 1 <= col <= SeatsInRow(row)
    ensures DeskAt(DeskIndex(row, col)) == Some((row, col))
  {
    if IsWestRow(row) {
      var i := 30 - row;
      var t := DeskIndex(row, col);
      ColCountAt(i);
      assert t < WestPrefix(i + 1);
      WestPrefixClosed(i + 1);
      forall m | 0 < m <= i ensures WestPrefix(m) <= t {
        WestPrefixMonotone(m, i);
      }
      WestSlotFinds(t, 0, i);
    } else {
      WestTotal();
    }
  }

  /** `countSeperatorsBetweenDesks` as the source writes it: the west zone is
      taken to be rows below 30, so a desk in row 30 is measured by the east
      rule. (`%` is only compared with 0, or applied to positive values, so
      C# and Dafny agree on it here.) */
  function SeparatorsAsWritten(row: int, otherRow: int): int
    decreases if otherRow < 30 then 0 else 1
  {
    if row < 30 then
      if otherRow < 30 then
        var first := Max(row, otherRow);
        var second := Min(row, otherRow);
        if first % 2 == 0 then TruncDiv(first - second - 2, 2) else TruncDiv(first - second - 1, 2)
      else
        1 + SeparatorsAsWritten(row, 1) + TruncDiv(77 - otherRow, 2)
    else
      var first := Max(row, otherRow);
      var second := Min(row, otherRow);
      if first % 2 == 1 then TruncDiv(first - second - 2, 2) else TruncDiv(first - second - 1, 2)
  }

  /** Rows 29 and 30 are neighbours in the west zone; measured from row 29 the
      source counts the wrap-around through the east zone (37 separators),
      measured from row 30 it counts none. */
  lemma SeparatorsAsWrittenAsymmetric()
    ensures SeparatorsAsWritten(29, 30) == 37
    ensures SeparatorsAsWritten(30, 29) == 0
    ensures SeparatorsAsWritten(30, 25) == 2 && SeparatorsAsWritten(28, 23) == 1
  {
  }

  /** In the source's west branch (both rows below 30) the count as written
      depends only on the larger and smaller row, so it is symmetric. */
  lemma SeparatorsAsWrittenSymmetricWest(a: int, b: int)
    requires a < 30 && b < 30
    ensures SeparatorsAsWritten(a, b) == SeparatorsAsWritten(b, a)
  {
  }

  /** In the source's east branch (both rows 30 or above) the count as written
      is symmetric too. */
  lemma SeparatorsAsWrittenSymmetricEast(a: int, b: int)
    requires a >= 30 && b >= 30
    ensures SeparatorsAsWritten(a, b) == SeparatorsAsWritten(b, a)
  {
  }

  /** Two west rows below row 30 moved up by one row pair keep their count as
      written. */
  lemma SeparatorsAsWrittenShiftWest(a: int, b: int)
    requires IsWestRow(a) && IsWestRow(b) && a + 2 < 30 && b + 2 < 30
    ensures SeparatorsAsWritten(a + 2, b + 2) == SeparatorsAsWritten(a, b)
  {
  }

  /** From a row below 30 to a row of 30 or above, the count as written goes
      round through row 1 and row 77: the distance to row 1, one for the
      wrap-around, and the distance from row 77, with C#'s truncating
      division. Row 30 is on the far side of that boundary. */
  lemma SeparatorsAsWrittenCrossZone(row: int, otherRow: int)
    requires 1 <= row < 30 && otherRow >= 30
    ensures SeparatorsAsWritten(row, otherRow) == 1 + SeparatorsAsWritten(row, 1) + TruncDiv(77 - otherRow, 2)
    ensures SeparatorsAsWritten(row, 1) == (if row % 2 == 0 then TruncDiv(row - 3, 2) else TruncDiv(row - 2, 2))
  {
  }

  /** The corrected separator count: the west zone taken as rows 1..30, the
      boundary `Desk.GetIndex` uses. The evaluator runs the count as written
      (`SeparatorsAsWritten`); this one is the evidently intended version. */
  function Separators(row: int, otherRow: int): int
    decreases if otherRow <= 30 then 0 else 1
  {
    if row <= 30 then
      if otherRow <= 30 then
        var first := Max(row, otherRow);
        var second := Min(row, otherRow);
        if first % 2 == 0 then TruncDiv(first - second - 2, 2) else TruncDiv(first - second - 1, 2)
      else
        1 + Separators(row, 1) + TruncDiv(77 - otherRow, 2)
    else
      var first := Max(row, otherRow);
      var second := Min(row, otherRow);
      if first % 2 == 1 then TruncDiv(first - second - 2, 2) else TruncDiv(first - second - 1, 2)
  }

  /** Both rows in the west zone (or anywhere up to row 30): the count depends
      only on the larger and smaller row, so it is symmetric. */
  lemma SeparatorsSymmetricWest(a: int, b: int)
    requires a <= 30 && b <= 30
    ensures Separators(a, b) == Separators(b, a)
  {
  }

  /** Both rows past row 30: symmetric as well. */
  lemma SeparatorsSymmetricEast(a: int, b: int)
    requires a > 30 && b > 30
    ensures Separators(a, b) == Separators(b, a)
  {
  }

  /** Within the west zone the count is invariant under moving both rows two rows
      up (one row pair), which the source breaks at row 30. */
  lemma SeparatorsShiftWest(a: int, b: int)
    requires IsWestRow(a) && IsWestRow(b) && a + 2 <= 30 && b + 2 <= 30
    ensures Separators(a + 2, b + 2) == Separators(a, b)
  {
  }

  /** Crossing from the west zone to the east zone: the distance to row 1, one
      for the wrap-around from row 1 to row 77, and the distance from row 77,
      with C#'s truncating division. */
  lemma SeparatorsCrossZone(row: int, otherRow: int)
    requires IsWestRow(row) && otherRow > 30
    ensures Separators(row, otherRow) == 1 + Separators(row, 1) + TruncDiv(77 - otherRow, 2)
    ensures Separators(row, 1) == (if row % 2 == 0 then TruncDiv(row - 3, 2) else TruncDiv(row - 2, 2))
  {
  }

  /** A west row measured against itself: -1 for an even row (the truncating
      division of -2 by 2), 0 for an odd row (-1 / 2 truncates to 0, where
      Euclidean division would give -1). */
  lemma SeparatorsSameWestRow(row: int)
    requires IsWestRow(row)
    ensures Separators(row, row) == (if row % 2 == 0 then -1 else 0)
  {
  }

  /** The as-written count and the corrected one agree except when row 30 is the
      row measured from or to. */
  lemma SeparatorsAgreeAwayFromRow30(row: int, otherRow: int)
    requires row != 30 && otherRow != 30
    ensures SeparatorsAsWritten(row, otherRow) == Separators(row, otherRow)
  {
  }

  /** A physical desk. The linear index is computed once and memoised in `index`
      (-1 until computed). */
  class Desk {
    const Row: int
    const Col: int
    var TeamNumber: int
    var index: int

    ghost predicate Valid()
      reads this
    {
      index != -1 ==> IsLegalRow(Row) && index == DeskIndex(Row, Col)
    }

    /** The constructor computes the index at once through `GetIndex`; for a
        row outside both zones that call fails and the index stays unset
        (`NewDesk` reports the failure). */
    constructor (row: int, col: int)
      ensures Valid()
      ensures Row == row && Col == col && TeamNumber == 0
      ensures IsLegalRow(row) ==> index == DeskIndex(row, col)
      ensures !IsLegalRow(row) ==> index == -1
    {
      Row := row;
      Col := col;
      TeamNumber := 0;
      index := -1;
      new;
      var _ := GetIndex();
    }

    /** The memoised index, or InvalidGeometry for a row outside both zones. */
    method GetIndex() returns (r: Result<int>)
      requires Valid()
      modifies this`index
      ensures Valid()
      ensures IsLegalRow(Row) ==> r == Ok(DeskIndex(Row, Col)) && index == DeskIndex(Row, Col)
      ensures !IsLegalRow(Row) ==> r == Err(InvalidGeometry) && index == old(index)
    {
      WestTotal();
      if index != -1 {
        return Ok(index);
      }
      if Row <= 30 && Row >= 1 {
        var i := GetWestSideIndex();
        return Ok(i);
      }
      if Row <= 77 && Row >= 60 {
        var i := GetEastSideIndex();
        return Ok(i);
      }
      return Err(InvalidGeometry);
    }

    /** Walks the west table from row 30 down, summing seats until it reaches Row. */
    method GetWestSideIndex() returns (i: int)
      requires IsWestRow(Row)
      modifies this`index
      ensures i == WestPrefix(30 - Row) + Col - 1
      ensures index == i
    {
      var idx := 0;
      var k := 0;
      while 30 - k != Row
        invariant 0 <= k <= 30 - Row
        invariant idx == WestPrefix(k)
      {
        idx := idx + WestSideColCounts[k];
        k := k + 1;
      }
      index := idx + Col - 1;
      i := index;
    }

    /** Starts from the west total (92) and adds three seats per east row from
        row 77 down until it reaches Row. */
    method GetEastSideIndex() returns (i: int)
      requires IsEastRow(Row)
      modifies this`index
      ensures i == WestDesks + 3 * (77 - Row) + Col - 1
      ensures index == i
    {
      WestTotal();
      var idx := WestPrefix(30);
      var row := 77;
      while row != Row
        invariant Row <= row <= 77
        invariant idx == WestDesks + 3 * (77 - row)
      {
        idx := idx + 3;
        row := row - 1;
      }
      index := idx + Col - 1;
      i := index;
    }
  }

  /** `new Desk(row, col)` as its caller sees it: the desk, or the
      InvalidGeometry error the constructor's `GetIndex` call throws for a row
      outside 1..30 and 60..77. */
  method NewDesk(row: int, col: int) returns (r: Result<Desk>)
    ensures !IsLegalRow(row) <==> r.Err?
    ensures r.Err? ==> r.error == InvalidGeometry
    ensures r.Ok? ==> && fresh(r.value) && r.value.Valid()
                      && r.value.Row == row && r.value.Col == col
                      && r.value.index == DeskIndex(row, col)
  {
    var d := new Desk(row, col);
    var i := d.GetIndex();
    if i.Err? {
      return Err(i.error);
    }
    r := Ok(d);
  }

  /** Walks the same cumulative table as `GetIndex` to find the desk owning a
      target index; null for any index from 146 on. */
  method ConvertIndexToDesk(targetIndex: int) returns (d: Desk?)
    ensures d == null <==> targetIndex >= TotalDesks
    ensures d != null ==> d.Valid() && DeskAt(targetIndex) == Some((d.Row, d.Col))
    ensures d != null ==> d.index == targetIndex
  {
    var current := 0;
    var i := 0;
    while i < |WestSideColCounts|
      invariant 0 <= i <= 30 && |WestSideColCounts| == 30
      invariant current == WestPrefix(i)
      invariant forall m :: 0 < m <= i ==> WestPrefix(m) <= targetIndex
    {
      current := current + WestSideColCounts[i];
      if current > targetIndex {
        WestDeskFound(targetIndex, i);
        d := new Desk(30 - i, WestSideColCounts[i] - (current - targetIndex) + 1);
        return;
      }
      i := i + 1;
    }
    WestTotal();
    var row := 77;
    while row >= 60
      invariant 59 <= row <= 77
      invariant current == WestDesks + 3 * (77 - row)
      invariant current <= targetIndex
    {
      current := current + 3;
      if current > targetIndex {
        EastDeskFound(targetIndex, row);
        d := new Desk(row, 3 - (current - targetIndex) + 1);
        return;
      }
      row := row - 1;
    }
    d := null;
  }

  /** The west walk stops at table slot i: that is the desk DeskAt names. */
  lemma WestDeskFound(t: int, i: nat)
    requires i < 30 && |WestSideColCounts| == 30
    requires forall m :: 0 < m <= i ==> WestPrefix(m) <= t
    requires WestPrefix(i + 1) > t
    ensures t < TotalDesks
    ensures IsWestRow(30 - i)
    ensures DeskAt(t) == Some((30 - i, WestSideColCounts[i] - (WestPrefix(i + 1) - t) + 1))
    ensures DeskIndex(30 - i, WestSideColCounts[i] - (WestPrefix(i + 1) - t) + 1) == t
  {
    assert WestPrefix(i + 1) == WestPrefix(i) + WestSideColCounts[i];
    WestPrefixClosed(i + 1);
    if 0 <= t {
      WestSlotFinds(t, 0, i);
    } else {
      if i > 0 {
        WestPrefixMonotone(0, 1);
      }
      assert i == 0;
      WestPrefixClosed(1);
      assert WestSlot(t, 0) == 0;
    }
    assert WestSlot(t, 0) == i;
    assert t < WestDesks;
  }

  /** The east walk stops at row `row`: that is the desk DeskAt names. */
  lemma EastDeskFound(t: int, row: int)
    requires IsEastRow(row)
    requires WestDesks + 3 * (77 - row) <= t < WestDesks + 3 * (77 - row) + 3
    ensures t < TotalDesks
    ensures DeskAt(t) == Some((row, 3 - (WestDesks + 3 * (77 - row) + 3 - t) + 1))
    ensures DeskIndex(row, 3 - (WestDesks + 3 * (77 - row) + 3 - t) + 1) == t
  {
    WestTotal();
    var q := (t - WestDesks) / 3;
    assert q == 77 - row;
  }
}
