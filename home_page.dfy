/** The older copy of the grid in src/pages/index.tsx. Its `makeData`, `createArray`,
    `mapLevelsToComboboxOptions`, seed and cell are the same code as `makeRows`,
    `createArray`, `mapItemsToComboboxOptions`, `initialItems` and the big-table cell, and
    are modelled once (RowUtils, LibUtils, BigTableContext, BigTable). What differs is the
    page state: no touched-rows tracking, and a save that only logs. */
module HomePage {
  import opened Types
  import opened RowUtils
  import opened BigTable

  /** The `Home` page's state: the rows and the count input. */
  class Home {
    var rows: seq<Row>
    var rowsCount: seq<CodeUnit>

    ghost predicate Valid()
      reads this
    {
      && |rows| > 0
      && (forall i :: 0 <= i < |rows| ==> WellFormed(rows[i]))
      && IdsIncreasing(rows)
    }

    /** The initial state: 40 empty rows numbered from 1 and an empty input. */
    constructor ()
      ensures Valid()
      ensures rows == MakeRows(40, 1) && rowsCount == []
    {
      rows := MakeRows(40, 1);
      rowsCount := [];
      MakeRowsIdsIncreasing(40, 1);
    }

    /** `updateData` without dirty tracking: the id column changes nothing; otherwise the
        row at `rowIndex`, if there is one, is rewritten with the cascade reset and every
        other row is kept. An out-of-range index matches no row and changes nothing. */
    method UpdateData(rowIndex: int, column: Column, value: Option<Item>)
      requires Valid() && ValidColumn(column)
      modifies this
      ensures Valid()
      ensures rowsCount == old(rowsCount) && |rows| == |old(rows)|
      ensures column.IdColumn? || !(0 <= rowIndex < |old(rows)|) ==> rows == old(rows)
      ensures column.LevelColumn? && 0 <= rowIndex < |old(rows)| ==>
                rows == old(rows)[rowIndex := UpdatedRow(old(rows)[rowIndex], column.level, value)]
    {
      if column.IdColumn? {
        return;
      }
      if 0 <= rowIndex < |rows| {
        var result := RewriteRow(rows[rowIndex], column.level, value);
        rows := rows[rowIndex := result];
        assert forall i :: 0 <= i < |rows| ==> rows[i].id == old(rows)[i].id;
      }
    }

    /** `handleRowsCountChange`: the input keeps the typed value minus its first non-digit. */
    method RowsCountChange(input: seq<CodeUnit>)
      modifies this
      ensures rowsCount == StripFirstNonDigit(input)
      ensures rows == old(rows)
    {
      rowsCount := StripFirstNonDigit(input);
    }

    /** `handleAddRowsClick`: appends `Number(rowsCount)` fresh rows numbered after the last
        row's id and clears the input. */
    method AddRowsClick()
      requires Valid() && IsDigits(rowsCount) && DecimalValue(rowsCount) < 0x1_0000_0000
      modifies this
      ensures Valid()
      ensures rows == old(rows) + MakeRows(DecimalValue(old(rowsCount)), old(rows)[|old(rows)| - 1].id + 1)
      ensures rowsCount == []
    {
      var count := DecimalValue(rowsCount);
      var lastIndex := rows[|rows| - 1].id;
      var newRows := MakeRows(count, lastIndex + 1);
      rowsCount := [];
      AppendKeepsIdsIncreasing(rows, count);
      rows := rows + newRows;
    }
  }
}
