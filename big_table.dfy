/** The row edit engine of src/components/big-table/big-table.tsx: the cell's value
    construction, `updateData` with its cascade reset and its touched-row snapshots, the
    save diff, and the add-rows input. */
module BigTable {
  import opened Types
  import opened LibUtils
  import opened RowUtils
  import Combobox

  /** A column id: "id" or a level column "1" .. "6". */
  datatype Column = IdColumn | LevelColumn(level: int)

  predicate ValidColumn(column: Column)
  {
    column.LevelColumn? ==> 1 <= column.level <= MaxLevel
  }

  // ---------------------------------------------------------------------------------------
  // The cell

  /** The value a level cell shows to its picker: `currentColumnValue?.id ?? ""`. */
  function CurrentValue(row: Row, level: int): (value: string)
    requires WellFormed(row) && 1 <= level <= MaxLevel
    ensures row.levels[level - 1].None? ==> value == ""
    ensures row.levels[level - 1].Some? ==> value == row.levels[level - 1].value.id
  {
    match row.levels[level - 1]
    case None => ""
    case Some(item) => item.id
  }

  /** A level-L cell (L > 1) renders its picker only when level L - 1 holds a value. */
  predicate CellRendered(row: Row, level: int)
    requires WellFormed(row) && 1 <= level <= MaxLevel
  {
    level == 1 || row.levels[level - 2].Some?
  }

  /** The item the cell's `onChange` hands to `updateData`: nothing for "", otherwise the
      picked id under the parent chosen one level up (no parent at level 1). */
  function CellValue(row: Row, level: int, val: string): (item: Option<Item>)
    requires WellFormed(row) && 1 <= level <= MaxLevel && CellRendered(row, level)
    ensures item.None? <==> val == ""
    ensures item.Some? ==> item.value.id == val
    ensures item.Some? && level == 1 ==> item.value.parentId == None
    ensures item.Some? && level > 1 ==> item.value.parentId == Some(row.levels[level - 2].value.id)
  {
    if val == "" then None
    else if level == 1 then Some(Item(val, None))
    else Some(Item(val, Some(row.levels[level - 2].value.id)))
  }

  // ---------------------------------------------------------------------------------------
  // The row rewrite

  /** The edited row: slot `level` holds `item`, every deeper slot is empty, and the id and
      the shallower slots are those of `row`. */
  function UpdatedRow(row: Row, level: int, item: Option<Item>): (r: Row)
    requires WellFormed(row) && 1 <= level <= MaxLevel
    ensures WellFormed(r) && r.id == row.id
    ensures r.levels[level - 1] == item
    ensures forall k :: 0 <= k < level - 1 ==> r.levels[k] == row.levels[k]
    ensures forall k :: level <= k < MaxLevel ==> r.levels[k] == None
  {
    Row(row.id, row.levels[..level - 1] + [item] + seq(MaxLevel - level, _ => None))
  }

  /** The rewrite inside `updateData`: write the slot, then `reduce` over
      `createArray({min: level + 1, max: maxLevel})` clearing each deeper level. */
  method RewriteRow(row: Row, level: int, item: Option<Item>) returns (result: Row)
    requires WellFormed(row) && 1 <= level <= MaxLevel
    ensures result == UpdatedRow(row, level, item)
  {
    var levelsToReset := CreateArray(level + 1, MaxLevel);
    result := row.(levels := row.levels[level - 1 := item]);
    var j := 0;
    while j < |levelsToReset|
      invariant 0 <= j <= |levelsToReset|
      invariant result.id == row.id && |result.levels| == MaxLevel
      invariant forall k :: 0 <= k < level - 1 ==> result.levels[k] == row.levels[k]
      invariant result.levels[level - 1] == item
      invariant forall k :: level <= k < level + j ==> result.levels[k] == None
    {
      CreateArrayAt(level + 1, MaxLevel, j);
      var levelToReset := levelsToReset[j];
      result := result.(levels := result.levels[levelToReset - 1 := None]);
      j := j + 1;
    }
    var expected := UpdatedRow(row, level, item);
    assert forall k :: 0 <= k < MaxLevel ==> result.levels[k] == expected.levels[k];
  }

  /** Re-selecting the value a slot already holds still clears every deeper level. */
  lemma SameValueStillCascades(row: Row, level: int)
    requires WellFormed(row) && 1 <= level <= MaxLevel
    ensures var r := UpdatedRow(row, level, row.levels[level - 1]);
            r.levels == row.levels[..level] + seq(MaxLevel - level, _ => None)
  {
    var r := UpdatedRow(row, level, row.levels[level - 1]);
    assert forall k :: 0 <= k < MaxLevel ==> r.levels[k] == (row.levels[..level] + seq(MaxLevel - level, _ => None))[k];
  }

  /** An edit made through a rendered cell keeps the row cascade-consistent. */
  lemma CellEditKeepsCascade(row: Row, level: int, val: string)
    requires Cascade(row) && 1 <= level <= MaxLevel && CellRendered(row, level)
    ensures Cascade(UpdatedRow(row, level, CellValue(row, level, val)))
  {
    var r := UpdatedRow(row, level, CellValue(row, level, val));
    forall k | 0 < k < MaxLevel && r.levels[k].Some?
      ensures r.levels[k - 1].Some? && r.levels[k].value.parentId == Some(r.levels[k - 1].value.id)
    {
      if k < level - 1 {
        assert r.levels[k] == row.levels[k] && r.levels[k - 1] == row.levels[k - 1];
      }
    }
  }

  /** The full cell interaction: the picker toggles against the current value, the cell turns
      the result into an item, and the edit is applied. The slot ends up empty exactly when
      the picked id was the current value (or empty). */
  lemma SelectTogglesSlot(row: Row, level: int, picked: string)
    requires Cascade(row) && 1 <= level <= MaxLevel && CellRendered(row, level)
    ensures var r := UpdatedRow(row, level, CellValue(row, level, Combobox.OnSelect(picked, CurrentValue(row, level))));
            && (r.levels[level - 1].None? <==> picked == CurrentValue(row, level) || picked == "")
            && (r.levels[level - 1].Some? ==> r.levels[level - 1].value.id == picked)
  {
  }

  // ---------------------------------------------------------------------------------------
  // Touched rows and the save diff

  /** The snapshot kept for a touched row. */
  datatype Snapshot = Snapshot(initialState: Row, currentState: Row)

  /** An entry of the save result: `{id, state}`. */
  datatype UpdatedField = UpdatedField(id: int, state: Snapshot)

  /** `Array.from(touchedFields.entries()).filter(!isEqual(initial, current)).map(...)`,
      walking the keys in insertion order. */
  function UpdatedFields(order: seq<int>, touched: map<int, Snapshot>): (updated: seq<UpdatedField>)
    requires forall k :: 0 <= k < |order| ==> order[k] in touched
    ensures |updated| <= |order|
    ensures forall k :: 0 <= k < |updated| ==>
              && updated[k].id in order
              && updated[k].state == touched[updated[k].id]
              && updated[k].state.initialState != updated[k].state.currentState
  {
    if order == [] then []
    else
      var id := order[0];
      (if touched[id].initialState != touched[id].currentState then [UpdatedField(id, touched[id])] else [])
      + UpdatedFields(order[1..], touched)
  }

  /** The save result holds an entry for an id exactly when that id was touched and its
      current state differs from its initial state; the entry carries the id's snapshot. */
  lemma {:induction false} UpdatedFieldsIff(order: seq<int>, touched: map<int, Snapshot>, id: int, state: Snapshot)
    requires forall k :: 0 <= k < |order| ==> order[k] in touched
    ensures UpdatedField(id, state) in UpdatedFields(order, touched)
            <==> id in order && touched[id] == state && state.initialState != state.currentState
  {
    if order != [] {
      UpdatedFieldsIff(order[1..], touched, id, state);
      assert id in order <==> id == order[0] || id in order[1..];
    }
  }

  predicate NoDuplicates(order: seq<int>)
  {
    forall i, j :: 0 <= i < j < |order| ==> order[i] != order[j]
  }

  /** No two entries of a save result share an id. */
  predicate DistinctIds(updated: seq<UpdatedField>)
  {
    forall i, j :: 0 <= i < j < |updated| ==> updated[i].id != updated[j].id
  }

  /** Walking keys that occur once each, as the keys of a `Map` do, the save result reports
      every id at most once. */
  lemma {:induction false} UpdatedFieldsDistinct(order: seq<int>, touched: map<int, Snapshot>)
    requires forall k :: 0 <= k < |order| ==> order[k] in touched
    requires NoDuplicates(order)
    ensures DistinctIds(UpdatedFields(order, touched))
  {
    if order != [] {
      var rest := order[1..];
      assert NoDuplicates(rest) by {
        forall i, j | 0 <= i < j < |rest| ensures rest[i] != rest[j] {
          assert rest[i] == order[i + 1] && rest[j] == order[j + 1];
        }
      }
      UpdatedFieldsDistinct(rest, touched);
      assert order[0] !in rest by {
        forall j | 0 <= j < |rest| ensures rest[j] != order[0] {
          assert rest[j] == order[j + 1];
        }
      }
    }
  }

  /** `touchedOrder` lists the keys of the touched map once each, in insertion order. */
  predicate TouchedKeysInOrder(order: seq<int>, touched: map<int, Snapshot>)
  {
    && NoDuplicates(order)
    && (forall k :: 0 <= k < |order| ==> order[k] in touched)
    && (forall id :: id in touched ==> id in order)
  }

  function RowIds(rows: seq<Row>): set<int>
  {
    set i | 0 <= i < |rows| :: rows[i].id
  }

  /** Every touched id is the id of a row, and its snapshot's current state is that row. */
  predicate SnapshotsTrackRows(rows: seq<Row>, touched: map<int, Snapshot>)
  {
    && (forall id :: id in touched ==> id in RowIds(rows))
    && (forall i :: 0 <= i < |rows| && rows[i].id in touched ==> touched[rows[i].id].currentState == rows[i])
  }

  /** Rewriting one row and pointing its snapshot at the new row keeps the snapshots in
      step with the table, whatever the snapshot's initial state. */
  lemma EditKeepsSnapshotsTracking(rows: seq<Row>, touched: map<int, Snapshot>, rowIndex: int, result: Row, initial: Row)
    requires IdsIncreasing(rows) && SnapshotsTrackRows(rows, touched)
    requires 0 <= rowIndex < |rows| && result.id == rows[rowIndex].id
    ensures IdsIncreasing(rows[rowIndex := result])
    ensures SnapshotsTrackRows(rows[rowIndex := result], touched[result.id := Snapshot(initial, result)])
  {
    var rows' := rows[rowIndex := result];
    var touched' := touched[result.id := Snapshot(initial, result)];
    assert RowIds(rows') == RowIds(rows) by {
      assert forall i :: 0 <= i < |rows| ==> rows'[i].id == rows[i].id;
    }
    forall i | 0 <= i < |rows'| && rows'[i].id in touched'
      ensures touched'[rows'[i].id].currentState == rows'[i]
    {
      if i != rowIndex {
        assert rows'[i] == rows[i];
        assert rows[i].id != rows[rowIndex].id by {
          if i < rowIndex { assert rows[i].id < rows[rowIndex].id; }
          else { assert rows[rowIndex].id < rows[i].id; }
        }
      }
    }
  }

  /** Appending fresh rows numbered after the last id keeps the snapshots in step: no fresh
      id is touched, and the old rows keep their positions. */
  lemma AppendKeepsSnapshotsTracking(rows: seq<Row>, touched: map<int, Snapshot>, count: nat)
    requires |rows| > 0 && IdsIncreasing(rows) && SnapshotsTrackRows(rows, touched)
    ensures SnapshotsTrackRows(rows + MakeRows(count, rows[|rows| - 1].id + 1), touched)
  {
    var last := rows[|rows| - 1].id;
    var all := rows + MakeRows(count, last + 1);
    MakeRowsIdsIncreasing(count, last + 1);
    assert RowIds(rows) <= RowIds(all) by {
      forall id | id in RowIds(rows) ensures id in RowIds(all) {
        var i :| 0 <= i < |rows| && rows[i].id == id;
        assert all[i].id == id;
      }
    }
    forall i | |rows| <= i < |all|
      ensures all[i].id !in touched
    {
      assert all[i].id > last;
      assert forall j :: 0 <= j < |rows| ==> rows[j].id <= last;
    }
    forall i | 0 <= i < |all| && all[i].id in touched
      ensures touched[all[i].id].currentState == all[i]
    {
      assert all[i] == rows[i];
    }
  }

  // ---------------------------------------------------------------------------------------
  // The add-rows input

  /** A UTF-16 code unit. JS strings, and so the values of input fields, are sequences of
      these, and a regular expression without the `u` flag matches code unit by code unit. */
  newtype CodeUnit = x: int | 0 <= x < 0x1_0000

  /** The UTF-16 encoding of one character: a single code unit for a character of the Basic
      Multilingual Plane, otherwise a high and a low surrogate from which it is recovered. */
  function Utf16(c: char): (units: seq<CodeUnit>)
    ensures c as int < 0x1_0000 ==> units == [c as int as CodeUnit]
    ensures c as int >= 0x1_0000 ==>
              && |units| == 2
              && 0xD800 <= units[0] < 0xDC00 && 0xDC00 <= units[1] < 0xE000
              && 0x1_0000 + (units[0] as int - 0xD800) * 0x400 + (units[1] as int - 0xDC00) == c as int
  {
    if c as int < 0x1_0000 then [c as int as CodeUnit]
    else
      var v := c as int - 0x1_0000;
      [(0xD800 + v / 0x400) as CodeUnit, (0xDC00 + v % 0x400) as CodeUnit]
  }

  /** `\d` without the `u` flag: the code units of '0' .. '9'. */
  predicate IsDigit(u: CodeUnit)
  {
    0x30 <= u <= 0x39
  }

  predicate IsDigits(s: seq<CodeUnit>)
  {
    forall i :: 0 <= i < |s| ==> IsDigit(s[i])
  }

  /** Where `/\D/` matches: the index of the first non-digit code unit, or the length when
      all of them are digits. */
  function FirstNonDigit(s: seq<CodeUnit>): (i: nat)
    ensures i <= |s| && IsDigits(s[..i])
    ensures i < |s| ==> !IsDigit(s[i])
    ensures i == |s| <==> IsDigits(s)
  {
    if s == [] then 0
    else if !IsDigit(s[0]) then 0
    else
      var rest := FirstNonDigit(s[1..]);
      assert s[..rest + 1] == [s[0]] + s[1..][..rest];
      assert forall k :: 1 <= k < |s| ==> s[k] == s[1..][k - 1];
      rest + 1
  }

  /** `value.replace(/\D/, "")`: without the `g` flag only the first non-digit goes, and
      without the `u` flag that is one code unit. */
  function StripFirstNonDigit(s: seq<CodeUnit>): (r: seq<CodeUnit>)
    ensures IsDigits(s) ==> r == s
    ensures !IsDigits(s) ==> exists i :: 0 <= i < |s| && !IsDigit(s[i]) && IsDigits(s[..i]) && r == s[..i] + s[i + 1..]
  {
    var i := FirstNonDigit(s);
    if i == |s| then s else s[..i] + s[i + 1..]
  }

  /** Typing one character anywhere into an all-digit field leaves it all digits exactly
      when the character is a single code unit: of a surrogate pair only the high half is
      removed, and the low half stays behind. */
  lemma TypingKeepsDigits(previous: seq<CodeUnit>, at: int, c: char)
    requires IsDigits(previous) && 0 <= at <= |previous|
    ensures IsDigits(StripFirstNonDigit(previous[..at] + Utf16(c) + previous[at..])) <==> c as int < 0x1_0000
  {
    var units := Utf16(c);
    var s := previous[..at] + units + previous[at..];
    assert forall j :: 0 <= j < at ==> s[j] == previous[j];
    assert forall j :: at + |units| <= j < |s| ==> s[j] == previous[j - |units|];
    if c as int < 0x1_0000 {
      if !IsDigit(units[0]) {
        var i := FirstNonDigit(s);
        assert s[at] == units[0];
        assert i == at;
        assert s[..at] + s[at + 1..] == previous;
      }
    } else {
      var i := FirstNonDigit(s);
      assert s[at] == units[0] && s[at + 1] == units[1];
      assert i == at;
      var r := s[..at] + s[at + 1..];
      assert r[at] == units[1];
    }
  }

  /** A pasted "a1b" loses only its "a": the "b" stays. */
  lemma PasteKeepsNonDigit()
    ensures StripFirstNonDigit(Utf16('a') + Utf16('1') + Utf16('b')) == Utf16('1') + Utf16('b')
    ensures !IsDigits(Utf16('1') + Utf16('b'))
  {
    var s := Utf16('a') + Utf16('1') + Utf16('b');
    assert !IsDigit(s[0]);
    assert !IsDigit((Utf16('1') + Utf16('b'))[1]);
  }

  /** `Number(s)` for a string of decimal digits: `Number("")` is 0. */
  function DecimalValue(s: seq<CodeUnit>): (n: nat)
    requires IsDigits(s)
    ensures s == [] ==> n == 0
    ensures |s| == 1 ==> n == s[0] as int - 0x30
  {
    if s == [] then 0 else 10 * DecimalValue(s[..|s| - 1]) + (s[|s| - 1] as int - 0x30)
  }

  /** Leading zeros do not change the value: `Number("007")` is 7. */
  lemma {:induction false} LeadingZeroIgnored(s: seq<CodeUnit>)
    requires IsDigits(s)
    ensures IsDigits([0x30] + s) && DecimalValue([0x30] + s) == DecimalValue(s)
    decreases |s|
  {
    var z: seq<CodeUnit> := [0x30] + s;
    assert forall i :: 1 <= i < |z| ==> z[i] == s[i - 1];
    if s != [] {
      var init := s[..|s| - 1];
      LeadingZeroIgnored(init);
      assert z[..|z| - 1] == [0x30] + init;
    }
  }

  // ---------------------------------------------------------------------------------------
  // The table

  /** The `BigTable` component's state: the rows, the touched-rows map (its key order kept
      in `touchedOrder`, as a JS `Map` iterates in insertion order) and the count input. */
  class Table {
    var rows: seq<Row>
    var touched: map<int, Snapshot>
    var touchedOrder: seq<int>
    var rowsCount: seq<CodeUnit>

    /** The table is never empty, ids increase along it, the touched map is keyed by ids of
        rows, and each snapshot's current state is that row as the table now holds it. */
    ghost predicate Valid()
      reads this
    {
      && |rows| > 0
      && (forall i :: 0 <= i < |rows| ==> WellFormed(rows[i]))
      && IdsIncreasing(rows)
      && TouchedKeysInOrder(touchedOrder, touched)
      && SnapshotsTrackRows(rows, touched)
    }

    /** Every row is cascade-consistent. */
    ghost predicate AllCascade()
      reads this
    {
      forall i :: 0 <= i < |rows| ==> Cascade(rows[i])
    }

    /** The initial state: 40 empty rows numbered from 1, nothing touched, an empty input. */
    constructor ()
      ensures Valid() && AllCascade()
      ensures rows == MakeRows(40, 1) && touched == map[] && touchedOrder == [] && rowsCount == []
    {
      rows := MakeRows(40, 1);
      touched := map[];
      touchedOrder := [];
      rowsCount := [];
      MakeRowsIdsIncreasing(40, 1);
    }

    /** `updateData`: the id column and an out-of-range row are ignored; otherwise the row's
        first edit since the last save records its pre-edit state, the row is rewritten with
        the cascade reset, and its snapshot's current state follows the new row. */
    method UpdateData(rowIndex: int, column: Column, item: Option<Item>)
      requires Valid() && ValidColumn(column)
      modifies this
      ensures Valid()
      ensures rowsCount == old(rowsCount)
      ensures column.IdColumn? || !(0 <= rowIndex < |old(rows)|) ==>
                rows == old(rows) && touched == old(touched) && touchedOrder == old(touchedOrder)
      ensures column.LevelColumn? && 0 <= rowIndex < |old(rows)| ==>
                var row := old(rows)[rowIndex];
                var updated := UpdatedRow(row, column.level, item);
                && rows == old(rows)[rowIndex := updated]
                && touched == old(touched)[row.id := Snapshot(
                     if row.id in old(touched) then old(touched)[row.id].initialState else row, updated)]
                && touchedOrder == (if row.id in old(touched) then old(touchedOrder) else old(touchedOrder) + [row.id])
    {
      if column.IdColumn? {
        return;
      }
      if !(0 <= rowIndex < |rows|) {
        return;
      }
      var row := rows[rowIndex];
      var id := row.id;
      if id !in touched {
        touched := touched[id := Snapshot(row, row)];
        touchedOrder := touchedOrder + [id];
      }
      var result := RewriteRow(row, column.level, item);
      EditKeepsSnapshotsTracking(old(rows), old(touched), rowIndex, result, touched[id].initialState);
      if id in touched {
        touched := touched[id := touched[id].(currentState := result)];
      }
      rows := rows[rowIndex := result];
    }

    /** A pick in the picker of level cell (rowIndex, level): the picker toggles against the
        shown value, the cell builds the item, and `updateData` applies it. Edits made this
        way keep every row cascade-consistent. */
    method Select(rowIndex: int, level: int, picked: string)
      requires Valid() && AllCascade()
      requires 0 <= rowIndex < |rows| && 1 <= level <= MaxLevel && CellRendered(rows[rowIndex], level)
      modifies this
      ensures Valid() && AllCascade()
      ensures var row := old(rows)[rowIndex];
              var updated := UpdatedRow(row, level, CellValue(row, level, Combobox.OnSelect(picked, CurrentValue(row, level))));
              && rows == old(rows)[rowIndex := updated]
              && touched == old(touched)[row.id := Snapshot(
                   if row.id in old(touched) then old(touched)[row.id].initialState else row, updated)]
              && touchedOrder == (if row.id in old(touched) then old(touchedOrder) else old(touchedOrder) + [row.id])
      ensures rowsCount == old(rowsCount)
    {
      var row := rows[rowIndex];
      var res := Combobox.OnSelect(picked, CurrentValue(row, level));
      var item := CellValue(row, level, res);
      CellEditKeepsCascade(row, level, res);
      UpdateData(rowIndex, LevelColumn(level), item);
    }

    /** `handleSaveClick`: the touched rows whose current state differs from their initial
        state, in the order they were first touched; then the touched map is emptied. */
    method SaveClick() returns (updated: seq<UpdatedField>)
      requires Valid()
      modifies this
      ensures Valid()
      ensures updated == UpdatedFields(old(touchedOrder), old(touched))
      ensures DistinctIds(updated)
      ensures forall i :: 0 <= i < |rows| ==>
                ((exists e :: e in updated && e.id == rows[i].id)
                 <==> rows[i].id in old(touched) && old(touched)[rows[i].id].initialState != rows[i])
      ensures rows == old(rows) && rowsCount == old(rowsCount)
      ensures touched == map[] && touchedOrder == []
    {
      updated := UpdatedFields(touchedOrder, touched);
      UpdatedFieldsDistinct(touchedOrder, touched);
      forall i | 0 <= i < |rows|
        ensures (exists e :: e in updated && e.id == rows[i].id)
                <==> rows[i].id in touched && touched[rows[i].id].initialState != rows[i]
      {
        var id := rows[i].id;
        if id in touched {
          UpdatedFieldsIff(touchedOrder, touched, id, touched[id]);
        }
        forall e | e in updated && e.id == id
          ensures id in touched && touched[id].initialState != rows[i]
        {
          UpdatedFieldsIff(touchedOrder, touched, e.id, e.state);
        }
      }
      touched := map[];
      touchedOrder := [];
    }

    /** `handleRowsCountChange`: the input keeps the typed value minus its first non-digit. */
    method RowsCountChange(input: seq<CodeUnit>)
      modifies this
      ensures rowsCount == StripFirstNonDigit(input)
      ensures old(Valid()) ==> Valid()
      ensures rows == old(rows) && touched == old(touched) && touchedOrder == old(touchedOrder)
    {
      rowsCount := StripFirstNonDigit(input);
    }

    /** `handleAddRowsClick`: appends `Number(rowsCount)` fresh rows numbered after the last
        row's id (none for an empty input) and clears the input. */
    method AddRowsClick()
      requires Valid() && IsDigits(rowsCount) && DecimalValue(rowsCount) < 0x1_0000_0000
      modifies this
      ensures Valid()
      ensures var count := DecimalValue(old(rowsCount));
              rows == old(rows) + MakeRows(count, old(rows)[|old(rows)| - 1].id + 1)
      ensures AllCascade() <==> old(AllCascade())
      ensures rowsCount == [] && touched == old(touched) && touchedOrder == old(touchedOrder)
    {
      var count := DecimalValue(rowsCount);
      var lastIndex := rows[|rows| - 1].id;
      var newRows := MakeRows(count, lastIndex + 1);
      rowsCount := [];
      AppendKeepsIdsIncreasing(rows, count);
      AppendKeepsSnapshotsTracking(rows, touched, count);
      AppendKeepsRowShapes(rows, count, lastIndex + 1);
      rows := rows + newRows;
    }
  }

  /** The editing walk-through of the grid: pick "1.1" at level 1 and "2.1" at level 2 of the
      first row, then "1.2" at level 1; level 2 and everything deeper is empty again. */
  method CascadeScenario()
  {
    var t := new Table();
    t.Select(0, 1, "1.1");
    assert t.rows[0].levels[0] == Some(Item("1.1", None));
    t.Select(0, 2, "2.1");
    assert t.rows[0].levels[1] == Some(Item("2.1", Some("1.1")));
    t.Select(0, 1, "1.2");
    assert t.rows[0].levels[0] == Some(Item("1.2", None));
    assert forall k :: 1 <= k < MaxLevel ==> t.rows[0].levels[k] == None;
  }

  /** Adding three rows to the initial forty appends ids 41, 42 and 43. */
  method AddRowsScenario()
  {
    var t := new Table();
    t.RowsCountChange(Utf16('3'));
    assert DecimalValue(Utf16('3')) == 3;
    t.AddRowsClick();
    assert |t.rows| == 43;
    assert t.rows[40].id == 41 && t.rows[42].id == 43;
  }
}
