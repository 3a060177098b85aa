/** `makeRows` of src/components/big-table/utils.ts (and its copy `makeData` in the index page). */
module RowUtils {
  import opened Types

  /** Ids are strictly increasing along the table. */
  predicate IdsIncreasing(rows: seq<Row>)
  {
    forall i, j :: 0 <= i < j < |rows| ==> rows[i].id < rows[j].id
  }

  /** `len` fresh rows numbered from `startingIndex`, every level empty. `Array(len)` throws
      for a negative or fractional length; `len` is a natural number here. */
  function MakeRows(len: nat, startingIndex: int): (rows: seq<Row>)
    ensures |rows| == len
    ensures len > 0 ==> rows[0].id == startingIndex
    ensures forall i :: 0 < i < len ==> rows[i].id == rows[i - 1].id + 1
    ensures forall i :: 0 <= i < len ==> rows[i].levels == EmptyLevels() && Cascade(rows[i])
  {
    seq(len, i => Row(startingIndex + i, EmptyLevels()))
  }

  /** Row `i` has id `startingIndex + i`. */
  lemma MakeRowsIdAt(len: nat, startingIndex: int, i: int)
    requires 0 <= i < len
    ensures MakeRows(len, startingIndex)[i].id == startingIndex + i
  {
  }

  /** The ids of fresh rows are strictly increasing and all lie in
      [startingIndex, startingIndex + len). */
  lemma MakeRowsIdsIncreasing(len: nat, startingIndex: int)
    ensures IdsIncreasing(MakeRows(len, startingIndex))
    ensures forall i :: 0 <= i < len ==>
              startingIndex <= MakeRows(len, startingIndex)[i].id < startingIndex + len
  {
    forall i | 0 <= i < len
      ensures MakeRows(len, startingIndex)[i].id == startingIndex + i
    {
      MakeRowsIdAt(len, startingIndex, i);
    }
  }

  /** Appending fresh rows numbered after the last id keeps the ids increasing. */
  lemma AppendKeepsIdsIncreasing(rows: seq<Row>, count: nat)
    requires |rows| > 0 && IdsIncreasing(rows)
    ensures IdsIncreasing(rows + MakeRows(count, rows[|rows| - 1].id + 1))
  {
    var added := MakeRows(count, rows[|rows| - 1].id + 1);
    MakeRowsIdsIncreasing(count, rows[|rows| - 1].id + 1);
    var all := rows + added;
    forall i, j | 0 <= i < j < |all|
      ensures all[i].id < all[j].id
    {
      if j >= |rows| && i < |rows| {
        assert all[i].id <= rows[|rows| - 1].id;
        assert all[j] == added[j - |rows|];
      }
    }
  }

  /** Fresh rows are well formed and cascade-consistent, so appending them keeps each of
      those properties exactly when the old rows had it. */
  lemma AppendKeepsRowShapes(rows: seq<Row>, count: nat, startingIndex: int)
    ensures var all := rows + MakeRows(count, startingIndex);
            && ((forall i :: 0 <= i < |all| ==> WellFormed(all[i])) <==> (forall i :: 0 <= i < |rows| ==> WellFormed(rows[i])))
            && ((forall i :: 0 <= i < |all| ==> Cascade(all[i])) <==> (forall i :: 0 <= i < |rows| ==> Cascade(rows[i])))
  {
    var added := MakeRows(count, startingIndex);
    var all := rows + added;
    assert forall i :: 0 <= i < |rows| ==> all[i] == rows[i];
    assert forall i :: |rows| <= i < |all| ==> all[i] == added[i - |rows|];
  }
}
