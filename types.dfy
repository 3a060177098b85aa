/** The value types shared by the grid: an option of the taxonomy (`Item`), a grid row
    (`BigTableRow`) and the cascade-consistency invariant of a row. */
module Types {

  datatype Option<+T> = None | Some(value: T)

  /** An option of the taxonomy: its label and the label of its parent option,
      absent for a level-1 (root) option. */
  datatype Item = Item(id: string, parentId: Option<string>)

  /** Number of level columns in a row (`maxLevel`). */
  const MaxLevel: int := 6

  /** A grid row: a numeric id and one slot per level; `levels[k]` holds level k + 1. */
  datatype Row = Row(id: int, levels: seq<Option<Item>>)

  predicate WellFormed(row: Row)
  {
    |row.levels| == MaxLevel
  }

  /** The six empty slots of a freshly made row. */
  function EmptyLevels(): (levels: seq<Option<Item>>)
    ensures |levels| == MaxLevel
    ensures forall k :: 0 <= k < |levels| ==> levels[k].None?
  {
    seq(MaxLevel, _ => None)
  }

  /** Cascade consistency: a level-1 value has no parent, and a value at a deeper
      level has a value one level up whose id is its parent. */
  predicate Cascade(row: Row)
  {
    && WellFormed(row)
    && (row.levels[0].Some? ==> row.levels[0].value.parentId == None)
    && forall k :: 0 < k < MaxLevel && row.levels[k].Some? ==>
         row.levels[k - 1].Some? && row.levels[k].value.parentId == Some(row.levels[k - 1].value.id)
  }

  /** In a cascade-consistent row the empty slots form a suffix. */
  lemma {:induction false} NullsFormSuffix(row: Row, i: int, j: int)
    requires Cascade(row)
    requires 0 <= i < j < MaxLevel
    requires row.levels[i].None?
    ensures row.levels[j].None?
    decreases j - i
  {
    if i + 1 < j {
      NullsFormSuffix(row, i, j - 1);
    }
  }
}
