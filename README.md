# Cascading level grid — a verified Dafny model

This project models the logical core of a small browser data-entry grid. Each row of the grid has
a numeric id and six cascading "level" selectors. Level 1 offers the root options of a taxonomy.
Level L + 1 offers the children of the option chosen at level L. Choosing a value clears every
deeper level. The grid remembers the state of each row at its first edit since the last save. On
save it reports the rows whose state has since changed.

The model has seven modules. `Types` holds the shared data model of
src/components/big-table/types.ts; each of the other six follows one source file of the core:

- `Types` (`types.dfy`): the `Item` option (id and optional parent id), the `Row` with its six
  slots, and the cascade-consistency predicate `Cascade`.
- `LibUtils` (`lib_utils.dfy`): `createArray`, the integers from `min` to `max`.
- `RowUtils` (`row_utils.dfy`): `makeRows`, a run of fresh rows with consecutive ids.
- `BigTableContext` (`big_table_context.dfy`): the seed taxonomy and the grouping of options into
  per-parent buckets. The grouping is an imperative loop proved equal to a declarative bucket
  function. The module also holds the store whose `addItem` appends an option.
- `Combobox` (`combobox.dfy`): which bucket the picker shows, what a pick emits (a re-pick
  deselects), and what the trigger button reads.
- `BigTable` (`big_table.dfy`): the row edit engine as the class `Table`. Its fields are the rows,
  the touched-rows map with its key insertion order, and the count input. The module also holds
  the cell's value construction, the row rewrite (a loop over the levels to reset), the save
  diff and the count-input filter. Input values are sequences of UTF-16 code units, as JS
  strings are.
- `HomePage` (`home_page.dfy`): the older copy of the grid in the index page. It has no dirty
  tracking, and its save only logs.

Main results:

- An edit writes its slot and clears every deeper one, even when the value is unchanged. It
  leaves the id, the shallower slots and every other row alone.
- Edits made through a rendered cell keep every row cascade-consistent. In a consistent row the
  empty slots form a suffix, and each value below level 1 names the value above it as its parent.
- The class invariant `Table.Valid` holds after every operation:
  - the table is non-empty;
  - ids strictly increase along the table;
  - every touched id is the id of a row;
  - each snapshot's current state is that row as the table now holds it.
- Save reports a row exactly when it was touched and now differs from its first-edit snapshot.
  Entries come in first-touch order. The touched map is then emptied.
- The grouping keeps item order inside each bucket. It drops no item and does not deduplicate.
  A parent without children has no bucket.
- The buckets live in a plain JS object. A parent key that names a member of `Object.prototype`
  (such as "constructor" or "toString") makes the grouping throw. Looking up such a name for a
  parent without children yields no list, so the picker fails to render.

Three behaviours of the code worth noting:

- Adding rows numbers the new rows after the LAST row's id and dereferences that row. An empty
  table is therefore not supported. `Table.Valid` keeps the table non-empty, since nothing
  removes rows.
- Root options are grouped under the key `"none"`, not under a separate "root" key. A parent
  literally named `"none"` shares that bucket.
- The count input's filter removes only the FIRST non-digit code unit of the new value. A
  pasted "a1b" keeps its "b", and a typed emoji leaves its low surrogate behind.

## Model

| member | source | states |
|---|---|---|
| `Types.NullsFormSuffix` | src/components/big-table/big-table.tsx:69-71 | in a cascade-consistent row, an empty slot is followed only by empty slots |
| `LibUtils.CreateArray` | src/lib/utils.ts:8-12 | the result has `max + 1 - min` elements, starts at `min` and ascends by one; a negative length is excluded |
| `LibUtils.CreateArrayAt` | src/lib/utils.ts:10 | element `idx` equals `min + idx` |
| `LibUtils.CreateArrayMembers` | src/lib/utils.ts:8-12 | an integer is in the result iff it lies in [min, max], and the result is strictly ascending; it is empty for `min = max + 1`, so an edit at level 6 resets nothing |
| `RowUtils.MakeRows` | src/components/big-table/utils.ts:3-13 | exactly `len` rows; the first has id `startingIndex` and each next id is one more; every row has six empty slots and is cascade-consistent |
| `RowUtils.MakeRowsIdAt` | src/components/big-table/utils.ts:5 | row `i` has id `startingIndex + i` |
| `RowUtils.MakeRowsIdsIncreasing` | src/components/big-table/utils.ts:4-5 | the ids of fresh rows are strictly increasing and lie in [startingIndex, startingIndex + len) |
| `RowUtils.AppendKeepsIdsIncreasing` | src/components/big-table/big-table.tsx:157-162 | appending fresh rows numbered after the last id keeps the table's ids strictly increasing |
| `RowUtils.AppendKeepsRowShapes` | src/components/big-table/big-table.tsx:157-162 | appended fresh rows are well formed and cascade-consistent, so the table keeps each property iff it had it |
| `BigTableContext.BucketNonEmpty` | src/components/big-table/big-table-context.tsx:54-64 | a bucket is non-empty iff some item has its key, so a parent without children gets no key |
| `BigTableContext.BucketOfAbsentKey` | src/components/big-table/big-table-context.tsx:54-64 | items none of which has a key contribute nothing to its bucket |
| `BigTableContext.BucketAppend` | src/components/big-table/big-table-context.tsx:55-63 | the bucket of a concatenation is the concatenation of the buckets |
| `BigTableContext.BucketKey` | src/components/big-table/big-table-context.tsx:56 | the key is the parent id itself, and it is "none" exactly for a root item or a parent literally named "none" |
| `BigTableContext.Bucket` | src/components/big-table/big-table-context.tsx:55-63 | a bucket has at most one entry per item |
| `BigTableContext.BucketMembers` | src/components/big-table/big-table-context.tsx:57-60 | every entry of a bucket is the id of an item whose parent key is that bucket's key |
| `BigTableContext.Grouped` | src/components/big-table/big-table-context.tsx:54-64 | the grouped value has a key exactly when that key's bucket is non-empty, so it holds no empty bucket |
| `BigTableContext.GroupedSnoc` | src/components/big-table/big-table-context.tsx:56-61 | one reduce step on the grouped value: the item's id is pushed onto its bucket, which is created when absent; other buckets are unchanged (the step that throws is in `GroupByParent`) |
| `BigTableContext.GroupByParent` | src/components/big-table/big-table-context.tsx:54-64 | the reduce throws (`None`) iff some parent key is an inherited `Object.prototype` name; otherwise the result has a key iff some item has that parent key (`parentId ?? "none"`), and each bucket holds that key's item ids in item order |
| `BigTableContext.BucketPosition` | src/components/big-table/big-table-context.tsx:55-63 | item `i` sits in its bucket right after all earlier items with the same key, so buckets keep insertion order |
| `BigTableContext.BucketSizesSum` | src/components/big-table/big-table-context.tsx:55-63 | for any duplicate-free listing of the keys, the bucket sizes add up to the number of items |
| `BigTableContext.DuplicatesKept` | src/components/big-table/big-table-context.tsx:57-58 | adding the same item twice adds two entries to its bucket; nothing is deduplicated |
| `BigTableContext.NoneKeyCollides` | src/components/big-table/big-table-context.tsx:56 | an item whose parent id is the string "none" lands in the bucket of the root items |
| `BigTableContext.SeedKeys` | src/components/big-table/big-table-context.tsx:11-52 | the seed has 10 items; its keys are "none" and the ids of levels 1 to 4; the level-5 ids have no bucket |
| `BigTableContext.SeedRootBucket` | src/components/big-table/big-table-context.tsx:11-19 | the "none" bucket of the seed is ["1.1", "1.2"] |
| `BigTableContext.SeedFirstChildBucket` | src/components/big-table/big-table-context.tsx:20-23 | the "1.1" bucket of the seed is ["2.1"] |
| `BigTableContext.SeedLastChildBucket` | src/components/big-table/big-table-context.tsx:48-51 | the "4.2" bucket of the seed is ["5.2"] |
| `BigTableContext.OptionStore.constructor` | src/components/big-table/big-table-context.tsx:90 | the store starts with the seed items |
| `BigTableContext.OptionStore.AddItem` | src/components/big-table/big-table-context.tsx:96-98 | the item list becomes the old list with the new item at the end |
| `BigTableContext.AddItemAppendsToBucket` | src/components/big-table/big-table-context.tsx:92-98 | after an append, the regrouping throws iff it threw before or the new parent key is an inherited name; in the grouped value the new id is the last entry of its parent's bucket, behind the earlier entries, and every other bucket is unchanged |
| `Combobox.OptionsFor` | src/components/combobox.tsx:44-46 | an own bucket of `parentId ?? "none"` is shown as is; a missing key gives the empty list, except an inherited name, which yields no list (`None`: the render throws) |
| `Combobox.ShownOptionsAreBucket` | src/components/combobox.tsx:44-46 | over the grouped taxonomy, the picker shows exactly the parent's bucket (empty for a parent without children); after a successful grouping, a parent named by an inherited name yields no list |
| `Combobox.OnSelect` | src/components/combobox.tsx:72-74 | picking the current value emits "" (deselect); any other pick emits the picked id |
| `Combobox.Find` | src/components/combobox.tsx:58 | finds an option iff some option has the value as id, and the found option has that id |
| `Combobox.TriggerLabel` | src/components/combobox.tsx:57-59 | the placeholder iff the value is ""; the value itself iff it is non-empty and among the shown options; nothing otherwise |
| `Combobox.LabelAfterSelect` | src/components/combobox.tsx:57-74 | after picking a shown option, the trigger shows it, or the placeholder when the pick deselected |
| `BigTable.CurrentValue` | src/components/big-table/big-table.tsx:54 | the cell shows the picker "" for an empty slot and the slot's id otherwise |
| `BigTable.CellValue` | src/components/big-table/big-table.tsx:42-81 | "" becomes no value; any other pick becomes an item with that id, whose parent is the level-above value's id (none at level 1) |
| `BigTable.UpdatedRow` | src/components/big-table/big-table.tsx:211-225 | the edited slot holds the new value, all deeper slots are empty, and the id and shallower slots are unchanged |
| `BigTable.RewriteRow` | src/components/big-table/big-table.tsx:209-225 | the reduce over `createArray(level + 1, 6)` produces exactly `UpdatedRow` |
| `BigTable.SameValueStillCascades` | src/components/big-table/big-table.tsx:211-225 | re-writing a slot's own value still clears every deeper level |
| `BigTable.CellEditKeepsCascade` | src/components/big-table/big-table.tsx:69-81 | an edit made through a rendered cell keeps a cascade-consistent row consistent |
| `BigTable.SelectTogglesSlot` | src/components/big-table/big-table.tsx:73-81 | after pick, cell and edit, the slot is empty iff the pick equalled the current value (or was ""), and otherwise holds the picked id |
| `BigTable.UpdatedFields` | src/components/big-table/big-table.tsx:166-170 | no more entries than touched keys; each entry carries a touched id, its snapshot, and a snapshot whose states differ |
| `BigTable.UpdatedFieldsDistinct` | src/components/big-table/big-table.tsx:166-170 | walking the keys of the touched `Map`, which occur once each, the save result reports every id at most once |
| `BigTable.UpdatedFieldsIff` | src/components/big-table/big-table.tsx:166-170 | an entry `{id, state}` is in the save result iff the id was touched, `state` is its snapshot, and the snapshot's initial and current states differ |
| `BigTable.EditKeepsSnapshotsTracking` | src/components/big-table/big-table.tsx:227-241 | rewriting one row and pointing its snapshot at the new row keeps ids increasing and every snapshot's current state equal to its row |
| `BigTable.AppendKeepsSnapshotsTracking` | src/components/big-table/big-table.tsx:157-162 | appending fresh rows leaves every snapshot equal to its row; no fresh id is touched |
| `BigTable.Utf16` | src/components/big-table/big-table.tsx:154 | a character of the Basic Multilingual Plane is one code unit; any other is a high and a low surrogate that together give back the character |
| `BigTable.FirstNonDigit` | src/components/big-table/big-table.tsx:154 | the index where `/\D/` matches: all earlier code units are digits, the one there is not, and it is the length iff the value is all digits |
| `BigTable.StripFirstNonDigit` | src/components/big-table/big-table.tsx:154 | an all-digit value is kept; otherwise exactly the first non-digit code unit is removed (no `g` and no `u` flag) |
| `BigTable.TypingKeepsDigits` | src/components/big-table/big-table.tsx:151-155 | typing one character anywhere into an all-digit field leaves it all digits iff the character is a single code unit; an emoji leaves its low surrogate |
| `BigTable.PasteKeepsNonDigit` | src/pages/index.tsx:267 | a pasted "a1b" becomes "1b", which still holds a non-digit |
| `BigTable.DecimalValue` | src/components/big-table/big-table.tsx:158 | `Number` of a digit string: 0 for the empty input, the digit's value for one digit |
| `BigTable.LeadingZeroIgnored` | src/components/big-table/big-table.tsx:158 | a leading zero does not change the value, as `Number("007")` is 7 |
| `BigTable.Table.constructor` | src/components/big-table/big-table.tsx:141-149 | 40 empty rows with ids 1..40, nothing touched, an empty count input; the invariant and cascade consistency hold |
| `BigTable.Table.UpdateData` | src/components/big-table/big-table.tsx:186-244 | the id column and an out-of-range index change nothing; otherwise the row becomes `UpdatedRow`, other rows stay, the first edit records the pre-edit row as initial state, later edits keep it, and the current state is the new row |
| `BigTable.Table.Select` | src/components/big-table/big-table.tsx:73-81 | a pick through a rendered cell applies `UpdatedRow` with the cell's value of the toggled pick, records the pre-edit row as the initial state at the row's first edit, sets the current state to the new row, and keeps every row cascade-consistent |
| `BigTable.Table.SaveClick` | src/components/big-table/big-table.tsx:165-177 | returns the changed touched entries in first-touch order, each id at most once; a row is reported iff it was touched and differs from its initial state; then the touched map is empty and the rows are unchanged |
| `BigTable.Table.RowsCountChange` | src/components/big-table/big-table.tsx:151-155 | the input becomes the typed value minus its first non-digit; the rows and touched map are unchanged |
| `BigTable.Table.AddRowsClick` | src/components/big-table/big-table.tsx:157-163 | appends `Number(input)` fresh rows numbered after the last row's id (none for an empty input); clears the input; keeps the invariant and the touched map |
| `HomePage.Home.constructor` | src/pages/index.tsx:261-262 | 40 empty rows with ids 1..40 and an empty count input |
| `HomePage.Home.UpdateData` | src/pages/index.tsx:290-321 | the id column and an out-of-range index change nothing; otherwise the row becomes `UpdatedRow` and the rest of the table is unchanged |
| `HomePage.Home.RowsCountChange` | src/pages/index.tsx:264-268 | the input becomes the typed value minus its first non-digit |
| `HomePage.Home.AddRowsClick` | src/pages/index.tsx:270-277 | appends `Number(input)` fresh rows numbered after the last row's id, clears the input, and keeps the ids increasing |

## Left out

- Rendering is not modelled. This covers the JSX, the popover open state, `Head`, styling and the
  `cn` class-name helper (src/lib/utils.ts:4-6). It also covers the virtualized table of
  src/components/ui/data-table.tsx, whose arithmetic depends on a virtualization library that is
  not part of this model.
- React machinery is not modelled: `useState`, `useMemo`, `useCallback`, the context providers
  and the throw outside a provider. State is a set of class fields updated in sequence.
  - big-table.tsx:191 reads the snapshot row from the rendered rows, but line 207 applies the
    edit to the queued state. The model treats the two as one value.
- `isEqual` from `radash` is modelled as structural equality on the datatypes. The `{...row}`
  copies are values, so aliasing is not modelled.
- The `Item` type's own file (`~/types/item`) is not part of this model. Its shape `{id: string,
  parentId: string | null}` is taken from its use in the context and the cell.
- BigTable.Table.AddRowsClick: requires the input to be all digits with a value below 2^32. For
  other inputs `Array(Number(input))` throws a RangeError: `Number` gives `NaN` for a non-digit,
  and 2^32 or more is no valid array length. Whitespace trimming by `Number` is not modelled
  either. The filter can leave a non-digit behind (see `PasteKeepsNonDigit` and
  `TypingKeepsDigits`).
- HomePage.Home.AddRowsClick: the same precondition, for the same reasons.
- LibUtils.CreateArray: requires a non-negative length. With a negative length `Array` throws,
  but the one caller never passes one.
- RowUtils.MakeRows: takes the length as a natural number and does not bound it. A negative or
  fractional length, or one of 2^32 or more, makes `Array` throw a RangeError. The add-rows
  handlers exclude the last case by their precondition.
- Some branches are unreachable and are left out: the throw for an undefined previous column
  (big-table.tsx:65-67), and the "Something went wrong" branch (big-table.tsx:229-230). The
  second cannot run because the snapshot is set a few lines above.
- Console logging is not modelled. This includes the out-of-range message and the save log.
- The save button of the index page (index.tsx:279-281) only logs and changes no state, so it
  has no member.
- The command-menu library may normalise an option's value before `onSelect` sees it. The model
  takes the picked value to be the option id.
- The picker's `addOption` prop is declared but never read, so no UI path adds an option.
  `addItem` is modelled on the store (`OptionStore.AddItem`) all the same.
- The set of inherited names follows the members of `Object.prototype` in current engines
  (`InheritedNames`). Objects whose prototype was changed by other code are not modelled.
- Row ids are unbounded integers. The floating-point range of JS numbers is not modelled.
