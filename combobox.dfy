/** The option picker of src/components/combobox.tsx: which bucket it shows, what a
    selection emits and what its trigger button reads. */
module Combobox {
  import opened Types
  import opened BigTableContext

  /** The options shown for a parent: `options[parentId ?? "none"] ?? []` on a plain object.
      An own bucket is returned as is; a missing key gives the empty list, unless it is an
      inherited name, whose value is no array: rendering the list (`options.map`) then
      throws, which is `None` here. */
  function OptionsFor(options: ComboboxOptions, parentId: Option<string>): (shown: Option<seq<OptionItem>>)
    ensures shown.None? <==> BucketKey(parentId) !in options && BucketKey(parentId) in InheritedNames
    ensures BucketKey(parentId) in options ==> shown == Some(options[BucketKey(parentId)])
    ensures BucketKey(parentId) !in options && BucketKey(parentId) !in InheritedNames ==> shown == Some([])
  {
    var key := BucketKey(parentId);
    if key in options then Some(options[key])
    else if key in InheritedNames then None
    else Some([])
  }

  /** Over the grouped taxonomy, the picker shows exactly the parent's bucket: its children
      in the order they were added, and the empty list for a parent without any. When the
      grouping ran to completion, a parent whose id is an inherited name has no bucket, and
      its picker fails to render. */
  lemma ShownOptionsAreBucket(items: seq<Item>, parentId: Option<string>)
    ensures BucketKey(parentId) !in InheritedNames ==>
              OptionsFor(Grouped(items), parentId) == Some(Bucket(items, BucketKey(parentId)))
    ensures Groupable(items) && BucketKey(parentId) in InheritedNames ==>
              OptionsFor(Grouped(items), parentId) == None
  {
    var key := BucketKey(parentId);
    BucketNonEmpty(items, key);
    if Groupable(items) && key in InheritedNames {
      BucketOfAbsentKey(items, key);
    }
  }

  /** `onSelect`: choosing the current value again emits "" (deselect); any other choice
      emits the chosen id. */
  function OnSelect(currentValue: string, value: string): (res: string)
    ensures currentValue == value ==> res == ""
    ensures currentValue != value ==> res == currentValue
  {
    if currentValue == value then "" else currentValue
  }

  /** `options.find(option => option.id === value)`. */
  function Find(options: seq<OptionItem>, value: string): (found: Option<OptionItem>)
    ensures found.Some? <==> exists i :: 0 <= i < |options| && options[i].id == value
    ensures found.Some? ==> found.value.id == value
  {
    if options == [] then None
    else if options[0].id == value then Some(options[0])
    else
      var rest := Find(options[1..], value);
      assert forall i :: 1 <= i < |options| ==> options[i] == options[1..][i - 1];
      rest
  }

  /** What the trigger button reads. */
  datatype TriggerText = Placeholder | Shown(id: string) | Blank

  /** `value ? options.find(...)?.id : "Select option..."`: the placeholder for an empty
      value, the value itself when it is among the shown options, and nothing otherwise. */
  function TriggerLabel(options: seq<OptionItem>, value: string): (text: TriggerText)
    ensures text == Placeholder <==> value == ""
    ensures text.Shown? <==> value != "" && exists i :: 0 <= i < |options| && options[i].id == value
    ensures text.Shown? ==> text.id == value
  {
    if value == "" then Placeholder
    else
      match Find(options, value)
      case Some(option) => Shown(option.id)
      case None => Blank
  }

  /** After picking a shown option, the trigger reads that option, or the placeholder when
      the pick deselected the current value. */
  lemma LabelAfterSelect(options: seq<OptionItem>, i: int, value: string)
    requires 0 <= i < |options| && options[i].id != ""
    ensures var next := OnSelect(options[i].id, value);
            TriggerLabel(options, next) == if options[i].id == value then Placeholder else Shown(options[i].id)
  {
  }
}
