/** The option taxonomy of src/components/big-table/big-table-context.tsx: the seed items,
    their grouping into per-parent buckets (`mapItemsToComboboxOptions`) and the store that
    appends new items (`addItem`). The index page's `mapLevelsToComboboxOptions` and its
    `initialLevels` are the same code and the same data. */
module BigTableContext {
  import opened Types

  /** An entry of a bucket (`ComboboxOptionItem`): only the option's id. */
  datatype OptionItem = OptionItem(id: string)

  /** The grouped options (`ComboboxOptions`), keyed by parent id or "none". */
  type ComboboxOptions = map<string, seq<OptionItem>>

  /** The seed taxonomy: two roots, each the top of a chain of five levels. */
  const InitialItems: seq<Item> := [
    Item("1.1", None),
    Item("1.2", None),
    Item("2.1", Some("1.1")),
    Item("2.2", Some("1.2")),
    Item("3.1", Some("2.1")),
    Item("3.2", Some("2.2")),
    Item("4.1", Some("3.1")),
    Item("4.2", Some("3.2")),
    Item("5.1", Some("4.1")),
    Item("5.2", Some("4.2"))
  ]

  /** The bucket key of a parent id: `parentId ?? "none"`. A parent literally named "none"
      gets the key of the root items. */
  function BucketKey(parentId: Option<string>): (key: string)
    ensures key == "none" <==> parentId == None || parentId == Some("none")
    ensures parentId.Some? ==> key == parentId.value
  {
    match parentId
    case None => "none"
    case Some(p) => p
  }

  /** The entries that the items contribute to bucket `key`, in item order; at most one per
      item. */
  function Bucket(items: seq<Item>, key: string): (bucket: seq<OptionItem>)
    ensures |bucket| <= |items|
  {
    if items == [] then []
    else
      var last := items[|items| - 1];
      Bucket(items[..|items| - 1], key) + (if BucketKey(last.parentId) == key then [OptionItem(last.id)] else [])
  }

  /** Every entry of a bucket is the id of an item whose parent key is the bucket's key. */
  lemma {:induction false} BucketMembers(items: seq<Item>, key: string)
    ensures forall e :: e in Bucket(items, key) ==>
              exists i :: 0 <= i < |items| && items[i].id == e.id && BucketKey(items[i].parentId) == key
  {
    if items != [] {
      var init := items[..|items| - 1];
      BucketMembers(init, key);
      assert forall i :: 0 <= i < |init| ==> init[i] == items[i];
    }
  }

  /** The keys that occur among the items. */
  function Keys(items: seq<Item>): set<string>
  {
    set i | 0 <= i < |items| :: BucketKey(items[i].parentId)
  }

  /** The grouping as a value: one bucket for every key that occurs, and no empty bucket. */
  function Grouped(items: seq<Item>): (g: ComboboxOptions)
    ensures forall key :: key in g <==> Bucket(items, key) != []
  {
    KeysHaveBuckets(items);
    map key | key in Keys(items) :: Bucket(items, key)
  }

  /** The names a plain `{}` inherits from `Object.prototype`. Reading one of them from an
      object that has no own property of that name yields a function (the prototype object
      itself for "__proto__"): a truthy value that has neither `push` nor `map` nor `find`. */
  const InheritedNames: set<string> := {
    "constructor", "hasOwnProperty", "isPrototypeOf", "propertyIsEnumerable",
    "toLocaleString", "toString", "valueOf", "__proto__",
    "__defineGetter__", "__defineSetter__", "__lookupGetter__", "__lookupSetter__"
  }

  /** The grouping of the items runs to completion: no item's parent key is an inherited
      name. For such a key `acc[key]` is truthy but is not an array, so its `push` throws. */
  predicate Groupable(items: seq<Item>)
  {
    forall i :: 0 <= i < |items| ==> BucketKey(items[i].parentId) !in InheritedNames
  }

  /** A bucket is non-empty exactly when some item has that key. */
  lemma {:induction false} BucketNonEmpty(items: seq<Item>, key: string)
    ensures Bucket(items, key) != [] <==> key in Keys(items)
  {
    if items != [] {
      var init := items[..|items| - 1];
      BucketNonEmpty(init, key);
      assert Keys(items) == Keys(init) + {BucketKey(items[|items| - 1].parentId)} by {
        forall k | k in Keys(items) ensures k in Keys(init) + {BucketKey(items[|items| - 1].parentId)} {
          var i :| 0 <= i < |items| && BucketKey(items[i].parentId) == k;
          if i < |items| - 1 { assert init[i] == items[i]; }
        }
        forall k | k in Keys(init) ensures k in Keys(items) {
          var i :| 0 <= i < |init| && BucketKey(init[i].parentId) == k;
          assert items[i] == init[i];
        }
      }
    }
  }

  lemma KeysHaveBuckets(items: seq<Item>)
    ensures forall key :: key in Keys(items) <==> Bucket(items, key) != []
  {
    forall key ensures key in Keys(items) <==> Bucket(items, key) != [] {
      BucketNonEmpty(items, key);
    }
  }

  /** Buckets distribute over concatenation of the item list. */
  lemma {:induction false} BucketAppend(a: seq<Item>, b: seq<Item>, key: string)
    ensures Bucket(a + b, key) == Bucket(a, key) + Bucket(b, key)
    decreases |b|
  {
    if b == [] {
      assert a + b == a;
    } else {
      var b' := b[..|b| - 1];
      assert (a + b)[..|a + b| - 1] == a + b';
      BucketAppend(a, b', key);
    }
  }

  /** One step of the `reduce`: pushing an item onto its bucket, creating the bucket when absent. */
  lemma GroupedSnoc(items: seq<Item>, item: Item)
    ensures var key := BucketKey(item.parentId);
            var g := Grouped(items);
            Grouped(items + [item]) == g[key := (if key in g then g[key] else []) + [OptionItem(item.id)]]
  {
    var key := BucketKey(item.parentId);
    var g := Grouped(items);
    var g' := Grouped(items + [item]);
    var expected := g[key := (if key in g then g[key] else []) + [OptionItem(item.id)]];
    forall k
      ensures Bucket(items + [item], k) == Bucket(items, k) + (if k == key then [OptionItem(item.id)] else [])
    {
      BucketAppend(items, [item], k);
      assert [item][..0] == [];
    }
    forall k
      ensures k in g' <==> k in expected
    {
      BucketNonEmpty(items, k);
      BucketNonEmpty(items + [item], k);
    }
    forall k | k in g'
      ensures g'[k] == expected[k]
    {
      BucketNonEmpty(items, k);
    }
  }

  /** `mapItemsToComboboxOptions`: a `reduce` over a plain `{}` that pushes each item's id
      onto the bucket of its parent key. It yields `None` (the `reduce` throws a TypeError)
      exactly when some parent key is an inherited name; otherwise the result has a key
      exactly when some item has that key, and each bucket holds that key's items in order. */
  method GroupByParent(items: seq<Item>) returns (result: Option<ComboboxOptions>)
    ensures result.None? <==> !Groupable(items)
    ensures result.Some? ==> forall key :: key in result.value <==> exists i :: 0 <= i < |items| && BucketKey(items[i].parentId) == key
    ensures result.Some? ==> forall key :: key in result.value ==> result.value[key] == Bucket(items, key)
  {
    var acc: ComboboxOptions := map[];
    var n := 0;
    while n < |items|
      invariant 0 <= n <= |items|
      invariant Groupable(items[..n])
      invariant acc == Grouped(items[..n])
    {
      var item := items[n];
      var key := BucketKey(item.parentId);
      GroupedSnoc(items[..n], item);
      assert items[..n + 1] == items[..n] + [item];
      if key in acc {
        acc := acc[key := acc[key] + [OptionItem(item.id)]];
      } else if key in InheritedNames {
        // `acc[key]` is the inherited member: truthy, and `push` is not a function.
        assert BucketKey(items[n].parentId) in InheritedNames;
        return None;
      } else {
        assert forall i :: 0 <= i < n ==> items[..n + 1][i] == items[..n][i];
        assert [] + [OptionItem(item.id)] == [OptionItem(item.id)];
        acc := acc[key := [OptionItem(item.id)]];
      }
      n := n + 1;
    }
    assert items[..n] == items;
    result := Some(acc);
  }

  /** Every item sits in its bucket right after the earlier items of the same key, so a
      bucket keeps the items' relative order. */
  lemma BucketPosition(items: seq<Item>, i: int)
    requires 0 <= i < |items|
    ensures var key := BucketKey(items[i].parentId);
            var before := |Bucket(items[..i], key)|;
            before < |Bucket(items, key)| && Bucket(items, key)[before] == OptionItem(items[i].id)
  {
    var key := BucketKey(items[i].parentId);
    assert items == items[..i] + [items[i]] + items[i + 1..];
    BucketAppend(items[..i] + [items[i]], items[i + 1..], key);
    BucketAppend(items[..i], [items[i]], key);
    assert [items[i]][..0] == [];
  }

  /** The sum of the sizes of the buckets named in `keys`. */
  function SizeSum(items: seq<Item>, keys: seq<string>): nat
  {
    if keys == [] then 0 else |Bucket(items, keys[0])| + SizeSum(items, keys[1..])
  }

  predicate Distinct(keys: seq<string>)
  {
    forall i, j :: 0 <= i < j < |keys| ==> keys[i] != keys[j]
  }

  lemma {:induction false} SizeSumSnoc(items: seq<Item>, item: Item, keys: seq<string>)
    requires Distinct(keys)
    ensures SizeSum(items + [item], keys)
            == SizeSum(items, keys) + (if BucketKey(item.parentId) in keys then 1 else 0)
  {
    if keys != [] {
      SizeSumSnoc(items, item, keys[1..]);
      BucketAppend(items, [item], keys[0]);
      assert [item][..0] == [];
      assert BucketKey(item.parentId) in keys <==>
             BucketKey(item.parentId) == keys[0] || BucketKey(item.parentId) in keys[1..];
      if BucketKey(item.parentId) == keys[0] {
        assert keys[0] !in keys[1..] by {
          forall j | 0 <= j < |keys[1..]| ensures keys[1..][j] != keys[0] {
            assert keys[1..][j] == keys[j + 1];
          }
        }
      }
    }
  }

  /** Whatever the order in which the keys are listed, the bucket sizes add up to the
      number of items: each item lands in exactly one bucket, and no item is dropped. */
  lemma {:induction false} BucketSizesSum(items: seq<Item>, keys: seq<string>)
    requires Distinct(keys)
    requires forall key :: key in Keys(items) ==> key in keys
    ensures SizeSum(items, keys) == |items|
  {
    if items == [] {
      EmptyBucketsSum(keys);
    } else {
      var init := items[..|items| - 1];
      var last := items[|items| - 1];
      assert init + [last] == items;
      forall key | key in Keys(init) ensures key in keys {
        var i :| 0 <= i < |init| && BucketKey(init[i].parentId) == key;
        assert items[i] == init[i];
      }
      BucketSizesSum(init, keys);
      SizeSumSnoc(init, last, keys);
      assert BucketKey(items[|items| - 1].parentId) in Keys(items);
    }
  }

  lemma {:induction false} EmptyBucketsSum(keys: seq<string>)
    ensures SizeSum([], keys) == 0
  {
    if keys != [] {
      EmptyBucketsSum(keys[1..]);
    }
  }

  /** No deduplication: adding an item twice gives its bucket two more entries. */
  lemma DuplicatesKept(items: seq<Item>, item: Item)
    ensures var key := BucketKey(item.parentId);
            Bucket(items + [item, item], key) == Bucket(items, key) + [OptionItem(item.id), OptionItem(item.id)]
  {
    var key := BucketKey(item.parentId);
    assert items + [item, item] == (items + [item]) + [item];
    AddItemAppendsToBucket(items, item);
    AddItemAppendsToBucket(items + [item], item);
  }

  /** One unfolding of `Bucket` on a prefix of the item list. */
  lemma BucketPrefixStep(items: seq<Item>, n: int, key: string)
    requires 0 <= n < |items|
    ensures Bucket(items[..n + 1], key)
            == Bucket(items[..n], key) + (if BucketKey(items[n].parentId) == key then [OptionItem(items[n].id)] else [])
  {
    assert items[..n + 1][..n] == items[..n];
  }

  /** A parent literally named "none" shares the bucket of the root items. */
  lemma NoneKeyCollides(root: string, child: string)
    ensures Bucket([Item(root, None), Item(child, Some("none"))], "none") == [OptionItem(root), OptionItem(child)]
  {
    var items := [Item(root, None), Item(child, Some("none"))];
    BucketPrefixStep(items, 0, "none");
    BucketPrefixStep(items, 1, "none");
    assert items[..0] == [] && items[..2] == items;
  }

  /** The seed's keys: "none" for the roots and each id of levels 1 to 4; the level-5 ids
      have no children and so no bucket. */
  lemma SeedKeys()
    ensures |InitialItems| == 10
    ensures Keys(InitialItems) == {"none", "1.1", "1.2", "2.1", "2.2", "3.1", "3.2", "4.1", "4.2"}
  {
    var s := InitialItems;
    assert BucketKey(s[0].parentId) == "none";
    assert BucketKey(s[2].parentId) == "1.1";
    assert BucketKey(s[3].parentId) == "1.2";
    assert BucketKey(s[4].parentId) == "2.1";
    assert BucketKey(s[5].parentId) == "2.2";
    assert BucketKey(s[6].parentId) == "3.1";
    assert BucketKey(s[7].parentId) == "3.2";
    assert BucketKey(s[8].parentId) == "4.1";
    assert BucketKey(s[9].parentId) == "4.2";
  }

  /** Items none of which has parent key `key` contribute nothing to its bucket. */
  lemma {:induction false} BucketOfAbsentKey(items: seq<Item>, key: string)
    requires forall i :: 0 <= i < |items| ==> BucketKey(items[i].parentId) != key
    ensures Bucket(items, key) == []
  {
    if items != [] {
      BucketOfAbsentKey(items[..|items| - 1], key);
    }
  }

  /** The roots "1.1" and "1.2", in seed order, form the "none" bucket. */
  lemma SeedRootBucket()
    ensures "none" in Grouped(InitialItems)
    ensures Grouped(InitialItems)["none"] == [OptionItem("1.1"), OptionItem("1.2")]
  {
    var s := InitialItems;
    assert BucketKey(s[0].parentId) == "none";
    assert s == s[..2] + s[2..];
    BucketAppend(s[..2], s[2..], "none");
    BucketOfAbsentKey(s[2..], "none");
    BucketPrefixStep(s[..2], 0, "none");
    BucketPrefixStep(s[..2], 1, "none");
    assert s[..2][..0] == [] && s[..2][..2] == s[..2];
  }

  /** The only child of "1.1" is "2.1". */
  lemma SeedFirstChildBucket()
    ensures "1.1" in Grouped(InitialItems)
    ensures Grouped(InitialItems)["1.1"] == [OptionItem("2.1")]
  {
    var s := InitialItems;
    assert BucketKey(s[2].parentId) == "1.1";
    assert s == s[..2] + [s[2]] + s[3..];
    BucketAppend(s[..2] + [s[2]], s[3..], "1.1");
    BucketAppend(s[..2], [s[2]], "1.1");
    BucketOfAbsentKey(s[..2], "1.1");
    BucketOfAbsentKey(s[3..], "1.1");
    BucketPrefixStep([s[2]], 0, "1.1");
    assert [s[2]][..0] == [] && [s[2]][..1] == [s[2]];
  }

  /** The only child of "4.2" is "5.2", the last seed item. */
  lemma SeedLastChildBucket()
    ensures "4.2" in Grouped(InitialItems)
    ensures Grouped(InitialItems)["4.2"] == [OptionItem("5.2")]
  {
    var s := InitialItems;
    assert BucketKey(s[9].parentId) == "4.2";
    BucketPrefixStep(s, 9, "4.2");
    assert s[..10] == s;
    BucketOfAbsentKey(s[..9], "4.2");
  }

  /** The options store: the item list of the context provider. */
  class OptionStore {
    var items: seq<Item>

    constructor ()
      ensures items == InitialItems
    {
      items := InitialItems;
    }

    /** `addItem`: replaces the list by a copy with the new item at the end. */
    method AddItem(item: Item)
      modifies this
      ensures items == old(items) + [item]
    {
      items := items + [item];
    }
  }

  /** After `addItem`, the regrouping fails exactly when it failed before or the new parent
      key is an inherited name. In the grouped value, the new id is the last entry of its
      parent's bucket, that bucket keeps its earlier entries, and every other bucket is
      unchanged. */
  lemma AddItemAppendsToBucket(items: seq<Item>, item: Item)
    ensures Groupable(items + [item]) <==> Groupable(items) && BucketKey(item.parentId) !in InheritedNames
    ensures var key := BucketKey(item.parentId);
            && key in Grouped(items + [item])
            && Grouped(items + [item])[key] == Bucket(items, key) + [OptionItem(item.id)]
            && forall k :: k != key ==> Bucket(items + [item], k) == Bucket(items, k)
  {
    var key := BucketKey(item.parentId);
    assert (items + [item])[|items|] == item;
    assert forall i :: 0 <= i < |items| ==> (items + [item])[i] == items[i];
    assert key in Keys(items + [item]);
    forall k ensures Bucket(items + [item], k) == Bucket(items, k) + (if k == key then [OptionItem(item.id)] else []) {
      BucketAppend(items, [item], k);
      assert [item][..0] == [];
    }
  }
}
