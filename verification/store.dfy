/**
 * The global items store. Its state is a record of the item list and the text of the item
 * being typed; each action hands zustand's `set` a partial state computed from the current
 * one, and `set` merges it shallowly: fields the partial state leaves out keep their values.
 */
module Store {
  import opened Options
  import opened JsArray

  datatype Item = Item(name: string)

  function NameOf(i: Item): string {
    i.name
  }

  datatype ItemsStore = ItemsStore(items: seq<Item>, newItem: string)

  /** The object an updater returns; `None` marks a field it does not mention. */
  datatype Partial = Partial(items: Option<seq<Item>>, newItem: Option<string>)

  /** zustand's `set(updater)`: replace exactly the fields the partial state mentions. */
  function Merge(s: ItemsStore, p: Partial): (r: ItemsStore)
    ensures p.items.None? ==> r.items == s.items
    ensures p.newItem.None? ==> r.newItem == s.newItem
    ensures p.items.Some? ==> r.items == p.items.value
    ensures p.newItem.Some? ==> r.newItem == p.newItem.value
  {
    ItemsStore(
      match p.items case Some(items) => items case None => s.items,
      match p.newItem case Some(newItem) => newItem case None => s.newItem)
  }

  /** The state the store is created with. */
  function Initial(): (s: ItemsStore)
    ensures s.items == [] && s.newItem == ""
  {
    ItemsStore([], "")
  }

  /** `addItem`: append an item named by the pending text and reset the text. */
  function AddItem(s: ItemsStore): ItemsStore {
    Merge(s, Partial(Some(s.items + [Item(s.newItem)]), Some("")))
  }

  /** `setNewItem(item)`: spread the whole state and replace `newItem`. */
  function SetNewItem(s: ItemsStore, item: string): ItemsStore {
    Merge(s, Partial(Some(s.items), Some(item)))
  }

  /** `removeItem(item)`: keep the items whose name is not `item`; `newItem` is not mentioned. */
  function RemoveItem(s: ItemsStore, item: string): ItemsStore {
    Merge(s, Partial(Some(Without(s.items, NameOf, item)), None))
  }

  /** `addItem` appends unconditionally, so the list always grows by exactly one. */
  lemma AddItemAppends(s: ItemsStore)
    ensures AddItem(s).items == s.items + [Item(s.newItem)]
    ensures |AddItem(s).items| == |s.items| + 1
    ensures AddItem(s).newItem == ""
  {
  }

  /** There is no duplicate check: adding a listed name lists it once more. */
  lemma AddItemRepeatsName(s: ItemsStore)
    ensures CountKey(AddItem(s).items, NameOf, s.newItem) == CountKey(s.items, NameOf, s.newItem) + 1
  {
    CountKeyAppend(s.items, [Item(s.newItem)], NameOf, s.newItem);
  }

  /** `setNewItem` changes the pending text and nothing else. */
  lemma SetNewItemOnlyText(s: ItemsStore, item: string)
    ensures SetNewItem(s, item) == s.(newItem := item)
  {
  }

  /** After `removeItem(n)` no item is named n. */
  lemma RemoveItemRemovesAll(s: ItemsStore, n: string)
    ensures forall i :: i in RemoveItem(s, n).items ==> i.name != n
  {
    WithoutExcludes(s.items, NameOf, n);
  }

  /**
   * `removeItem(n)` keeps every item not named n, as often as it was there and in the same
   * relative order, drops exactly the items named n, and leaves the pending text alone.
   */
  lemma RemoveItemKeepsOthers(s: ItemsStore, n: string)
    ensures forall i :: multiset(RemoveItem(s, n).items)[i] == if i.name == n then 0 else multiset(s.items)[i]
    ensures IsSubsequence(RemoveItem(s, n).items, s.items)
    ensures |RemoveItem(s, n).items| == |s.items| - CountKey(s.items, NameOf, n)
    ensures RemoveItem(s, n).newItem == s.newItem
  {
    WithoutMultiplicity(s.items, NameOf, n);
    WithoutIsSubsequence(s.items, NameOf, n);
    WithoutLength(s.items, NameOf, n);
  }

  /** Removing a name no item has changes nothing. */
  lemma RemoveItemAbsent(s: ItemsStore, n: string)
    requires forall i :: i in s.items ==> i.name != n
    ensures RemoveItem(s, n) == s
  {
    WithoutAbsent(s.items, NameOf, n);
  }

  /** Removing the same name twice is removing it once. */
  lemma RemoveItemIdempotent(s: ItemsStore, n: string)
    ensures RemoveItem(RemoveItem(s, n), n) == RemoveItem(s, n)
  {
    WithoutIdempotent(s.items, NameOf, n);
  }
}
