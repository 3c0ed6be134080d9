/**
 Item documents of one list's `items` subcollection, and the writes the item screen issues
 against it. The store is a map from document id to record.
 */
module Items {
  import opened Values
  import opened ItemModel

  /** The fields of an item document; every field may be absent. */
  datatype ItemRecord = ItemRecord(
    text: Option<string>,
    createdBy: Option<string>,
    createdAt: Option<Timestamp>,
    checked: Option<bool>,
    quantity: Option<int>)

  /** A document of a snapshot; `data` is `None` when `getData()` would return null. */
  datatype ItemDoc = ItemDoc(id: string, data: Option<ItemRecord>)

  type ItemStore = map<string, ItemRecord>

  /** `getBoolean("checked")` is true; an absent field or document counts as unchecked. */
  predicate IsChecked(d: ItemDoc)
  {
    d.data.Some? && IsTrue(d.data.value.checked)
  }

  /** The document an `Item` object is stored as: every field present. */
  function ToRecord(it: Item): (r: ItemRecord)
    ensures r.text == Some(it.text) && r.createdBy == Some(it.createdBy) && r.createdAt == Some(it.createdAt)
    ensures r.checked == Some(it.checked) && r.quantity == Some(it.quantity)
  {
    ItemRecord(Some(it.text), Some(it.createdBy), Some(it.createdAt), Some(it.checked), Some(it.quantity))
  }

  /** The writes the item screen sends. */
  datatype ItemWrite =
    | AddItem(id: string, record: ItemRecord)    // `collection.add(item)`; `id` is the one the store assigns
    | UpdateChecked(id: string, checked: bool)   // `update("checked", v)`
    | UpdateQuantity(id: string, quantity: int)  // `update("quantity", q)`
    | DeleteItem(id: string)                     // `delete()`
    | SetItem(id: string, record: ItemRecord)    // `document(id).set(data)`

  /** `add`, `delete` and `set` always reach the store; `update` only an existing document. */
  predicate Succeeds(store: ItemStore, w: ItemWrite)
  {
    (w.UpdateChecked? || w.UpdateQuantity?) ==> w.id in store
  }

  /** The store after the write. */
  function Apply(store: ItemStore, w: ItemWrite): (r: ItemStore)
    ensures !Succeeds(store, w) ==> r == store
    ensures w.DeleteItem? ==> r.Keys == store.Keys - {w.id}
    ensures !w.DeleteItem? && Succeeds(store, w) ==> r.Keys == store.Keys + {w.id}
    ensures forall id :: id in store && id != w.id ==> id in r && r[id] == store[id]
    ensures (w.AddItem? || w.SetItem?) ==> r[w.id] == w.record
    ensures w.UpdateChecked? && w.id in store ==> r[w.id] == store[w.id].(checked := Some(w.checked))
    ensures w.UpdateQuantity? && w.id in store ==> r[w.id] == store[w.id].(quantity := Some(w.quantity))
    ensures w.DeleteItem? ==> w.id !in r
  {
    match w
    case AddItem(id, rec) => store[id := rec]
    case UpdateChecked(id, v) =>
      if id in store then store[id := store[id].(checked := Some(v))] else store
    case UpdateQuantity(id, q) =>
      if id in store then store[id := store[id].(quantity := Some(q))] else store
    case DeleteItem(id) => store - {id}
    case SetItem(id, rec) => store[id := rec]
  }

  /** A stored quantity, when present, is at least 1. */
  predicate QuantityOk(r: ItemRecord)
  {
    r.quantity.Some? ==> r.quantity.value >= 1
  }

  ghost predicate QuantityFloor(store: ItemStore)
  {
    forall id :: id in store ==> QuantityOk(store[id])
  }

  /** A write that stores no quantity below 1 keeps the floor for the whole store. */
  predicate WriteKeepsFloor(w: ItemWrite)
  {
    match w
    case UpdateQuantity(_, q) => q >= 1
    case AddItem(_, rec) => QuantityOk(rec)
    case SetItem(_, rec) => QuantityOk(rec)
    case _ => true
  }

  lemma ApplyKeepsQuantityFloor(store: ItemStore, w: ItemWrite)
    requires QuantityFloor(store) && WriteKeepsFloor(w)
    ensures QuantityFloor(Apply(store, w))
  {
  }
}
