/**
 The item model object the item screen builds before adding a new item.
 */
module ItemModel {
  import opened Values

  datatype Item = Item(text: string, createdBy: string, createdAt: Timestamp, checked: bool, quantity: int)

  /** `new Item(text, uid)`: unchecked, quantity 1, stamped with the creation time. */
  function NewItem(text: string, uid: string, now: Timestamp): (it: Item)
    ensures it.text == text && it.createdBy == uid && it.createdAt == now
    ensures !it.checked && it.quantity == 1
  {
    Item(text, uid, now, false, 1)
  }

  /** `new Item(text, uid, quantity)`: as above, with the requested quantity floored at 1. */
  function NewItemWithQuantity(text: string, uid: string, now: Timestamp, quantity: int): (it: Item)
    ensures it.text == text && it.createdBy == uid && it.createdAt == now && !it.checked
    ensures it.quantity >= 1
    ensures quantity <= 0 ==> it.quantity == 1
    ensures quantity >= 1 ==> it.quantity == quantity
  {
    Item(text, uid, now, false, ClampQuantity(quantity))
  }

  /** The two constructors agree whenever the requested quantity is at most 1. */
  lemma ConstructorsAgree(text: string, uid: string, now: Timestamp, quantity: int)
    requires quantity <= 1
    ensures NewItemWithQuantity(text, uid, now, quantity) == NewItem(text, uid, now)
  {
  }
}
