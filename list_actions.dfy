/**
 What the item screen writes: check toggles, quantity changes from the row buttons, new items
 from the input fields, and deletions with their undo.
 */
module ListActions {
  import opened Values
  import opened Text
  import opened ItemModel
  import opened Items

  /** A write and, for a destructive one, the write its UNDO action would send. */
  datatype ItemEffect = ItemEffect(write: ItemWrite, undo: Option<ItemWrite>)

  /** The row's check box: write the new state as given. */
  function OnToggle(doc: ItemDoc, checked: bool): ItemWrite
  {
    UpdateChecked(doc.id, checked)
  }

  /** `onQtyChange`: write the requested quantity, floored at 1. */
  function OnQtyChange(doc: ItemDoc, newQty: int): (w: ItemWrite)
    ensures w.UpdateQuantity? && w.id == doc.id && WriteKeepsFloor(w)
    ensures newQty <= 0 ==> w.quantity == 1
    ensures newQty >= 1 ==> w.quantity == newQty
  {
    UpdateQuantity(doc.id, ClampQuantity(newQty))
  }

  /**
   The row's writes on an existing item: the check box sets exactly the checked field, a quantity
   change sets exactly the quantity (never below 1); the other fields and items stay as they were.
   On an item that is gone neither write changes anything.
   */
  lemma RowWrites(store: ItemStore, doc: ItemDoc, checked: bool, newQty: int)
    ensures doc.id in store ==> Apply(store, OnToggle(doc, checked)) == store[doc.id := store[doc.id].(checked := Some(checked))]
    ensures doc.id in store ==> Apply(store, OnQtyChange(doc, newQty)) == store[doc.id := store[doc.id].(quantity := Some(ClampQuantity(newQty)))]
    ensures doc.id !in store ==> Apply(store, OnToggle(doc, checked)) == store && Apply(store, OnQtyChange(doc, newQty)) == store
    ensures QuantityFloor(store) ==> QuantityFloor(Apply(store, OnToggle(doc, checked))) && QuantityFloor(Apply(store, OnQtyChange(doc, newQty)))
  {
    if QuantityFloor(store) {
      ApplyKeepsQuantityFloor(store, OnToggle(doc, checked));
      ApplyKeepsQuantityFloor(store, OnQtyChange(doc, newQty));
    }
  }

  /** The quantity a row shows: 1 when absent, else the stored value cut to 32 bits and floored at 1. */
  function DisplayQuantity(doc: ItemDoc): (q: int)
    ensures q >= 1 && IsInt32(q)
    ensures (doc.data.None? || doc.data.value.quantity.None?) ==> q == 1
    ensures doc.data.Some? && doc.data.value.quantity.Some?
            ==> q == ClampQuantity(ToInt32(doc.data.value.quantity.value))
    ensures doc.data.Some? && doc.data.value.quantity.Some? && IsInt32(doc.data.value.quantity.value)
            ==> q == ClampQuantity(doc.data.value.quantity.value)
  {
    if doc.data.None? || doc.data.value.quantity.None? then 1
    else ClampQuantity(ToInt32(doc.data.value.quantity.value))
  }

  /** The minus button asks for one less, never below 1. */
  function MinusRequest(qty: int): (r: int)
    ensures r >= 1
    ensures qty >= 2 ==> r == qty - 1
    ensures qty <= 1 ==> r == 1
  {
    ClampQuantity(qty - 1)
  }

  /** The plus button asks for one more, in 32-bit arithmetic. */
  function PlusRequest(qty: int): (r: int)
    ensures IsInt32(r)
    ensures IsInt32(qty) && qty < MaxInt32 ==> r == qty + 1
    ensures qty == MaxInt32 ==> r == MinInt32
  {
    ToInt32(qty + 1)
  }

  /**
   The row buttons: minus writes one less down to 1; plus writes one more, except at the largest
   32-bit quantity, where the sum wraps to a negative number and the floor turns it into 1.
   */
  lemma QuantityButtons(doc: ItemDoc)
    ensures var q := DisplayQuantity(doc);
      && OnQtyChange(doc, MinusRequest(q)).quantity == (if q == 1 then 1 else q - 1)
      && (q < MaxInt32 ==> OnQtyChange(doc, PlusRequest(q)).quantity == q + 1)
      && (q == MaxInt32 ==> OnQtyChange(doc, PlusRequest(q)).quantity == 1)
  {
    var q := DisplayQuantity(doc);
    if q == MaxInt32 {
      assert q + 1 - MinInt32 == 0x1_0000_0000;
      assert PlusRequest(q) == MinInt32;
    }
  }

  /** The quantity field: empty, missing or not a 32-bit number gives 1, else the number floored at 1. */
  function ParseQuantity(qtyInput: Option<string>): (q: int)
    ensures q >= 1 && IsInt32(q)
    ensures qtyInput.None? || qtyInput.value == [] ==> q == 1
    ensures qtyInput.Some? && qtyInput.value != [] ==>
      var t := Trim(qtyInput.value);
      && (IntText(t) && IsInt32(IntTextValue(t)) ==> q == ClampQuantity(IntTextValue(t)))
      && (!(IntText(t) && IsInt32(IntTextValue(t))) ==> q == 1)
  {
    if qtyInput.None? || qtyInput.value == [] then 1
    else
      var parsed := ParseInt(Trim(qtyInput.value));
      if parsed.None? then 1 else ClampQuantity(parsed.value)
  }

  /** Typing a number gives that number, floored at 1; blanks or letters give 1. */
  lemma ParseQuantityOf(n: int, junk: string)
    requires IsInt32(n)
    requires junk != [] && forall i :: 0 <= i < |junk| ==> !IsDigit(junk[i]) && junk[i] != '-' && junk[i] != '+'
    ensures ParseQuantity(Some(ShowInt(n))) == ClampQuantity(n)
    ensures ParseQuantity(Some(junk)) == 1
  {
    var s := ShowInt(n);
    assert !IsTrimmed(s[0]) && !IsTrimmed(s[|s| - 1]);
    assert TrimStart(s) == s;
    assert Trim(s) == s;
    ParseShowInt(n);
    var t := Trim(junk);
    if t != [] {
      var k := |junk| - |TrimStart(junk)|;
      assert t[0] == TrimStart(junk)[0] == junk[k];
    }
  }

  /**
   `addItem`: trimmed-empty text writes nothing; otherwise a new unchecked item with the trimmed
   text, the signed-in user and the parsed quantity is added under the id the store assigns.
   */
  function AddNewItem(textInput: string, qtyInput: Option<string>, uid: string, newId: string, now: Timestamp): (w: Option<ItemWrite>)
    ensures w.None? <==> Trim(textInput) == []
    ensures w.Some? ==> w.value.AddItem? && w.value.id == newId && WriteKeepsFloor(w.value)
    ensures w.Some? ==> w.value.record == ToRecord(Item(Trim(textInput), uid, now, false, ParseQuantity(qtyInput)))
  {
    var text := Trim(textInput);
    if text == [] then None
    else
      var qty := ParseQuantity(qtyInput);
      Some(AddItem(newId, ToRecord(NewItemWithQuantity(text, uid, now, qty))))
  }

  /**
   `deleteItemWithUndo`: delete the document; when its data could be read, the UNDO action sets
   that data again under the same id. A document without data is deleted with no undo.
   */
  function DeleteItemWithUndo(doc: ItemDoc): (e: ItemEffect)
    ensures e.write == DeleteItem(doc.id)
    ensures e.undo.None? <==> doc.data.None?
    ensures e.undo.Some? ==> e.undo.value == SetItem(doc.id, doc.data.value)
  {
    if doc.data.None? then ItemEffect(DeleteItem(doc.id), None)
    else ItemEffect(DeleteItem(doc.id), Some(SetItem(doc.id, doc.data.value)))
  }

  /**
   Delete removes the item; undo puts back the captured record under the same id, so delete then
   undo of an up-to-date row restores the store exactly, and keeps the quantity floor.
   */
  lemma DeleteUndoRoundTrip(store: ItemStore, doc: ItemDoc)
    requires doc.data.Some?
    ensures var e := DeleteItemWithUndo(doc);
      var s1 := Apply(store, e.write);
      && doc.id !in s1
      && Apply(s1, e.undo.value) == store[doc.id := doc.data.value]
      && (doc.id in store && store[doc.id] == doc.data.value ==> Apply(s1, e.undo.value) == store)
      && (QuantityFloor(store) && doc.id in store && store[doc.id] == doc.data.value
          ==> QuantityFloor(Apply(s1, e.undo.value)))
  {
    var e := DeleteItemWithUndo(doc);
    var s1 := Apply(store, e.write);
    var s2 := Apply(s1, e.undo.value);
    assert s2 == store[doc.id := doc.data.value];
  }
}
