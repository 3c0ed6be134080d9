/**
 The item screen's view: the items of the last snapshot in createdAt order or sorted A-Z by text, the
 "all done" celebration that fires on the snapshot where every item becomes checked, and the
 swipe gestures on a row.
 */
module ListView {
  import opened Values
  import opened Text
  import opened Sorting
  import opened Items
  import opened ListActions

  /** `getString("text")`, with an absent text (or an unreadable document) compared as "". */
  function ItemText(d: ItemDoc): string
  {
    if d.data.Some? && d.data.value.text.Some? then d.data.value.text.value else ""
  }

  /** The A-Z comparator looks at the text only, so every item has the same rank. */
  function ItemKey(d: ItemDoc): SortKey
  {
    SortKey(0, ItemText(d))
  }

  function ItemKeyOf(): ItemDoc -> SortKey
  {
    d => ItemKey(d)
  }

  /** The comparator `applyItemSort` hands to `Collections.sort`. */
  function CompareItems(a: ItemDoc, b: ItemDoc): int
  {
    CompareIgnoreCase(ItemText(a), ItemText(b))
  }

  /** The comparator and the key order items the same way, ties included. */
  lemma CompareItemsIsKeyOrder(a: ItemDoc, b: ItemDoc)
    ensures CompareItems(a, b) <= 0 <==> KeyLe(ItemKey(a), ItemKey(b))
    ensures CompareItems(a, b) == 0 <==> Equiv(ItemKey(a), ItemKey(b))
    ensures CompareItems(a, b) == 0 <==> Lower(ItemText(a)) == Lower(ItemText(b))
  {
    CompareIgnoreCaseAntisymmetric(ItemText(a), ItemText(b));
    CompareIgnoreCaseZeroIff(ItemText(a), ItemText(b));
  }

  /** `applyItemSort` in A-Z mode. */
  function SortItemsAZ(docs: seq<ItemDoc>): seq<ItemDoc>
  {
    Sort(docs, ItemKeyOf())
  }

  /**
   The A-Z order: the same items, each earlier text at most every later one ignoring case, and
   items whose texts differ only in case (or are both absent) kept in snapshot order.
   */
  lemma SortItemsAZSpec(docs: seq<ItemDoc>)
    ensures multiset(SortItemsAZ(docs)) == multiset(docs)
    ensures forall i, j :: 0 <= i < j < |SortItemsAZ(docs)| ==>
      CompareIgnoreCase(ItemText(SortItemsAZ(docs)[i]), ItemText(SortItemsAZ(docs)[j])) <= 0
    ensures forall k :: Tied(SortItemsAZ(docs), ItemKeyOf(), k) == Tied(docs, ItemKeyOf(), k)
  {
    SortMultiset(docs, ItemKeyOf());
    SortSorted(docs, ItemKeyOf());
    forall k ensures Tied(SortItemsAZ(docs), ItemKeyOf(), k) == Tied(docs, ItemKeyOf(), k) {
      SortStable(docs, ItemKeyOf(), k);
    }
  }

  /** The number of checked items, counted as the loop of `checkForConfetti` does. */
  function CountChecked(docs: seq<ItemDoc>): nat
  {
    if docs == [] then 0
    else CountChecked(docs[..|docs| - 1]) + (if IsChecked(docs[|docs| - 1]) then 1 else 0)
  }

  /** `allDone`: at least one item, and every item checked. */
  predicate AllDone(docs: seq<ItemDoc>)
  {
    |docs| > 0 && CountChecked(docs) == |docs|
  }

  lemma {:induction false} CountCheckedBound(docs: seq<ItemDoc>)
    ensures CountChecked(docs) <= |docs|
    ensures CountChecked(docs) == |docs| <==> forall i :: 0 <= i < |docs| ==> IsChecked(docs[i])
  {
    if docs != [] {
      var init := docs[..|docs| - 1];
      CountCheckedBound(init);
      assert forall i :: 0 <= i < |init| ==> init[i] == docs[i];
    }
  }

  /** The count reaches the total exactly when the list is non-empty and every item is checked. */
  lemma AllDoneIff(docs: seq<ItemDoc>)
    ensures AllDone(docs) <==> docs != [] && forall d :: d in docs ==> IsChecked(d)
  {
    CountCheckedBound(docs);
  }

  /** Reordering the items, as the A-Z sort does, does not change whether all are done. */
  lemma AllDonePermutation(s: seq<ItemDoc>, t: seq<ItemDoc>)
    requires multiset(s) == multiset(t)
    ensures AllDone(s) == AllDone(t)
  {
    AllDoneIff(s);
    AllDoneIff(t);
    assert |s| == |multiset(s)| == |multiset(t)| == |t|;
    forall d ensures d in s <==> d in t {
      assert d in s <==> d in multiset(s);
      assert d in t <==> d in multiset(t);
    }
  }

  /** Whether a snapshot with these items shows the celebration, given the previous `lastAllDone`. */
  predicate Fires(lastAllDone: bool, docs: seq<ItemDoc>)
  {
    AllDone(docs) && !lastAllDone
  }

  /** What a run of delivered snapshots shows, one flag per snapshot, starting from `lastAllDone`. */
  function FireTrace(lastAllDone: bool, snaps: seq<seq<ItemDoc>>): (r: seq<bool>)
    ensures |r| == |snaps|
    decreases |snaps|
  {
    if snaps == [] then []
    else [Fires(lastAllDone, snaps[0])] + FireTrace(AllDone(snaps[0]), snaps[1..])
  }

  /** The celebration fires exactly on a rising edge of "all done". */
  lemma {:induction false} FireTraceRisingEdge(lastAllDone: bool, snaps: seq<seq<ItemDoc>>, i: nat)
    requires i < |snaps|
    ensures FireTrace(lastAllDone, snaps)[i] <==>
      AllDone(snaps[i]) && !(if i == 0 then lastAllDone else AllDone(snaps[i - 1]))
    decreases i
  {
    if i > 0 {
      FireTraceRisingEdge(AllDone(snaps[0]), snaps[1..], i - 1);
      assert snaps[1..][i - 1] == snaps[i];
      if i > 1 {
        assert snaps[1..][i - 2] == snaps[i - 1];
      }
    }
  }

  /**
   Never two celebrations in a row, none for an empty list, and another one after the list has
   been seen not all done.
   */
  lemma FireTraceProperties(lastAllDone: bool, snaps: seq<seq<ItemDoc>>, i: nat)
    requires i < |snaps|
    ensures i + 1 < |snaps| && FireTrace(lastAllDone, snaps)[i] ==> !FireTrace(lastAllDone, snaps)[i + 1]
    ensures snaps[i] == [] ==> !FireTrace(lastAllDone, snaps)[i]
    ensures i + 1 < |snaps| && !AllDone(snaps[i]) && AllDone(snaps[i + 1]) ==> FireTrace(lastAllDone, snaps)[i + 1]
  {
    FireTraceRisingEdge(lastAllDone, snaps, i);
    if i + 1 < |snaps| {
      FireTraceRisingEdge(lastAllDone, snaps, i + 1);
    }
  }

  /**
   Two items: none checked, one checked, both checked (celebration), a further snapshot with both
   still checked (no repeat).
   */
  lemma FireTraceExample(u: ItemDoc, c: ItemDoc)
    requires !IsChecked(u) && IsChecked(c)
    ensures FireTrace(false, [[u, u], [c, u], [c, c], [c, c]]) == [false, false, true, false]
  {
    AllDoneIff([u, u]);
    AllDoneIff([c, u]);
    AllDoneIff([c, c]);
    assert !AllDone([u, u]) && !AllDone([c, u]) && AllDone([c, c]);
    var snaps := [[u, u], [c, u], [c, c], [c, c]];
    assert snaps[1..] == [[c, u], [c, c], [c, c]];
    assert snaps[1..][1..] == [[c, c], [c, c]];
    assert snaps[1..][1..][1..] == [[c, c]];
    assert FireTrace(true, [[c, c]]) == [false];
    assert FireTrace(false, [[c, c], [c, c]]) == [true, false];
    assert FireTrace(false, [[c, u], [c, c], [c, c]]) == [false, true, false];
  }

  datatype SwipeDirection = Left | Right | Other

  /**
   `onSwiped` on the row at adapter position `pos`: nothing outside the list; a left swipe
   writes the opposite of the row's checked state; a right swipe deletes with undo.
   */
  function SwipeEffect(docs: seq<ItemDoc>, pos: int, dir: SwipeDirection): (e: Option<ItemEffect>)
    ensures pos < 0 || pos >= |docs| || dir == Other ==> e.None?
    ensures 0 <= pos < |docs| && dir == Left ==>
      e == Some(ItemEffect(OnToggle(docs[pos], !IsChecked(docs[pos])), None))
    ensures 0 <= pos < |docs| && dir == Right ==> e == Some(DeleteItemWithUndo(docs[pos]))
  {
    if pos < 0 || pos >= |docs| then None
    else
      var doc := docs[pos];
      match dir
      case Left =>
        var checked := doc.data.Some? && doc.data.value.checked.Some? && doc.data.value.checked.value;
        Some(ItemEffect(UpdateChecked(doc.id, !checked), None))
      case Right => Some(DeleteItemWithUndo(doc))
      case Other => None
  }

  /**
   A left swipe on an up-to-date row flips the item's checked state; a left swipe on the refreshed
   row flips it back, restoring the store when the field was present.
   */
  lemma SwipeLeftTwice(store: ItemStore, doc: ItemDoc)
    requires doc.data.Some? && doc.id in store && store[doc.id] == doc.data.value
    ensures var s1 := Apply(store, SwipeEffect([doc], 0, Left).value.write);
      var d1 := ItemDoc(doc.id, Some(s1[doc.id]));
      var s2 := Apply(s1, SwipeEffect([d1], 0, Left).value.write);
      && IsChecked(d1) == !IsChecked(doc)
      && s2 == store[doc.id := doc.data.value.(checked := Some(IsChecked(doc)))]
      && (doc.data.value.checked.Some? ==> s2 == store)
  {
    var s1 := Apply(store, SwipeEffect([doc], 0, Left).value.write);
    var d1 := ItemDoc(doc.id, Some(s1[doc.id]));
    var s2 := Apply(s1, SwipeEffect([d1], 0, Left).value.write);
    if doc.data.value.checked.Some? {
      if doc.data.value.checked.value {
        assert doc.data.value.checked == Some(true);
      } else {
        assert doc.data.value.checked == Some(false);
      }
      assert s2[doc.id] == store[doc.id];
      assert s2 == store;
    }
  }

  /**
   The item screen's state. `delivered` is the ghost record of the last delivered snapshot (in
   createdAt order); `docs` is what the adapter shows.
   */
  class ItemScreen {
    var docs: seq<ItemDoc>
    var lastAllDone: bool
    var sortItemsAZ: bool
    ghost var delivered: seq<ItemDoc>

    /**
     The shown items are the snapshot, or the snapshot sorted A-Z; in A-Z mode always the latter.
     Choosing "Recent" does not re-sort, so A-Z order stays until the next snapshot.
     `lastAllDone` is whether the shown items are all done.
     */
    ghost predicate Valid()
      reads this
    {
      && (docs == delivered || docs == SortItemsAZ(delivered))
      && (sortItemsAZ ==> docs == SortItemsAZ(delivered))
      && lastAllDone == AllDone(docs)
    }

    constructor ()
      ensures Valid()
      ensures docs == [] && delivered == [] && !lastAllDone && !sortItemsAZ
    {
      docs := [];
      delivered := [];
      lastAllDone := false;
      sortItemsAZ := false;
    }

    /** `applyItemSort`: in Recent mode nothing happens; in A-Z mode the items are sorted by text. */
    method ApplyItemSort()
      modifies this`docs
      ensures docs == if sortItemsAZ then SortItemsAZ(old(docs)) else old(docs)
      ensures multiset(docs) == multiset(old(docs))
    {
      if !sortItemsAZ {
        return;
      }
      SortMultiset(docs, ItemKeyOf());
      docs := Sort(docs, ItemKeyOf());
    }

    /** `checkForConfetti`: count the checked items; fire on a rising edge of "all done". */
    method CheckForConfetti() returns (fired: bool)
      modifies this`lastAllDone
      ensures lastAllDone == AllDone(docs)
      ensures fired == Fires(old(lastAllDone), docs)
    {
      var total := |docs|;
      var checked := 0;
      var i := 0;
      while i < |docs|
        invariant 0 <= i <= |docs|
        invariant checked == CountChecked(docs[..i])
        invariant checked <= i
      {
        var d := docs[i];
        assert docs[..i + 1][..i] == docs[..i];
        if d.data.Some? && d.data.value.checked == Some(true) {
          checked := checked + 1;
        }
        i := i + 1;
      }
      assert docs[..|docs|] == docs;
      var allDone := total > 0 && checked == total;
      fired := allDone && !lastAllDone;
      lastAllDone := allDone;
    }

    /**
     The snapshot listener: an error or a null snapshot changes nothing; otherwise the items are
     replaced, sorted when in A-Z mode, and the celebration fires on a rising edge.
     */
    method OnSnapshot(event: SnapshotEvent<ItemDoc>) returns (fired: bool)
      requires Valid()
      modifies this`docs, this`lastAllDone, this`delivered
      ensures Valid()
      ensures event.Delivered? ==> delivered == event.docs
      ensures event.Delivered? ==> docs == if sortItemsAZ then SortItemsAZ(event.docs) else event.docs
      ensures event.Delivered? ==> fired == Fires(old(lastAllDone), event.docs)
      ensures !event.Delivered? ==> !fired && docs == old(docs) && delivered == old(delivered)
      ensures !event.Delivered? ==> lastAllDone == old(lastAllDone)
    {
      if event.Failed? || event.Missing? {
        return false;
      }
      docs := event.docs;
      delivered := event.docs;
      ApplyItemSort();
      AllDonePermutation(docs, event.docs);
      fired := CheckForConfetti();
    }

    /** Menu "Recent": only the mode changes; the shown order is left as it is. */
    method SelectSortRecent()
      requires Valid()
      modifies this`sortItemsAZ, this`docs
      ensures Valid() && !sortItemsAZ && docs == old(docs)
    {
      sortItemsAZ := false;
      ApplyItemSort();
    }

    /** Menu "A-Z": the shown items become the last snapshot sorted by text, whatever order they had. */
    method SelectSortAZ()
      requires Valid()
      modifies this`sortItemsAZ, this`docs
      ensures Valid() && sortItemsAZ
      ensures docs == SortItemsAZ(delivered)
      ensures lastAllDone == old(lastAllDone)
    {
      sortItemsAZ := true;
      if docs != delivered {
        SortIdempotent(delivered, ItemKeyOf());
      }
      ApplyItemSort();
      AllDonePermutation(docs, old(docs));
    }
  }
}
