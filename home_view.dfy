/**
 The list screen's view: the raw `docs` of the last snapshot, the view intent (sort mode,
 archived visibility, search text) and the `visible` projection rebuilt from them.
 */
module HomeView {
  import opened Values
  import opened Text
  import opened Sorting
  import opened Lists

  predicate IsPinned(d: ListDoc)
  {
    IsTrue(d.data.pinned)
  }

  predicate IsArchived(d: ListDoc)
  {
    IsTrue(d.data.archived)
  }

  /** `String.valueOf(getString("name"))`: an absent name prints as "null". */
  function NameText(d: ListDoc): string
  {
    if d.data.name.Some? then d.data.name.value else "null"
  }

  /** The name the A-Z comparator uses: an absent name compares as "". */
  function SortName(d: ListDoc): string
  {
    if d.data.name.Some? then d.data.name.value else ""
  }

  /** The search query: the search box's text, trimmed and lower-cased; no text is "". */
  function SearchQuery(text: Option<string>): string
  {
    if text.Some? then Lower(Trim(text.value)) else ""
  }

  /** A non-empty query must occur in the lower-cased name. */
  predicate MatchesQuery(d: ListDoc, q: string)
  {
    q == [] || Contains(Lower(NameText(d)), q)
  }

  /** The filter of the rebuild loop: archived lists are skipped unless shown, then the search applies. */
  predicate Keep(d: ListDoc, showArchived: bool, q: string)
  {
    !(!showArchived && IsArchived(d)) && MatchesQuery(d, q)
  }

  /** The documents that pass the filter, in snapshot order. */
  function FilterDocs(docs: seq<ListDoc>, showArchived: bool, q: string): seq<ListDoc>
  {
    if docs == [] then []
    else
      FilterDocs(docs[..|docs| - 1], showArchived, q)
      + (if Keep(docs[|docs| - 1], showArchived, q) then [docs[|docs| - 1]] else [])
  }

  /** The sort key: pinned lists rank first; in A-Z mode the name decides within a rank. */
  function ListKey(d: ListDoc, sortAZ: bool): SortKey
  {
    SortKey(if IsPinned(d) then 0 else 1, if sortAZ then SortName(d) else "")
  }

  function ListKeyOf(sortAZ: bool): ListDoc -> SortKey
  {
    d => ListKey(d, sortAZ)
  }

  /** The comparator handed to `Collections.sort` in the rebuild. */
  function CompareLists(a: ListDoc, b: ListDoc, sortAZ: bool): int
  {
    if IsPinned(a) != IsPinned(b) then (if IsPinned(a) then -1 else 1)
    else if sortAZ then CompareIgnoreCase(SortName(a), SortName(b))
    else 0
  }

  /** The comparator and the sort key order lists the same way, ties included. */
  lemma CompareListsIsKeyOrder(a: ListDoc, b: ListDoc, sortAZ: bool)
    ensures CompareLists(a, b, sortAZ) <= 0 <==> KeyLe(ListKey(a, sortAZ), ListKey(b, sortAZ))
    ensures CompareLists(a, b, sortAZ) == 0 <==> Equiv(ListKey(a, sortAZ), ListKey(b, sortAZ))
  {
    CompareIgnoreCaseAntisymmetric(SortName(a), SortName(b));
    CompareIgnoreCaseZeroIff("", "");
  }

  /** One more document through the filter: it is appended exactly when it is kept. */
  lemma FilterDocsStep(docs: seq<ListDoc>, i: nat, showArchived: bool, q: string)
    requires i < |docs|
    ensures FilterDocs(docs[..i + 1], showArchived, q)
      == FilterDocs(docs[..i], showArchived, q) + (if Keep(docs[i], showArchived, q) then [docs[i]] else [])
  {
    assert docs[..i + 1][..i] == docs[..i];
  }

  /** The filter in the terms of the rebuild loop's two `continue` conditions. */
  lemma KeepIff(d: ListDoc, showArchived: bool, q: string)
    ensures Keep(d, showArchived, q) <==>
      !(!showArchived && d.data.archived.Some? && d.data.archived.value)
      && !(q != [] && !Contains(Lower(NameText(d)), q))
  {
  }

  /** What `rebuildVisible` produces: the filtered snapshot, stably sorted pinned-first. */
  function Project(docs: seq<ListDoc>, sortAZ: bool, showArchived: bool, searchText: Option<string>): seq<ListDoc>
  {
    Sort(FilterDocs(docs, showArchived, SearchQuery(searchText)), ListKeyOf(sortAZ))
  }

  lemma {:induction false} FilterDocsMultiset(docs: seq<ListDoc>, showArchived: bool, q: string)
    ensures forall d :: d in FilterDocs(docs, showArchived, q) <==> d in docs && Keep(d, showArchived, q)
    ensures multiset(FilterDocs(docs, showArchived, q)) <= multiset(docs)
  {
    if docs != [] {
      var init := docs[..|docs| - 1];
      FilterDocsMultiset(init, showArchived, q);
      assert docs == init + [docs[|docs| - 1]];
    }
  }

  lemma {:induction false} FilterDocsOfKept(docs: seq<ListDoc>, showArchived: bool, q: string)
    requires forall i :: 0 <= i < |docs| ==> Keep(docs[i], showArchived, q)
    ensures FilterDocs(docs, showArchived, q) == docs
  {
    if docs != [] {
      var init := docs[..|docs| - 1];
      assert forall i :: 0 <= i < |init| ==> init[i] == docs[i];
      FilterDocsOfKept(init, showArchived, q);
      assert docs == init + [docs[|docs| - 1]];
    }
  }

  /**
   The projection holds exactly the snapshot's documents that pass the filter, each as often as
   the filter lets it through: no additions, no duplicates.
   */
  lemma ProjectContents(docs: seq<ListDoc>, sortAZ: bool, showArchived: bool, searchText: Option<string>)
    ensures multiset(Project(docs, sortAZ, showArchived, searchText))
         == multiset(FilterDocs(docs, showArchived, SearchQuery(searchText)))
    ensures forall d :: d in Project(docs, sortAZ, showArchived, searchText)
                   <==> d in docs && Keep(d, showArchived, SearchQuery(searchText))
  {
    var f := FilterDocs(docs, showArchived, SearchQuery(searchText));
    SortMultiset(f, ListKeyOf(sortAZ));
    FilterDocsMultiset(docs, showArchived, SearchQuery(searchText));
    forall d ensures d in Project(docs, sortAZ, showArchived, searchText) <==> d in f {
      assert d in Project(docs, sortAZ, showArchived, searchText) <==> d in multiset(f);
    }
  }

  /** With archived lists hidden, none is visible; a list without the flag is never dropped for it. */
  lemma ProjectArchived(docs: seq<ListDoc>, sortAZ: bool, showArchived: bool, searchText: Option<string>)
    ensures !showArchived ==> forall d :: d in Project(docs, sortAZ, showArchived, searchText) ==> !IsArchived(d)
    ensures showArchived ==> forall d :: d in Project(docs, sortAZ, showArchived, searchText)
                                     <==> d in docs && MatchesQuery(d, SearchQuery(searchText))
    ensures forall d :: d in docs && d.data.archived == None && MatchesQuery(d, SearchQuery(searchText))
                     ==> d in Project(docs, sortAZ, showArchived, searchText)
  {
    ProjectContents(docs, sortAZ, showArchived, searchText);
  }

  /** A non-empty query keeps only names containing it; an empty one filters nothing by name. */
  lemma ProjectSearch(docs: seq<ListDoc>, sortAZ: bool, showArchived: bool, searchText: Option<string>)
    ensures SearchQuery(searchText) != [] ==>
      forall d :: d in Project(docs, sortAZ, showArchived, searchText)
               ==> Contains(Lower(NameText(d)), SearchQuery(searchText))
    ensures SearchQuery(searchText) == [] ==>
      forall d :: d in Project(docs, sortAZ, showArchived, searchText)
               <==> d in docs && !(!showArchived && IsArchived(d))
  {
    ProjectContents(docs, sortAZ, showArchived, searchText);
  }

  /** When every list is shown and the query is empty, the projection is a reordering of the snapshot. */
  lemma ProjectShowsAll(docs: seq<ListDoc>, sortAZ: bool, searchText: Option<string>)
    requires SearchQuery(searchText) == []
    ensures multiset(Project(docs, sortAZ, true, searchText)) == multiset(docs)
  {
    FilterDocsOfKept(docs, true, SearchQuery(searchText));
    SortMultiset(docs, ListKeyOf(sortAZ));
  }

  /** Pin precedence: whatever the sort mode, every pinned list comes before every unpinned one. */
  lemma ProjectPinnedFirst(docs: seq<ListDoc>, sortAZ: bool, showArchived: bool, searchText: Option<string>)
    ensures var v := Project(docs, sortAZ, showArchived, searchText);
      forall i, j :: 0 <= i < j < |v| && IsPinned(v[j]) ==> IsPinned(v[i])
  {
    var f := FilterDocs(docs, showArchived, SearchQuery(searchText));
    SortSorted(f, ListKeyOf(sortAZ));
    var v := Project(docs, sortAZ, showArchived, searchText);
    forall i, j | 0 <= i < j < |v| && IsPinned(v[j]) ensures IsPinned(v[i]) {
      assert KeyLe(ListKeyOf(sortAZ)(v[i]), ListKeyOf(sortAZ)(v[j]));
    }
  }

  /** A-Z mode: within each pin group, names never decrease ignoring case. */
  lemma ProjectAlphabetical(docs: seq<ListDoc>, showArchived: bool, searchText: Option<string>)
    ensures var v := Project(docs, true, showArchived, searchText);
      forall i, j :: 0 <= i < j < |v| && IsPinned(v[i]) == IsPinned(v[j])
        ==> CompareIgnoreCase(SortName(v[i]), SortName(v[j])) <= 0
  {
    var f := FilterDocs(docs, showArchived, SearchQuery(searchText));
    SortSorted(f, ListKeyOf(true));
    var v := Project(docs, true, showArchived, searchText);
    forall i, j | 0 <= i < j < |v| && IsPinned(v[i]) == IsPinned(v[j])
      ensures CompareIgnoreCase(SortName(v[i]), SortName(v[j])) <= 0
    {
      assert KeyLe(ListKeyOf(true)(v[i]), ListKeyOf(true)(v[j]));
    }
  }

  /** Stability: lists the comparator ties keep their snapshot order, in either mode. */
  lemma ProjectStable(docs: seq<ListDoc>, sortAZ: bool, showArchived: bool, searchText: Option<string>, k: SortKey)
    ensures Tied(Project(docs, sortAZ, showArchived, searchText), ListKeyOf(sortAZ), k)
         == Tied(FilterDocs(docs, showArchived, SearchQuery(searchText)), ListKeyOf(sortAZ), k)
  {
    SortStable(FilterDocs(docs, showArchived, SearchQuery(searchText)), ListKeyOf(sortAZ), k);
  }

  function PinnedPart(s: seq<ListDoc>): seq<ListDoc>
  {
    if s == [] then [] else (if IsPinned(s[0]) then [s[0]] else []) + PinnedPart(s[1..])
  }

  function UnpinnedPart(s: seq<ListDoc>): seq<ListDoc>
  {
    if s == [] then [] else (if IsPinned(s[0]) then [] else [s[0]]) + UnpinnedPart(s[1..])
  }

  /** In Recent mode a list sorts no later than another unless it is unpinned and the other pinned. */
  lemma RecentKeyLe(x: ListDoc, y: ListDoc)
    ensures KeyLe(ListKeyOf(false)(x), ListKeyOf(false)(y)) <==> IsPinned(x) || !IsPinned(y)
  {
    assert CompareIgnoreCase("", "") == 0;
  }

  lemma {:induction false} InsertRecent(x: ListDoc, p: seq<ListDoc>, u: seq<ListDoc>)
    requires forall i :: 0 <= i < |p| ==> IsPinned(p[i])
    requires forall i :: 0 <= i < |u| ==> !IsPinned(u[i])
    ensures Insert(x, p + u, ListKeyOf(false)) == if IsPinned(x) then [x] + p + u else p + [x] + u
  {
    if p == [] {
      assert p + u == u;
      if u != [] {
        RecentKeyLe(x, u[0]);
      }
    } else if IsPinned(x) {
      assert (p + u)[0] == p[0];
      RecentKeyLe(x, p[0]);
    } else {
      assert (p + u)[0] == p[0];
      RecentKeyLe(x, p[0]);
      InsertRecent(x, p[1..], u);
      assert (p + u)[1..] == p[1..] + u;
      assert p + [x] + u == [p[0]] + (p[1..] + [x] + u);
    }
  }

  /** Splitting a sequence with a head in front: the head joins the part of its pin state. */
  lemma {:induction false} PartsCons(s: seq<ListDoc>)
    requires s != []
    ensures PinnedPart(s) + UnpinnedPart(s)
      == if IsPinned(s[0]) then [s[0]] + PinnedPart(s[1..]) + UnpinnedPart(s[1..])
         else PinnedPart(s[1..]) + [s[0]] + UnpinnedPart(s[1..])
  {
    var p, u := PinnedPart(s[1..]), UnpinnedPart(s[1..]);
    if IsPinned(s[0]) {
      assert PinnedPart(s) == [s[0]] + p;
      assert UnpinnedPart(s) == [] + u == u;
    } else {
      assert PinnedPart(s) == [] + p == p;
      assert UnpinnedPart(s) == [s[0]] + u;
      assert p + ([s[0]] + u) == p + [s[0]] + u;
    }
  }

  lemma {:induction false} SortRecent(s: seq<ListDoc>)
    ensures Sort(s, ListKeyOf(false)) == PinnedPart(s) + UnpinnedPart(s)
  {
    if s != [] {
      SortRecent(s[1..]);
      PinnedPartPinned(s[1..]);
      UnpinnedPartUnpinned(s[1..]);
      InsertRecent(s[0], PinnedPart(s[1..]), UnpinnedPart(s[1..]));
      PartsCons(s);
    }
  }

  lemma {:induction false} PinnedPartPinned(s: seq<ListDoc>)
    ensures forall i :: 0 <= i < |PinnedPart(s)| ==> IsPinned(PinnedPart(s)[i])
  {
    if s != [] {
      PinnedPartPinned(s[1..]);
    }
  }

  lemma {:induction false} UnpinnedPartUnpinned(s: seq<ListDoc>)
    ensures forall i :: 0 <= i < |UnpinnedPart(s)| ==> !IsPinned(UnpinnedPart(s)[i])
  {
    if s != [] {
      UnpinnedPartUnpinned(s[1..]);
    }
  }

  /**
   Recent mode: the comparator ties every two lists of the same pin state, so the projection is
   the pinned lists in snapshot order followed by the unpinned lists in snapshot order.
   */
  lemma ProjectRecent(docs: seq<ListDoc>, showArchived: bool, searchText: Option<string>)
    ensures var f := FilterDocs(docs, showArchived, SearchQuery(searchText));
      Project(docs, false, showArchived, searchText) == PinnedPart(f) + UnpinnedPart(f)
  {
    SortRecent(FilterDocs(docs, showArchived, SearchQuery(searchText)));
  }

  /** Rebuilding from an already projected list changes nothing: the projection is idempotent. */
  lemma ProjectIdempotent(docs: seq<ListDoc>, sortAZ: bool, showArchived: bool, searchText: Option<string>)
    ensures var v := Project(docs, sortAZ, showArchived, searchText);
      Project(v, sortAZ, showArchived, searchText) == v
  {
    var v := Project(docs, sortAZ, showArchived, searchText);
    ProjectContents(docs, sortAZ, showArchived, searchText);
    FilterDocsOfKept(v, showArchived, SearchQuery(searchText));
    SortIdempotent(FilterDocs(docs, showArchived, SearchQuery(searchText)), ListKeyOf(sortAZ));
  }

  /**
   Example: lists B (unpinned), A (pinned) and C (archived), A-Z order, archived hidden,
   empty search: the screen shows A, then B.
   */
  lemma ProjectExample(b: ListDoc, a: ListDoc, c: ListDoc)
    requires b.data.name == Some("B") && b.data.pinned == Some(false) && b.data.archived == Some(false)
    requires a.data.name == Some("A") && a.data.pinned == Some(true) && a.data.archived == Some(false)
    requires c.data.name == Some("C") && c.data.pinned == Some(false) && c.data.archived == Some(true)
    ensures Project([b, a, c], true, false, Some("")) == [a, b]
  {
    assert SearchQuery(Some("")) == "";
    ExampleFiltered(b, a, c);
    ExampleSorted(b, a);
  }

  /** The filter step of the example: the archived C is dropped, B and A pass in snapshot order. */
  lemma ExampleFiltered(b: ListDoc, a: ListDoc, c: ListDoc)
    requires b.data.archived == Some(false) && a.data.archived == Some(false) && c.data.archived == Some(true)
    ensures FilterDocs([b, a, c], false, "") == [b, a]
  {
    var docs := [b, a, c];
    assert Keep(b, false, "") && Keep(a, false, "") && !Keep(c, false, "");
    assert docs[..0] == [] && docs[..3] == docs;
    FilterDocsStep(docs, 0, false, "");
    FilterDocsStep(docs, 1, false, "");
    FilterDocsStep(docs, 2, false, "");
  }

  /** The sort step of the example: the pinned A moves before the unpinned B. */
  lemma ExampleSorted(b: ListDoc, a: ListDoc)
    requires b.data.pinned == Some(false) && a.data.pinned == Some(true)
    ensures Sort([b, a], ListKeyOf(true)) == [a, b]
  {
    var key := ListKeyOf(true);
    assert key(b).rank == 1 && key(a).rank == 0;
    assert !KeyLe(key(b), key(a));
    assert [b, a][1..] == [a];
    assert Sort([a], key) == [a];
    assert Insert(b, [a], key) == [a, b];
  }

  /**
   The list screen. `docs` is the last snapshot, `visible` what the adapter shows; the menu sets
   the sort mode and archived visibility, the search box holds `searchText`.
   */
  class HomeScreen {
    var docs: seq<ListDoc>
    var visible: seq<ListDoc>
    var sortAZ: bool
    var showArchived: bool
    var searchText: Option<string>

    /** After every handler the shown list is the projection of the current docs and intent. */
    ghost predicate Valid()
      reads this
    {
      visible == Project(docs, sortAZ, showArchived, searchText)
    }

    /** Fields start empty, in Recent mode with archived lists hidden; `onCreate` then rebuilds. */
    constructor ()
      ensures Valid()
      ensures docs == [] && visible == [] && !sortAZ && !showArchived && searchText == Some("")
    {
      docs := [];
      visible := [];
      sortAZ := false;
      showArchived := false;
      searchText := Some("");
    }

    /** `rebuildVisible`: clear `visible`, refill it from `docs` through the filter, then sort it. */
    method RebuildVisible()
      modifies this`visible
      ensures Valid()
    {
      var q := if searchText.Some? then Lower(Trim(searchText.value)) else "";
      assert q == SearchQuery(searchText);
      FilterIntoVisible(docs, showArchived, q);
      visible := Sort(visible, ListKeyOf(sortAZ));
    }

    /** The loop of `rebuildVisible`: clear `visible`, then append each document the filter keeps. */
    method FilterIntoVisible(all: seq<ListDoc>, showAll: bool, q: string)
      modifies this`visible
      ensures visible == FilterDocs(all, showAll, q)
    {
      visible := [];
      var i := 0;
      while i < |all|
        invariant 0 <= i <= |all|
        invariant visible == FilterDocs(all[..i], showAll, q)
      {
        var d := all[i];
        FilterDocsStep(all, i, showAll, q);
        KeepIff(d, showAll, q);
        var archived := d.data.archived;
        if !showAll && archived.Some? && archived.value {
          i := i + 1;
          continue;
        }
        var name := Lower(NameText(d));
        if q != [] && !Contains(name, q) {
          i := i + 1;
          continue;
        }
        visible := visible + [d];
        i := i + 1;
      }
      assert all[..|all|] == all;
    }

    /** The snapshot listener: an error or a null snapshot changes nothing; otherwise `docs` is replaced. */
    method OnSnapshot(event: SnapshotEvent<ListDoc>)
      requires Valid()
      modifies this`docs, this`visible
      ensures Valid()
      ensures docs == if event.Delivered? then event.docs else old(docs)
    {
      if event.Failed? || event.Missing? {
        return;
      }
      docs := event.docs;
      RebuildVisible();
    }

    /** The search box's text watcher. */
    method OnSearchTextChanged(text: Option<string>)
      modifies this`searchText, this`visible
      ensures searchText == text && Valid()
    {
      searchText := text;
      RebuildVisible();
    }

    /** Menu "Recent". */
    method SelectSortRecent()
      modifies this`sortAZ, this`visible
      ensures !sortAZ && Valid()
    {
      sortAZ := false;
      RebuildVisible();
    }

    /** Menu "A-Z". */
    method SelectSortAZ()
      modifies this`sortAZ, this`visible
      ensures sortAZ && Valid()
    {
      sortAZ := true;
      RebuildVisible();
    }

    /** Menu "Show archived": the new setting is the opposite of the menu item's check state. */
    method SelectShowArchived(menuChecked: bool)
      modifies this`showArchived, this`visible
      ensures showArchived == !menuChecked && Valid()
    {
      showArchived := !menuChecked;
      RebuildVisible();
    }
  }
}
