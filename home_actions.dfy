/**
 What the list screen writes: a new list, the pin and archive toggles (the latter with its undo),
 sharing by e-mail, and the fallbacks a list row shows for missing fields.
 */
module HomeActions {
  import opened Values
  import opened Text
  import opened Lists
  import opened HomeView

  const UntitledName: string := "Untitled List"
  const DefaultColor: string := "#16A34A"
  const DefaultEmoji: string := "\U{2705}"

  /** The document `createList` builds for `name` (already trimmed by the dialog) and user `uid`. */
  function NewListRecord(name: string, uid: string, now: Timestamp): (r: ListRecord)
    ensures r.name == Some(if name == [] then UntitledName else name) && r.name.value != []
    ensures r.createdBy == Some(uid) && r.members == Some([uid]) && OwnerIsMember(r)
    ensures r.createdAt == Some(now)
    ensures r.pinned == Some(false) && r.archived == Some(false)
    ensures r.color == Some(DefaultColor) && r.emoji == Some(DefaultEmoji)
  {
    ListRecord(
      name := Some(if name == [] then UntitledName else name),
      createdBy := Some(uid),
      members := Some([uid]),
      createdAt := Some(now),
      pinned := Some(false),
      archived := Some(false),
      color := Some(DefaultColor),
      emoji := Some(DefaultEmoji))
  }

  /**
   `createList`: with no signed-in user nothing is written (the screen returns to login);
   otherwise the new document is added under the id the store assigns.
   */
  function CreateList(user: Option<string>, name: string, newId: string, now: Timestamp): (w: Option<ListWrite>)
    ensures w.None? <==> user.None?
    ensures w.Some? ==> w.value.AddList? && w.value.id == newId
    ensures w.Some? ==> w.value.record == NewListRecord(name, user.value, now)
    ensures w.Some? ==> w.value.record.createdBy == user && OwnerIsMember(w.value.record)
  {
    if user.None? then None else Some(AddList(newId, NewListRecord(name, user.value, now)))
  }

  /** A blank name typed in the dialog is trimmed away and stored as "Untitled List". */
  lemma BlankNameIsUntitled(input: string, uid: string, now: Timestamp)
    requires forall i :: 0 <= i < |input| ==> IsTrimmed(input[i])
    ensures NewListRecord(Trim(input), uid, now).name == Some(UntitledName)
  {
    TrimEmptyIff(input);
  }

  /** Creating a list keeps the owner among the members of every stored list. */
  lemma CreateListKeepsInvariant(store: ListStore, user: Option<string>, name: string, newId: string, now: Timestamp)
    requires StoreInvariant(store) && user.Some?
    ensures StoreInvariant(Apply(store, CreateList(user, name, newId, now).value))
  {
    ApplyKeepsOwnerMember(store, CreateList(user, name, newId, now).value);
  }

  /**
   A created list is shown by the list screen in its default intent (archived hidden, empty
   search) in any snapshot that holds it, it is neither pinned nor archived, and its row shows
   the stored name with the default emoji and colour.
   */
  lemma CreatedListShown(uid: string, name: string, newId: string, now: Timestamp, sortAZ: bool, docs: seq<ListDoc>)
    ensures var d := ListDoc(newId, NewListRecord(name, uid, now));
      && (d in docs ==> d in Project(docs, sortAZ, false, Some("")))
      && !IsPinned(d) && !IsArchived(d)
      && RowTitle(d) == (if name == [] then UntitledName else name)
      && RowEmoji(d) == DefaultEmoji && RowColor(d) == DefaultColor
  {
    var d := ListDoc(newId, NewListRecord(name, uid, now));
    assert SearchQuery(Some("")) == [] by {
      assert Trim("") == "";
    }
    assert Keep(d, false, []);
    ProjectContents(docs, sortAZ, false, Some(""));
  }

  /** `togglePin`: write the negation of the pinned flag the row was showing (absent counts as false). */
  function TogglePin(doc: ListDoc): (w: ListWrite)
    ensures w.UpdatePinned? && w.id == doc.id
    ensures w.pinned <==> !IsPinned(doc)
  {
    UpdatePinned(doc.id, !IsTrue(doc.data.pinned))
  }

  /** Toggling a pin from an up-to-date row flips it; toggling again from the new row restores it. */
  lemma TogglePinTwice(store: ListStore, doc: ListDoc)
    requires doc.id in store && store[doc.id] == doc.data
    ensures var s1 := Apply(store, TogglePin(doc));
      var d1 := ListDoc(doc.id, s1[doc.id]);
      && IsPinned(d1) == !IsPinned(doc)
      && PinMenuTitle(d1) != PinMenuTitle(doc)
      && Apply(s1, TogglePin(d1)) == store[doc.id := doc.data.(pinned := Some(IsPinned(doc)))]
      && (doc.data.pinned.Some? ==> Apply(s1, TogglePin(d1)) == store)
  {
    var s1 := Apply(store, TogglePin(doc));
    var d1 := ListDoc(doc.id, s1[doc.id]);
    var s2 := Apply(s1, TogglePin(d1));
    if doc.data.pinned.Some? {
      if doc.data.pinned.value {
        assert doc.data.pinned == Some(true);
      } else {
        assert doc.data.pinned == Some(false);
      }
      assert s2[doc.id] == store[doc.id];
      assert s2 == store;
    }
  }

  /** The archive write and the write its UNDO action would send. */
  datatype ArchiveToggle = ArchiveToggle(write: ListWrite, undo: ListWrite)

  /**
   `toggleArchiveWithUndo`: write the negation of the archived flag; the UNDO action, offered once
   that write has succeeded, writes back the value read before the toggle.
   */
  function ToggleArchiveWithUndo(doc: ListDoc): (t: ArchiveToggle)
    ensures t.write == UpdateArchived(doc.id, !IsArchived(doc))
    ensures t.undo == UpdateArchived(doc.id, IsArchived(doc))
  {
    var archived := IsTrue(doc.data.archived);
    ArchiveToggle(UpdateArchived(doc.id, !archived), UpdateArchived(doc.id, archived))
  }

  /**
   Undo restores the pre-toggle archived value and touches nothing else; when the stored flag was
   present and the row up to date, toggle-then-undo leaves the store exactly as it was. An absent
   flag comes back as an explicit `false`.
   */
  lemma ArchiveUndoRestores(store: ListStore, doc: ListDoc)
    requires Succeeds(store, ToggleArchiveWithUndo(doc).write)
    ensures var t := ToggleArchiveWithUndo(doc);
      var s1 := Apply(store, t.write);
      var s2 := Apply(s1, t.undo);
      && IsTrue(s1[doc.id].archived) == !IsArchived(doc)
      && s2 == store[doc.id := store[doc.id].(archived := Some(IsArchived(doc)))]
      && (store[doc.id].archived == doc.data.archived && doc.data.archived.Some? ==> s2 == store)
  {
    var t := ToggleArchiveWithUndo(doc);
    var s2 := Apply(Apply(store, t.write), t.undo);
    if store[doc.id].archived == doc.data.archived && doc.data.archived.Some? {
      if doc.data.archived.value {
        assert doc.data.archived == Some(true);
      } else {
        assert doc.data.archived == Some(false);
      }
      assert s2[doc.id] == store[doc.id];
      assert s2 == store;
    }
  }

  /** An entry of the `users` collection: its document id and its `email` field. */
  datatype UserEntry = UserEntry(uid: string, email: Option<string>)

  datatype ShareError = EmailRequired | NotFound

  /** The position of the first directory entry whose e-mail equals `email` (the `limit(1)` query). */
  function FirstMatch(directory: seq<UserEntry>, email: string): (r: Option<nat>)
    ensures r.Some? ==> r.value < |directory| && directory[r.value].email == Some(email)
    ensures r.Some? ==> forall i :: 0 <= i < r.value ==> directory[i].email != Some(email)
    ensures r.None? ==> forall i :: 0 <= i < |directory| ==> directory[i].email != Some(email)
  {
    if directory == [] then None
    else if directory[0].email == Some(email) then Some(0)
    else
      var rest := FirstMatch(directory[1..], email);
      if rest.Some? then Some(rest.value + 1) else None
  }

  /**
   `inviteByEmail`: an empty e-mail is refused, an e-mail no user has is reported as not found,
   otherwise the first matching user is added to the list's members with `arrayUnion`.
   */
  function InviteByEmail(listId: string, email: string, directory: seq<UserEntry>): (r: Result<ListWrite, ShareError>)
    ensures r == Err(EmailRequired) <==> email == []
    ensures r.Ok? <==> email != [] && exists i :: 0 <= i < |directory| && directory[i].email == Some(email)
    ensures r == Err(NotFound) <==> email != [] && forall i :: 0 <= i < |directory| ==> directory[i].email != Some(email)
    ensures r.Ok? ==> exists i :: 0 <= i < |directory| && directory[i].email == Some(email)
                             && (forall j :: 0 <= j < i ==> directory[j].email != Some(email))
                             && r.value == UnionMember(listId, directory[i].uid)
  {
    if email == [] then Err(EmailRequired)
    else
      var found := FirstMatch(directory, email);
      if found.None? then Err(NotFound) else Ok(UnionMember(listId, directory[found.value].uid))
  }

  /**
   The store after an invitation: unchanged on a refusal or when the list is gone; otherwise the
   members gain exactly the invitee. Inviting again, or inviting a member, changes nothing.
   */
  lemma InviteEffect(store: ListStore, listId: string, email: string, directory: seq<UserEntry>)
    requires InviteByEmail(listId, email, directory).Ok? && listId in store
    ensures var w := InviteByEmail(listId, email, directory).value;
      && MemberSet(Apply(store, w)[listId]) == MemberSet(store[listId]) + {w.member}
      && Apply(Apply(store, w), w) == Apply(store, w)
      && (w.member in MemberSet(store[listId]) ==> Apply(store, w) == store)
  {
    var w := InviteByEmail(listId, email, directory).value;
    var s1 := Apply(store, w);
    var old_ := store[listId].members;
    var u := ArrayUnion(old_, w.member);
    assert MemberSet(s1[listId]) == MemberSet(store[listId]) + {w.member} by {
      forall m ensures m in MemberSet(s1[listId]) <==> m in MemberSet(store[listId]) + {w.member} {
        assert m in MemberSet(s1[listId]) <==> m in u;
      }
    }
    assert ArrayUnion(Some(u), w.member) == u;
    if w.member in MemberSet(store[listId]) {
      assert old_.Some? && w.member in old_.value;
      assert s1[listId] == store[listId];
    }
  }

  /** The row's title: the stored name, or "(Untitled)" when the field is absent. */
  function RowTitle(d: ListDoc): (t: string)
    ensures d.data.name.None? ==> t == "(Untitled)"
    ensures d.data.name.Some? ==> t == d.data.name.value
  {
    if d.data.name.Some? then d.data.name.value else "(Untitled)"
  }

  /** The row's emoji: the stored one unless absent or empty. */
  function RowEmoji(d: ListDoc): (e: string)
    ensures e != []
    ensures (d.data.emoji.None? || d.data.emoji.value == []) ==> e == DefaultEmoji
    ensures d.data.emoji.Some? && d.data.emoji.value != [] ==> e == d.data.emoji.value
  {
    if d.data.emoji.Some? && d.data.emoji.value != [] then d.data.emoji.value else DefaultEmoji
  }

  /** The colour token handed to the colour parser: the stored one, or the default green. */
  function RowColor(d: ListDoc): (c: string)
    ensures d.data.color.None? ==> c == DefaultColor
    ensures d.data.color.Some? ==> c == d.data.color.value
  {
    if d.data.color.Some? then d.data.color.value else DefaultColor
  }

  /** The row menu offers "Unpin" for a pinned list and "Pin" otherwise. */
  function PinMenuTitle(d: ListDoc): (t: string)
    ensures IsPinned(d) ==> t == "Unpin"
    ensures !IsPinned(d) ==> t == "Pin"
  {
    if IsPinned(d) then "Unpin" else "Pin"
  }

  /** The row menu offers "Unarchive" for an archived list and "Archive" otherwise. */
  function ArchiveMenuTitle(d: ListDoc): (t: string)
    ensures IsArchived(d) ==> t == "Unarchive"
    ensures !IsArchived(d) ==> t == "Archive"
  {
    if IsArchived(d) then "Unarchive" else "Archive"
  }
}
