/**
 List documents as the `lists` collection holds them, and the writes the list screen issues
 against that collection. The store is a map from document id to record; a snapshot is the
 sequence of (id, record) pairs the query delivers.
 */
module Lists {
  import opened Values

  /** The fields of a list document. Every field may be absent, as `getString`/`getBoolean` allow. */
  datatype ListRecord = ListRecord(
    name: Option<string>,
    createdBy: Option<string>,
    members: Option<seq<string>>,
    createdAt: Option<Timestamp>,
    pinned: Option<bool>,
    archived: Option<bool>,
    color: Option<string>,
    emoji: Option<string>)

  datatype ListDoc = ListDoc(id: string, data: ListRecord)

  type ListStore = map<string, ListRecord>

  /** The writes the list screen sends. */
  datatype ListWrite =
    | AddList(id: string, record: ListRecord)   // `collection.add(data)`; `id` is the one the store assigns
    | UpdatePinned(id: string, pinned: bool)     // `update("pinned", v)`
    | UpdateArchived(id: string, archived: bool) // `update("archived", v)`
    | UnionMember(id: string, member: string)    // `update("members", arrayUnion(member))`

  /** The members as a set; an absent array has none. */
  function MemberSet(r: ListRecord): set<string>
  {
    if r.members.Some? then set m | m in r.members.value else {}
  }

  /** `arrayUnion(x)` on an array field: append `x` unless it is already there; absent becomes `[x]`. */
  function ArrayUnion(ms: Option<seq<string>>, x: string): (r: seq<string>)
    ensures x in r
    ensures ms.Some? ==> forall m :: m in ms.value ==> m in r
    ensures forall m :: m in r ==> m == x || (ms.Some? && m in ms.value)
    ensures ms.Some? && x in ms.value ==> r == ms.value
  {
    if ms.None? then [x] else if x in ms.value then ms.value else ms.value + [x]
  }

  /** A write reaches the store: `add` always does, `update` only on an existing document. */
  predicate Succeeds(store: ListStore, w: ListWrite)
  {
    w.AddList? || w.id in store
  }

  /** The store after the write. */
  function Apply(store: ListStore, w: ListWrite): (r: ListStore)
    ensures !Succeeds(store, w) ==> r == store
    ensures Succeeds(store, w) ==> r.Keys == store.Keys + {w.id}
    ensures forall id :: id in store && id != w.id ==> id in r && r[id] == store[id]
    ensures w.AddList? ==> r[w.id] == w.record
    ensures w.UpdatePinned? && w.id in store ==> r[w.id] == store[w.id].(pinned := Some(w.pinned))
    ensures w.UpdateArchived? && w.id in store ==> r[w.id] == store[w.id].(archived := Some(w.archived))
    ensures w.UnionMember? && w.id in store
            ==> r[w.id] == store[w.id].(members := Some(ArrayUnion(store[w.id].members, w.member)))
  {
    match w
    case AddList(id, rec) => store[id := rec]
    case UpdatePinned(id, v) =>
      if id in store then store[id := store[id].(pinned := Some(v))] else store
    case UpdateArchived(id, v) =>
      if id in store then store[id := store[id].(archived := Some(v))] else store
    case UnionMember(id, x) =>
      if id in store then store[id := store[id].(members := Some(ArrayUnion(store[id].members, x)))]
      else store
  }

  /** The owner of a list is one of its members. */
  predicate OwnerIsMember(r: ListRecord)
  {
    r.createdBy.Some? && r.members.Some? && r.createdBy.value in r.members.value
  }

  ghost predicate StoreInvariant(store: ListStore)
  {
    forall id :: id in store ==> OwnerIsMember(store[id])
  }

  /** Every write keeps the owner among the members, provided a new list is created that way. */
  lemma ApplyKeepsOwnerMember(store: ListStore, w: ListWrite)
    requires StoreInvariant(store)
    requires w.AddList? ==> OwnerIsMember(w.record)
    ensures StoreInvariant(Apply(store, w))
  {
    var r := Apply(store, w);
    forall id | id in r ensures OwnerIsMember(r[id]) {
      if id == w.id && w.UnionMember? && id in store {
        assert store[id].createdBy.value in ArrayUnion(store[id].members, w.member);
      }
    }
  }

  /** Membership never shrinks: no write of the list screen removes a member of an existing list. */
  lemma ApplyKeepsMembers(store: ListStore, w: ListWrite)
    requires w.AddList? ==> w.id !in store
    ensures forall id :: id in store ==> id in Apply(store, w) && MemberSet(store[id]) <= MemberSet(Apply(store, w)[id])
  {
  }
}
