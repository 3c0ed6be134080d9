# QuickList: view derivation and mutation logic

QuickList is an Android shopping-list app backed by a document store. It has two screens.

- **List screen** (`HomeActivity`). It keeps the last snapshot of the user's lists (`docs`) and rebuilds `visible` from it. Archived lists are dropped unless "Show archived" is on. A trimmed, lower-cased search is applied to the name. A stable sort puts pinned lists first and then orders by "Recent" (snapshot order) or "A-Z" (name, ignoring case). Its row actions create a list with defaults, toggle pin, toggle archive with an undo, and share a list by e-mail (`arrayUnion` of the invitee's id into `members`).
- **Item screen** (`ListActivity`). It keeps the items of the last snapshot and sorts them by text only in A-Z mode. It adds items from a text field and a quantity field. It changes quantities with minus/plus buttons, floored at 1. It toggles `checked` by check box or left swipe, and deletes by right swipe or button, with an undo that rewrites the captured data under the same id. It shows a celebration on the snapshot where every item has just become checked.
- **`Item`** is the record a new item is stored as.

The model has one Dafny module per concern:

- `Values`: `Option`, `Result`, 32-bit integers and the quantity floor `Math.max(1, q)`.
- `Text`: `trim`, ASCII `toLowerCase`, `contains`, `compareToIgnoreCase`, `Integer.parseInt`.
- `Sorting`: what `Collections.sort` with a comparator produces, proved to be the unique stable ordered permutation.
- `Lists` and `Items`: the records of the two collections. The store is a map from document id to record. Writes are data, applied by `Apply`. A snapshot is a sequence of `(id, record)` pairs.
- `HomeView`: the list screen's projection and the `HomeScreen` class.
- `HomeActions`: the list screen's writes and row fallbacks.
- `ItemModel`: the `Item` constructors.
- `ListActions`: the item screen's writes.
- `ListView`: the item sort, the completion detector, swipes and the `ItemScreen` class.

Every field of a stored record is an `Option`, so the source's null checks appear as explicit cases.

Behaviours of the code worth knowing:

- A row whose `name` field is absent shows "(Untitled)". "Untitled List" is only what `createList` stores for an empty name. A stored empty name is shown as the empty string.
- No operation deletes a whole list. Nothing is modelled for that.
- Choosing "Recent" on the item screen does not restore creation order. The A-Z order stays until the next snapshot refills the items, and `ListView.ItemScreen.Valid` records exactly this.
- Deleting an item whose data cannot be read deletes it with no undo.
- At quantity 2147483647 the plus button's `qty + 1` overflows to a negative number, and the floor turns the write into 1.

## Model

| member | source | states |
|---|---|---|
| Values.ToInt32 | app/src/main/java/com/quicklist/app/ui/ListActivity.java:300 | `intValue()` narrowing: the result is a 32-bit value congruent to the input modulo 2^32, and equals the input when the input already fits |
| Values.ClampQuantity | app/src/main/java/com/quicklist/app/ui/ListActivity.java:79 | `Math.max(1, q)`: at least 1, exactly 1 for q <= 0, q itself for q >= 1 |
| Values.IsTrue | app/src/main/java/com/quicklist/app/ui/HomeActivity.java:180-181 | `Boolean.TRUE.equals` of a boolean field: true only for a stored `true`; an absent field counts as false |
| Text.TrimStart | app/src/main/java/com/quicklist/app/ui/ListActivity.java:147 | drops exactly the leading characters <= ' ', leaving a suffix that is empty or starts with a kept character |
| Text.TrimEnd | app/src/main/java/com/quicklist/app/ui/ListActivity.java:147 | drops exactly the trailing characters <= ' ', leaving a prefix that is empty or ends with a kept character |
| Text.Trim | app/src/main/java/com/quicklist/app/ui/ListActivity.java:147 | `String.trim`: the result is the infix of `s` left after removing exactly its leading and trailing characters <= ' ', and it neither starts nor ends with one |
| Text.TrimInfix | app/src/main/java/com/quicklist/app/ui/ListActivity.java:147 | dropping a blank prefix and then a blank suffix leaves an infix of `s` with only blanks before and after it |
| Text.TrimEmptyIff | app/src/main/java/com/quicklist/app/ui/ListActivity.java:147-148 | trimming gives the empty string exactly when every character is <= ' ' |
| Text.LowerChar | app/src/main/java/com/quicklist/app/ui/HomeActivity.java:172 | ASCII upper-case letters map to lower case, every other character is left alone |
| Text.Lower | app/src/main/java/com/quicklist/app/ui/HomeActivity.java:165 | `toLowerCase` keeps the length and lowers each character |
| Text.Contains | app/src/main/java/com/quicklist/app/ui/HomeActivity.java:173 | `s.contains(q)`: defined by scanning for a prefix match; `Text.ContainsAt` proves it is "q occurs at some offset" |
| Text.ContainsAt | app/src/main/java/com/quicklist/app/ui/HomeActivity.java:173 | `contains(q)` holds exactly when q occurs at some offset of the name |
| Text.CompareIgnoreCaseZeroIff | app/src/main/java/com/quicklist/app/ui/HomeActivity.java:186 | `compareToIgnoreCase` is 0 exactly when the lowered strings are equal |
| Text.CompareIgnoreCaseAntisymmetric | app/src/main/java/com/quicklist/app/ui/HomeActivity.java:186 | swapping the arguments negates the comparison |
| Text.CompareIgnoreCaseTransitive | app/src/main/java/com/quicklist/app/ui/HomeActivity.java:186 | the comparison is transitive, so it is a total preorder a stable sort can use |
| Text.CompareIgnoreCase | app/src/main/java/com/quicklist/app/ui/HomeActivity.java:186 | `compareToIgnoreCase`: folded characters compared pairwise, first difference or length difference; its sign properties are the three lemmas above |
| Text.ParseInt | app/src/main/java/com/quicklist/app/ui/ListActivity.java:153 | `Integer.parseInt` accepts exactly an optional sign followed by at least one ASCII digit whose value fits in 32 bits, and gives that signed value; every other text is refused |
| Text.ParseIntTrailingLetter | app/src/main/java/com/quicklist/app/ui/ListActivity.java:153 | digits followed by a letter (`"12a"`) are refused |
| Text.ParseIntDoubleSign | app/src/main/java/com/quicklist/app/ui/ListActivity.java:153 | a doubled sign (`"--1"`) is refused |
| Text.ParseIntOverflow | app/src/main/java/com/quicklist/app/ui/ListActivity.java:153 | a number beyond 32 bits (`"99999999999"`) is refused |
| Text.ParseIntPlusSign | app/src/main/java/com/quicklist/app/ui/ListActivity.java:153 | a leading plus sign is accepted (`"+5"` gives 5) |
| Text.ParseIntLeadingZeros | app/src/main/java/com/quicklist/app/ui/ListActivity.java:153 | leading zeros are accepted (`"007"` gives 7) |
| Text.DigitChar | app/src/main/java/com/quicklist/app/ui/ListActivity.java:307 | a decimal digit maps to the character of that digit |
| Text.ShowNat | app/src/main/java/com/quicklist/app/ui/ListActivity.java:307 | `String.valueOf` of a natural is its canonical decimal text: a non-empty digit string, one digit exactly below 10, and starting with '0' only for 0 itself |
| Text.ShowInt | app/src/main/java/com/quicklist/app/ui/ListActivity.java:307 | `String.valueOf` of an integer is non-empty, starts with a minus sign exactly when the integer is negative, and is digits apart from that sign |
| Text.DigitsValueShowNat | app/src/main/java/com/quicklist/app/ui/ListActivity.java:307 | reading back the digits of a natural gives the natural |
| Text.ParseShowInt | app/src/main/java/com/quicklist/app/ui/ListActivity.java:153 | parsing the decimal text of any 32-bit value gives that value back |
| Sorting.KeyLeReflexive | app/src/main/java/com/quicklist/app/ui/HomeActivity.java:179-191 | every key is at most itself under the comparator order |
| Sorting.KeyLeTotal | app/src/main/java/com/quicklist/app/ui/HomeActivity.java:179-191 | any two keys are comparable |
| Sorting.KeyLeTransitive | app/src/main/java/com/quicklist/app/ui/HomeActivity.java:179-191 | the comparator order is transitive |
| Sorting.Insert | app/src/main/java/com/quicklist/app/ui/HomeActivity.java:179 | one insertion step of the stable sort: before the first element whose key is not below; properties in `Sorting.InsertMultiset`, `Sorting.InsertSorted`, `Sorting.TiedInsert` |
| Sorting.Sort | app/src/main/java/com/quicklist/app/ui/HomeActivity.java:179 | the result of `Collections.sort`; `Sorting.SortCharacterized` proves it is the only ordered, stable permutation |
| Sorting.InsertMultiset | app/src/main/java/com/quicklist/app/ui/HomeActivity.java:179 | inserting adds exactly the one element |
| Sorting.SortMultiset | app/src/main/java/com/quicklist/app/ui/HomeActivity.java:179 | `Collections.sort` gives a permutation of its input |
| Sorting.InsertSorted | app/src/main/java/com/quicklist/app/ui/HomeActivity.java:179 | inserting into an ordered sequence keeps it ordered |
| Sorting.InsertLowerBound | app/src/main/java/com/quicklist/app/ui/HomeActivity.java:179 | a key below the inserted element and below the whole sequence stays below everything after the insertion |
| Sorting.SortSorted | app/src/main/java/com/quicklist/app/ui/HomeActivity.java:179 | the sort result is ordered by the comparator |
| Sorting.TiedInsert | app/src/main/java/com/quicklist/app/ui/HomeActivity.java:188 | inserting places the new element before the elements it ties with |
| Sorting.TiedCons | app/src/main/java/com/quicklist/app/ui/HomeActivity.java:188 | the tied elements of a sequence with a head are the head's (if tied) followed by the tail's |
| Sorting.TiedSingle | app/src/main/java/com/quicklist/app/ui/HomeActivity.java:188 | a single element is its own tied part exactly when its key is tied with the given key |
| Sorting.TiedInsertStep | app/src/main/java/com/quicklist/app/ui/HomeActivity.java:188 | when the inserted element passes the head, the head is not tied with it, so the tied part is still the new element's followed by the old ones |
| Sorting.SortStable | app/src/main/java/com/quicklist/app/ui/HomeActivity.java:188 | stability: elements the comparator ties come out in input order |
| Sorting.SortOfSorted | app/src/main/java/com/quicklist/app/ui/HomeActivity.java:179 | sorting an already ordered sequence leaves it unchanged |
| Sorting.SortIdempotent | app/src/main/java/com/quicklist/app/ui/HomeActivity.java:179 | sorting twice is sorting once |
| Sorting.SortedHeadLeast | app/src/main/java/com/quicklist/app/ui/HomeActivity.java:179 | the head of an ordered sequence has the least key |
| Sorting.TiedHead | app/src/main/java/com/quicklist/app/ui/HomeActivity.java:179 | the head is the first element tied with itself |
| Sorting.SortedTail | app/src/main/java/com/quicklist/app/ui/HomeActivity.java:179 | the tail of an ordered sequence is ordered |
| Sorting.SameHead | app/src/main/java/com/quicklist/app/ui/HomeActivity.java:179 | two ordered, tie-preserving permutations of each other start with the same element |
| Sorting.MultisetTail | app/src/main/java/com/quicklist/app/ui/HomeActivity.java:179 | two permutations of each other with the same head have tails that are permutations of each other |
| Sorting.TiedTail | app/src/main/java/com/quicklist/app/ui/HomeActivity.java:188 | removing the same head from two sequences with the same tied parts leaves the same tied parts |
| Sorting.StableSortUnique | app/src/main/java/com/quicklist/app/ui/HomeActivity.java:179-191 | two ordered, tie-preserving permutations of each other are equal, so any stable sort gives the same result |
| Sorting.SortCharacterized | app/src/main/java/com/quicklist/app/ui/HomeActivity.java:179-191 | any ordered, stable permutation of the input is the result of the modelled sort |
| Lists.ArrayUnion | app/src/main/java/com/quicklist/app/ui/HomeActivity.java:277 | `arrayUnion(x)` keeps every old member, adds x, adds nothing else, and changes nothing when x is present |
| Lists.Apply | app/src/main/java/com/quicklist/app/ui/HomeActivity.java:240-302 | an update of a missing list changes nothing; `add` stores its record; `pinned`/`archived` updates set exactly that field; `arrayUnion` sets `members` to the union; no other document changes |
| Lists.ApplyKeepsOwnerMember | app/src/main/java/com/quicklist/app/ui/HomeActivity.java:232-233 | every write of the list screen keeps each list's owner among its members |
| Lists.ApplyKeepsMembers | app/src/main/java/com/quicklist/app/ui/HomeActivity.java:277 | no write of the list screen removes a member of an existing list |
| HomeView.CompareListsIsKeyOrder | app/src/main/java/com/quicklist/app/ui/HomeActivity.java:179-191 | the comparator orders and ties lists exactly as the key (pin rank, then name in A-Z mode) does |
| HomeView.CompareLists | app/src/main/java/com/quicklist/app/ui/HomeActivity.java:179-191 | the rebuild comparator: pin first, then names ignoring case in A-Z mode, else a tie; `HomeView.CompareListsIsKeyOrder` ties it to the sort key |
| HomeView.SearchQuery | app/src/main/java/com/quicklist/app/ui/HomeActivity.java:165 | the query is the search text trimmed and lowered, or "" when there is none |
| HomeView.IsPinned | app/src/main/java/com/quicklist/app/ui/HomeActivity.java:180-181 | a list is pinned only when its `pinned` field is stored as `true`; absent counts as unpinned |
| HomeView.IsArchived | app/src/main/java/com/quicklist/app/ui/HomeActivity.java:169-170 | a list is archived only when its `archived` field is stored as `true`; absent (`archived == null`) counts as not archived |
| HomeView.NameText | app/src/main/java/com/quicklist/app/ui/HomeActivity.java:172 | the name the search looks at: the stored name, or "null" when it is absent, as `String.valueOf` prints a null |
| HomeView.SortName | app/src/main/java/com/quicklist/app/ui/HomeActivity.java:184-185 | the name the A-Z comparator uses: the stored name, or "" when it is absent |
| HomeView.MatchesQuery | app/src/main/java/com/quicklist/app/ui/HomeActivity.java:173 | the search test: an empty query matches every list; otherwise the query must occur in the lowered name text, absent as "null" |
| HomeView.Keep | app/src/main/java/com/quicklist/app/ui/HomeActivity.java:169-173 | the filter of the loop; `HomeView.KeepIff` shows it is the negation of the two `continue` conditions |
| HomeView.FilterDocs | app/src/main/java/com/quicklist/app/ui/HomeActivity.java:168-176 | the documents the loop keeps, in snapshot order; `HomeView.FilterDocsStep` matches it to one loop pass |
| HomeView.Project | app/src/main/java/com/quicklist/app/ui/HomeActivity.java:164-191 | what `visible` holds after a rebuild: filter then stable sort; its properties are the `Project*` lemmas |
| HomeView.RecentKeyLe | app/src/main/java/com/quicklist/app/ui/HomeActivity.java:180-190 | in Recent mode one list sorts no later than another exactly when it is pinned or the other is not |
| HomeView.FilterDocsStep | app/src/main/java/com/quicklist/app/ui/HomeActivity.java:168-176 | each pass of the loop appends the document exactly when it is kept |
| HomeView.KeepIff | app/src/main/java/com/quicklist/app/ui/HomeActivity.java:168-176 | a document is kept exactly when neither `continue` condition of the loop holds |
| HomeView.FilterDocsMultiset | app/src/main/java/com/quicklist/app/ui/HomeActivity.java:168-176 | the filter keeps exactly the snapshot's lists that pass it, with no additions |
| HomeView.FilterDocsOfKept | app/src/main/java/com/quicklist/app/ui/HomeActivity.java:168-176 | the filter leaves a sequence of passing lists unchanged |
| HomeView.ProjectContents | app/src/main/java/com/quicklist/app/ui/HomeActivity.java:166-179 | `visible` is a permutation of the filtered snapshot: a list is shown exactly when it is in the snapshot and passes the filter |
| HomeView.ProjectArchived | app/src/main/java/com/quicklist/app/ui/HomeActivity.java:169-170 | with archived hidden no archived list is shown; with it shown the flag filters nothing; a list without the flag is never dropped for it |
| HomeView.ProjectSearch | app/src/main/java/com/quicklist/app/ui/HomeActivity.java:165-173 | a non-empty query keeps only lists whose lowered name (absent as "null") contains it; an empty query filters nothing |
| HomeView.ProjectShowsAll | app/src/main/java/com/quicklist/app/ui/HomeActivity.java:164-191 | showing archived with an empty query shows a permutation of the whole snapshot |
| HomeView.ProjectPinnedFirst | app/src/main/java/com/quicklist/app/ui/HomeActivity.java:179-182 | in either mode every pinned list comes before every unpinned one; an absent flag counts as unpinned |
| HomeView.ProjectAlphabetical | app/src/main/java/com/quicklist/app/ui/HomeActivity.java:183-186 | in A-Z mode, names within a pin group never decrease ignoring case, an absent name counting as "" |
| HomeView.ProjectStable | app/src/main/java/com/quicklist/app/ui/HomeActivity.java:187-190 | lists the comparator ties keep their snapshot order |
| HomeView.InsertRecent | app/src/main/java/com/quicklist/app/ui/HomeActivity.java:187-190 | in Recent mode inserting goes to the front of the pinned part or of the unpinned part |
| HomeView.SortRecent | app/src/main/java/com/quicklist/app/ui/HomeActivity.java:187-190 | the Recent sort gives the pinned lists in order followed by the unpinned lists in order |
| HomeView.PinnedPartPinned | app/src/main/java/com/quicklist/app/ui/HomeActivity.java:180-182 | the pinned part holds only pinned lists |
| HomeView.UnpinnedPartUnpinned | app/src/main/java/com/quicklist/app/ui/HomeActivity.java:180-182 | the unpinned part holds only unpinned lists |
| HomeView.PartsCons | app/src/main/java/com/quicklist/app/ui/HomeActivity.java:180-182 | splitting a sequence into pinned and unpinned parts puts its head at the front of the part matching its pin state |
| HomeView.ProjectRecent | app/src/main/java/com/quicklist/app/ui/HomeActivity.java:187-190 | in Recent mode `visible` is the filtered pinned lists in snapshot order, then the filtered unpinned ones in snapshot order |
| HomeView.ProjectIdempotent | app/src/main/java/com/quicklist/app/ui/HomeActivity.java:164-191 | rebuilding from the rebuilt list gives the same list |
| HomeView.ProjectExample | app/src/main/java/com/quicklist/app/ui/HomeActivity.java:164-191 | an unpinned B, a pinned A and an archived C, in A-Z mode with archived hidden, show as A then B |
| HomeView.ExampleFiltered | app/src/main/java/com/quicklist/app/ui/HomeActivity.java:168-176 | with archived hidden and an empty query, the archived C is dropped and B, A stay in snapshot order |
| HomeView.ExampleSorted | app/src/main/java/com/quicklist/app/ui/HomeActivity.java:179-191 | in A-Z mode the pinned A sorts before the unpinned B |
| HomeView.HomeScreen.constructor | app/src/main/java/com/quicklist/app/ui/HomeActivity.java:54-59 | the screen starts with no lists, in Recent mode with archived hidden |
| HomeView.HomeScreen.RebuildVisible | app/src/main/java/com/quicklist/app/ui/HomeActivity.java:164-195 | the clear-filter-loop-sort rebuild leaves `visible` equal to the projection of `docs` and the view intent |
| HomeView.HomeScreen.FilterIntoVisible | app/src/main/java/com/quicklist/app/ui/HomeActivity.java:166-176 | the clear-then-append loop leaves `visible` holding exactly the kept documents in snapshot order |
| HomeView.HomeScreen.OnSnapshot | app/src/main/java/com/quicklist/app/ui/HomeActivity.java:100-109 | an error or a null snapshot changes nothing; a delivered snapshot replaces `docs` and `visible` is rebuilt |
| HomeView.HomeScreen.OnSearchTextChanged | app/src/main/java/com/quicklist/app/ui/HomeActivity.java:111-115 | a search edit rebuilds `visible` for the new text |
| HomeView.HomeScreen.SelectSortRecent | app/src/main/java/com/quicklist/app/ui/HomeActivity.java:134-135 | "Recent" clears A-Z mode and rebuilds |
| HomeView.HomeScreen.SelectSortAZ | app/src/main/java/com/quicklist/app/ui/HomeActivity.java:136-137 | "A-Z" sets A-Z mode and rebuilds |
| HomeView.HomeScreen.SelectShowArchived | app/src/main/java/com/quicklist/app/ui/HomeActivity.java:138-142 | "Show archived" sets the opposite of the item's check state and rebuilds |
| HomeActions.NewListRecord | app/src/main/java/com/quicklist/app/ui/HomeActivity.java:230-238 | the given name, or "Untitled List" when empty; created by uid with members exactly [uid]; createdAt is the given time; not pinned, not archived; colour "#16A34A" and emoji U+2705 |
| HomeActions.CreateList | app/src/main/java/com/quicklist/app/ui/HomeActivity.java:221-240 | no write exactly when no user is signed in; otherwise an `add` under the assigned id of exactly the default record for that user, whose owner is a member |
| HomeActions.BlankNameIsUntitled | app/src/main/java/com/quicklist/app/ui/HomeActivity.java:216-231 | a name of only blanks is trimmed by the dialog and stored as "Untitled List" |
| HomeActions.CreateListKeepsInvariant | app/src/main/java/com/quicklist/app/ui/HomeActivity.java:232-233 | creating a list keeps every stored list's owner among its members |
| HomeActions.CreatedListShown | app/src/main/java/com/quicklist/app/ui/HomeActivity.java:231-238 | a new list is shown in the default view of any snapshot that holds it, neither pinned nor archived, with its stored name, the default emoji and the default colour |
| HomeActions.TogglePin | app/src/main/java/com/quicklist/app/ui/HomeActivity.java:290-293 | the write sets `pinned` to the negation of the shown state, absent counting as false |
| HomeActions.TogglePinTwice | app/src/main/java/com/quicklist/app/ui/HomeActivity.java:290-293 | toggling flips the pin and the menu title; toggling again restores the store when the flag was present |
| HomeActions.ToggleArchiveWithUndo | app/src/main/java/com/quicklist/app/ui/HomeActivity.java:295-302 | the write negates the shown archived state and the undo writes the value read before the toggle |
| HomeActions.ArchiveUndoRestores | app/src/main/java/com/quicklist/app/ui/HomeActivity.java:295-302 | toggle flips the flag; toggle then undo restores the pre-toggle value, and the whole store when the flag was present and current |
| HomeActions.FirstMatch | app/src/main/java/com/quicklist/app/ui/HomeActivity.java:269-275 | the `limit(1)` lookup finds the first directory entry with that e-mail, or reports that none has it |
| HomeActions.InviteByEmail | app/src/main/java/com/quicklist/app/ui/HomeActivity.java:264-277 | refused exactly when the e-mail is empty; "not found" exactly when no entry has it; a share exactly when some entry has it, and then the first match's id is unioned in |
| HomeActions.InviteEffect | app/src/main/java/com/quicklist/app/ui/HomeActivity.java:276-277 | the members gain exactly the invitee; inviting again, or inviting a member, leaves the store unchanged |
| HomeActions.RowTitle | app/src/main/java/com/quicklist/app/ui/HomeActivity.java:378 | the stored name, or "(Untitled)" when absent |
| HomeActions.RowEmoji | app/src/main/java/com/quicklist/app/ui/HomeActivity.java:379 | the stored emoji when present and non-empty, otherwise the default, so never empty |
| HomeActions.RowColor | app/src/main/java/com/quicklist/app/ui/HomeActivity.java:380 | the stored colour token when present, otherwise the default green |
| HomeActions.PinMenuTitle | app/src/main/java/com/quicklist/app/ui/HomeActivity.java:390 | "Unpin" for a pinned list and "Pin" otherwise |
| HomeActions.ArchiveMenuTitle | app/src/main/java/com/quicklist/app/ui/HomeActivity.java:391 | "Unarchive" for an archived list and "Archive" otherwise |
| ItemModel.NewItem | app/src/main/java/com/quicklist/app/models/Item.java:16-22 | text and creator verbatim, unchecked, quantity 1 |
| ItemModel.NewItemWithQuantity | app/src/main/java/com/quicklist/app/models/Item.java:25-31 | text and creator verbatim, unchecked, quantity `max(1, quantity)` |
| ItemModel.ConstructorsAgree | app/src/main/java/com/quicklist/app/models/Item.java:16-31 | for a requested quantity at most 1 the two constructors build the same item |
| Items.ToRecord | app/src/main/java/com/quicklist/app/ui/ListActivity.java:157-158 | an `Item` is stored with every field present and equal to the object's |
| Items.IsChecked | app/src/main/java/com/quicklist/app/ui/ListActivity.java:231 | an item is checked only when its `checked` field is stored as `true`; an absent field or document counts as unchecked |
| Items.Apply | app/src/main/java/com/quicklist/app/ui/ListActivity.java:72-200 | an update of a missing item changes nothing; `add` and `set` store their record; `checked`/`quantity` updates set exactly that field; `delete` removes the id; no other item changes |
| Items.ApplyKeepsQuantityFloor | app/src/main/java/com/quicklist/app/ui/ListActivity.java:79-80 | a write that stores no quantity below 1 keeps every stored quantity at least 1 |
| ListActions.OnQtyChange | app/src/main/java/com/quicklist/app/ui/ListActivity.java:78-80 | writes exactly 1 for a request <= 0 and the request otherwise |
| ListActions.OnToggle | app/src/main/java/com/quicklist/app/ui/ListActivity.java:72-74 | the check box writes the new state to its own item; `ListActions.RowWrites` gives its exact effect on the store |
| ListActions.MinusRequest | app/src/main/java/com/quicklist/app/ui/ListActivity.java:309 | the minus button asks for one less, and 1 when the shown quantity is at most 1 |
| ListActions.PlusRequest | app/src/main/java/com/quicklist/app/ui/ListActivity.java:313 | the plus button asks for one more in 32-bit arithmetic: exactly one more below 2147483647, which wraps to -2147483648 |
| ListActions.RowWrites | app/src/main/java/com/quicklist/app/ui/ListActivity.java:72-80 | the check box sets only `checked` and a quantity change only `quantity`, both on the row's own item; on a deleted item neither changes anything; both keep the floor |
| ListActions.DisplayQuantity | app/src/main/java/com/quicklist/app/ui/ListActivity.java:299-300 | the shown quantity is 1 when absent; otherwise the stored number narrowed to 32 bits with wrap-around, as `intValue()` does, and floored at 1; a stored number within 32 bits is shown as itself floored at 1 |
| ListActions.QuantityButtons | app/src/main/java/com/quicklist/app/ui/ListActivity.java:308-315 | minus writes one less down to 1; plus writes one more, and at 2147483647 wraps and writes 1 |
| ListActions.ParseQuantity | app/src/main/java/com/quicklist/app/ui/ListActivity.java:150-154 | the parsed quantity is a 32-bit value >= 1; it is 1 when the field is absent or empty; otherwise it is the trimmed text's value floored at 1 when that text is a 32-bit integer text, and 1 when it is not |
| ListActions.ParseQuantityOf | app/src/main/java/com/quicklist/app/ui/ListActivity.java:150-154 | the decimal text of a number gives that number floored at 1; text without digits or signs gives 1 |
| ListActions.AddNewItem | app/src/main/java/com/quicklist/app/ui/ListActivity.java:146-158 | no write exactly when the trimmed text is empty; otherwise an `add` of an unchecked item with the trimmed text, the user and the parsed quantity |
| ListActions.DeleteItemWithUndo | app/src/main/java/com/quicklist/app/ui/ListActivity.java:188-200 | always deletes; an undo exactly when the data was read, and it `set`s that data under the same id |
| ListActions.DeleteUndoRoundTrip | app/src/main/java/com/quicklist/app/ui/ListActivity.java:188-200 | delete removes the id; undo puts the captured record back under it, which restores the store when the row was current |
| ListView.CompareItemsIsKeyOrder | app/src/main/java/com/quicklist/app/ui/ListActivity.java:137-143 | the item comparator orders and ties as the text key does; a tie means equal lowered texts |
| ListView.CompareItems | app/src/main/java/com/quicklist/app/ui/ListActivity.java:137-143 | the item comparator: texts ignoring case, absent text as ""; `ListView.CompareItemsIsKeyOrder` ties it to the sort key |
| ListView.ItemText | app/src/main/java/com/quicklist/app/ui/ListActivity.java:139-140 | the text the A-Z comparator uses: the stored text, or "" when it or the document is absent |
| ListView.SortItemsAZ | app/src/main/java/com/quicklist/app/ui/ListActivity.java:134-144 | the A-Z item order; `ListView.SortItemsAZSpec` states it |
| ListView.SortItemsAZSpec | app/src/main/java/com/quicklist/app/ui/ListActivity.java:134-144 | A-Z gives a permutation with texts non-decreasing ignoring case (absent as "") and ties in snapshot order |
| ListView.CountChecked | app/src/main/java/com/quicklist/app/ui/ListActivity.java:228-232 | the counting loop's result; `ListView.CountCheckedBound` bounds it |
| ListView.AllDone | app/src/main/java/com/quicklist/app/ui/ListActivity.java:233 | `total > 0 && checked == total`; `ListView.AllDoneIff` states it item by item |
| ListView.Fires | app/src/main/java/com/quicklist/app/ui/ListActivity.java:234 | the celebration condition `allDone && !lastAllDone` |
| ListView.CountCheckedBound | app/src/main/java/com/quicklist/app/ui/ListActivity.java:229-232 | the count is at most the total, and equals it exactly when every item is checked |
| ListView.AllDoneIff | app/src/main/java/com/quicklist/app/ui/ListActivity.java:233 | `allDone` holds exactly when there is an item and every item is checked |
| ListView.AllDonePermutation | app/src/main/java/com/quicklist/app/ui/ListActivity.java:101-103 | reordering the items does not change `allDone` |
| ListView.FireTrace | app/src/main/java/com/quicklist/app/ui/ListActivity.java:233-237 | one flag per delivered snapshot |
| ListView.FireTraceRisingEdge | app/src/main/java/com/quicklist/app/ui/ListActivity.java:233-237 | the celebration fires on a snapshot exactly when it is all done and the previous one was not |
| ListView.FireTraceProperties | app/src/main/java/com/quicklist/app/ui/ListActivity.java:233-237 | never on two snapshots in a row, never for an empty list, and again after a not-all-done snapshot |
| ListView.FireTraceExample | app/src/main/java/com/quicklist/app/ui/ListActivity.java:227-238 | [u,u], [c,u], [c,c], [c,c] fires only on the third snapshot |
| ListView.SwipeEffect | app/src/main/java/com/quicklist/app/ui/ListActivity.java:210-222 | nothing outside the list or for another direction; left writes the opposite of the shown checked state; right deletes with undo |
| ListView.SwipeLeftTwice | app/src/main/java/com/quicklist/app/ui/ListActivity.java:214-217 | a left swipe flips `checked`; a second one restores the store when the field was present |
| ListView.ItemScreen.constructor | app/src/main/java/com/quicklist/app/ui/ListActivity.java:46-50 | no items, `lastAllDone` false, Recent mode |
| ListView.ItemScreen.ApplyItemSort | app/src/main/java/com/quicklist/app/ui/ListActivity.java:134-144 | Recent leaves the items as they are; A-Z replaces them by their A-Z sort, a permutation |
| ListView.ItemScreen.CheckForConfetti | app/src/main/java/com/quicklist/app/ui/ListActivity.java:227-238 | the counting loop fires exactly on `allDone && !lastAllDone` and then stores `allDone` |
| ListView.ItemScreen.OnSnapshot | app/src/main/java/com/quicklist/app/ui/ListActivity.java:95-104 | an error or a null snapshot changes nothing; otherwise the items are replaced, sorted in A-Z mode, and the celebration fires on a rising edge |
| ListView.ItemScreen.SelectSortRecent | app/src/main/java/com/quicklist/app/ui/ListActivity.java:120-124 | "Recent" clears the mode and leaves the shown order as it is |
| ListView.ItemScreen.SelectSortAZ | app/src/main/java/com/quicklist/app/ui/ListActivity.java:125-129 | "A-Z" shows the last snapshot sorted by text whatever the previous order was; `lastAllDone` is unchanged |

## Left out

- `LoginActivity` is not part of this model: it is sign-in and a user-document write, nothing more.
- The store's transport is left out: listeners, queries, success and failure callbacks, toasts and error messages. A snapshot is an input event, and the query order (`createdAt`, and the `members` filter) is whatever order that input has.
- The undo of an archive toggle or a delete is offered only after the first write succeeds (`HomeActivity.java:298-301`, `ListActivity.java:194-199`), and only while the Snackbar is shown. The model does not track that timing: it lets the undo write be applied to any store. Whether the store accepts a write is also left out. The model says which write is sent and what it does to the store.
- `openList`, the dialogs, snackbars, the empty-state view, adapter notifications and the confetti animation are presentation only. `ListView.ItemScreen.CheckForConfetti` returns the `fired` flag instead of animating.
- `Timestamp.now()` is a clock read. The creation time is a parameter. The id the store assigns on `add` is also a parameter.
- `Color.parseColor` and its fallback in the list row are a library call. `HomeActions.RowColor` gives only the token handed to it.
- The colour and emoji pickers (`pickColor`, `pickEmoji`) are cosmetic writes of a value chosen from a fixed palette.
- Sign-out is a navigation.
- `Text.CompareIgnoreCase` compares Unicode code points, while Java compares UTF-16 code units. The A-Z order of names or texts that mix characters above U+FFFF with characters in U+E000 to U+FFFF is therefore not modelled: for "\U{1F600}" against "\U{FF01}" Java sorts the first one first and the model the second.
- `Text.LowerChar`, `Text.Lower` and `Text.CompareIgnoreCase` fold ASCII letters only. Java's `toLowerCase` and `compareToIgnoreCase` map every Unicode letter. `Text.ParseInt` accepts ASCII digits only, while `Integer.parseInt` also accepts other Unicode decimal digits.
- The share dialog of the item screen (`ListActivity.java:163-186`) is not modelled separately. It does the same lookup and `arrayUnion` write as `HomeActions.InviteByEmail`, so that write covers it. Its only difference: it returns silently on an empty e-mail, with no "Email required" message.
- `HomeActions.FirstMatch`: takes the `directory` sequence in the order the query returns it and picks its first match. The store returns a query without `orderBy` in document-id order, so this is the match with the smallest id. The model does not derive that order.
- The no-argument `Item()` constructor exists only for deserialisation and is used by nothing modelled.
- `addItem` assumes a signed-in user; the model takes the user's id as a parameter. Without a user the source fails on a null reference.
- Stored quantities are unbounded integers. The store's 64-bit limit is not modelled. The 32-bit narrowing where the app reads a quantity is modelled.
- A snapshot may in principle list an id twice. The model keeps the snapshot as the sequence it is and does not collapse duplicates.
