# Library catalogue, modelled in Dafny

A small in-memory library catalogue. Shelves are rows of a fixed number of
slots. Each slot holds an item id, or the empty id `""` when it is empty.
Books and magazines are the items. The library owns every item and every
shelf. It places an item's id on a shelf and takes it off again, and it
keeps a back-reference from each item to the shelf it was last put on.
Members keep a list of the items they have borrowed.

The C++ program is one file, `540550_Ramzi-Alfito-Rizky.cpp`. The model
follows its classes:

- `wrappers.dfy` (`Wrappers`): `Option`, used where the program returns a null pointer.
- `search.dfy` (`Search`): first-match search over a sequence. It stands for the scans
  of `Shelf`, `Library::findById`/`findByTitle` and the `std::find` in
  `Member::returnItem`. It also gives `RemoveFirst` (erase at the position found).
- `slots.dfy` (`Slots`): the slots of a shelf as a `seq<string>`. It defines what
  `Shelf::emptyCount` and `getPlacedItemIds` compute and how `placeItem` and
  `removeItem` change the slots, with the lemmas relating them.
- `shelf.dfy` (`Shelves`): class `Shelf` over an `array<string>` fixed at construction.
  Its loops are proved against the `Slots` functions.
- `member.dfy` (`Members`): class `Member` with its borrowed list as a `seq<nat>` of item handles.
- `catalogue.dfy` (`Catalogue`): the `Item` datatype (`Book` / `Magazine`) and the
  library's state as a value `Holdings(items, shelves)`. It defines the library
  operations as functions on that value and proves the lemmas that relate them.
- `library.dfy` (`Libraries`): class `Library`, with `items: seq<Item>` and
  `shelves: seq<Shelf>`. `PlaceItemOnShelf`, `ReturnItemToShelf` and
  `RemoveItemFromShelf` are proved to change the library exactly as
  `Catalogue.PlaceOnShelf`, `Catalogue.ReturnToShelf` and
  `Catalogue.RemoveFromShelf` say. `AddBook`, `AddMagazine` and `AddShelf`
  only append, and state the new items and shelves directly.
- `sample.dfy` (`SampleRun`): two short scenarios proved from the contracts alone.

Representation choices:

- An `Item*` becomes a handle: the item's position in `Library.items`. Items are never removed, so handles stay valid.
- The `Shelf*` back-reference becomes `Option<nat>`, the shelf's position.
- A `Slot` object becomes one cell of `Shelf.slots`. The slot's `index` is the cell's position.
- `Member::returnItem` compares handles, not ids, as the program compares pointers.

Behaviours of the program that the model keeps:

- Duplicate item ids are accepted. Searches always find the first item with the id.
- The same id may fill several slots.
- Placing an already shelved item on another shelf leaves its id on the old shelf and only moves the back-reference (`PlaceAgainLeavesOldEntry`).
- Placing the id `""` leaves the slot empty. Removing `""` "clears" an already empty slot and reports success.
- `borrowItem` never checks availability.
- A negative capacity gives a shelf with no slots.

## Model

| member | source | states |
|---|---|---|
| `Search.FirstIndexOf` | 540550_Ramzi-Alfito-Rizky.cpp:221-226 | the result is the position of the first element equal to the key, and the only such position; it is None exactly when the key does not occur |
| `Search.RemoveFirst` | 540550_Ramzi-Alfito-Rizky.cpp:163-170 | an absent element leaves the list unchanged; otherwise the list is one shorter, loses exactly one copy of the element (multiset), and keeps all other elements in their order around the first occurrence |
| `Slots.IsEmpty` | 540550_Ramzi-Alfito-Rizky.cpp:18 | a slot is empty exactly when the id it holds has no characters |
| `Slots.EmptySlots` | 540550_Ramzi-Alfito-Rizky.cpp:122-128 | the empty-slot count equals the number of `""` entries and never exceeds the capacity |
| `Slots.PlacedIds` | 540550_Ramzi-Alfito-Rizky.cpp:130-138 | the placed ids are non-empty, number capacity minus empty count, and are exactly the non-empty slot ids with their multiplicities |
| `Slots.PlacedIdsAppend` | 540550_Ramzi-Alfito-Rizky.cpp:130-138 | the placed ids of consecutive runs of slots are concatenated in slot order |
| `Slots.ScanOneMore` | 540550_Ramzi-Alfito-Rizky.cpp:124-136 | one more slot scanned adds its id to the placed ids when occupied, and one to the empty count when empty |
| `Slots.Placed` | 540550_Ramzi-Alfito-Rizky.cpp:102-110 | the lowest-index empty slot takes the id and no other slot changes; a full shelf is unchanged; with room, the id ends up on the shelf |
| `Slots.Removed` | 540550_Ramzi-Alfito-Rizky.cpp:112-120 | the first slot holding the id becomes empty and no other slot changes; without such a slot nothing changes |
| `Slots.AllEmptySlots` | 540550_Ramzi-Alfito-Rizky.cpp:91-96 | a shelf of empty slots has an empty count equal to its capacity and no placed ids |
| `Slots.EmptySlotsUpdate` | 540550_Ramzi-Alfito-Rizky.cpp:18-20 | overwriting one slot changes the empty count by one for the slot emptied and by one for the slot filled |
| `Slots.PlaceFillsOneSlot` | 540550_Ramzi-Alfito-Rizky.cpp:102-110 | a placement with room lowers the empty count by exactly one for a non-empty id, and placing `""` changes nothing |
| `Slots.RemoveFreesOneSlot` | 540550_Ramzi-Alfito-Rizky.cpp:112-120 | removing an id on the shelf raises the empty count by exactly one; removing `""` or an absent id changes nothing |
| `Slots.PlaceThenRemoveRestoresCount` | 540550_Ramzi-Alfito-Rizky.cpp:102-128 | a successful placement followed by removing the same id restores the empty count, also with duplicate ids and the id `""` |
| `Slots.PlaceThenRemoveRoundTrip` | 540550_Ramzi-Alfito-Rizky.cpp:102-120 | placing a non-empty id not yet on the shelf and removing it gives back exactly the same slots |
| `Slots.RemoveThenPlaceKeepsIds` | 540550_Ramzi-Alfito-Rizky.cpp:102-120 | removing an id that is on the shelf leaves room, and placing it again restores the shelf's ids (as a multiset) and its empty count |
| `Shelves.Shelf.constructor` | 540550_Ramzi-Alfito-Rizky.cpp:91-96 | a new shelf has max(capacity, 0) slots, all empty, with the given name and index |
| `Shelves.Shelf.Capacity` | 540550_Ramzi-Alfito-Rizky.cpp:140 | the capacity is the number of placed ids plus the number of empty slots |
| `Shelves.Shelf.PlaceItem` | 540550_Ramzi-Alfito-Rizky.cpp:102-110 | succeeds exactly when some slot is empty, and leaves the slots as `Placed` says |
| `Shelves.Shelf.RemoveItem` | 540550_Ramzi-Alfito-Rizky.cpp:112-120 | succeeds exactly when some slot holds the id, and leaves the slots as `Removed` says |
| `Shelves.Shelf.EmptyCount` | 540550_Ramzi-Alfito-Rizky.cpp:122-128 | returns the number of empty slots, which lies between 0 and the capacity |
| `Shelves.Shelf.PlacedItemIds` | 540550_Ramzi-Alfito-Rizky.cpp:130-138 | returns the non-empty slot ids in slot order, capacity minus empty count of them |
| `Members.Member.constructor` | 540550_Ramzi-Alfito-Rizky.cpp:152-153 | a new member has the given id, name and alias and has borrowed nothing |
| `Members.Member.BorrowItem` | 540550_Ramzi-Alfito-Rizky.cpp:158-161 | always succeeds and appends the handle to the borrowed list |
| `Members.Member.ReturnItem` | 540550_Ramzi-Alfito-Rizky.cpp:163-170 | succeeds exactly when the handle is on the list, and removes its first occurrence only, as `RemoveFirst` says |
| `Members.ReturnUndoesBorrow` | 540550_Ramzi-Alfito-Rizky.cpp:158-170 | returning a just-borrowed handle restores the list when it was not already there; otherwise the earlier copy goes and the new one stays last |
| `Catalogue.Item.TypeName` | 540550_Ramzi-Alfito-Rizky.cpp:62 | the name is "Book" exactly for a book and "Magazine" exactly for a magazine (getType of both variants, also line 79) |
| `Catalogue.NewBook` | 540550_Ramzi-Alfito-Rizky.cpp:54-55 | a new book carries the given id, title, author and page count and is on no shelf |
| `Catalogue.NewMagazine` | 540550_Ramzi-Alfito-Rizky.cpp:71-72 | a new magazine carries the given id, title and issue number, its author and its publisher are both the given publisher, and it is on no shelf |
| `Catalogue.ReturnToShelf` | 540550_Ramzi-Alfito-Rizky.cpp:240-248 | the index is checked before the item is looked at; fails, changing nothing, exactly when the index is out of range or the shelf is full; on success the target shelf is exactly `Placed` of its old slots with the item's id (lowest-index empty slot, other slots unchanged), the item changes only in its back-reference, now that shelf, no other item or shelf changes, and the empty count drops by one for a non-empty id |
| `Catalogue.PlaceOnShelf` | 540550_Ramzi-Alfito-Rizky.cpp:201-212 | fails, changing nothing, exactly when no item has the id, the index is out of range or the shelf is full; otherwise it is `ReturnToShelf` of the first item with that id |
| `Catalogue.RemoveFromShelf` | 540550_Ramzi-Alfito-Rizky.cpp:228-238 | fails, changing nothing, when no item has the id, the first such item is on no shelf, or its shelf lacks the id; on success it clears that item's back-reference, empties the first slot with the id on that shelf and raises its empty count |
| `Catalogue.FindAfterAppend` | 540550_Ramzi-Alfito-Rizky.cpp:221-226 | appending an item never changes an earlier match of a search by id; a new id is found at the appended item |
| `Catalogue.FindAddedBook` | 540550_Ramzi-Alfito-Rizky.cpp:186-188 | after adding a book with a new id, the search by that id yields that book with its title, author and pages, on no shelf |
| `Catalogue.ReturnAfterRemoveRestores` | 540550_Ramzi-Alfito-Rizky.cpp:228-248 | after a successful removal, returning the item to its shelf succeeds, restores every item, and gives the shelf back the same ids and empty count, leaving other shelves unchanged |
| `Catalogue.PlaceAgainLeavesOldEntry` | 540550_Ramzi-Alfito-Rizky.cpp:201-238 | placing an item already on one shelf onto another with room succeeds, moves its back-reference, and leaves its id on both shelves; taking it off again then succeeds and clears the back-reference while its non-empty id is still among the first shelf's placed ids |
| `Libraries.Library.constructor` | 540550_Ramzi-Alfito-Rizky.cpp:175-178 | a new library has no items and no shelves |
| `Libraries.Library.TotalItems` | 540550_Ramzi-Alfito-Rizky.cpp:250 | the total is the number of items, one per handle; `AddBook` and `AddMagazine` grow it by one |
| `Libraries.Library.AddBook` | 540550_Ramzi-Alfito-Rizky.cpp:186-189 | appends a book on no shelf, with no check for duplicate ids; the shelves are unchanged and the total item count grows by one |
| `Libraries.Library.AddMagazine` | 540550_Ramzi-Alfito-Rizky.cpp:191-194 | appends a magazine on no shelf whose author is its publisher; the shelves are unchanged and the total item count grows by one |
| `Libraries.Library.AddShelf` | 540550_Ramzi-Alfito-Rizky.cpp:196-199 | appends a fresh shelf of max(capacity, 0) empty slots whose index is its position; earlier shelves and items are unchanged |
| `Libraries.Library.FindById` | 540550_Ramzi-Alfito-Rizky.cpp:221-226 | returns the first item with the id, or None when no item has it |
| `Libraries.Library.FindByTitle` | 540550_Ramzi-Alfito-Rizky.cpp:214-219 | returns the first item with the title, or None when no item has it |
| `Libraries.Library.PlaceItemOnShelf` | 540550_Ramzi-Alfito-Rizky.cpp:201-212 | changes the items and shelves and reports success exactly as `PlaceOnShelf` says |
| `Libraries.Library.ReturnItemToShelf` | 540550_Ramzi-Alfito-Rizky.cpp:240-248 | changes the items and shelves and reports success exactly as `ReturnToShelf` says; any handle is accepted with an out-of-range index, which fails without looking at the item |
| `Libraries.Library.PutOnShelf` | 540550_Ramzi-Alfito-Rizky.cpp:242-243 | the step shared by placing (lines 204-205) and returning: for a valid handle and shelf index, fills a slot and sets the back-reference exactly as `ReturnToShelf` says |
| `Libraries.Library.RemoveItemFromShelf` | 540550_Ramzi-Alfito-Rizky.cpp:228-238 | changes the items and shelves and reports success exactly as `RemoveFromShelf` says |
| `SampleRun.ShelfRoundTrip` | 540550_Ramzi-Alfito-Rizky.cpp:258-260 | on a 5-slot shelf, a placed book leaves 4 empty slots, taking it off gives 5 again, returning it succeeds, and placing on shelf index 99 fails |
| `SampleRun.LoanList` | 540550_Ramzi-Alfito-Rizky.cpp:322-349 | a member who borrowed two items and returned the first has only the second; returning the first again fails |

## Left out

- Console output is not modelled: `showInfo` and the messages printed by `addBook`, `addMagazine`, `addShelf` and `placeItemOnShelf`. It is presentation only.
- `getType` becomes the datatype's variant (`Item.TypeName`). The getters `getShelves`, `getItems`, `getBorrowedItems` and the field getters become plain field reads.
- `main` is a fixed demonstration script and is not modelled. Only its shelf setup and its borrow/return steps are echoed by `SampleRun`.
- Destructors and `new`/`delete` ownership are not modelled. The library holds its items and shelves in sequences for its whole life.
- Pointer identity is replaced by positions in the library's sequences. `returnItemToShelf` checks the shelf index before it dereferences the item. So with an in-range index, a precondition requires a handle inside the library, since the program would dereference a null `Item*`. With an out-of-range index, any handle is accepted and the call fails, as in the program.
- `Slot` is not a separate object. Its three operations are the reads and writes of one array cell.
- Integer widths are not modelled. Capacities, page counts, issue numbers and counts are unbounded. The signed/unsigned index comparison in `placeItemOnShelf` is modelled as the check `0 <= shelfIdx < |shelves|`.
- The program does not keep an item's back-reference and the shelves' slots in step. This is because of duplicate ids and re-placing. So the model claims no invariant "an item is on a shelf exactly when its back-reference is set". `PlaceAgainLeavesOldEntry` shows one way the two diverge.
