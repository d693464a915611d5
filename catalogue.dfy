/**
 * The library's items and shelves as values. The Library methods that move
 * an item on or off a shelf are proved against the functions here:
 * PlaceItemOnShelf against PlaceOnShelf, ReturnItemToShelf against
 * ReturnToShelf and RemoveItemFromShelf against RemoveFromShelf. The
 * methods that only append (AddBook, AddMagazine, AddShelf) state their
 * effect directly.
 */
module Catalogue {
  import opened Wrappers
  import opened Search
  import opened Slots

  /**
   * A catalogue entry. Both kinds share id, title and author; a magazine's
   * author is its publisher. `placedOnShelf` is the index of the shelf the
   * item was last put on, or None when it is on no shelf.
   */
  datatype Item =
    | Book(id: string, title: string, author: string, pages: int, placedOnShelf: Option<nat>)
    | Magazine(id: string, title: string, author: string, publisher: string, issueNumber: int, placedOnShelf: Option<nat>)
  {
    /** The kind of entry, as a name: "Book" for a book and "Magazine" for a magazine. */
    function TypeName(): (name: string)
      ensures name == "Book" <==> Book?
      ensures name == "Magazine" <==> Magazine?
    {
      if Book? then "Book" else "Magazine"
    }
  }

  /** A freshly added book, on no shelf. */
  function NewBook(id: string, title: string, author: string, pages: int): (it: Item)
    ensures it.TypeName() == "Book" && it.placedOnShelf == None
    ensures it.id == id && it.title == title && it.author == author && it.pages == pages
  {
    Book(id, title, author, pages, None)
  }

  /** A freshly added magazine, on no shelf, whose author is its publisher. */
  function NewMagazine(id: string, title: string, publisher: string, issueNumber: int): (it: Item)
    ensures it.TypeName() == "Magazine" && it.placedOnShelf == None
    ensures it.id == id && it.title == title && it.issueNumber == issueNumber
    ensures it.author == publisher && it.publisher == publisher
  {
    Magazine(id, title, publisher, publisher, issueNumber, None)
  }

  /** The ids of `items`, position by position. */
  function Ids(items: seq<Item>): (ids: seq<string>)
    ensures |ids| == |items| && forall i :: 0 <= i < |items| ==> ids[i] == items[i].id
  {
    seq(|items|, i requires 0 <= i < |items| => items[i].id)
  }

  /** The titles of `items`, position by position. */
  function Titles(items: seq<Item>): (titles: seq<string>)
    ensures |titles| == |items| && forall i :: 0 <= i < |items| ==> titles[i] == items[i].title
  {
    seq(|items|, i requires 0 <= i < |items| => items[i].title)
  }

  /** Every back-reference names one of the `shelfCount` shelves, and every magazine's author is its publisher. */
  predicate ItemsWellFormed(items: seq<Item>, shelfCount: nat)
  {
    (forall i :: 0 <= i < |items| && items[i].placedOnShelf.Some? ==> items[i].placedOnShelf.value < shelfCount)
    && forall i :: 0 <= i < |items| && items[i].Magazine? ==> items[i].author == items[i].publisher
  }

  /** The state of a library: its items and, shelf by shelf, the ids in the slots. */
  datatype Holdings = Holdings(items: seq<Item>, shelves: seq<seq<string>>)

  predicate WellFormed(h: Holdings)
  {
    ItemsWellFormed(h.items, |h.shelves|)
  }

  /**
   * Library::returnItemToShelf(item, shelfIdx): put the id of item `item`
   * on shelf `shelfIdx` and point the item at that shelf. It fails,
   * changing nothing, when the index is out of range or the shelf is full.
   * The index is checked first, so the item is only looked at for a valid index.
   */
  function ReturnToShelf(h: Holdings, item: nat, shelfIdx: int): (r: (bool, Holdings))
    requires 0 <= shelfIdx < |h.shelves| ==> item < |h.items|
    ensures r.0 <==> 0 <= shelfIdx < |h.shelves| && "" in h.shelves[shelfIdx]
    ensures !r.0 ==> r.1 == h
    ensures r.0 ==> |r.1.items| == |h.items| && |r.1.shelves| == |h.shelves|
    ensures r.0 ==> r.1.items == h.items[item := h.items[item].(placedOnShelf := Some(shelfIdx))]
    ensures r.0 ==> r.1.shelves == h.shelves[shelfIdx := Placed(h.shelves[shelfIdx], h.items[item].id)]
    ensures r.0 ==> r.1.items[item].placedOnShelf == Some(shelfIdx) && h.items[item].id in r.1.shelves[shelfIdx]
    ensures r.0 ==> forall j :: 0 <= j < |h.items| && j != item ==> r.1.items[j] == h.items[j]
    ensures r.0 ==> forall j :: 0 <= j < |h.shelves| && j != shelfIdx ==> r.1.shelves[j] == h.shelves[j]
    ensures r.0 ==> EmptySlots(r.1.shelves[shelfIdx]) == EmptySlots(h.shelves[shelfIdx]) - (if IsEmpty(h.items[item].id) then 0 else 1)
    ensures WellFormed(h) ==> WellFormed(r.1)
  {
    if 0 <= shelfIdx < |h.shelves| && "" in h.shelves[shelfIdx] then
      var it := h.items[item];
      (true, Holdings(h.items[item := it.(placedOnShelf := Some(shelfIdx))],
                      h.shelves[shelfIdx := Placed(h.shelves[shelfIdx], it.id)]))
    else
      (false, h)
  }

  /**
   * Library::placeItemOnShelf(itemId, shelfIdx): find the first item with
   * that id and return it to the shelf. It fails, changing nothing, when no
   * item has the id, the index is out of range or the shelf is full. An item
   * already on a shelf keeps its id there and only its back-reference moves.
   */
  function PlaceOnShelf(h: Holdings, itemId: string, shelfIdx: int): (r: (bool, Holdings))
    ensures r.0 <==> itemId in Ids(h.items) && 0 <= shelfIdx < |h.shelves| && "" in h.shelves[shelfIdx]
    ensures !r.0 ==> r.1 == h
    ensures forall k {:trigger IsFirst(Ids(h.items), itemId, k)} :: IsFirst(Ids(h.items), itemId, k) ==> r == ReturnToShelf(h, k, shelfIdx)
    ensures WellFormed(h) ==> WellFormed(r.1)
  {
    match FirstIndexOf(Ids(h.items), itemId)
    case None => (false, h)
    case Some(k) => ReturnToShelf(h, k, shelfIdx)
  }

  /**
   * Library::removeItemFromShelf(itemId): find the first item with that id;
   * when it points at a shelf that holds the id, empty that slot and clear
   * the back-reference. Otherwise fail, changing nothing.
   */
  function RemoveFromShelf(h: Holdings, itemId: string): (r: (bool, Holdings))
    requires WellFormed(h)
    ensures itemId !in Ids(h.items) ==> !r.0
    ensures !r.0 ==> r.1 == h
    ensures |r.1.items| == |h.items| && |r.1.shelves| == |h.shelves|
    ensures WellFormed(r.1)
    ensures forall k {:trigger IsFirst(Ids(h.items), itemId, k)} :: IsFirst(Ids(h.items), itemId, k) ==>
              (r.0 <==> h.items[k].placedOnShelf.Some? && itemId in h.shelves[h.items[k].placedOnShelf.value])
    ensures forall k {:trigger IsFirst(Ids(h.items), itemId, k)} :: IsFirst(Ids(h.items), itemId, k) && r.0 ==>
              var s := h.items[k].placedOnShelf.value;
              r.1.items == h.items[k := h.items[k].(placedOnShelf := None)]
              && r.1.shelves == h.shelves[s := Removed(h.shelves[s], itemId)]
              && EmptySlots(r.1.shelves[s]) == EmptySlots(h.shelves[s]) + (if IsEmpty(itemId) then 0 else 1)
  {
    match FirstIndexOf(Ids(h.items), itemId)
    case None => (false, h)
    case Some(k) =>
      match h.items[k].placedOnShelf
      case None => (false, h)
      case Some(s) =>
        if itemId in h.shelves[s] then
          (true, Holdings(h.items[k := h.items[k].(placedOnShelf := None)],
                          h.shelves[s := Removed(h.shelves[s], itemId)]))
        else
          (false, h)
  }

  /**
   * Appending an item never changes which item a search by id finds when
   * one was found before; when the id is new, the search finds the appended item.
   */
  lemma FindAfterAppend(items: seq<Item>, it: Item, id: string)
    ensures id in Ids(items) ==> FirstIndexOf(Ids(items + [it]), id) == FirstIndexOf(Ids(items), id)
    ensures id !in Ids(items) && it.id == id ==> FirstIndexOf(Ids(items + [it]), id) == Some(|items|)
    ensures id !in Ids(items) && it.id != id ==> FirstIndexOf(Ids(items + [it]), id) == None
  {
    assert Ids(items + [it]) == Ids(items) + [it.id];
    FirstIndexOfAppend(Ids(items), [it.id], id);
  }

  /** After adding a book with a new id, the search by that id yields that book with its title and author, on no shelf. */
  lemma FindAddedBook(items: seq<Item>, id: string, title: string, author: string, pages: int)
    requires id !in Ids(items)
    ensures var found := FirstIndexOf(Ids(items + [NewBook(id, title, author, pages)]), id);
            found.Some?
            && (items + [NewBook(id, title, author, pages)])[found.value] == Book(id, title, author, pages, None)
  {
    FindAfterAppend(items, NewBook(id, title, author, pages), id);
  }

  /**
   * Borrow and return: once the item an id finds has been taken off its
   * shelf, returning it to the same shelf succeeds, restores every item as
   * it was, and leaves that shelf with the same ids and the same empty count,
   * the id possibly sitting in a lower slot than before.
   */
  lemma ReturnAfterRemoveRestores(h: Holdings, itemId: string, k: nat)
    requires WellFormed(h) && IsFirst(Ids(h.items), itemId, k)
    requires RemoveFromShelf(h, itemId).0
    ensures h.items[k].placedOnShelf.Some?
    ensures var s := h.items[k].placedOnShelf.value;
            var back := ReturnToShelf(RemoveFromShelf(h, itemId).1, k, s);
            back.0 && back.1.items == h.items && |back.1.shelves| == |h.shelves|
            && multiset(back.1.shelves[s]) == multiset(h.shelves[s])
            && EmptySlots(back.1.shelves[s]) == EmptySlots(h.shelves[s])
            && forall j :: 0 <= j < |h.shelves| && j != s ==> back.1.shelves[j] == h.shelves[j]
  {
  }

  /**
   * Placing an item that already sits on one shelf onto another succeeds
   * when there is room, moves its back-reference, and leaves its id on the
   * first shelf as well. Taking it off again (as when it is borrowed) then
   * succeeds and clears the back-reference, yet its id is still on the first
   * shelf: an item off every shelf by its back-reference can still be listed
   * among a shelf's placed ids.
   */
  lemma PlaceAgainLeavesOldEntry(h: Holdings, itemId: string, k: nat, from: nat, to: nat)
    requires WellFormed(h) && IsFirst(Ids(h.items), itemId, k)
    requires from < |h.shelves| && to < |h.shelves| && from != to
    requires h.items[k].placedOnShelf == Some(from) && itemId in h.shelves[from]
    requires "" in h.shelves[to]
    ensures var r := PlaceOnShelf(h, itemId, to);
            r.0 && r.1.items[k].placedOnShelf == Some(to)
            && itemId in r.1.shelves[from] && itemId in r.1.shelves[to]
    ensures var r := PlaceOnShelf(h, itemId, to);
            var off := RemoveFromShelf(r.1, itemId);
            off.0 && off.1.items[k].placedOnShelf == None
            && (!IsEmpty(itemId) ==> itemId in PlacedIds(off.1.shelves[from]))
  {
    var r := PlaceOnShelf(h, itemId, to);
    assert Ids(r.1.items) == Ids(h.items);
    assert IsFirst(Ids(r.1.items), itemId, k);
    var off := RemoveFromShelf(r.1, itemId);
    assert off.1.shelves[from] == h.shelves[from];
    if !IsEmpty(itemId) {
      assert multiset(PlacedIds(h.shelves[from]))[itemId] == multiset(h.shelves[from])[itemId];
    }
  }
}
