/**
 * The library: it owns every item and every shelf, appends to both and
 * never removes from either. Items are values in `items`, updated in place
 * when their back-reference changes; shelves are objects whose slots the
 * library's operations fill and empty.
 */
module Libraries {
  import opened Wrappers
  import opened Search
  import opened Slots
  import opened Shelves
  import opened Catalogue

  class Library {
    var items: seq<Item>
    var shelves: seq<Shelf>

    /** The slot arrays of all shelves. */
    ghost function ShelfArrays(): set<array<string>>
      reads this
    {
      set i | 0 <= i < |shelves| :: shelves[i].slots
    }

    /** No two shelves share slots, each shelf knows its position, and every item is well formed. */
    ghost predicate Valid()
      reads this
    {
      (forall i, j :: 0 <= i < j < |shelves| ==> shelves[i].slots != shelves[j].slots)
      && (forall i :: 0 <= i < |shelves| ==> shelves[i].index == i)
      && ItemsWellFormed(items, |shelves|)
    }

    /** The contents of the shelves, shelf by shelf. */
    ghost function Contents(): (c: seq<seq<string>>)
      reads this, ShelfArrays()
      ensures |c| == |shelves| && forall i :: 0 <= i < |shelves| ==> c[i] == shelves[i].slots[..]
    {
      seq(|shelves|, i requires 0 <= i < |shelves| reads this, ShelfArrays() => shelves[i].slots[..])
    }

    /** The library as a value. */
    ghost function Model(): Holdings
      reads this, ShelfArrays()
    {
      Holdings(items, Contents())
    }

    constructor ()
      ensures Valid() && items == [] && shelves == []
    {
      items := [];
      shelves := [];
    }

    /** Library::getTotalItems: the number of items, one per handle. */
    function TotalItems(): (n: nat)
      reads this
      ensures n == |items|
    {
      |items|
    }

    /** Appends a book, on no shelf; duplicate ids are accepted. */
    method AddBook(id: string, title: string, author: string, pages: int)
      requires Valid()
      modifies this
      ensures Valid() && shelves == old(shelves) && Contents() == old(Contents())
      ensures items == old(items) + [NewBook(id, title, author, pages)]
      ensures TotalItems() == old(TotalItems()) + 1
    {
      items := items + [NewBook(id, title, author, pages)];
    }

    /** Appends a magazine, on no shelf, whose author is its publisher; duplicate ids are accepted. */
    method AddMagazine(id: string, title: string, publisher: string, issueNumber: int)
      requires Valid()
      modifies this
      ensures Valid() && shelves == old(shelves) && Contents() == old(Contents())
      ensures items == old(items) + [NewMagazine(id, title, publisher, issueNumber)]
      ensures TotalItems() == old(TotalItems()) + 1
    {
      items := items + [NewMagazine(id, title, publisher, issueNumber)];
    }

    /** Appends a shelf of `capacity` empty slots whose index is its position. */
    method AddShelf(name: string, capacity: int)
      requires Valid()
      modifies this
      ensures Valid() && items == old(items)
      ensures |shelves| == old(|shelves|) + 1 && shelves[..old(|shelves|)] == old(shelves)
      ensures fresh(shelves[old(|shelves|)].slots)
      ensures shelves[old(|shelves|)].name == name && shelves[old(|shelves|)].index == old(|shelves|)
      ensures shelves[old(|shelves|)].slots.Length == if capacity < 0 then 0 else capacity
      ensures Contents() == old(Contents()) + [seq(if capacity < 0 then 0 else capacity, _ => "")]
    {
      var shelf := new Shelf(name, |shelves|, capacity);
      shelves := shelves + [shelf];
      assert shelf.slots[..] == seq(if capacity < 0 then 0 else capacity, _ => "");
    }

    /** The first item whose id is `id`, or None. */
    method FindById(id: string) returns (r: Option<nat>)
      ensures r == FirstIndexOf(Ids(items), id)
      ensures r.Some? ==> r.value < |items| && items[r.value].id == id
      ensures r.None? ==> forall j :: 0 <= j < |items| ==> items[j].id != id
    {
      for i := 0 to |items|
        invariant forall j :: 0 <= j < i ==> items[j].id != id
      {
        if items[i].id == id {
          assert IsFirst(Ids(items), id, i);
          return Some(i);
        }
      }
      return None;
    }

    /** The first item whose title is `title`, or None. */
    method FindByTitle(title: string) returns (r: Option<nat>)
      ensures r == FirstIndexOf(Titles(items), title)
      ensures r.Some? ==> r.value < |items| && items[r.value].title == title
      ensures r.None? ==> forall j :: 0 <= j < |items| ==> items[j].title != title
    {
      for i := 0 to |items|
        invariant forall j :: 0 <= j < i ==> items[j].title != title
      {
        if items[i].title == title {
          assert IsFirst(Titles(items), title, i);
          return Some(i);
        }
      }
      return None;
    }

    /** Puts the first item with id `itemId` on shelf `shelfIdx`, as PlaceOnShelf says. */
    method PlaceItemOnShelf(itemId: string, shelfIdx: int) returns (ok: bool)
      requires Valid()
      modifies this, ShelfArrays()
      ensures Valid() && shelves == old(shelves)
      ensures (ok, Model()) == PlaceOnShelf(old(Model()), itemId, shelfIdx)
    {
      var found := FindById(itemId);
      ok := false;
      if found.Some? && 0 <= shelfIdx < |shelves| {
        ok := PutOnShelf(found.value, shelfIdx);
      }
    }

    /**
     * Puts item `item` (a handle the caller holds) on shelf `shelfIdx`, as
     * ReturnToShelf says. The handle must name an item only when the index
     * is valid, since the item is not looked at otherwise.
     */
    method ReturnItemToShelf(item: nat, shelfIdx: int) returns (ok: bool)
      requires Valid() && (0 <= shelfIdx < |shelves| ==> item < |items|)
      modifies this, ShelfArrays()
      ensures Valid() && shelves == old(shelves)
      ensures (ok, Model()) == ReturnToShelf(old(Model()), item, shelfIdx)
    {
      ok := false;
      if 0 <= shelfIdx < |shelves| {
        ok := PutOnShelf(item, shelfIdx);
      }
    }

    /** The shared step of placing and returning: fill a slot of a valid shelf and, on success, set the back-reference. */
    method PutOnShelf(item: nat, shelfIdx: nat) returns (ok: bool)
      requires Valid() && item < |items| && shelfIdx < |shelves|
      modifies this, shelves[shelfIdx].slots
      ensures Valid() && shelves == old(shelves)
      ensures (ok, Model()) == ReturnToShelf(old(Model()), item, shelfIdx)
    {
      ghost var before := Model();
      var shelf := shelves[shelfIdx];
      ok := shelf.PlaceItem(items[item].id);
      if ok {
        items := items[item := items[item].(placedOnShelf := Some(shelfIdx))];
      }
      assert forall j :: 0 <= j < |shelves| && j != shelfIdx ==> shelves[j].slots != shelf.slots;
      assert Contents() == before.shelves[shelfIdx := Placed(before.shelves[shelfIdx], before.items[item].id)];
      if ok {
        assert Model() == ReturnToShelf(before, item, shelfIdx).1;
      } else {
        assert Model() == before;
      }
    }

    /** Takes the first item with id `itemId` off the shelf it points at, as RemoveFromShelf says. */
    method RemoveItemFromShelf(itemId: string) returns (ok: bool)
      requires Valid()
      modifies this, ShelfArrays()
      ensures Valid() && shelves == old(shelves)
      ensures (ok, Model()) == RemoveFromShelf(old(Model()), itemId)
    {
      ghost var before := Model();
      var found := FindById(itemId);
      ok := false;
      if found.Some? {
        var k := found.value;
        match items[k].placedOnShelf
        case None =>
        case Some(s) =>
          var shelf := shelves[s];
          ok := shelf.RemoveItem(itemId);
          if ok {
            items := items[k := items[k].(placedOnShelf := None)];
          }
          assert forall j :: 0 <= j < |shelves| && j != s ==> shelves[j].slots != shelf.slots;
          assert Contents() == before.shelves[s := Removed(before.shelves[s], itemId)];
          if ok {
            assert Model() == RemoveFromShelf(before, itemId).1;
          } else {
            assert Model() == before;
          }
      }
    }
  }
}
