/**
 * Short scenarios of the catalogue, proved from the contracts alone: a
 * shelf of 5 slots with one book placed, counted, taken off, returned and
 * placed on a shelf index that does not exist; and a member's loan list.
 */
module SampleRun {
  import opened Wrappers
  import opened Search
  import opened Slots
  import opened Catalogue
  import opened Libraries
  import opened Members

  /** The round trip of one book on a five-slot shelf, ending with a placement on a shelf that does not exist. */
  method ShelfRoundTrip() returns (placed: bool, emptyAfterPlace: nat, emptyAfterRemove: nat, back: bool, misplaced: bool)
    ensures placed && emptyAfterPlace == 4 && emptyAfterRemove == 5
    ensures back && !misplaced
  {
    var library := new Library();
    library.AddShelf("Shelf A", 5);
    library.AddBook("Book 1", "The Hobbit", "J.R.R. Tolkien", 310);
    ghost var h0 := library.Model();
    assert h0.items == [NewBook("Book 1", "The Hobbit", "J.R.R. Tolkien", 310)];
    assert IsFirst(Ids(h0.items), "Book 1", 0);
    ghost var a := h0.shelves[0];
    assert a == seq(5, _ => "");
    AllEmptySlots(a);
    assert "" in a by { assert a[0] == ""; }

    placed := library.PlaceItemOnShelf("Book 1", 0);
    ghost var h1 := library.Model();
    assert h1 == ReturnToShelf(h0, 0, 0).1;
    assert EmptySlots(h1.shelves[0]) == 4;
    emptyAfterPlace := library.shelves[0].EmptyCount();

    var removed := library.RemoveItemFromShelf("Book 1");
    ghost var h2 := library.Model();
    assert IsFirst(Ids(h1.items), "Book 1", 0);
    assert "Book 1" in h1.shelves[0];
    assert removed;
    assert EmptySlots(h2.shelves[0]) == 5;
    emptyAfterRemove := library.shelves[0].EmptyCount();

    assert |h2.items| == 1 && |h2.shelves| == 1;
    back := library.ReturnItemToShelf(0, 0);
    ghost var h3 := library.Model();
    assert |h3.shelves| == 1;
    misplaced := library.PlaceItemOnShelf("Book 1", 99);
  }

  /** A member's loan list: a handle is found by value, and only its first occurrence goes. */
  method LoanList() returns (first: bool, again: bool, loans: seq<nat>)
    ensures first && !again && loans == [1]
  {
    var member := new Member("M001", "Member A", "Member A");
    var ok := member.BorrowItem(0);
    ok := member.BorrowItem(1);
    assert member.borrowedItems == [0, 1];
    assert IsFirst(member.borrowedItems, 0, 0);
    first := member.ReturnItem(0);
    assert member.borrowedItems == [1];
    again := member.ReturnItem(0);
    loans := member.borrowedItems;
  }
}
