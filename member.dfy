/**
 * A library member and the list of items they have borrowed. An item is
 * referred to by its handle, its position in the library's item list, and
 * the list is searched by handle, never by item id.
 */
module Members {
  import opened Wrappers
  import opened Search

  class Member {
    const memberId: string
    const name: string
    const alias: string
    /** Handles of the borrowed items, oldest first; a handle may occur more than once. */
    var borrowedItems: seq<nat>

    constructor (id: string, memberName: string, memberAlias: string)
      ensures memberId == id && name == memberName && alias == memberAlias
      ensures borrowedItems == []
    {
      memberId := id;
      name := memberName;
      alias := memberAlias;
      borrowedItems := [];
    }

    /** Appends the item to the borrowed list; it never checks availability and always succeeds. */
    method BorrowItem(item: nat) returns (ok: bool)
      modifies this
      ensures ok && borrowedItems == old(borrowedItems) + [item]
    {
      borrowedItems := borrowedItems + [item];
      ok := true;
    }

    /** Drops the first occurrence of the item, keeping the rest in order; fails, changing nothing, when it is absent. */
    method ReturnItem(item: nat) returns (ok: bool)
      modifies this
      ensures ok <==> item in old(borrowedItems)
      ensures borrowedItems == RemoveFirst(old(borrowedItems), item)
    {
      match FirstIndexOf(borrowedItems, item)
      case None =>
        ok := false;
      case Some(k) =>
        borrowedItems := borrowedItems[..k] + borrowedItems[k + 1..];
        ok := true;
    }
  }

  /**
   * Returning an item just borrowed: when it was not already on the list the
   * list is back as before; otherwise its earlier occurrence goes and the new one stays last.
   */
  lemma ReturnUndoesBorrow(borrowed: seq<nat>, item: nat)
    ensures RemoveFirst(borrowed + [item], item) == if item in borrowed then RemoveFirst(borrowed, item) + [item] else borrowed
  {
  }
}
