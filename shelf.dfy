/**
 * A shelf: a name, its position in the library and a fixed row of slots.
 * Each slot is one cell of `slots`, holding the id of the item placed in it
 * or "" when empty; the cell's position is the slot's index.
 */
module Shelves {
  import opened Search
  import opened Slots

  class Shelf {
    const name: string
    const index: int
    /** The slots, allocated once by the constructor: the capacity never changes. */
    const slots: array<string>

    /** A shelf of `capacity` empty slots (none when `capacity` is not positive). */
    constructor (shelfName: string, shelfIndex: int, capacity: int)
      ensures name == shelfName && index == shelfIndex && fresh(slots)
      ensures slots.Length == if capacity < 0 then 0 else capacity
      ensures forall k :: 0 <= k < slots.Length ==> IsEmpty(slots[k])
      ensures EmptySlots(slots[..]) == slots.Length && PlacedIds(slots[..]) == []
    {
      name := shelfName;
      index := shelfIndex;
      slots := new string[if capacity < 0 then 0 else capacity](_ => "");
      new;
      AllEmptySlots(slots[..]);
    }

    /** Number of slots: every slot is either one of the placed ids or one of the empty slots. */
    function Capacity(): (c: nat)
      reads slots
      ensures c == |PlacedIds(slots[..])| + EmptySlots(slots[..])
    {
      slots.Length
    }

    /** Puts `itemId` into the lowest-index empty slot; fails, changing nothing, when every slot is taken. */
    method PlaceItem(itemId: string) returns (ok: bool)
      modifies slots
      ensures ok <==> "" in old(slots[..])
      ensures slots[..] == Placed(old(slots[..]), itemId)
    {
      for i := 0 to slots.Length
        invariant slots[..] == old(slots[..])
        invariant forall j :: 0 <= j < i ==> !IsEmpty(slots[j])
      {
        if IsEmpty(slots[i]) {
          slots[i] := itemId;
          assert IsFirst(old(slots[..]), "", i);
          return true;
        }
      }
      return false;
    }

    /** Empties the first slot that holds `itemId`; fails, changing nothing, when no slot holds it. */
    method RemoveItem(itemId: string) returns (ok: bool)
      modifies slots
      ensures ok <==> itemId in old(slots[..])
      ensures slots[..] == Removed(old(slots[..]), itemId)
    {
      for i := 0 to slots.Length
        invariant slots[..] == old(slots[..])
        invariant forall j :: 0 <= j < i ==> slots[j] != itemId
      {
        if slots[i] == itemId {
          slots[i] := "";
          assert IsFirst(old(slots[..]), itemId, i);
          return true;
        }
      }
      return false;
    }

    /** Counts the empty slots; the count lies between 0 and the capacity. */
    method EmptyCount() returns (count: nat)
      ensures count == EmptySlots(slots[..])
      ensures count <= Capacity()
    {
      count := 0;
      for i := 0 to slots.Length
        invariant count == EmptySlots(slots[..i])
      {
        ScanOneMore(slots[..], i);
        if IsEmpty(slots[i]) {
          count := count + 1;
        }
      }
      assert slots[..slots.Length] == slots[..];
    }

    /** The ids of the occupied slots in slot order; there are capacity minus empty-count of them. */
    method PlacedItemIds() returns (ids: seq<string>)
      ensures ids == PlacedIds(slots[..])
      ensures |ids| == Capacity() - EmptySlots(slots[..])
    {
      ids := [];
      for i := 0 to slots.Length
        invariant ids == PlacedIds(slots[..i])
      {
        ScanOneMore(slots[..], i);
        if !IsEmpty(slots[i]) {
          ids := ids + [slots[i]];
        }
      }
      assert slots[..slots.Length] == slots[..];
    }
  }
}
