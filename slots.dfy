/**
 * The slots of one shelf, as a value: slot `k` holds the id of the item
 * placed in it, and the empty id "" marks an empty slot. These functions
 * say what the scans of a Shelf compute and how its two updates change the
 * slots; the Shelf class is proved against them.
 */
module Slots {
  import opened Search

  /** Slot::isEmpty: a slot is empty exactly when the id it holds has no characters. */
  predicate IsEmpty(slot: string): (empty: bool)
    ensures empty <==> |slot| == 0
  {
    slot == ""
  }

  /** Number of empty slots: the multiplicity of the empty id, never more than the capacity. */
  function EmptySlots(s: seq<string>): (n: nat)
    ensures n == multiset(s)[""]
    ensures n <= |s|
  {
    if |s| == 0 then 0
    else
      assert s == [s[0]] + s[1..];
      (if IsEmpty(s[0]) then 1 else 0) + EmptySlots(s[1..])
  }

  /**
   * Ids of the occupied slots, in slot order: exactly the non-empty ids of
   * `s`, each as often as it occurs, one per occupied slot.
   */
  function PlacedIds(s: seq<string>): (ids: seq<string>)
    ensures |ids| == |s| - EmptySlots(s)
    ensures forall i :: 0 <= i < |ids| ==> !IsEmpty(ids[i])
    ensures multiset(ids) == multiset(s)["" := 0]
  {
    if |s| == 0 then []
    else
      assert s == [s[0]] + s[1..];
      (if IsEmpty(s[0]) then [] else [s[0]]) + PlacedIds(s[1..])
  }

  /** Slot order is kept: the ids of two runs of slots are the ids of the first run followed by those of the second. */
  lemma {:induction false} PlacedIdsAppend(s: seq<string>, t: seq<string>)
    ensures PlacedIds(s + t) == PlacedIds(s) + PlacedIds(t)
  {
    if |s| == 0 {
      assert s + t == t;
    } else {
      assert (s + t)[1..] == s[1..] + t;
      PlacedIdsAppend(s[1..], t);
    }
  }

  /** Scanning one more slot adds its id to the placed ids when it is occupied, and to the empty count when it is empty. */
  lemma ScanOneMore(s: seq<string>, i: nat)
    requires i < |s|
    ensures PlacedIds(s[..i + 1]) == PlacedIds(s[..i]) + (if IsEmpty(s[i]) then [] else [s[i]])
    ensures EmptySlots(s[..i + 1]) == EmptySlots(s[..i]) + (if IsEmpty(s[i]) then 1 else 0)
  {
    assert s[..i + 1] == s[..i] + [s[i]];
    PlacedIdsAppend(s[..i], [s[i]]);
    assert [s[i]][1..] == [];
  }

  /**
   * The slots after Shelf::placeItem(id): the lowest-index empty slot takes
   * `id` and no other slot changes; on a full shelf nothing changes.
   */
  function Placed(s: seq<string>, id: string): (r: seq<string>)
    ensures |r| == |s|
    ensures "" !in s ==> r == s
    ensures forall k {:trigger IsFirst(s, "", k)} :: IsFirst(s, "", k) ==> r == s[k := id]
    ensures "" in s ==> id in r
  {
    match FirstIndexOf(s, "")
    case None => s
    case Some(k) =>
      assert s[k := id][k] == id;
      s[k := id]
  }

  /**
   * The slots after Shelf::removeItem(id): the first slot holding `id`
   * becomes empty and no other slot changes; without such a slot nothing changes.
   */
  function Removed(s: seq<string>, id: string): (r: seq<string>)
    ensures |r| == |s|
    ensures id !in s ==> r == s
    ensures forall k {:trigger IsFirst(s, id, k)} :: IsFirst(s, id, k) ==> r == s[k := ""]
  {
    match FirstIndexOf(s, id)
    case None => s
    case Some(k) => s[k := ""]
  }

  /** A shelf whose slots are all empty has as many empty slots as it has slots, and no ids. */
  lemma {:induction false} AllEmptySlots(s: seq<string>)
    requires forall k :: 0 <= k < |s| ==> IsEmpty(s[k])
    ensures EmptySlots(s) == |s| && PlacedIds(s) == []
  {
    if |s| > 0 {
      AllEmptySlots(s[1..]);
    }
  }

  /** Writing one slot changes the empty count by what left the slot and what entered it. */
  lemma EmptySlotsUpdate(s: seq<string>, k: nat, v: string)
    requires k < |s|
    ensures EmptySlots(s[k := v]) == EmptySlots(s) - (if IsEmpty(s[k]) then 1 else 0) + (if IsEmpty(v) then 1 else 0)
  {
  }

  /** Placing a non-empty id on a shelf with room lowers the empty count by exactly one; placing "" changes nothing. */
  lemma PlaceFillsOneSlot(s: seq<string>, id: string)
    requires "" in s
    ensures EmptySlots(Placed(s, id)) == EmptySlots(s) - (if IsEmpty(id) then 0 else 1)
    ensures IsEmpty(id) ==> Placed(s, id) == s
  {
  }

  /** Removing an id that sits on the shelf raises the empty count by exactly one; removing "" or an absent id changes nothing. */
  lemma RemoveFreesOneSlot(s: seq<string>, id: string)
    ensures EmptySlots(Removed(s, id)) == EmptySlots(s) + (if !IsEmpty(id) && id in s then 1 else 0)
    ensures IsEmpty(id) ==> Removed(s, id) == s
  {
  }

  /** A successful placement followed by the removal of the same id restores the empty count. */
  lemma PlaceThenRemoveRestoresCount(s: seq<string>, id: string)
    requires "" in s
    ensures EmptySlots(Removed(Placed(s, id), id)) == EmptySlots(s)
  {
  }

  /** When the id was not on the shelf, placing it and removing it again gives back exactly the same slots. */
  lemma PlaceThenRemoveRoundTrip(s: seq<string>, id: string)
    requires "" in s && !IsEmpty(id) && id !in s
    ensures Removed(Placed(s, id), id) == s
  {
  }

  /** Removing an id and placing it again keeps the same ids on the shelf, though maybe in a different slot. */
  lemma RemoveThenPlaceKeepsIds(s: seq<string>, id: string)
    requires id in s
    ensures "" in Removed(s, id)
    ensures multiset(Placed(Removed(s, id), id)) == multiset(s)
    ensures EmptySlots(Placed(Removed(s, id), id)) == EmptySlots(s)
  {
  }
}
