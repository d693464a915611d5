/**
 * First-match search over sequences. Every lookup of the catalogue is a
 * linear scan that stops at the first hit: the slot scans of a shelf, the
 * id and title scans of the library and the std::find of a member's list.
 */
module Search {
  import opened Wrappers

  /** `k` is the position of the first occurrence of `x` in `s`. */
  predicate IsFirst<T(==)>(s: seq<T>, x: T, k: int)
  {
    0 <= k < |s| && s[k] == x && forall j :: 0 <= j < k ==> s[j] != x
  }

  /** Position of the first element of `s` equal to `x`, or None when there is none. */
  function FirstIndexOf<T(==)>(s: seq<T>, x: T): (r: Option<nat>)
    ensures r.Some? ==> IsFirst(s, x, r.value)
    ensures r.None? <==> x !in s
    ensures forall k {:trigger IsFirst(s, x, k)} :: IsFirst(s, x, k) ==> r == Some(k)
  {
    if |s| == 0 then None
    else if s[0] == x then Some(0)
    else
      match FirstIndexOf(s[1..], x)
      case None => None
      case Some(k) => Some(k + 1)
  }

  /** A search over a concatenation finds the first part's match if it has one, else the second part's, shifted. */
  lemma FirstIndexOfAppend<T>(s: seq<T>, t: seq<T>, x: T)
    ensures x in s ==> FirstIndexOf(s + t, x) == FirstIndexOf(s, x)
    ensures x !in s && x in t ==> FirstIndexOf(s + t, x) == Some(|s| + FirstIndexOf(t, x).value)
    ensures x !in s && x !in t ==> FirstIndexOf(s + t, x) == None
  {
    if x in s {
      var k := FirstIndexOf(s, x).value;
      assert IsFirst(s + t, x, k);
    } else if x in t {
      var k := FirstIndexOf(t, x).value;
      assert IsFirst(s + t, x, |s| + k);
    }
  }

  /** `s` without its first occurrence of `x`; unchanged when `x` does not occur (vector::erase at std::find's position). */
  function RemoveFirst<T(==)>(s: seq<T>, x: T): (r: seq<T>)
    ensures x !in s ==> r == s
    ensures x in s ==> |r| == |s| - 1 && multiset(r) == multiset(s) - multiset{x}
    ensures forall k {:trigger IsFirst(s, x, k)} :: IsFirst(s, x, k) ==>
              (forall j :: 0 <= j < k ==> r[j] == s[j]) && (forall j :: k <= j < |r| ==> r[j] == s[j + 1])
  {
    match FirstIndexOf(s, x)
    case None => s
    case Some(k) =>
      assert s == s[..k] + [s[k]] + s[k + 1..];
      s[..k] + s[k + 1..]
  }
}
