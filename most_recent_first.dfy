/** The bounded most-recent-first lists that the pages keep: the Morse
    history and the translation history (js/translations.js) and the gesture
    history (js/camera.js). Each is changed in place by `unshift` followed by
    at most one `pop`, and (for the first two) by `splice(index, 1)`. The two
    functions here state what one such change leaves in the list; the page
    classes assign their fields accordingly. */
module MostRecentFirst {

  /** `list.unshift(x); if (list.length > cap) list.pop();` */
  function AddFront<T>(items: seq<T>, x: T, cap: nat): (r: seq<T>)
    ensures |r| == if |items| + 1 > cap then |items| else |items| + 1
    ensures r != [] ==> r[0] == x
    ensures forall i :: 1 <= i < |r| ==> r[i] == items[i - 1]
  {
    var grown := [x] + items;
    if |grown| > cap then grown[..|grown| - 1] else grown
  }

  /** `list.splice(i, 1)` for a non-negative index: the item at `i` goes, and
      an index past the end removes nothing. */
  function RemoveAt<T>(items: seq<T>, i: nat): (r: seq<T>)
    ensures i < |items| ==> |r| == |items| - 1
    ensures i >= |items| ==> r == items
    ensures forall j :: 0 <= j < |r| ==> r[j] == items[if j < i then j else j + 1]
  {
    if i < |items| then items[..i] + items[i + 1..] else items
  }

  // ---------------------------------------------------------------------
  // what adding keeps

  /** A list within its bound stays within it. */
  lemma AddFrontBounded<T>(items: seq<T>, x: T, cap: nat)
    requires |items| <= cap
    ensures |AddFront(items, x, cap)| <= cap
  {
  }

  /** Below the bound nothing is dropped: the new item is in front of the
      whole old list. */
  lemma AddFrontBelowCap<T>(items: seq<T>, x: T, cap: nat)
    requires |items| < cap
    ensures AddFront(items, x, cap) == [x] + items
  {
  }

  /** At the bound exactly the oldest item is dropped, and the rest keep
      their order behind the new one. */
  lemma AddFrontAtCap<T>(items: seq<T>, x: T, cap: nat)
    requires |items| == cap && cap > 0
    ensures AddFront(items, x, cap) == [x] + items[..|items| - 1]
    ensures multiset(AddFront(items, x, cap)) + multiset{items[|items| - 1]} ==
      multiset(items) + multiset{x}
  {
    var r := AddFront(items, x, cap);
    assert r == [x] + items[..|items| - 1];
    assert items == items[..|items| - 1] + [items[|items| - 1]];
  }

  /** Deleting the front right after adding below the bound gives the old
      list back. */
  lemma RemoveFrontUndoesAdd<T>(items: seq<T>, x: T, cap: nat)
    requires |items| < cap
    ensures RemoveAt(AddFront(items, x, cap), 0) == items
  {
    AddFrontBelowCap(items, x, cap);
  }

  // ---------------------------------------------------------------------
  // what removing keeps

  /** Deleting an index that exists removes exactly that item. */
  lemma RemoveAtContents<T>(items: seq<T>, i: nat)
    requires i < |items|
    ensures multiset(RemoveAt(items, i)) + multiset{items[i]} == multiset(items)
  {
    assert items == items[..i] + [items[i]] + items[i + 1..];
  }

  /** Deleting never lengthens a list, so the bound is kept. */
  lemma RemoveAtBounded<T>(items: seq<T>, i: nat, cap: nat)
    requires |items| <= cap
    ensures |RemoveAt(items, i)| <= cap
  {
  }
}
