/**
 * The state of the indexed binary heap as a value: the list of (key, value)
 * entries laid out as an implicit binary tree, and the dictionary from each
 * key to the slot that holds its entry. Every internal operation of the heap
 * is a function from one such state to the next; the class in IndexedHeap
 * runs the same steps in place and is proved equal to these functions.
 *
 * Keys and values are both `int`, and the comparator is fixed to the
 * default `a < b` the heap is constructed with.
 */
module HeapState {

  datatype Option<T> = None | Some(value: T)

  /** One slot of the list: the tuple (key, value). */
  datatype Entry = Entry(key: int, value: int)

  /** The two private fields of the heap: the entry list and the key index. */
  datatype Store = Store(heap: seq<Entry>, index: map<int, int>)

  /** Raised by `_add_item` for a key that is already present. */
  datatype HeapError = KeyError(key: int)

  datatype Result<T> = Success(value: T) | Failure(error: HeapError)

  /** The default comparator: `a` must sit above `b` when `a < b`. */
  predicate Outranks(a: int, b: int)
  {
    a < b
  }

  /** The parent slot of a non-root slot. */
  function Parent(i: int): (p: int)
    requires i > 0
    ensures 0 <= p < i
    ensures i == 2 * p + 1 || i == 2 * p + 2
  {
    (i - 1) / 2
  }

  /**
   * Every slot's key maps back to that slot, and every key of the index
   * either maps to the slot holding it or past the end of the list. The
   * second case only arises inside `_delete_item`, between truncating the
   * list and deleting the removed key from the dictionary.
   */
  ghost predicate Consistent(heap: seq<Entry>, index: map<int, int>)
  {
    && (forall i :: 0 <= i < |heap| ==> heap[i].key in index && index[heap[i].key] == i)
    && (forall k :: k in index ==> 0 <= index[k] && (index[k] < |heap| ==> heap[index[k]].key == k))
  }

  /** Index consistency in both directions: the heap's invariant between calls. */
  ghost predicate Linked(heap: seq<Entry>, index: map<int, int>)
  {
    Consistent(heap, index) && forall k :: k in index ==> index[k] < |heap|
  }

  /** Every key that held an entry in `s` still holds that same entry in `r`. */
  ghost predicate Follows(s: Store, r: Store)
  {
    forall k :: k in s.index && 0 <= s.index[k] < |s.heap| ==>
      k in r.index && 0 <= r.index[k] < |r.heap| && r.heap[r.index[k]] == s.heap[s.index[k]]
  }

  /** Keys that point past the end of the list are left as they are. */
  ghost predicate StaleKept(s: Store, r: Store)
  {
    forall k :: k in s.index && s.index[k] >= |s.heap| ==> k in r.index && r.index[k] == s.index[k]
  }

  /** What both bubble operations promise about the structure they rearrange. */
  ghost predicate Rearranged(s: Store, r: Store)
  {
    && Consistent(r.heap, r.index)
    && |r.heap| == |s.heap|
    && multiset(r.heap) == multiset(s.heap)
    && r.index.Keys == s.index.Keys
    && Follows(s, r)
    && StaleKept(s, r)
  }

  /** Two rearrangements in a row are one rearrangement. */
  lemma RearrangedTransitive(s: Store, m: Store, r: Store)
    requires Rearranged(s, m) && Rearranged(m, r)
    ensures Rearranged(s, r)
  {
  }

  /** `__swap`: exchange the entries of two keys and both of their index entries. */
  function Swapped(s: Store, keyA: int, keyB: int): (r: Store)
    requires keyA in s.index && keyB in s.index
    requires 0 <= s.index[keyA] < |s.heap| && 0 <= s.index[keyB] < |s.heap|
    ensures |r.heap| == |s.heap|
    ensures r.heap[s.index[keyA]] == s.heap[s.index[keyB]]
    ensures r.heap[s.index[keyB]] == s.heap[s.index[keyA]]
    ensures forall j :: 0 <= j < |s.heap| && j != s.index[keyA] && j != s.index[keyB] ==> r.heap[j] == s.heap[j]
    ensures r.index.Keys == s.index.Keys
    ensures r.index[keyA] == s.index[keyB] && r.index[keyB] == s.index[keyA]
    ensures forall k :: k in s.index && k != keyA && k != keyB ==> r.index[k] == s.index[k]
    ensures multiset(r.heap) == multiset(s.heap)
  {
    var itemAIndex := s.index[keyA];
    var itemA := s.heap[itemAIndex];
    var heap := s.heap[itemAIndex := s.heap[s.index[keyB]]][s.index[keyB] := itemA];
    var index := s.index[keyA := s.index[keyB]][keyB := itemAIndex];
    Store(heap, index)
  }

  /** Swapping two keys of a consistent state keeps it consistent and moves entries with their keys. */
  lemma SwappedRearranged(s: Store, keyA: int, keyB: int)
    requires Consistent(s.heap, s.index)
    requires keyA in s.index && keyB in s.index
    requires s.index[keyA] < |s.heap| && s.index[keyB] < |s.heap|
    ensures Rearranged(s, Swapped(s, keyA, keyB))
  {
  }

  /** `__get_parent_item`: nothing at the root, otherwise the entry in the parent slot. */
  function ParentItem(s: Store, key: int): (r: Option<Entry>)
    requires Consistent(s.heap, s.index) && key in s.index && s.index[key] < |s.heap|
    ensures r.None? <==> s.index[key] == 0
    ensures r.Some? ==> r.value.key in s.index && s.index[r.value.key] == Parent(s.index[key])
    ensures r.Some? ==> r.value == s.heap[s.index[r.value.key]]
  {
    if s.index[key] == 0 then None else Some(s.heap[Parent(s.index[key])])
  }

  /**
   * `__get_children`: the entries in slots 2i+1 and 2i+2 of the key's slot i,
   * each absent when the list is too short. A right child never comes
   * without a left one.
   */
  function Children(s: Store, key: int): (r: (Option<Entry>, Option<Entry>))
    requires key in s.index && 0 <= s.index[key]
    ensures r.0.Some? <==> 2 * s.index[key] + 1 < |s.heap|
    ensures r.1.Some? <==> 2 * s.index[key] + 2 < |s.heap|
    ensures r.1.Some? ==> r.0.Some?
    ensures r.0.Some? ==> r.0.value == s.heap[2 * s.index[key] + 1]
    ensures r.1.Some? ==> r.1.value == s.heap[2 * s.index[key] + 2]
  {
    var leftChildIndex := s.index[key] * 2 + 1;
    var rightChildIndex := leftChildIndex + 1;
    (if |s.heap| > leftChildIndex then Some(s.heap[leftChildIndex]) else None,
     if |s.heap| > rightChildIndex then Some(s.heap[rightChildIndex]) else None)
  }

  /**
   * The choice inside `__bubble_down_item`: a child that outranks the item,
   * and among the children one that no other child outranks; the left one
   * only when it outranks the right one or the right one does not qualify.
   */
  function ChildToSwap(item: Entry, left: Option<Entry>, right: Option<Entry>): (r: Option<Entry>)
    ensures r.Some? ==> r == left || r == right
    ensures r.None? <==>
      (left.None? || !Outranks(left.value.value, item.value)) &&
      (right.None? || !Outranks(right.value.value, item.value))
    ensures r.Some? ==> Outranks(r.value.value, item.value)
    ensures r.Some? && left.Some? ==> !Outranks(left.value.value, r.value.value)
    ensures r.Some? && right.Some? ==> !Outranks(right.value.value, r.value.value)
    ensures left.Some? && right.Some? && Outranks(left.value.value, item.value) && Outranks(right.value.value, item.value) ==>
      r == if Outranks(left.value.value, right.value.value) then left else right
  {
    var shouldSwapLeftChild := left.Some? && Outranks(left.value.value, item.value);
    var shouldSwapRightChild := right.Some? && Outranks(right.value.value, item.value);
    if shouldSwapLeftChild && shouldSwapRightChild then
      (if Outranks(left.value.value, right.value.value) then left else right)
    else if shouldSwapRightChild then right
    else if shouldSwapLeftChild then left
    else None
  }

  /**
   * `__bubble_up_item`: swap the key's entry with its parent until it is at
   * the root or its parent outranks it. The key's slot strictly decreases.
   */
  function BubbledUp(s: Store, key: int): (r: Store)
    requires Consistent(s.heap, s.index) && key in s.index && s.index[key] < |s.heap|
    ensures Rearranged(s, r)
    ensures r.index[key] <= s.index[key]
    decreases s.index[key]
  {
    match ParentItem(s, key)
    case None => s
    case Some(parent) =>
      if Outranks(parent.value, s.heap[s.index[key]].value) then s
      else
        var swapped := Swapped(s, key, parent.key);
        SwappedRearranged(s, key, parent.key);
        var r := BubbledUp(swapped, key);
        RearrangedTransitive(s, swapped, r);
        r
  }

  /**
   * `__bubble_down_item`: swap the key's entry with the child chosen by
   * ChildToSwap until no child outranks it. The key's slot strictly increases.
   */
  function BubbledDown(s: Store, key: int): (r: Store)
    requires Consistent(s.heap, s.index) && key in s.index && s.index[key] < |s.heap|
    ensures Rearranged(s, r)
    ensures r.index[key] >= s.index[key]
    decreases |s.heap| - s.index[key]
  {
    var item := s.heap[s.index[key]];
    var (leftChild, rightChild) := Children(s, key);
    match ChildToSwap(item, leftChild, rightChild)
    case None => s
    case Some(child) =>
      assert s.index[child.key] == 2 * s.index[key] + 1 || s.index[child.key] == 2 * s.index[key] + 2;
      var swapped := Swapped(s, key, child.key);
      SwappedRearranged(s, key, child.key);
      var r := BubbledDown(swapped, key);
      RearrangedTransitive(s, swapped, r);
      r
  }

  /**
   * Where `__bubble_up_item` stops: the key still holds its entry, and it is
   * at the root or below a parent that outranks that entry.
   */
  lemma {:induction false} BubbledUpStops(s: Store, key: int)
    requires Consistent(s.heap, s.index) && key in s.index && s.index[key] < |s.heap|
    ensures var r := BubbledUp(s, key);
      && r.heap[r.index[key]] == s.heap[s.index[key]]
      && (r.index[key] == 0 || Outranks(r.heap[Parent(r.index[key])].value, s.heap[s.index[key]].value))
    decreases s.index[key]
  {
    match ParentItem(s, key)
    case None =>
    case Some(parent) =>
      if !Outranks(parent.value, s.heap[s.index[key]].value) {
        var swapped := Swapped(s, key, parent.key);
        SwappedRearranged(s, key, parent.key);
        BubbledUpStops(swapped, key);
      }
  }

  /**
   * Where `__bubble_down_item` stops: the key still holds its entry, and no
   * child of its final slot outranks that entry.
   */
  lemma {:induction false} BubbledDownStops(s: Store, key: int)
    requires Consistent(s.heap, s.index) && key in s.index && s.index[key] < |s.heap|
    ensures var r := BubbledDown(s, key);
      && r.heap[r.index[key]] == s.heap[s.index[key]]
      && forall c :: 0 < c < |r.heap| && Parent(c) == r.index[key] ==> !Outranks(r.heap[c].value, s.heap[s.index[key]].value)
    decreases |s.heap| - s.index[key]
  {
    var i := s.index[key];
    var item := s.heap[i];
    var (leftChild, rightChild) := Children(s, key);
    match ChildToSwap(item, leftChild, rightChild)
    case None =>
      forall c | 0 < c < |s.heap| && Parent(c) == i
        ensures !Outranks(s.heap[c].value, item.value)
      {
        if c == 2 * i + 1 {
          assert leftChild == Some(s.heap[c]);
        } else {
          assert rightChild == Some(s.heap[c]);
        }
      }
    case Some(child) =>
      assert s.index[child.key] == 2 * i + 1 || s.index[child.key] == 2 * i + 2;
      var swapped := Swapped(s, key, child.key);
      SwappedRearranged(s, key, child.key);
      BubbledDownStops(swapped, key);
  }

  /** The state right after `append` and the dictionary assignment of `_add_item`. */
  function Appended(s: Store, key: int, item: int): (r: Store)
    requires Linked(s.heap, s.index) && key !in s.index
    ensures Linked(r.heap, r.index) && key in r.index && r.index[key] == |s.heap|
    ensures Follows(s, r)
  {
    Store(s.heap + [Entry(key, item)], s.index[key := |s.heap|])
  }

  /**
   * `_add_item`: a present key is a KeyError and nothing changes; a fresh key
   * gets one more entry, which the dictionary finds, and nothing else moves
   * away from its key.
   */
  function Added(s: Store, key: int, item: int): (r: Result<Store>)
    requires Linked(s.heap, s.index)
    ensures r.Failure? <==> key in s.index
    ensures r.Failure? ==> r.error == KeyError(key)
    ensures r.Success? ==>
      && Linked(r.value.heap, r.value.index)
      && |r.value.heap| == |s.heap| + 1
      && multiset(r.value.heap) == multiset(s.heap) + multiset{Entry(key, item)}
      && r.value.index.Keys == s.index.Keys + {key}
      && r.value.heap[r.value.index[key]] == Entry(key, item)
      && Follows(s, r.value)
  {
    if key in s.index then Failure(KeyError(key))
    else
      AppendedBubbledUp(s, key, item);
      Success(BubbledUp(Appended(s, key, item), key))
  }

  /** Appending a fresh entry and bubbling it up, in terms of the state before `_add_item`. */
  lemma AppendedBubbledUp(s: Store, key: int, item: int)
    requires Linked(s.heap, s.index) && key !in s.index
    ensures var r := BubbledUp(Appended(s, key, item), key);
      && Linked(r.heap, r.index)
      && |r.heap| == |s.heap| + 1
      && multiset(r.heap) == multiset(s.heap) + multiset{Entry(key, item)}
      && r.index.Keys == s.index.Keys + {key}
      && r.heap[r.index[key]] == Entry(key, item)
      && Follows(s, r)
  {
    var appended := Appended(s, key, item);
    var r := BubbledUp(appended, key);
    RearrangedLinked(appended, r);
    assert appended.heap == s.heap + [Entry(key, item)];
    assert appended.index.Keys == s.index.Keys + {key};
    FollowsTransitive(s, appended, r);
  }

  /** Entries that follow their keys through two steps follow them through both. */
  lemma FollowsTransitive(s: Store, m: Store, r: Store)
    requires Follows(s, m) && Follows(m, r)
    ensures Follows(s, r)
  {
  }

  /** Rearranging a linked state keeps it linked, with every entry under its key. */
  lemma RearrangedLinked(s: Store, r: Store)
    requires Linked(s.heap, s.index) && Rearranged(s, r)
    ensures Linked(r.heap, r.index)
    ensures forall k :: k in r.index ==> k in s.index && r.heap[r.index[k]] == s.heap[s.index[k]]
  {
  }

  /** After `_add_item` the new key finds its entry and every old key still finds its own. */
  lemma AddedLookup(s: Store, key: int, item: int)
    requires Linked(s.heap, s.index) && key !in s.index
    ensures var r := Added(s, key, item).value;
      && key in r.index && r.heap[r.index[key]] == Entry(key, item)
      && forall k :: k in s.index ==> k in r.index && r.heap[r.index[k]] == s.heap[s.index[k]]
  {
  }

  /** Dropping the last slot of a list. */
  lemma TruncatedMultiset(heap: seq<Entry>)
    requires |heap| > 0
    ensures multiset(heap[..|heap| - 1]) == multiset(heap) - multiset{heap[|heap| - 1]}
  {
    assert heap == heap[..|heap| - 1] + [heap[|heap| - 1]];
  }

  /** Overwriting slot `p` with the last entry and dropping the last slot removes the entry in `p`. */
  lemma MovedLastMultiset(heap: seq<Entry>, p: int)
    requires 0 <= p < |heap|
    ensures multiset(heap[p := heap[|heap| - 1]][..|heap| - 1]) == multiset(heap) - multiset{heap[p]}
  {
    var n := |heap|;
    var moved := heap[p := heap[n - 1]];
    if p == n - 1 {
      assert moved == heap;
      TruncatedMultiset(heap);
    } else {
      MovedSplit(heap, p);
      HeapSplit(heap, p);
      MultisetRemoveMiddle(multiset(heap[..p]), multiset(heap[p + 1..n - 1]), heap[p], heap[n - 1]);
    }
  }

  /** After the move: the part before `p`, the moved last entry, the part up to the old last slot. */
  lemma MovedSplit(heap: seq<Entry>, p: int)
    requires 0 <= p < |heap| - 1
    ensures var n := |heap|;
      multiset(heap[p := heap[n - 1]][..n - 1]) == multiset(heap[..p]) + multiset{heap[n - 1]} + multiset(heap[p + 1..n - 1])
  {
    var n := |heap|;
    assert heap[p := heap[n - 1]][..n - 1] == heap[..p] + [heap[n - 1]] + heap[p + 1..n - 1];
  }

  /** Before the move: the part before `p`, the entry in `p`, the part up to the last slot, the last entry. */
  lemma HeapSplit(heap: seq<Entry>, p: int)
    requires 0 <= p < |heap| - 1
    ensures var n := |heap|;
      multiset(heap) == multiset(heap[..p]) + multiset{heap[p]} + multiset(heap[p + 1..n - 1]) + multiset{heap[n - 1]}
  {
    var n := |heap|;
    assert heap == heap[..p] + [heap[p]] + heap[p + 1..n - 1] + [heap[n - 1]];
  }

  /** Taking one `x` out of a sum of multisets that holds it. */
  lemma MultisetRemoveMiddle(front: multiset<Entry>, back: multiset<Entry>, x: Entry, y: Entry)
    ensures front + multiset{x} + back + multiset{y} - multiset{x} == front + multiset{y} + back
  {
  }

  /**
   * The state of `_delete_item` after swapping the last entry into the slot
   * of the removed key and truncating: the removed key still points one past
   * the end.
   */
  function Relocated(s: Store, key: int): (r: Store)
    requires Linked(s.heap, s.index) && key in s.index
    requires s.heap[|s.heap| - 1].key != key
    ensures Consistent(r.heap, r.index) && |r.heap| == |s.heap| - 1
    ensures r.index.Keys == s.index.Keys && r.index[key] == |r.heap|
    ensures forall k :: k in r.index && k != key ==> r.index[k] < |r.heap|
    ensures r.index[s.heap[|s.heap| - 1].key] == s.index[key]
    ensures r.heap == s.heap[s.index[key] := s.heap[|s.heap| - 1]][..|s.heap| - 1]
    ensures multiset(r.heap) == multiset(s.heap) - multiset{s.heap[s.index[key]]}
    ensures forall k :: k in s.index && k != key ==> r.heap[r.index[k]] == s.heap[s.index[k]]
  {
    var n := |s.heap|;
    var lastItemKey := s.heap[n - 1].key;
    var swapped := Swapped(s, lastItemKey, key);
    SwappedRearranged(s, lastItemKey, key);
    assert swapped.heap[..n - 1] == s.heap[s.index[key] := s.heap[n - 1]][..n - 1];
    MovedLastMultiset(s.heap, s.index[key]);
    Store(swapped.heap[..n - 1], swapped.index)
  }

  /**
   * `_delete_item`: an absent key changes nothing; a present key loses its
   * entry and its index entry, and every other key keeps its entry.
   * Only bubble-down is applied to the relocated last entry.
   */
  function Deleted(s: Store, key: int): (r: Store)
    requires Linked(s.heap, s.index)
    ensures Linked(r.heap, r.index)
    ensures key !in s.index ==> r == s
    ensures key in s.index ==>
      && |r.heap| == |s.heap| - 1
      && r.index.Keys == s.index.Keys - {key}
      && multiset(r.heap) == multiset(s.heap) - multiset{s.heap[s.index[key]]}
      && (forall k :: k in r.index ==> r.heap[r.index[k]] == s.heap[s.index[k]])
  {
    if key !in s.index then s
    else
      var n := |s.heap|;
      var lastItemKey := s.heap[n - 1].key;
      if lastItemKey == key then
        LastTruncated(s, key);
        Store(s.heap[..n - 1], s.index - {key})
      else
        var bubbled := BubbledDown(Relocated(s, key), lastItemKey);
        RelocatedBubbledDown(s, key);
        Store(bubbled.heap, bubbled.index - {key})
  }

  /** Removing the last entry together with its key leaves a linked state with every other entry under its key. */
  lemma LastTruncated(s: Store, key: int)
    requires Linked(s.heap, s.index) && key in s.index
    requires s.heap[|s.heap| - 1].key == key
    ensures var n := |s.heap|;
      && Linked(s.heap[..n - 1], s.index - {key})
      && (s.index - {key}).Keys == s.index.Keys - {key}
      && multiset(s.heap[..n - 1]) == multiset(s.heap) - multiset{s.heap[s.index[key]]}
      && forall k :: k in s.index - {key} ==> s.heap[..n - 1][s.index[k]] == s.heap[s.index[k]]
  {
    var n := |s.heap|;
    assert s.index[key] == n - 1;
    TruncatedMultiset(s.heap);
    forall k | k in s.index - {key}
      ensures s.index[k] < n - 1
    {
      assert s.heap[s.index[k]].key == k;
    }
  }

  /** When the removed key is not the last one, `_delete_item` leaves the list bubbling down produced. */
  lemma DeletedUnfolded(s: Store, key: int)
    requires Linked(s.heap, s.index) && key in s.index
    requires s.heap[|s.heap| - 1].key != key
    ensures Deleted(s, key).heap == BubbledDown(Relocated(s, key), s.heap[|s.heap| - 1].key).heap
  {
  }

  /** After bubbling the relocated last entry down, only the removed key is left to drop. */
  lemma RelocatedBubbledDown(s: Store, key: int)
    requires Linked(s.heap, s.index) && key in s.index
    requires s.heap[|s.heap| - 1].key != key
    ensures var r := BubbledDown(Relocated(s, key), s.heap[|s.heap| - 1].key);
      && Linked(r.heap, r.index - {key})
      && |r.heap| == |s.heap| - 1
      && (r.index - {key}).Keys == s.index.Keys - {key}
      && multiset(r.heap) == multiset(s.heap) - multiset{s.heap[s.index[key]]}
      && (forall k :: k in s.index && k != key ==> r.heap[r.index[k]] == s.heap[s.index[k]])
  {
    var relocated := Relocated(s, key);
    var r := BubbledDown(relocated, s.heap[|s.heap| - 1].key);
    assert r.index[key] == |r.heap|;
    forall k | k in r.index && k != key
      ensures 0 <= r.index[k] < |r.heap| && r.heap[r.index[k]] == s.heap[s.index[k]]
    {
      assert relocated.index[k] < |relocated.heap|;
    }
    StaleDropped(r.heap, r.index, key);
  }

  /** Dropping the one key that points past the end leaves a linked state. */
  lemma StaleDropped(heap: seq<Entry>, index: map<int, int>, key: int)
    requires Consistent(heap, index) && key in index && index[key] >= |heap|
    requires forall k :: k in index && k != key ==> index[k] < |heap|
    ensures Linked(heap, index - {key}) && (index - {key}).Keys == index.Keys - {key}
  {
  }

  /** `__len__` agrees with the number of keys in the dictionary. */
  lemma {:induction false} LinkedSize(heap: seq<Entry>, index: map<int, int>)
    requires Linked(heap, index)
    ensures |index| == |heap|
    decreases |heap|
  {
    if |heap| == 0 {
      forall k ensures k !in index {}
      assert index == map[];
    } else {
      var n := |heap| - 1;
      var k := heap[n].key;
      var rest := index - {k};
      assert rest.Keys == index.Keys - {k};
      LinkedSize(heap[..n], rest);
    }
  }
}
