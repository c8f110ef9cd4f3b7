/**
 * The indexed binary heap as the object the program uses: a class whose
 * two private fields, the entry list and the key dictionary, are updated in
 * place. Each method runs the same steps as its counterpart in HeapState
 * and is proved to leave the state that function computes.
 */
module IndexedHeap {
  import opened HeapState
  import opened HeapOrder

  datatype Outcome = Pass | Fail(error: HeapError)

  class Heap {
    var heap: seq<Entry>
    var dictionary: map<int, int>

    /** Index consistency, which every public operation keeps. */
    ghost predicate Valid()
      reads this
    {
      Linked(heap, dictionary)
    }

    function State(): (r: Store)
      reads this
    {
      Store(heap, dictionary)
    }

    /** `__init__` with the default comparator. */
    constructor ()
      ensures Valid() && heap == [] && dictionary == map[]
    {
      heap := [];
      dictionary := map[];
    }

    /**
     * `__setitem__`: as `__setitem__` is written, the arguments reach `_add_item` in
     * reversed order, so `h[key] = value` stores an entry whose key is
     * `value` and whose value is `key`.
     */
    method SetItem(key: int, value: int) returns (r: Outcome)
      requires Valid()
      modifies this
      ensures Valid()
      ensures r.Pass? <==> value !in old(dictionary)
      ensures r.Fail? ==> r.error == KeyError(value) && heap == old(heap) && dictionary == old(dictionary)
      ensures r.Pass? ==> State() == Added(old(State()), value, key).value && GetItem(value) == Some(key)
    {
      r := AddItem(value, key);
    }

    /** `__setitem__` with the arguments in the order its signature names them. */
    method SetItemIntended(key: int, value: int) returns (r: Outcome)
      requires Valid()
      modifies this
      ensures Valid()
      ensures r.Pass? <==> key !in old(dictionary)
      ensures r.Fail? ==> r.error == KeyError(key) && heap == old(heap) && dictionary == old(dictionary)
      ensures r.Pass? ==> State() == Added(old(State()), key, value).value
      ensures r.Pass? ==>
        && |heap| == old(|heap|) + 1
        && multiset(heap) == old(multiset(heap)) + multiset{Entry(key, value)}
        && GetItem(key) == Some(value)
        && forall k :: k in old(dictionary) ==> GetItem(k) == old(GetItem(k))
    {
      r := AddItem(key, value);
    }

    /** `__getitem__`: nothing for an absent key, otherwise the value stored under it. */
    function GetItem(key: int): (r: Option<int>)
      reads this
      requires Valid()
      ensures r.None? <==> forall i :: 0 <= i < |heap| ==> heap[i].key != key
      ensures r.Some? ==> Entry(key, r.value) in heap
    {
      if key !in dictionary then None else Some(heap[dictionary[key]].value)
    }

    /** `__delitem__`: an absent key is ignored, a present one is deleted. */
    method DelItem(key: int)
      requires Valid()
      modifies this
      ensures Valid()
      ensures State() == Deleted(old(State()), key)
      ensures key !in old(dictionary) ==> heap == old(heap) && dictionary == old(dictionary)
    {
      if key !in dictionary {
        return;
      }
      DeleteItem(key);
    }

    /** `__len__`: the number of entries, which is also the number of keys. */
    function Len(): (r: nat)
      reads this
      requires Valid()
      ensures r == |heap| && r == |dictionary|
    {
      LinkedSize(heap, dictionary);
      |heap|
    }

    /** `__bubble_up_item`. */
    method BubbleUpItem(itemKey: int)
      requires Consistent(heap, dictionary) && itemKey in dictionary && dictionary[itemKey] < |heap|
      modifies this
      ensures State() == BubbledUp(old(State()), itemKey)
    {
      while true
        invariant Consistent(heap, dictionary) && itemKey in dictionary && dictionary[itemKey] < |heap|
        invariant BubbledUp(State(), itemKey) == BubbledUp(old(State()), itemKey)
        decreases dictionary[itemKey]
      {
        var parentItem := ParentItem(State(), itemKey);
        if parentItem.None? || Outranks(parentItem.value.value, heap[dictionary[itemKey]].value) {
          break;
        }
        SwappedRearranged(State(), itemKey, parentItem.value.key);
        Swap(itemKey, parentItem.value.key);
      }
    }

    /** `__swap`: exchange the entries of two keys and both index entries. */
    method Swap(keyA: int, keyB: int)
      requires keyA in dictionary && keyB in dictionary
      requires 0 <= dictionary[keyA] < |heap| && 0 <= dictionary[keyB] < |heap|
      modifies this
      ensures State() == Swapped(old(State()), keyA, keyB)
    {
      var itemAIndex := dictionary[keyA];
      var itemA := heap[itemAIndex];
      heap := heap[itemAIndex := heap[dictionary[keyB]]];
      heap := heap[dictionary[keyB] := itemA];
      dictionary := dictionary[keyA := dictionary[keyB]];
      dictionary := dictionary[keyB := itemAIndex];
    }

    /** `__bubble_down_item`; the item is read once, before the loop, as `__bubble_down_item` does. */
    method BubbleDownItem(itemKey: int)
      requires Consistent(heap, dictionary) && itemKey in dictionary && dictionary[itemKey] < |heap|
      modifies this
      ensures State() == BubbledDown(old(State()), itemKey)
    {
      var item := heap[dictionary[itemKey]];
      while true
        invariant Consistent(heap, dictionary) && itemKey in dictionary && dictionary[itemKey] < |heap|
        invariant heap[dictionary[itemKey]] == item
        invariant BubbledDown(State(), itemKey) == BubbledDown(old(State()), itemKey)
        decreases |heap| - dictionary[itemKey]
      {
        var (leftChild, rightChild) := Children(State(), itemKey);
        var childToSwap := ChildToSwap(item, leftChild, rightChild);
        if childToSwap.None? {
          break;
        }
        SwappedRearranged(State(), itemKey, childToSwap.value.key);
        Swap(itemKey, childToSwap.value.key);
      }
    }

    /**
     * `_add_item`: a key already present is a KeyError and changes nothing;
     * a fresh key is appended, indexed and bubbled up.
     */
    method AddItem(key: int, item: int) returns (r: Outcome)
      requires Valid()
      modifies this
      ensures Valid()
      ensures r.Pass? <==> key !in old(dictionary)
      ensures r.Fail? ==> r.error == KeyError(key) && heap == old(heap) && dictionary == old(dictionary)
      ensures r.Pass? ==> State() == Added(old(State()), key, item).value
      ensures r.Pass? ==>
        && |heap| == old(|heap|) + 1
        && multiset(heap) == old(multiset(heap)) + multiset{Entry(key, item)}
        && GetItem(key) == Some(item)
        && forall k :: k in old(dictionary) ==> GetItem(k) == old(GetItem(k))
      ensures r.Pass? && old(HeapOrdered(heap)) ==> HeapOrdered(heap)
    {
      if key in dictionary {
        return Fail(KeyError(key));
      }
      ghost var before := State();
      var itemIndex := |heap|;
      heap := heap + [Entry(key, item)];
      dictionary := dictionary[key := itemIndex];
      assert State() == Appended(before, key, item);
      BubbleUpItem(key);
      assert State() == Added(before, key, item).value;
      AddedLookup(before, key, item);
      if HeapOrdered(before.heap) {
        AddedOrdered(before, key, item);
      }
      r := Pass;
    }

    /**
     * `_delete_item`: an absent key changes nothing; otherwise the last entry
     * takes the key's slot, the list is truncated, the moved entry is bubbled
     * down (never up), and the key leaves the dictionary.
     */
    method DeleteItem(itemKey: int)
      requires Valid()
      modifies this
      ensures Valid()
      ensures State() == Deleted(old(State()), itemKey)
      ensures itemKey !in old(dictionary) ==> heap == old(heap) && dictionary == old(dictionary)
      ensures itemKey in old(dictionary) ==>
        && |heap| == old(|heap|) - 1
        && itemKey !in dictionary
        && multiset(heap) == old(multiset(heap)) - multiset{old(heap[dictionary[itemKey]])}
        && forall k :: k in dictionary ==> k in old(dictionary) && GetItem(k) == old(GetItem(k))
      ensures itemKey in old(dictionary) && old(HeapOrdered(heap)) ==> OrderedExcept(heap, old(dictionary[itemKey]))
    {
      if itemKey !in dictionary {
        return;
      }
      ghost var before := State();
      var lastItemKey := heap[|heap| - 1].key;
      if lastItemKey == itemKey {
        heap := heap[..|heap| - 1];
      } else {
        SwappedRearranged(State(), lastItemKey, itemKey);
        Swap(lastItemKey, itemKey);
        heap := heap[..|heap| - 1];
        assert State() == Relocated(before, itemKey);
        BubbleDownItem(lastItemKey);
      }
      dictionary := dictionary - {itemKey};
      assert State() == Deleted(before, itemKey);
      DeletedLookup(before, itemKey);
      if HeapOrdered(before.heap) {
        DeletedNearlyOrdered(before, itemKey);
      }
    }

    /**
     * `pop`: nothing on an empty heap; otherwise the root's value, after
     * deleting the root's key. On an ordered heap that value is a least one
     * and the rest stays ordered.
     */
    method Pop() returns (r: Option<int>)
      requires Valid()
      modifies this
      ensures Valid()
      ensures old(|heap|) == 0 ==> r.None? && heap == old(heap) && dictionary == old(dictionary)
      ensures old(|heap|) > 0 ==> r == Some(old(heap[0].value)) && State() == Deleted(old(State()), old(heap[0].key))
      ensures old(|heap|) > 0 ==> |heap| == old(|heap|) - 1
      ensures old(HeapOrdered(heap)) ==> HeapOrdered(heap)
      ensures old(HeapOrdered(heap)) && r.Some? ==> forall i :: 0 <= i < old(|heap|) ==> !Outranks(old(heap[i].value), r.value)
    {
      if |heap| == 0 {
        return None;
      }
      ghost var before := State();
      if HeapOrdered(heap) {
        PoppedOrdered(before);
        forall i | 0 <= i < |heap|
          ensures !Outranks(heap[i].value, heap[0].value)
        {
          RootIsMinimum(heap, i);
        }
      }
      var key, item := heap[0].key, heap[0].value;
      DeleteItem(key);
      r := Some(item);
    }

    /** `add`, with the caller supplying the fresh key `add` draws with `__get_uuid`. */
    method Add(item: int, key: int)
      requires Valid() && key !in dictionary
      modifies this
      ensures Valid()
      ensures State() == Added(old(State()), key, item).value
      ensures |heap| == old(|heap|) + 1 && GetItem(key) == Some(item)
      ensures old(HeapOrdered(heap)) ==> HeapOrdered(heap)
    {
      var r := AddItem(key, item);
    }

    /** `items`: the stored values in list order. */
    function Items(): (r: seq<int>)
      reads this
      ensures |r| == |heap|
      ensures forall i :: 0 <= i < |heap| ==> r[i] == heap[i].value
    {
      var entries := heap;
      seq(|entries|, i requires 0 <= i < |entries| => entries[i].value)
    }

    /** `peak`: nothing on an empty heap, otherwise the root's value, a least one when ordered. */
    function Peak(): (r: Option<int>)
      reads this
      ensures r.None? <==> |heap| == 0
      ensures r.Some? ==> r.value == heap[0].value
      ensures r.Some? && HeapOrdered(heap) ==> forall v :: v in Items() ==> !Outranks(v, r.value)
    {
      if |heap| == 0 then None else
        var root := heap[0].value;
        RootsValueLeast(heap);
        Some(root)
    }
  }

  /** After `_delete_item` every remaining key still finds the value it had. */
  lemma DeletedLookup(s: Store, key: int)
    requires Linked(s.heap, s.index) && key in s.index
    ensures var r := Deleted(s, key);
      forall k :: k in r.index ==> k in s.index && r.heap[r.index[k]].value == s.heap[s.index[k]].value
  {
  }

  /** Every stored value of an ordered list is at least the root's. */
  lemma RootsValueLeast(heap: seq<Entry>)
    requires |heap| > 0
    ensures HeapOrdered(heap) ==> forall i :: 0 <= i < |heap| ==> !Outranks(heap[i].value, heap[0].value)
  {
    if HeapOrdered(heap) {
      forall i | 0 <= i < |heap|
        ensures !Outranks(heap[i].value, heap[0].value)
      {
        RootIsMinimum(heap, i);
      }
    }
  }
}
