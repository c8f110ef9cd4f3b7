/**
 * Heap order under the default comparator: no child outranks its parent.
 * Bubbling up and bubbling down restore it from the shapes that
 * `_add_item` and `pop` leave behind; deleting an arbitrary key keeps it
 * everywhere except, possibly, at the one slot the last entry moved into.
 */
module HeapOrder {
  import opened HeapState

  /** No child outranks its parent. */
  ghost predicate HeapOrdered(heap: seq<Entry>)
  {
    forall j :: 0 < j < |heap| ==> !Outranks(heap[j].value, heap[Parent(j)].value)
  }

  /** No child outranks its parent, except possibly the child in slot `i`. */
  ghost predicate OrderedExcept(heap: seq<Entry>, i: int)
  {
    forall j :: 0 < j < |heap| && j != i ==> !Outranks(heap[j].value, heap[Parent(j)].value)
  }

  /** No child outranks its parent, except possibly the children of slot `i`. */
  ghost predicate OrderedAbove(heap: seq<Entry>, i: int)
  {
    forall j :: 0 < j < |heap| && Parent(j) != i ==> !Outranks(heap[j].value, heap[Parent(j)].value)
  }

  /** The parent of slot `i` is not outranked by the children of slot `i`. */
  ghost predicate GrandparentBound(heap: seq<Entry>, i: int)
  {
    0 < i < |heap| ==>
      forall c :: 0 < c < |heap| && Parent(c) == i ==> !Outranks(heap[c].value, heap[Parent(i)].value)
  }

  /** On an ordered list no entry outranks the root: `pop` and `peak` return a least value. */
  lemma {:induction false} RootIsMinimum(heap: seq<Entry>, i: int)
    requires HeapOrdered(heap) && 0 <= i < |heap|
    ensures !Outranks(heap[i].value, heap[0].value)
    decreases i
  {
    if i > 0 {
      RootIsMinimum(heap, Parent(i));
    }
  }

  /**
   * `__bubble_up_item` terminates in an ordered list when the list was
   * ordered apart from the item's own slot and the item's parent bounds the
   * item's children (as after `append`).
   */
  lemma {:induction false} BubbledUpOrdered(s: Store, key: int)
    requires Consistent(s.heap, s.index) && key in s.index && s.index[key] < |s.heap|
    requires OrderedExcept(s.heap, s.index[key]) && GrandparentBound(s.heap, s.index[key])
    ensures HeapOrdered(BubbledUp(s, key).heap)
    decreases s.index[key]
  {
    var i := s.index[key];
    match ParentItem(s, key)
    case None =>
    case Some(parent) =>
      if !Outranks(parent.value, s.heap[i].value) {
        var swapped := Swapped(s, key, parent.key);
        SiftUpStep(s.heap, swapped.heap, Parent(i), i);
        BubbledUpOrdered(swapped, key);
      }
  }

  /**
   * One swap of `__bubble_up_item`: the item in slot `i` trades places with
   * its parent `p`, which does not outrank it.
   */
  lemma SiftUpStep(h: seq<Entry>, h': seq<Entry>, p: int, i: int)
    requires 0 <= p < i < |h| && Parent(i) == p && |h'| == |h|
    requires h'[p] == h[i] && h'[i] == h[p]
    requires forall j :: 0 <= j < |h| && j != i && j != p ==> h'[j] == h[j]
    requires OrderedExcept(h, i) && GrandparentBound(h, i)
    requires !Outranks(h[p].value, h[i].value)
    ensures OrderedExcept(h', p) && GrandparentBound(h', p)
  {
    forall j | 0 < j < |h'| && j != p
      ensures !Outranks(h'[j].value, h'[Parent(j)].value)
    {
      if j == i {
      } else if Parent(j) == i {
        assert h'[j] == h[j];
      } else if Parent(j) == p {
        assert h'[j] == h[j];
        assert !Outranks(h[j].value, h[p].value);
      } else {
        assert h'[j] == h[j] && h'[Parent(j)] == h[Parent(j)];
      }
    }
    if p > 0 {
      forall c | 0 < c < |h'| && Parent(c) == p
        ensures !Outranks(h'[c].value, h'[Parent(p)].value)
      {
        assert h'[Parent(p)] == h[Parent(p)];
        assert !Outranks(h[p].value, h[Parent(p)].value);
        if c != i {
          assert h'[c] == h[c];
          assert !Outranks(h[c].value, h[p].value);
        }
      }
    }
  }

  /**
   * `__bubble_down_item` terminates in an ordered list when the list was
   * ordered apart from the edges below the item's slot and the item's
   * parent bounds the item's children (as after `pop` moves the last entry
   * to the root).
   */
  lemma {:induction false} BubbledDownOrdered(s: Store, key: int)
    requires Consistent(s.heap, s.index) && key in s.index && s.index[key] < |s.heap|
    requires OrderedAbove(s.heap, s.index[key]) && GrandparentBound(s.heap, s.index[key])
    ensures HeapOrdered(BubbledDown(s, key).heap)
    decreases |s.heap| - s.index[key]
  {
    var item := s.heap[s.index[key]];
    var (leftChild, rightChild) := Children(s, key);
    match ChildToSwap(item, leftChild, rightChild)
    case None =>
      NoChildOutranks(s, key);
    case Some(child) =>
      var swapped := Swapped(s, key, child.key);
      ChildSwapped(s, key, child);
      BubbledDownOrdered(swapped, key);
  }

  /** When `__bubble_down_item` stops, the edges below the item hold too. */
  lemma NoChildOutranks(s: Store, key: int)
    requires Consistent(s.heap, s.index) && key in s.index && s.index[key] < |s.heap|
    requires OrderedAbove(s.heap, s.index[key])
    requires ChildToSwap(s.heap[s.index[key]], Children(s, key).0, Children(s, key).1).None?
    ensures HeapOrdered(s.heap)
  {
    var i := s.index[key];
    forall j | 0 < j < |s.heap| && Parent(j) == i
      ensures !Outranks(s.heap[j].value, s.heap[i].value)
    {
      if j == 2 * i + 1 {
        assert Children(s, key).0 == Some(s.heap[j]);
      } else {
        assert Children(s, key).1 == Some(s.heap[j]);
      }
    }
  }

  /** One swap of `__bubble_down_item` moves the exception one level down. */
  lemma ChildSwapped(s: Store, key: int, child: Entry)
    requires Consistent(s.heap, s.index) && key in s.index && s.index[key] < |s.heap|
    requires OrderedAbove(s.heap, s.index[key]) && GrandparentBound(s.heap, s.index[key])
    requires ChildToSwap(s.heap[s.index[key]], Children(s, key).0, Children(s, key).1) == Some(child)
    ensures child.key in s.index && s.index[key] < s.index[child.key] < |s.heap|
    ensures OrderedAbove(Swapped(s, key, child.key).heap, s.index[child.key])
    ensures GrandparentBound(Swapped(s, key, child.key).heap, s.index[child.key])
  {
    ChosenChildMinimal(s, key, child);
    var swapped := Swapped(s, key, child.key);
    SiftDownStep(s.heap, swapped.heap, s.index[key], s.index[child.key]);
  }

  /** The child `__bubble_down_item` swaps with sits in a child slot and no sibling outranks it. */
  lemma ChosenChildMinimal(s: Store, key: int, child: Entry)
    requires Consistent(s.heap, s.index) && key in s.index && s.index[key] < |s.heap|
    requires ChildToSwap(s.heap[s.index[key]], Children(s, key).0, Children(s, key).1) == Some(child)
    ensures child.key in s.index
    ensures s.index[child.key] == 2 * s.index[key] + 1 || s.index[child.key] == 2 * s.index[key] + 2
    ensures s.index[child.key] < |s.heap| && s.heap[s.index[child.key]] == child
    ensures Outranks(child.value, s.heap[s.index[key]].value)
    ensures forall j :: 0 < j < |s.heap| && Parent(j) == s.index[key] ==> !Outranks(s.heap[j].value, child.value)
  {
    var i := s.index[key];
    var (leftChild, rightChild) := Children(s, key);
    forall j | 0 < j < |s.heap| && Parent(j) == i
      ensures !Outranks(s.heap[j].value, child.value)
    {
      if j == 2 * i + 1 {
        assert leftChild == Some(s.heap[j]);
      } else {
        assert rightChild == Some(s.heap[j]);
      }
    }
  }

  /**
   * One swap of `__bubble_down_item`: the item in slot `i` trades places
   * with its child `c`, which outranks it and is outranked by no sibling.
   */
  lemma SiftDownStep(h: seq<Entry>, h': seq<Entry>, i: int, c: int)
    requires 0 <= i < c < |h| && Parent(c) == i && |h'| == |h|
    requires h'[i] == h[c] && h'[c] == h[i]
    requires forall j :: 0 <= j < |h| && j != i && j != c ==> h'[j] == h[j]
    requires OrderedAbove(h, i) && GrandparentBound(h, i)
    requires Outranks(h[c].value, h[i].value)
    requires forall j :: 0 < j < |h| && Parent(j) == i ==> !Outranks(h[j].value, h[c].value)
    ensures OrderedAbove(h', c) && GrandparentBound(h', c)
  {
    forall j | 0 < j < |h'| && Parent(j) != c
      ensures !Outranks(h'[j].value, h'[Parent(j)].value)
    {
      if j == c {
      } else if j == i {
        assert h'[Parent(i)] == h[Parent(i)];
      } else if Parent(j) == i {
        assert h'[j] == h[j];
      } else {
        assert h'[j] == h[j] && h'[Parent(j)] == h[Parent(j)];
      }
    }
    forall d | 0 < d < |h'| && Parent(d) == c
      ensures !Outranks(h'[d].value, h'[Parent(c)].value)
    {
      assert h'[d] == h[d];
    }
  }

  /** `_add_item` keeps an ordered list ordered. */
  lemma AddedOrdered(s: Store, key: int, item: int)
    requires Linked(s.heap, s.index) && HeapOrdered(s.heap) && key !in s.index
    ensures Added(s, key, item).Success?
    ensures HeapOrdered(Added(s, key, item).value.heap)
  {
    var appended := Appended(s, key, item);
    assert OrderedExcept(appended.heap, |s.heap|);
    BubbledUpOrdered(appended, key);
  }

  /**
   * What `_delete_item` leaves behind: an ordered list stays ordered except,
   * possibly, between the slot the removed key occupied and its parent, and
   * is fully ordered when that slot was the root or the last slot.
   */
  lemma DeletedNearlyOrdered(s: Store, key: int)
    requires Linked(s.heap, s.index) && HeapOrdered(s.heap) && key in s.index
    ensures OrderedExcept(Deleted(s, key).heap, s.index[key])
    ensures s.index[key] == 0 || s.index[key] == |s.heap| - 1 ==> HeapOrdered(Deleted(s, key).heap)
  {
    var n := |s.heap|;
    var p := s.index[key];
    var lastItemKey := s.heap[n - 1].key;
    if lastItemKey != key {
      var x := s.heap[n - 1];
      if p == 0 || !Outranks(x.value, s.heap[Parent(p)].value) {
        RelocatedBelowParent(s, key);
        BubbledDownOrdered(Relocated(s, key), lastItemKey);
      } else {
        RelocatedAboveParent(s, key);
      }
    }
  }

  /**
   * The last entry moved into slot `p` of the removed key does not outrank
   * p's parent: bubbling it down starts from a list ordered above `p`.
   */
  lemma RelocatedBelowParent(s: Store, key: int)
    requires Linked(s.heap, s.index) && HeapOrdered(s.heap) && key in s.index
    requires s.heap[|s.heap| - 1].key != key
    requires s.index[key] == 0 || !Outranks(s.heap[|s.heap| - 1].value, s.heap[Parent(s.index[key])].value)
    ensures OrderedAbove(Relocated(s, key).heap, s.index[key])
    ensures GrandparentBound(Relocated(s, key).heap, s.index[key])
  {
    var p := s.index[key];
    var h := Relocated(s, key).heap;
    forall j | 0 < j < |h| && Parent(j) != p
      ensures !Outranks(h[j].value, h[Parent(j)].value)
    {
      if j != p {
        assert h[j] == s.heap[j] && h[Parent(j)] == s.heap[Parent(j)];
      }
    }
    if 0 < p < |h| {
      forall c | 0 < c < |h| && Parent(c) == p
        ensures !Outranks(h[c].value, h[Parent(p)].value)
      {
        assert h[c] == s.heap[c] && h[Parent(p)] == s.heap[Parent(p)];
        assert !Outranks(s.heap[c].value, s.heap[p].value);
      }
    }
  }

  /**
   * The last entry moved into slot `p` outranks p's parent: it is above all
   * of p's children, so bubbling it down moves nothing and the one broken
   * edge, from p's parent to p, stays broken.
   */
  lemma RelocatedAboveParent(s: Store, key: int)
    requires Linked(s.heap, s.index) && HeapOrdered(s.heap) && key in s.index
    requires s.heap[|s.heap| - 1].key != key
    requires s.index[key] > 0 && Outranks(s.heap[|s.heap| - 1].value, s.heap[Parent(s.index[key])].value)
    ensures OrderedExcept(Deleted(s, key).heap, s.index[key])
  {
    RelocatedRises(s, key);
    RelocatedStaysPut(s, key);
    DeletedUnfolded(s, key);
  }

  /**
   * The last entry moved into slot `p` outranks p's parent: the list is
   * ordered apart from slot `p`, and p's parent bounds p's children.
   */
  lemma RelocatedRises(s: Store, key: int)
    requires Linked(s.heap, s.index) && HeapOrdered(s.heap) && key in s.index
    requires s.heap[|s.heap| - 1].key != key
    requires s.index[key] > 0 && Outranks(s.heap[|s.heap| - 1].value, s.heap[Parent(s.index[key])].value)
    ensures OrderedExcept(Relocated(s, key).heap, s.index[key])
    ensures GrandparentBound(Relocated(s, key).heap, s.index[key])
  {
    var p := s.index[key];
    var h := Relocated(s, key).heap;
    var g := Parent(p);
    assert h[g] == s.heap[g];
    assert !Outranks(s.heap[p].value, s.heap[g].value);
    forall j | 0 < j < |h| && j != p
      ensures !Outranks(h[j].value, h[Parent(j)].value)
    {
      assert h[j] == s.heap[j];
      if Parent(j) != p {
        assert h[Parent(j)] == s.heap[Parent(j)];
      } else {
        assert !Outranks(s.heap[j].value, s.heap[p].value);
      }
    }
    forall c | 0 < c < |h| && Parent(c) == p
      ensures !Outranks(h[c].value, h[g].value)
    {
      assert h[c] == s.heap[c];
      assert !Outranks(s.heap[c].value, s.heap[p].value);
    }
  }

  /** An entry that outranks its new parent outranks its children too, so bubbling it down moves nothing. */
  lemma RelocatedStaysPut(s: Store, key: int)
    requires Linked(s.heap, s.index) && HeapOrdered(s.heap) && key in s.index
    requires s.heap[|s.heap| - 1].key != key
    requires s.index[key] > 0 && Outranks(s.heap[|s.heap| - 1].value, s.heap[Parent(s.index[key])].value)
    ensures BubbledDown(Relocated(s, key), s.heap[|s.heap| - 1].key) == Relocated(s, key)
  {
    var n := |s.heap|;
    var p := s.index[key];
    var lastItemKey := s.heap[n - 1].key;
    var relocated := Relocated(s, key);
    var x := s.heap[n - 1];
    assert relocated.heap[p] == x;
    assert !Outranks(s.heap[p].value, s.heap[Parent(p)].value);
    var (leftChild, rightChild) := Children(relocated, lastItemKey);
    if leftChild.Some? {
      assert Parent(2 * p + 1) == p;
      assert leftChild.value == s.heap[2 * p + 1];
      assert !Outranks(s.heap[2 * p + 1].value, s.heap[p].value);
    }
    if rightChild.Some? {
      assert Parent(2 * p + 2) == p;
      assert rightChild.value == s.heap[2 * p + 2];
      assert !Outranks(s.heap[2 * p + 2].value, s.heap[p].value);
    }
    assert ChildToSwap(x, leftChild, rightChild).None?;
  }

  /** `pop` keeps an ordered list ordered. */
  lemma PoppedOrdered(s: Store)
    requires Linked(s.heap, s.index) && HeapOrdered(s.heap) && |s.heap| > 0
    ensures HeapOrdered(Deleted(s, s.heap[0].key).heap)
  {
    DeletedNearlyOrdered(s, s.heap[0].key);
  }

  /** The values of the entries do not decrease along the sequence. */
  ghost predicate SortedByValue(entries: seq<Entry>)
  {
    forall i, j :: 0 <= i < j < |entries| ==> !Outranks(entries[j].value, entries[i].value)
  }

  lemma PrependSorted(head: Entry, tail: seq<Entry>)
    requires SortedByValue(tail)
    requires forall e :: e in tail ==> !Outranks(e.value, head.value)
    ensures SortedByValue([head] + tail)
  {
    var all := [head] + tail;
    forall i, j | 0 <= i < j < |all|
      ensures !Outranks(all[j].value, all[i].value)
    {
      assert all[j] == tail[j - 1];
      if i > 0 {
        assert all[i] == tail[i - 1];
      }
    }
  }

  /** `pop` removes exactly the root entry. */
  lemma PoppedRoot(s: Store)
    requires Linked(s.heap, s.index) && |s.heap| > 0
    ensures s.heap[0] in multiset(s.heap)
    ensures multiset(Deleted(s, s.heap[0].key).heap) == multiset(s.heap) - multiset{s.heap[0]}
  {
    assert s.index[s.heap[0].key] == 0;
  }

  /** No entry drawn from an ordered list outranks its root. */
  lemma RootBoundsEntries(heap: seq<Entry>, entries: seq<Entry>)
    requires HeapOrdered(heap) && |heap| > 0 && multiset(entries) <= multiset(heap)
    ensures forall e :: e in entries ==> !Outranks(e.value, heap[0].value)
  {
    forall e | e in entries
      ensures !Outranks(e.value, heap[0].value)
    {
      assert e in multiset(entries);
      assert e in multiset(heap);
      var k :| 0 <= k < |heap| && heap[k] == e;
      RootIsMinimum(heap, k);
    }
  }

  /** The entries that repeated `pop` calls return, in order, until the heap is empty. */
  ghost function PoppedEntries(s: Store): (r: seq<Entry>)
    requires Linked(s.heap, s.index)
    decreases |s.heap|
  {
    if |s.heap| == 0 then [] else [s.heap[0]] + PoppedEntries(Deleted(s, s.heap[0].key))
  }

  /** Popping until the heap is empty returns every entry exactly once. */
  lemma {:induction false} PoppedEntriesPermutation(s: Store)
    requires Linked(s.heap, s.index)
    ensures multiset(PoppedEntries(s)) == multiset(s.heap)
    decreases |s.heap|
  {
    if |s.heap| > 0 {
      var root := s.heap[0];
      var rest := Deleted(s, root.key);
      PoppedRoot(s);
      PoppedEntriesPermutation(rest);
      assert PoppedEntries(s) == [root] + PoppedEntries(rest);
    }
  }

  /** Popping an ordered heap until it is empty returns the entries least value first. */
  lemma {:induction false} PoppedEntriesSorted(s: Store)
    requires Linked(s.heap, s.index) && HeapOrdered(s.heap)
    ensures SortedByValue(PoppedEntries(s))
    decreases |s.heap|
  {
    if |s.heap| > 0 {
      var root := s.heap[0];
      var rest := Deleted(s, root.key);
      PoppedOrdered(s);
      PoppedEntriesSorted(rest);
      var tail := PoppedEntries(rest);
      PoppedRoot(s);
      PoppedEntriesPermutation(rest);
      RootBoundsEntries(s.heap, tail);
      PrependSorted(root, tail);
      assert PoppedEntries(s) == [root] + tail;
    }
  }
}
