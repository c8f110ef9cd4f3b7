/**
 * Two places where the heap does not do what its interface suggests, each
 * with the behaviour as written and a corrected version.
 *
 * 1. `__setitem__` hands its arguments to `_add_item` in reversed order.
 * 2. `_delete_item` only bubbles the relocated last entry down, so deleting
 *    a key that is not the root can leave a child that outranks its parent.
 */
module HeapFindings {
  import opened HeapState
  import opened HeapOrder

  /**
   * As written, `h[3] = 7` on an empty heap stores key 7 with value 3
   * (IndexedHeap.Heap.SetItem computes `Added(state, value, key)`), so key 3
   * is not found afterwards.
   */
  lemma SetItemStoresValueAsKey()
    ensures Added(Store([], map[]), 7, 3).Success?
    ensures Added(Store([], map[]), 7, 3).value.heap == [Entry(7, 3)]
    ensures 3 !in Added(Store([], map[]), 7, 3).value.index
  {
    var appended := Appended(Store([], map[]), 7, 3);
    assert appended.heap == [Entry(7, 3)];
    assert BubbledUp(appended, 7) == appended;
  }

  /** An ordered heap with values 1, 5, 2, 6, 7, 3 under keys 10 to 15. */
  function Sample(): (r: Store)
  {
    Store([Entry(10, 1), Entry(11, 5), Entry(12, 2), Entry(13, 6), Entry(14, 7), Entry(15, 3)],
          map[10 := 0, 11 := 1, 12 := 2, 13 := 3, 14 := 4, 15 := 5])
  }

  lemma SampleLinked()
    ensures Linked(Sample().heap, Sample().index) && HeapOrdered(Sample().heap)
  {
    var s := Sample();
    forall j | 0 < j < |s.heap|
      ensures !Outranks(s.heap[j].value, s.heap[Parent(j)].value)
    {
      assert j == 1 || j == 2 || j == 3 || j == 4 || j == 5;
    }
  }

  /**
   * As written, deleting key 13 (value 6, slot 3) moves value 3 into slot 3
   * below value 5 in slot 1, and bubbling down leaves it there.
   */
  lemma DeletedCanBreakOrder()
    ensures Linked(Sample().heap, Sample().index) && HeapOrdered(Sample().heap)
    ensures !HeapOrdered(Deleted(Sample(), 13).heap)
  {
    SampleLinked();
    SampleDeleted();
    SampleDeletedUnordered();
  }

  /** Value 3 in slot 3 sits below value 5 in slot 1. */
  lemma SampleDeletedUnordered()
    ensures !HeapOrdered([Entry(10, 1), Entry(11, 5), Entry(12, 2), Entry(15, 3), Entry(14, 7)])
  {
    assert Parent(3) == 1;
  }

  lemma SampleDeleted()
    ensures Linked(Sample().heap, Sample().index)
    ensures Deleted(Sample(), 13).heap == [Entry(10, 1), Entry(11, 5), Entry(12, 2), Entry(15, 3), Entry(14, 7)]
  {
    SampleRelocated();
    SampleStaysPut();
    assert Sample().heap[5].key == 15;
    DeletedUnfolded(Sample(), 13);
  }

  /** Deleting key 13 from the sample moves key 15 from slot 5 into slot 3. */
  lemma SampleRelocated()
    ensures Linked(Sample().heap, Sample().index)
    ensures Relocated(Sample(), 13).heap == [Entry(10, 1), Entry(11, 5), Entry(12, 2), Entry(15, 3), Entry(14, 7)]
  {
    SampleLinked();
    var s := Sample();
    var moved := s.heap[3 := Entry(15, 3)];
    assert moved[..5] == [Entry(10, 1), Entry(11, 5), Entry(12, 2), Entry(15, 3), Entry(14, 7)];
    assert Relocated(s, 13).heap == s.heap[s.index[13] := s.heap[5]][..5];
  }

  /** In slot 3 of a five-entry list key 15 has no children, so bubbling down stops at once. */
  lemma SampleStaysPut()
    ensures Linked(Sample().heap, Sample().index)
    ensures BubbledDown(Relocated(Sample(), 13), 15) == Relocated(Sample(), 13)
  {
    SampleLinked();
    var relocated := Relocated(Sample(), 13);
    assert relocated.index[15] == 3 && |relocated.heap| == 5;
    assert Children(relocated, 15) == (None, None);
  }

  /**
   * `_delete_item` as intended: after relocating the last entry, bubble it
   * up when it outranks its new parent and down otherwise.
   */
  function DeletedRestoring(s: Store, key: int): (r: Store)
    requires Linked(s.heap, s.index)
    ensures Linked(r.heap, r.index)
    ensures key !in s.index ==> r == s
    ensures key in s.index ==>
      && |r.heap| == |s.heap| - 1
      && r.index.Keys == s.index.Keys - {key}
      && multiset(r.heap) == multiset(s.heap) - multiset{s.heap[s.index[key]]}
      && (forall k :: k in r.index ==> r.heap[r.index[k]] == s.heap[s.index[k]])
  {
    if key !in s.index then s
    else
      var n := |s.heap|;
      var lastItemKey := s.heap[n - 1].key;
      if lastItemKey == key then
        Deleted(s, key)
      else
        var clean := Cleaned(s, key);
        var p := s.index[key];
        var r := if p > 0 && Outranks(s.heap[n - 1].value, s.heap[Parent(p)].value)
          then BubbledUp(clean, lastItemKey)
          else BubbledDown(clean, lastItemKey);
        RearrangedLinked(clean, r);
        r
  }

  /**
   * The relocated state with the removed key dropped from the dictionary at
   * once: linked, one entry shorter, with the last entry in the removed
   * key's slot and every other entry under its key.
   */
  function Cleaned(s: Store, key: int): (r: Store)
    requires Linked(s.heap, s.index) && key in s.index
    requires s.heap[|s.heap| - 1].key != key
    ensures Linked(r.heap, r.index)
    ensures |r.heap| == |s.heap| - 1
    ensures r.index.Keys == s.index.Keys - {key}
    ensures multiset(r.heap) == multiset(s.heap) - multiset{s.heap[s.index[key]]}
    ensures forall k :: k in r.index ==> r.heap[r.index[k]] == s.heap[s.index[k]]
    ensures s.heap[|s.heap| - 1].key in r.index && r.index[s.heap[|s.heap| - 1].key] == s.index[key]
  {
    var relocated := Relocated(s, key);
    StaleDropped(relocated.heap, relocated.index, key);
    Store(relocated.heap, relocated.index - {key})
  }

  /** The corrected deletion keeps an ordered heap ordered, for every key. */
  lemma DeletedRestoringOrdered(s: Store, key: int)
    requires Linked(s.heap, s.index) && HeapOrdered(s.heap)
    ensures HeapOrdered(DeletedRestoring(s, key).heap)
  {
    if key in s.index {
      if s.heap[|s.heap| - 1].key == key {
        DeletedNearlyOrdered(s, key);
      } else {
        RelocatedRestoredOrdered(s, key);
      }
    }
  }

  /** When the removed key is not the last one, the corrected deletion bubbles the moved entry into an ordered list. */
  lemma RelocatedRestoredOrdered(s: Store, key: int)
    requires Linked(s.heap, s.index) && HeapOrdered(s.heap) && key in s.index
    requires s.heap[|s.heap| - 1].key != key
    ensures HeapOrdered(DeletedRestoring(s, key).heap)
  {
    var n := |s.heap|;
    var p := s.index[key];
    var restored := DeletedRestoring(s, key);
    DeletedRestoringUnfolded(s, key);
    if p > 0 && Outranks(s.heap[n - 1].value, s.heap[Parent(p)].value) {
      CleanedRisesOrdered(s, key);
      OrderedTransfer(BubbledUp(Cleaned(s, key), s.heap[n - 1].key).heap, restored.heap);
    } else {
      CleanedSinksOrdered(s, key);
      OrderedTransfer(BubbledDown(Cleaned(s, key), s.heap[n - 1].key).heap, restored.heap);
    }
  }

  /** The moved entry outranks its new parent: bubbling it up leaves an ordered list. */
  lemma CleanedRisesOrdered(s: Store, key: int)
    requires Linked(s.heap, s.index) && HeapOrdered(s.heap) && key in s.index
    requires s.heap[|s.heap| - 1].key != key
    requires s.index[key] > 0 && Outranks(s.heap[|s.heap| - 1].value, s.heap[Parent(s.index[key])].value)
    ensures HeapOrdered(BubbledUp(Cleaned(s, key), s.heap[|s.heap| - 1].key).heap)
  {
    RelocatedRises(s, key);
    BubbledUpOrdered(Cleaned(s, key), s.heap[|s.heap| - 1].key);
  }

  /** The moved entry does not outrank its new parent: bubbling it down leaves an ordered list. */
  lemma CleanedSinksOrdered(s: Store, key: int)
    requires Linked(s.heap, s.index) && HeapOrdered(s.heap) && key in s.index
    requires s.heap[|s.heap| - 1].key != key
    requires s.index[key] == 0 || !Outranks(s.heap[|s.heap| - 1].value, s.heap[Parent(s.index[key])].value)
    ensures HeapOrdered(BubbledDown(Cleaned(s, key), s.heap[|s.heap| - 1].key).heap)
  {
    RelocatedBelowParent(s, key);
    BubbledDownOrdered(Cleaned(s, key), s.heap[|s.heap| - 1].key);
  }

  /** Which way the corrected deletion bubbles the moved entry. */
  lemma DeletedRestoringUnfolded(s: Store, key: int)
    requires Linked(s.heap, s.index) && key in s.index
    requires s.heap[|s.heap| - 1].key != key
    ensures var n, p := |s.heap|, s.index[key];
      DeletedRestoring(s, key) ==
        if p > 0 && Outranks(s.heap[n - 1].value, s.heap[Parent(p)].value)
        then BubbledUp(Cleaned(s, key), s.heap[n - 1].key)
        else BubbledDown(Cleaned(s, key), s.heap[n - 1].key)
  {
  }

  /** Order carries over to an equal list; stated apart so the goal is not unfolded. */
  lemma OrderedTransfer(a: seq<Entry>, b: seq<Entry>)
    requires HeapOrdered(a) && a == b
    ensures HeapOrdered(b)
  {
  }
}
