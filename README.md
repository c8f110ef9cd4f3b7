# Indexed binary heap

A model of the `Heap` class in `src/DataStructures/Heap.py`. The class is a
binary min-heap stored as a Python list of `(key, value)` tuples, laid out
as an implicit tree: slot `i` has children `2i+1` and `2i+2`. Beside the
list it keeps a dictionary that maps each key to the slot holding it, so
any key can be looked up or deleted directly. Every swap moves two list
slots and both of their dictionary entries.

The project has three layers:

- `heap_state.dfy` (module `HeapState`) describes the two private fields as
  a value, `Store(heap, index)`. Each internal step of the class is a
  function on it: swap, parent lookup, children lookup, the bubble-down
  choice, bubble up, bubble down, add and delete. The contracts say what
  each step does to the entries and to the dictionary. Entries only move
  together with their keys, the multiset of entries is kept, and
  `Linked` holds: every slot's key maps back to that slot and every key
  maps to a slot in range.
- `heap_order.dfy` (module `HeapOrder`) adds heap order under the default
  comparator `a < b`: no child outranks its parent. It proves that bubbling
  up and bubbling down restore order from the states add and pop leave,
  that the root holds a least value, and that popping until the heap is
  empty returns every entry once, least value first.
- `heap.dfy` (module `IndexedHeap`) is the class itself. The fields `heap`
  and `dictionary` change in place. The methods run the same statements as
  the Python methods, including the `while True` loops of the two bubble
  helpers. Each method is proved to leave exactly the state the matching
  `HeapState` function computes, and it restates the user-visible results
  (lookups, length, order) in its own `ensures`.

`heap_findings.dfy` (module `HeapFindings`) holds the two places where the
code does not do what its interface suggests (see "## Findings").

Keys and values are both `int`. Python allows any hashable key and any
value. `__setitem__` passes its value where `_add_item` expects a key, so
keys and values must share one type for that call to be modelled as
written.

## Model

| member | source | states |
|---|---|---|
| IndexedHeap.Heap.constructor | src/DataStructures/Heap.py:9-15 | A new heap has an empty list and an empty dictionary, and it is linked. |
| IndexedHeap.Heap.Swap | src/DataStructures/Heap.py:52-58 | The new state is `Swapped` of the old one: the two slots are exchanged, both index entries are exchanged, and nothing else changes. |
| HeapState.Swapped | src/DataStructures/Heap.py:52-58 | The two keys' slots trade entries, their index entries trade slots, every other slot and index entry is unchanged, and the multiset of entries is the same. |
| HeapState.SwappedRearranged | src/DataStructures/Heap.py:52-58 | On a consistent state a swap keeps consistency, the key set and the multiset, and every entry stays under its key. |
| HeapState.ParentItem | src/DataStructures/Heap.py:38-41 | Nothing exactly when the key is at the root. Otherwise the result is the entry in the parent slot `(i-1)/2`, and its key maps to that slot. |
| HeapState.Parent | src/DataStructures/Heap.py:41 | The parent slot is below the child, and the child is its left or its right child. |
| HeapState.Children | src/DataStructures/Heap.py:60-65 | The left (right) child is present exactly when slot `2i+1` (`2i+2`) exists, and it is the entry in that slot. A right child implies a left child. |
| HeapState.ChildToSwap | src/DataStructures/Heap.py:73-84 | Nothing exactly when neither child outranks the item. Otherwise it picks a child that outranks the item and that no present child outranks. When both qualify, it picks the left one only if the left outranks the right. |
| IndexedHeap.Heap.BubbleUpItem | src/DataStructures/Heap.py:43-50 | The loop leaves the state `BubbledUp` computes from the old state. |
| HeapState.BubbledUp | src/DataStructures/Heap.py:43-50 | Bubbling up only rearranges: consistency, length, multiset and key set are kept, entries follow their keys, and the key's slot never increases. |
| HeapState.BubbledUpStops | src/DataStructures/Heap.py:43-50 | The loop's exit condition holds at the end: the key still holds its entry, and it sits at the root or below a parent that outranks that entry. |
| HeapOrder.BubbledUpOrdered | src/DataStructures/Heap.py:43-50 | A list ordered apart from the item's slot, whose item's parent bounds the item's children, is fully ordered after bubbling up. |
| HeapOrder.SiftUpStep | src/DataStructures/Heap.py:46-50 | One swap with a parent that does not outrank the item moves the single order exception up to the parent's slot. |
| IndexedHeap.Heap.BubbleDownItem | src/DataStructures/Heap.py:67-89 | The loop leaves the state `BubbledDown` computes from the old state. The item is read once, before the loop. |
| HeapState.BubbledDown | src/DataStructures/Heap.py:67-89 | Bubbling down only rearranges: consistency, length, multiset and key set are kept, and entries follow their keys. Keys that point past the end are left alone. The key's slot never decreases. |
| HeapState.BubbledDownStops | src/DataStructures/Heap.py:67-89 | The loop's exit condition holds at the end: the key still holds the entry read before the loop, and no child of its final slot outranks that entry. |
| HeapOrder.BubbledDownOrdered | src/DataStructures/Heap.py:67-89 | A list ordered everywhere except below the item, whose item's parent bounds the item's children, is fully ordered after bubbling down. |
| HeapOrder.NoChildOutranks | src/DataStructures/Heap.py:83-87 | When the loop stops, the edges below the item hold too, so the list is ordered. |
| HeapOrder.ChosenChildMinimal | src/DataStructures/Heap.py:73-84 | The chosen child sits in slot `2i+1` or `2i+2`, outranks the item, and is outranked by no child of the item. |
| HeapOrder.ChildSwapped | src/DataStructures/Heap.py:89 | One swap with the chosen child moves the order exception down to that child's slot. |
| HeapOrder.SiftDownStep | src/DataStructures/Heap.py:89 | The same step stated on the lists before and after the swap. |
| HeapState.Appended | src/DataStructures/Heap.py:101-103 | After the append and the dictionary assignment the state is linked, the key maps to the old length, and every old key keeps its entry. |
| IndexedHeap.Heap.AddItem | src/DataStructures/Heap.py:97-104 | A present key yields `KeyError(key)` and changes nothing. A fresh key gives the state `Added` computes: one more entry and that multiset element more. The new key finds its item, every old key finds its old value, and order is kept. |
| HeapState.Added | src/DataStructures/Heap.py:97-104 | Failure exactly for a present key, with `KeyError(key)`. On success the state is linked, has one more entry, gains that entry in the multiset and the key in the key set, the key's slot holds it, and every old entry follows its key. |
| HeapState.AppendedBubbledUp | src/DataStructures/Heap.py:101-104 | The same facts for the append followed by bubbling up, stated against the state before the call. |
| HeapState.AddedLookup | src/DataStructures/Heap.py:97-104 | After adding, the new key finds its entry and every old key finds its own. |
| HeapOrder.AddedOrdered | src/DataStructures/Heap.py:97-104 | Adding a fresh key to an ordered heap succeeds and leaves it ordered. |
| IndexedHeap.Heap.Add | src/DataStructures/Heap.py:129-131 | With a fresh key, the state is `Added` of the old one, the length grows by one, the key finds the item, and order is kept. |
| IndexedHeap.Heap.SetItem | src/DataStructures/Heap.py:17-18 | As written: it succeeds exactly when `value` is not yet a key, and then the state is `Added(old, value, key)`, so looking up `value` gives `key`. |
| IndexedHeap.Heap.SetItemIntended | src/DataStructures/Heap.py:17-18 | Corrected: it succeeds exactly when `key` is fresh, and then the state is `Added(old, key, value)`: one more entry, that entry in the multiset, `key` finds `value`, and every old key finds its old value. |
| IndexedHeap.Heap.GetItem | src/DataStructures/Heap.py:20-24 | Nothing exactly when no slot holds the key. Otherwise `(key, result)` is in the list. |
| IndexedHeap.Heap.DelItem | src/DataStructures/Heap.py:26-30 | The new state is `Deleted` of the old one. An absent key changes nothing. |
| IndexedHeap.Heap.Len | src/DataStructures/Heap.py:32-33 | The length of the list, which equals the number of keys in the dictionary. |
| HeapState.LinkedSize | src/DataStructures/Heap.py:32-33 | In a linked state the dictionary has as many keys as the list has entries. |
| HeapState.Relocated | src/DataStructures/Heap.py:110-116 | Swapping the last entry into the removed key's slot and truncating gives a consistent state one shorter. The list is the old one with that slot overwritten by the last entry. The removed key points one past the end, the last key points to the vacated slot, the removed entry leaves the multiset, and every other key keeps its entry. |
| HeapState.MovedLastMultiset | src/DataStructures/Heap.py:115-116 | Overwriting slot `p` with the last entry and dropping the last slot removes exactly the entry in `p` from the multiset. |
| HeapState.TruncatedMultiset | src/DataStructures/Heap.py:113 | `list.pop()` removes exactly the last entry from the multiset. |
| HeapState.LastTruncated | src/DataStructures/Heap.py:112-113 | Removing the last entry together with its key leaves a linked state that lost exactly that entry and that key, with every other key under its old entry. |
| HeapState.RelocatedBubbledDown | src/DataStructures/Heap.py:115-119 | After bubbling the moved entry down, dropping the removed key gives a linked state with the other keys and their entries. |
| HeapState.StaleDropped | src/DataStructures/Heap.py:119 | Deleting the one key that points past the end leaves a linked state. |
| IndexedHeap.Heap.DeleteItem | src/DataStructures/Heap.py:106-119 | An absent key changes nothing. Otherwise the state is `Deleted` of the old one: one entry fewer, the key is gone, its entry leaves the multiset, and every other key finds its old value. An ordered heap stays ordered except possibly at the removed key's old slot. |
| HeapState.Deleted | src/DataStructures/Heap.py:106-119 | The result is linked. An absent key leaves the state as it was. A present key loses its entry from the list, the multiset and the key set, and every remaining key keeps its entry. |
| HeapState.DeletedUnfolded | src/DataStructures/Heap.py:114-117 | When the removed key is not the last one, the resulting list is what bubbling the relocated entry down leaves. |
| IndexedHeap.DeletedLookup | src/DataStructures/Heap.py:106-119 | After deleting, every remaining key finds the value it had before. |
| HeapOrder.DeletedNearlyOrdered | src/DataStructures/Heap.py:106-119 | Deleting from an ordered heap keeps every edge except possibly the one into the removed key's slot. When that slot was the root or the last slot, the list stays fully ordered. |
| HeapOrder.RelocatedBelowParent | src/DataStructures/Heap.py:115-117 | When the moved entry does not outrank its new parent, bubbling down starts from a list ordered above that slot. |
| HeapOrder.RelocatedAboveParent | src/DataStructures/Heap.py:115-117 | When the moved entry outranks its new parent, the list after deletion is ordered except at that slot. |
| HeapOrder.RelocatedRises | src/DataStructures/Heap.py:115-116 | In that case the relocated list is ordered apart from that slot, and the slot's parent bounds its children. |
| HeapOrder.RelocatedStaysPut | src/DataStructures/Heap.py:117 | In that case bubbling down moves nothing. |
| IndexedHeap.Heap.Pop | src/DataStructures/Heap.py:121-127 | An empty heap gives nothing and is unchanged. Otherwise the result is the root's value and the state is `Deleted` of the root key, one entry shorter. Order is kept, and on an ordered heap no old value outranks the result. |
| HeapOrder.PoppedOrdered | src/DataStructures/Heap.py:121-127 | Popping an ordered heap leaves it ordered. |
| HeapOrder.PoppedRoot | src/DataStructures/Heap.py:125-126 | Popping removes exactly the root entry from the multiset. |
| HeapOrder.RootIsMinimum | src/DataStructures/Heap.py:121-127 | In an ordered list no entry outranks the root. |
| HeapOrder.RootBoundsEntries | src/DataStructures/Heap.py:121-127 | No entry drawn from an ordered list outranks its root. |
| HeapOrder.PoppedEntriesPermutation | src/DataStructures/Heap.py:121-127 | Popping until empty returns every entry exactly once. |
| HeapOrder.PoppedEntriesSorted | src/DataStructures/Heap.py:121-127 | Popping an ordered heap until empty returns the entries least value first. |
| IndexedHeap.Heap.Items | src/DataStructures/Heap.py:133-134 | One value per slot, in list order. |
| IndexedHeap.Heap.Peak | src/DataStructures/Heap.py:136-137 | Nothing exactly on an empty heap, otherwise the root's value. On an ordered heap no value in `Items()` outranks it. |
| IndexedHeap.RootsValueLeast | src/DataStructures/Heap.py:136-137 | On an ordered non-empty list every value is at least the root's. |
| HeapFindings.SetItemStoresValueAsKey | src/DataStructures/Heap.py:17-18 | `h[3] = 7` on an empty heap stores key 7 with value 3, and key 3 is not found. |
| HeapFindings.DeletedCanBreakOrder | src/DataStructures/Heap.py:106-119 | An ordered, linked heap where deleting key 13 leaves a list that is not ordered. |
| HeapFindings.SampleLinked | src/DataStructures/Heap.py:106-119 | The sample heap is linked and ordered. |
| HeapFindings.SampleDeleted | src/DataStructures/Heap.py:106-119 | Deleting key 13 from the sample gives the list with value 3 in slot 3, below value 5. |
| HeapFindings.SampleRelocated | src/DataStructures/Heap.py:110-116 | Relocation moves key 15 into slot 3 of a five-entry list. |
| HeapFindings.SampleStaysPut | src/DataStructures/Heap.py:117 | Bubbling key 15 down from slot 3 of five moves nothing. |
| HeapFindings.SampleDeletedUnordered | src/DataStructures/Heap.py:106-119 | That list is not ordered. |
| HeapFindings.DeletedRestoring | src/DataStructures/Heap.py:106-119 | Corrected deletion, with the same structural results as `Deleted`: it is linked, an absent key changes nothing, and a present key loses its entry from the list, the multiset and the key set while every remaining key keeps its entry. |
| HeapFindings.Cleaned | src/DataStructures/Heap.py:110-116 | Relocating the last entry and dropping the removed key at once gives a linked state one entry shorter, without that key or its entry, where the last key maps to the vacated slot and every other key keeps its entry. |
| HeapFindings.DeletedRestoringOrdered | src/DataStructures/Heap.py:106-119 | The corrected deletion keeps an ordered heap ordered, for every key. |
| HeapFindings.DeletedRestoringUnfolded | src/DataStructures/Heap.py:114-117 | When the removed key is not the last one, the corrected deletion bubbles the moved entry up exactly when it outranks its new parent, and down otherwise. |
| HeapFindings.RelocatedRestoredOrdered | src/DataStructures/Heap.py:114-117 | In that case the corrected deletion leaves an ordered heap ordered. |
| HeapFindings.CleanedRisesOrdered | src/DataStructures/Heap.py:114-117 | When the moved entry outranks its new parent, bubbling it up leaves the list ordered. |
| HeapFindings.CleanedSinksOrdered | src/DataStructures/Heap.py:114-117 | When it does not, bubbling it down leaves the list ordered. |
| HeapState.RearrangedLinked | src/DataStructures/Heap.py:43-89 | Rearranging a linked state keeps it linked, with every entry under its key. |
| HeapState.RearrangedTransitive | src/DataStructures/Heap.py:43-89 | Two rearrangements in a row are one rearrangement. |
| HeapState.FollowsTransitive | src/DataStructures/Heap.py:43-104 | Entries that follow their keys through two steps follow them through both. |

## Left out

- `__get_uuid` and the `uuid` module: `add` draws a random fresh key. The model takes the key as a parameter and asks for it to be fresh (`IndexedHeap.Heap.Add` requires `key !in dictionary`).
- The comparator parameter of `__init__`: the model fixes it to the default `a < b` (`HeapState.Outranks`). Order results hold only for that comparator.
- Key and value types: Python keys may be `str` or `int`, and values may be anything, including `None`. The model uses `int` for both, so a stored `None` that `__getitem__` or `pop` could not tell from "absent" is not modelled.
- `__iter__`: it returns a Python iterator over the list, and iteration protocol is not modelled. `Items` covers the values in list order.
- `__repr__` and `__display_aux`: text layout for printing. They are not modelled.
- The `KeyError` message text: the model keeps the key in `KeyError(key)` but not the formatted message.
- IndexedHeap.Heap.DeleteItem: it does not promise full order after deleting a key that is neither the root nor the last entry, because the code does not give it (see "## Findings"). That is weaker than a heap interface suggests.

## Findings

| source | as written | input that shows it | evidently intended | confidence | as-written member | corrected member |
|---|---|---|---|---|---|---|
| src/DataStructures/Heap.py:17-18 | `__setitem__(key, value)` calls `_add_item(value, key)`, so the value becomes the key | `h[3] = 7` on an empty heap: afterwards `h[3]` is `None` and `h[7]` is `3` | `_add_item(key, value)`, so that `h[3]` is `7` | not executed | IndexedHeap.Heap.SetItem, HeapFindings.SetItemStoresValueAsKey | IndexedHeap.Heap.SetItemIntended |
| src/DataStructures/Heap.py:112-117 | `_delete_item` only bubbles the relocated last entry down, never up | values 1, 5, 2, 6, 7, 3 under keys 10 to 15; delete key 13: value 3 lands in slot 3 below value 5 | bubble the moved entry up when it outranks its new parent, so order holds after every deletion | not executed | HeapState.Deleted, HeapFindings.DeletedCanBreakOrder | HeapFindings.DeletedRestoring, HeapFindings.DeletedRestoringOrdered |

The class keeps both behaviours as written. `SetItem` and `DeleteItem`
follow the Python code. `SetItemIntended` and `DeletedRestoring` sit beside them
with the intended properties proved. `pop` is unaffected by the second
finding, because it always deletes the root, and `DeletedNearlyOrdered`
proves the root case fully ordered.
