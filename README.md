# An adaptable min-priority queue on a linked complete binary tree

This project models `MyHeap`, an adaptable priority queue over integer
keys, and proves properties of the model. `insert` hands back an entry
object. Later, `remove`, `replaceKey` and `replaceValue` can name that
entry again. Each entry records the tree position that holds it.

The heap sits on `MyLinkedHeapTree`, a complete binary tree made of
linked nodes. That tree keeps three things:

- the linked tree itself;
- a deque `line` of the positions that can still take a child, with the
  newest node at the back;
- a node counter `node_num`.

The model is in nine Dafny modules:

- `LinkedTree`
  - The tree as an arena of nodes, where a node is named by its index
    and -1 stands for null.
  - The library operations the tree uses, as pure functions. A library
    exception becomes a `TreeError` value.
  - `add` and `remove` as written, plus a corrected `remove`.
  - The class `LinkedHeapTree`, whose methods update the fields in
    place. Each method is proved against the function for its operation.
- `Entries`
  - `MyHeapEntry` as a class with key, value and position fields.
- `HeapModel`
  - Every method of `MyHeap` as a function on the heap's state: the
    tree, `node_num`, and the entries handed out so far.
  - A handle is the index of an entry. Tree nodes hold handles, and
    each entry's `pos` names its node.
  - Each function follows the source branch by branch, including every
    exception it can throw.
- `HeapOrder`
  - Heap order and the "hole" invariants that `upHeap` and `downHeap`
    work through.
  - Proofs that both procedures restore heap order.
- `HeapProps`
  - The heap invariant `Valid`: a complete tree with a correct deque,
    heap order, every entry knowing its node, and `node_num` matching
    the tree.
  - What every operation does to that invariant, as written and as
    corrected.
- `AdaptableHeap`
  - `MyHeap` as a class with the same methods. Each method ends in the
    state and reply computed by its `HeapModel` function.
- `TreeShape`, `TreeScenarios`, `HeapScenarios`, `DrainScenario`
  - Shape lemmas about the tree.
  - The test histories of the repository, replayed on the model.
  - The inputs that expose the defects listed under Findings.

Things the model fixes:

- Keys are mathematical integers compared with `<`.
- A key argument is an integer, `null`, or a value the comparator
  rejects (`KeyArg`).
- An entry argument is `null`, a foreign `Entry`, or a handle of this
  heap (`EntryArg`).
- `setComparator` throws on every path (MyHeap.java:48-58): it throws
  `IllegalArgumentException` for `null` and `IllegalStateException`
  otherwise. The model follows that code.

## Model

| member | source | states |
|---|---|---|
| Entries.NewEntry | MyHeapEntry.java:26-29 | A new entry carries the given key and value and no position yet. |
| Entries.HeapEntry.constructor | MyHeapEntry.java:26-29 | The object starts with the given key, the given value and no position. |
| Entries.HeapEntry.GetKey | MyHeapEntry.java:34-36 | Returns the stored key. |
| Entries.HeapEntry.GetValue | MyHeapEntry.java:41-43 | Returns the stored value. |
| Entries.HeapEntry.SetValue | MyHeapEntry.java:45-47 | Only the value changes, and it becomes the argument. |
| Entries.HeapEntry.SetKey | MyHeapEntry.java:49-51 | Only the key changes, and it becomes the argument. |
| Entries.HeapEntry.SetPos | MyHeapEntry.java:53-55 | Only the position changes, and it becomes the argument. |
| Entries.HeapEntry.GetPos | MyHeapEntry.java:57-59 | Returns the stored position. |
| Entries.SetKeyThenGet | MyHeapEntry.java:34-51 | setKey then getKey yields the new key; the value and the position are untouched. |
| Entries.SetValueThenGet | MyHeapEntry.java:41-47 | setValue then getValue yields the new value; the key and the position are untouched. |
| Entries.SetPosThenGet | MyHeapEntry.java:53-59 | setPos then getPos yields the new position; the key and the value are untouched. |
| LinkedTree.SwapElements | MyLinkedHeapTree.java:118-120 | The two nodes trade payloads. No link changes, and every other node stays the same. |
| LinkedTree.Detach | MyLinkedHeapTree.java:99-108 | The library's remove of a node. A failure changes nothing. A success needs a leaf and returns its payload. Either way the deque and the count are kept and links are only cut. |
| LinkedTree.UpdatedLine | MyLinkedHeapTree.java:148-152 | updateList either keeps the deque or drops exactly its front. |
| LinkedTree.AddNode | MyLinkedHeapTree.java:54-75 | add keeps the tree well formed. The new node is the next arena slot and holds the element. It is at the back of the deque, count grows by one and the payloads gain exactly the element. A failure changes nothing. |
| LinkedTree.RemoveLast | MyLinkedHeapTree.java:86-110 | remove as written. It throws EmptyTree exactly on an empty tree, and then changes nothing. On success count drops by one, the tree stays well formed, the returned element was in the tree and links are only cut. |
| LinkedTree.RemoveIntended | MyLinkedHeapTree.java:97-109 | The corrected remove, which puts the parent back on the deque after its right child goes. It throws EmptyTree exactly on an empty tree. On success count drops by one, the tree stays well formed, the returned element was in the tree and links are only cut. |
| LinkedTree.LinkedHeapTree.constructor | MyLinkedHeapTree.java:35-38 | A new tree is empty, with an empty deque and node_num 0. |
| LinkedTree.LinkedHeapTree.RemoveNode | MyLinkedHeapTree.java:102-108 | Removing a node in place ends in the state and result of Detach. |
| LinkedTree.LinkedHeapTree.UpdateList | MyLinkedHeapTree.java:148-152 | The deque ends as UpdatedLine of the old deque. |
| LinkedTree.LinkedHeapTree.Add | MyLinkedHeapTree.java:54-75 | add in place ends in AddNode's state and result. The ghost level order gains the new node. |
| LinkedTree.LinkedHeapTree.Remove | MyLinkedHeapTree.java:86-110 | remove in place ends in RemoveLast's state and result. The ghost level order loses its last node, or is emptied when the tree is. |
| LinkedTree.LinkedHeapTree.Size | MyLinkedHeapTree.java:114-116 | Returns node_num. |
| LinkedTree.LinkedHeapTree.Swap | MyLinkedHeapTree.java:118-120 | Two valid positions trade payloads (SwapElements). Otherwise it fails with InvalidPosition and changes nothing. |
| LinkedTree.LinkedHeapTree.ReturnMin | MyLinkedHeapTree.java:122-124 | Returns the root's payload, and throws on an empty tree. |
| LinkedTree.LinkedHeapTree.ReturnNewest | MyLinkedHeapTree.java:126-128 | Returns the back of the deque (a valid position), and throws when the deque is empty. |
| LinkedTree.LinkedHeapTree.Root | MyLinkedHeapTree.java:130-132 | Returns the root position exactly when there is one. |
| LinkedTree.LinkedHeapTree.Right | MyLinkedHeapTree.java:134-141 | Returns the right child, or null when there is none. An invalid position throws. |
| LinkedTree.LinkedHeapTree.Left | MyLinkedHeapTree.java:143-145 | Returns the left child. A missing left child is the library's boundary violation. |
| LinkedTree.LinkedHeapTree.Downheap | MyLinkedHeapTree.java:154-161 | Swaps the payloads with the left child for j < 0 and with the right child otherwise. It fails and changes nothing when that child is missing. |
| TreeShape.AddKeepsFrontier | MyLinkedHeapTree.java:54-75 | On a complete tree whose deque is right, add always succeeds. The new node takes the next level-order place and the deque is right again. |
| TreeShape.RemoveKeepsLevelOrder | MyLinkedHeapTree.java:86-110 | remove returns the payload of the last node in level order and leaves a complete tree of the other nodes. It also gives the exact deque it leaves. |
| TreeShape.AddThenRemove | MyLinkedHeapTree.java:54-110 | On any well-formed tree where no node has a right child without a left one and add succeeds, add followed by remove gives back the element just added. It restores the count and leaves every earlier node exactly as it was. |
| TreeShape.AddThenRemoveShape | MyLinkedHeapTree.java:54-110 | On a complete tree with its deque right, add followed by remove also gives back the same level order. |
| TreeShape.RemoveLastLosesFrontier | MyLinkedHeapTree.java:98-103 | As written, removing a right child (odd count, at least 3) leaves its parent off the deque. The deque invariant is then broken. |
| TreeShape.RemoveThenAddLeavesGap | MyLinkedHeapTree.java:61-109 | After that removal the next add hangs the new node under the following node. The right slot that was just freed stays empty. |
| TreeShape.TwoRemovesRestoreFrontier | MyLinkedHeapTree.java:98-109 | Two removes in a row, from an odd count, return the last two nodes' payloads. They leave a correct deque again. |
| TreeShape.RemoveIntendedKeepsFrontier | MyLinkedHeapTree.java:97-109 | The corrected remove returns the last node's payload and always keeps the deque right. |
| TreeScenarios.AddAllKeepsFrontier | MyLinkedHeapTree.java:54-75 | Any run of adds keeps the complete shape and the deque. The payloads are extended by the added elements, in order. |
| TreeScenarios.AddsInArenaOrder | MyLinkedHeapTree.java:54-75 | From an empty tree, n adds build a complete tree whose level order is 0 .. n-1. The payloads are the added elements. |
| TreeScenarios.DrainOddInReverse | MyLinkedHeapTree.java:86-110 | From a complete tree of odd size with a right deque, removing every node returns the payloads in reverse level order and empties the tree. |
| TreeScenarios.OddAddsDrainInReverse | MyLinkedHeapTree.java:86-110 | An odd number of adds followed by as many removes gives the elements back in reverse order and empties the tree. |
| TreeScenarios.SevenAddsDrainInReverse | MyLinkedHeapTreeTest.java:91-131 | Adding 1..7 and removing seven times returns 7, 6, ..., 1. After i removes the size is 7 - i. |
| TreeScenarios.DrainCounts | MyLinkedHeapTree.java:86-110 | When k removes in a row all succeed, the count after i of them is down by exactly i. |
| TreeScenarios.EightAddsSixthRemoveFails | MyLinkedHeapTree.java:98-109 | Adding 1..8 and removing five times leaves a tree whose sixth remove throws, with two nodes still counted. |
| TreeScenarios.RemoveFromStaleBack | MyLinkedHeapTree.java:98-108 | A remove whose deque back names a detached node throws the library's boundary violation. |
| HeapModel.Swap | MyLinkedHeapTree.java:118-120 | Swapping two nodes of the heap's tree trades their entries and keeps the entries' own records. |
| HeapModel.Exchange | MyHeap.java:269-272 | A downHeap or upHeap step trades two nodes' entries. It sets both entries' positions to their new nodes, moves keys with entries and leaves every other entry and node alone. |
| HeapModel.UpSpec | MyHeap.java:316-328 | upHeap only moves entries between nodes. Its ordering effect is in HeapOrder.UpRestores and HeapProps.SiftsUp. |
| HeapModel.DownSpec | MyHeap.java:260-314 | downHeap only moves entries between nodes. Its ordering effect is in HeapOrder.DownRestores and HeapProps.SiftsDown. |
| HeapModel.DownTwo | MyHeap.java:265-288 | The two-children branch of downHeap only moves entries between nodes. |
| HeapModel.DownOne | MyHeap.java:290-313 | The one-child branches of downHeap only move entries between nodes. |
| HeapModel.Retest | MyHeap.java:277-287 | The right-child test of downHeap only moves entries between nodes. |
| HeapModel.InsertSpec | MyHeap.java:121-136 | A bad key throws InvalidKey and changes nothing. On success insert returns a fresh handle whose entry has the given key and value, and the size grows by one. |
| HeapModel.TakeLast | MyHeap.java:149-151 | Swap then remove keeps the entries. On success node_num and the tree count drop by one and the removed handle is an entry. |
| HeapModel.RemoveMinSpec | MyHeap.java:145-161 | removeMin throws EmptyPriorityQueue exactly on an empty heap, and then changes nothing. |
| HeapModel.RemoveSpec | MyHeap.java:171-186 | remove throws InvalidEntry for anything but an entry of this heap and EmptyPriorityQueue on an empty heap. In both cases it changes nothing. |
| HeapModel.TakeLastIntended | MyHeap.java:149-153 | Like TakeLast, but the entry moved into the hole is told its node. |
| HeapModel.RemoveMinIntended | MyHeap.java:145-161 | Corrected removeMin. It throws exactly on an empty heap. |
| HeapModel.RemoveEntryIntended | MyHeap.java:171-186 | Corrected remove. It re-points the moved entry and sifts up or down. The error cases are those of RemoveSpec. |
| HeapModel.ReplaceKeySpec | MyHeap.java:198-221 | The error cases are an incomparable key, a null key reaching the comparator and a null or foreign entry. Otherwise the entry gets the new key and a returned value is the old key. |
| HeapModel.ReplaceValueSpec | MyHeap.java:232-240 | A null or foreign entry throws InvalidEntry. Otherwise it returns the old value and only that entry's value changes. |
| HeapModel.MinSpec | MyHeap.java:105-110 | min throws exactly on an empty heap. Otherwise it returns an entry of this heap. |
| HeapModel.SetComparatorSpec | MyHeap.java:48-58 | setComparator always throws: IllegalArgument exactly for null, IllegalState otherwise. |
| HeapOrder.UpRestores | MyHeap.java:316-328 | upHeap from a node that is the only one possibly smaller than its parent ends with Pass. It leaves the whole tree heap-ordered. |
| HeapOrder.DownRestores | MyHeap.java:260-314 | downHeap from a node that is the only one possibly larger than its children ends with Pass. It leaves the whole tree heap-ordered. |
| HeapOrder.RetestOrdered | MyHeap.java:277-287 | On a heap-ordered tree the right-child test of downHeap does nothing. |
| HeapProps.ExchangeKeeps | MyHeap.java:269-272 | Exchanging two nodes of a complete tree keeps the shape. It only permutes the entries held. |
| HeapProps.UpKeeps | MyHeap.java:316-328 | upHeap from any node keeps the same multiset of entries held. If every entry knew its node before, each still does. |
| HeapProps.DownKeeps | MyHeap.java:260-314 | downHeap on a complete tree never hits a missing child and keeps the same multiset of entries held. If every entry knew its node before, each still does. |
| HeapProps.SiftsUp | MyHeap.java:316-328 | upHeap from an up-hole gives Pass, heap order, the same complete shape and the same entries. |
| HeapProps.SiftsDown | MyHeap.java:260-314 | downHeap from a down-hole gives Pass, heap order, the same complete shape and the same entries. |
| HeapProps.RootIsLeast | MyHeap.java:105-110 | In a heap-ordered complete tree the root's key is no larger than any node's key. |
| HeapProps.MinIsLeast | MyHeap.java:105-110 | On a valid non-empty heap, min returns the root's entry. That entry knows it is at the root and has the least key of all entries held. |
| HeapProps.InsertKeeps | MyHeap.java:121-136 | insert on a valid heap returns the new handle. The heap stays valid and holds exactly one more entry, with the given key and value. No other key or value changes. |
| HeapProps.RemoveMinAsWritten | MyHeap.java:145-161 | removeMin on a valid non-empty heap returns an entry of least key. What remains holds exactly the other entries, with keys and values unchanged, in heap order. |
| HeapProps.RemoveAsWritten | MyHeap.java:171-186 | remove of a held entry returns it and the rest holds exactly the other entries. Heap order is kept when the moved entry is no smaller than the hole's parent. |
| HeapProps.RemoveMinIntendedKeeps | MyHeap.java:145-161 | Corrected removeMin returns an entry of least key and leaves a valid heap of exactly the other entries. |
| HeapProps.RemoveIntendedKeeps | MyHeap.java:171-186 | Corrected remove returns the entry and leaves a valid heap of exactly the other entries. |
| HeapProps.ReplaceKeyKeeps | MyHeap.java:198-221 | replaceKey on a held entry returns the old key. The heap stays valid with the same entries, the entry has the new key, and nothing else changes. |
| HeapProps.ReplaceValueKeeps | MyHeap.java:232-240 | replaceValue on a held entry returns the old value. The heap stays valid with the same entries in the same nodes, and no key or position changes. |
| HeapScenarios.RemoveTwiceThrows | MyHeapTest.java:192-199 | After insert(k, v) on a new heap, removing its entry returns it. Removing it again throws EmptyPriorityQueue. |
| HeapScenarios.FirstInsert | MyHeapTest.java:47-55 | Inserting key 1 into a new heap returns handle 0 and gives a one-node tree. |
| HeapScenarios.SecondInsert | MyHeap.java:121-136 | Inserting key 2 next returns handle 1 as the root's left child. |
| HeapScenarios.RemoveMinLeavesStale | MyHeap.java:149-153 | removeMin on that heap returns entry 0. Entry 1 moves to the root but still records node 1. |
| HeapScenarios.StaleEntryRemovedTwice | MyHeap.java:171-186 | remove of entry 1 then swaps at the stale node and returns entry 0 again, the entry removeMin already handed out. |
| HeapScenarios.RemoveMinIntendedTracks | MyHeap.java:145-161 | Corrected removeMin on the same heap returns entry 0, and entry 1 records the root. |
| HeapScenarios.EachEntryRemovedOnce | MyHeap.java:171-186 | Corrected remove of entry 1 then returns entry 1 and empties the heap. |
| HeapScenarios.SevenValid | MyHeap.java:121-136 | The heap with keys 1; 10, 2; 11, 12, 3, 4 in level order satisfies the full heap invariant. |
| HeapScenarios.RemoveLeavesDisorder | MyHeap.java:181-184 | On a valid heap of seven entries, remove of the entry of key 11 moves key 4 into its node, below key 10. The result is not heap-ordered. |
| HeapScenarios.MovedEntryStale | MyHeap.java:176-179 | After that remove, the entry of key 4 sits at node 3 but still records node 6. Removing it next returns the entry of key 11 a second time. |
| HeapScenarios.RemoveIntendedKeepsOrder | MyHeap.java:171-186 | Corrected remove on the same heap returns the entry and leaves a valid, heap-ordered heap of six. |
| DrainScenario.InsertsBuild | MyHeapTest.java:93-97 | Inserting 11, 13, 64, 16, 44 into a new heap builds exactly the tree of Built5. |
| DrainScenario.BuildEleven | MyHeapTest.java:93 | The first insert returns handle 0 at the root. |
| DrainScenario.BuildThirteen | MyHeapTest.java:94 | The second insert returns handle 1 as the root's left child, with no move. |
| DrainScenario.BuildSixtyFour | MyHeapTest.java:95 | The third insert returns handle 2 as the root's right child, and the root leaves the deque. |
| DrainScenario.BuildSixteen | MyHeapTest.java:96 | The fourth insert returns handle 3 under node 1, with no move. |
| DrainScenario.BuildFortyFour | MyHeapTest.java:97 | The fifth insert returns handle 4 under node 1, with no move. |
| DrainScenario.DrainFirst | MyHeapTest.java:101 | The first removeMin returns the entry of key 11; 44 sinks past 13 and 16. |
| DrainScenario.DrainSecond | MyHeapTest.java:102 | The second removeMin returns the entry of key 13. |
| DrainScenario.DrainThird | MyHeapTest.java:103 | The third removeMin returns the entry of key 16. |
| DrainScenario.DrainFourth | MyHeapTest.java:104 | The fourth removeMin returns the entry of key 44. |
| DrainScenario.DrainFifth | MyHeapTest.java:105 | The fifth removeMin returns the entry of key 64 and leaves node_num and the tree count at 0. |
| AdaptableHeap.Heap.constructor | MyHeap.java:35-38 | A new heap has an empty tree, no entries and node_num 0. |
| AdaptableHeap.Heap.Size | MyHeap.java:81-83 | Returns node_num. |
| AdaptableHeap.Heap.IsEmpty | MyHeap.java:91-96 | True exactly when node_num is 0. |
| AdaptableHeap.Heap.Min | MyHeap.java:105-110 | Returns MinSpec of the current state. |
| AdaptableHeap.Heap.SetComparator | MyHeap.java:48-58 | Returns SetComparatorSpec, so it always throws. |
| AdaptableHeap.Heap.Relocate | MyHeap.java:269-270 | The setPos pair of a swap step: each of the two nodes' entries records the other node. |
| AdaptableHeap.Heap.UpHeap | MyHeap.java:316-328 | The loop of upHeap ends in UpSpec's state and outcome. |
| AdaptableHeap.Heap.DownHeap | MyHeap.java:260-314 | The recursive downHeap ends in DownSpec's state and outcome. |
| AdaptableHeap.Heap.DownBoth | MyHeap.java:265-288 | The two-children branch ends in DownTwo's state and outcome. |
| AdaptableHeap.Heap.DownSingle | MyHeap.java:290-313 | The one-child branches end in DownOne's state and outcome. |
| AdaptableHeap.Heap.DownRight | MyHeap.java:277-287 | The right-child test ends in Retest's state and outcome. |
| AdaptableHeap.Heap.Insert | MyHeap.java:121-136 | insert ends in InsertSpec's state and reply. |
| AdaptableHeap.Heap.Climb | MyHeap.java:130-135 | After the new node is added, insert's tail (setPos, node_num, upHeap) ends as InsertSpec says. |
| AdaptableHeap.Heap.SwapAndRemove | MyHeap.java:150-151 | Swap then remove ends in TakeLast's tree and result. |
| AdaptableHeap.Heap.RemoveMin | MyHeap.java:145-161 | removeMin ends in RemoveMinSpec's state and reply. |
| AdaptableHeap.Heap.Remove | MyHeap.java:171-186 | remove ends in RemoveSpec's state and reply. |
| AdaptableHeap.Heap.Settle | MyHeap.java:179-185 | remove's tail (setPos, node_num, downHeap) ends as RemoveSpec says. |
| AdaptableHeap.Heap.ReplaceKey | MyHeap.java:198-221 | replaceKey ends in ReplaceKeySpec's state and reply. |
| AdaptableHeap.Heap.ReplaceValue | MyHeap.java:232-240 | replaceValue ends in ReplaceValueSpec's state and reply. |

## Left out

- The linked-tree and deque library is modelled only through the operations the tree calls.
  - Library exceptions are `TreeError` values.
  - The library's `remove` is modelled only for leaves. On a node with one child the model returns `NotALeaf`, where the library would promote the child. That the node removed is a leaf is proved only for complete trees with their deque right (TreeShape.RemoveKeepsLevelOrder returns `Ok`). After the broken-deque histories of Findings, the model may fail with `NotALeaf` where the library would go on.
- Positions are arena indices. A removed node stays in the arena, unlinked. When the last node goes, the tree is reset but the arena keeps its old nodes, so a stale position never names a new node.
- Entries are a table indexed by handle, not shared objects.
  - The heap methods take handles, and `EntryArg` separates null, foreign and own entries.
  - An entry of another `MyHeap` (a `MyHeapEntry` this heap never made) is not modelled.
- `checkAndConvertEntry` (MyHeap.java:252-258) is modelled by `EntryArg`, not as a separate member.
- Comparators are not objects.
  - Keys are integers compared by `<`.
  - A comparator's `NullPointerException` or `ClassCastException` is chosen by `KeyArg`.
  - `setComparator` is modelled only by what it throws, since it never returns normally.
- `getTree` (MyHeap.java:71-73) returns the internal tree object and is not modelled.
- The running-time bounds the comments ask for are not modelled.
- `node_num` is an unbounded integer; Java `int` overflow after 2^31 inserts is not modelled.
- HeapProps.RemoveMinAsWritten: it does not state that every remaining entry records its node, nor that the deque stays right, because as written neither holds (see Findings).
- HeapProps.RemoveAsWritten: heap order is stated only when the moved entry is no smaller than the parent of the hole. The deque and the positions are not stated, because as written they do not hold in general (see the Findings rows for MyHeap.java:176-179 and MyHeap.java:181-184).
- DrainScenario: the drain loop at MyHeapTest.java:76-78 is modelled as the five separate removeMin calls of MyHeapTest.java:101-105; the `isEmpty` loop itself is not replayed.
- The eight-insert, five-remove history of MyHeapTest.java:168-187 is not replayed; each step would be a literal state as in DrainScenario. Other test histories not listed under Model are not replayed either.

## Findings

| source | as written | input that shows it | evidently intended | confidence | as-written member | corrected member |
|---|---|---|---|---|---|---|
| MyLinkedHeapTree.java:98-109 | When the last node is a right child, remove leaves its parent off the deque. When it is a left child, remove pushes the parent onto the front a second time. | Add 1, 2, 3, remove, add 4: node 4 hangs under node 1 while the root's right slot is empty. Add 1..8 and remove five times: the sixth remove throws. | The parent goes back to the front of the deque only after its right child is removed. | not executed | TreeShape.RemoveLastLosesFrontier | TreeShape.RemoveIntendedKeepsFrontier |
| MyHeap.java:149-153 | removeMin never updates the position of the entry it moves to the root (line 152 is commented out). | Insert 1, insert 2, removeMin, then remove the entry of key 2: the entry of key 1 is returned a second time. | The moved entry records the root before downHeap runs. | not executed | HeapScenarios.StaleEntryRemovedTwice | HeapProps.RemoveMinIntendedKeeps |
| MyHeap.java:176-179 | remove never updates the position of the entry it moves from the last node into the freed node. Line 179 only re-sets the removed entry's own position. | Level order 1; 10, 2; 11, 12, 3, 4. Remove the entry of key 11, then remove the entry of key 4: the second remove returns the entry of key 11 again. | The moved entry records the freed node. | not executed | HeapScenarios.MovedEntryStale | HeapProps.RemoveIntendedKeeps |
| MyHeap.java:181-184 | remove only sifts down from the hole, so a moved entry smaller than the hole's parent stays below it. | Level order 1; 10, 2; 11, 12, 3, 4, remove the entry of key 11: key 4 ends up under key 10. | Sift up or down from the hole, as the moved key requires. | not executed | HeapScenarios.RemoveLeavesDisorder | HeapProps.RemoveIntendedKeeps |
