# Verified model of the data-structures-csharp containers

This project models the hand-written containers of the C# repository
data-structures-csharp in Dafny and proves their contracts:

- **Access-count self-organising list.** A doubly-linked list in which every
  successful lookup bumps the found node's access counter. The node is then
  swapped forward past every predecessor whose counter is strictly smaller.
  The headline result is that the counters, read front to back, never increase
  after any `Add`, `Get`/`Contains`, `Remove` or `Clear`.
- **Sorted doubly-linked list.** It inserts stably, each new value going after
  all equal values.
- **Plain doubly- and singly-linked lists.**
- **Unbalanced binary search tree.** `Tree` with `TreeNode`.
- **Array-backed list.** `ArrayList`, with the doubling and 3/2 growth rules.

The models take the form of the source:

- Each list or tree is a `class` with the source's fields (`front`/`back`,
  `head`/`tail`, `root`, `Count`).
- Each node is a class with its `Data`, `Next`/`Prev` or `Left`/`Right` fields,
  updated in place.
- A ghost field records what the links mean: the sequence of nodes of a list,
  or the `Shape` of the linked tree. A `Valid()` predicate ties the links to it.
- Every modelled loop of the source is a loop with its invariants.
- Every method states its new state in terms of a value-level function.
- The properties the source promises are lemmas about those functions. Examples:
  - `AccessCountOrder.Promote` and `PromoteKeepsOrder`;
  - `SortedLinkedList.Inserted` and `InsertedProperties`;
  - `SearchTreeModel.Insert`/`RemoveData` with `InsertOrdered`, `RemoveDataKeys`
    and `SearchFindsKeys`.

Exceptions are values rather than control flow. An operation that can throw
returns a `Result` or `Outcome` (module `Exceptions`), which names the .NET
exception the source throws. The state after a throw is the state the source
leaves at that point.

Modules:

| file | module | models |
|---|---|---|
| exceptions.dfy | Exceptions | the exceptions and the result shapes |
| int32.dfy | CSharpInt | the C# `int` range and unchecked wrap-around |
| sequences.dfy | Sequences | first-match search, insertion, removal and exchange on sequences |
| access_count_order.dfy | AccessCountOrder | the promotion policy of the count list on values |
| count_list.dfy | SelfOrganizingCountList | SelfOrganizingList/Count/LinkedList.cs and its ListNode.cs |
| sorted_list.dfy | SortedLinkedList | DoublyLinkedList/SortedLinkedList.cs |
| doubly_list.dfy | DoublyLinkedList | DoublyLinkedList/LinkedList.cs and its node |
| singly_list.dfy | SinglyLinkedList | SinglyLinkedList/LinkedList.cs and ListNode.cs |
| search_tree.dfy | SearchTreeModel | the search tree `Tree.cs` maintains, as a datatype |
| binary_search_tree.dfy | BinarySearchTree | BinarySearchTree/Tree.cs and TreeNode.cs |
| array_list.dfy | ArrayBackedList | ArrayList/ArrayList.cs |
| growth_strategy.dfy | GrowthStrategy | the Double and Java growth strategies |

The tree's public operations state their effect as a pure value:
- `Abs(Model) == Insert(old(Abs(Model)), item)`;
- `Abs(Model) == RemoveData(...)`;
- for a search, `Search(...)`.

What that value means in terms of the multiset of keys is proved once, about the
value functions:
- `InsertKeys`: one more occurrence of the item;
- `RemoveDataKeys`: one fewer;
- `SearchFindsKeys`: search succeeds exactly for members.

Mixing multiset reasoning into the heap proofs is not needed.

## Model

| member | source | states |
|---|---|---|
| SelfOrganizingCountList.ListNode.constructor | data-structures-csharp/SelfOrganizingList/Count/ListNode.cs:12-17 | a new node holds the value, has no links, and its access count is 0 |
| SelfOrganizingCountList.LinkedList.constructor | data-structures-csharp/SelfOrganizingList/Count/LinkedList.cs:146-150 | a new list is valid and empty |
| SelfOrganizingCountList.LinkedList.Add | data-structures-csharp/SelfOrganizingList/Count/LinkedList.cs:15-21 | appends a fresh node with count 0 at the back; earlier nodes stay; Count is one more; on an empty list front and back are the new node; the counts stay non-increasing |
| SelfOrganizingCountList.LinkedList.AddBack | data-structures-csharp/SelfOrganizingList/Count/LinkedList.cs:241-251 | links a detached node in at the back, whether or not the list is empty |
| SelfOrganizingCountList.LinkedList.AddNodeEmptyList | data-structures-csharp/SelfOrganizingList/Count/LinkedList.cs:257-261 | the node becomes the whole list, both front and back |
| SelfOrganizingCountList.LinkedList.AddNodeToBack | data-structures-csharp/SelfOrganizingList/Count/LinkedList.cs:278-283 | the node is linked after the old back and becomes the back |
| SelfOrganizingCountList.LinkedList.Get | data-structures-csharp/SelfOrganizingList/Count/LinkedList.cs:65-79 | returns null exactly when no node holds the item; otherwise returns the first node holding it, whose count is one more than before; the entries become `Access(old entries, item)`; the counts stay non-increasing |
| SelfOrganizingCountList.LinkedList.Contains | data-structures-csharp/SelfOrganizingList/Count/LinkedList.cs:106-109 | true exactly when some node holds the item; it promotes as Get does |
| SelfOrganizingCountList.LinkedList.UpdateCountAndMove | data-structures-csharp/SelfOrganizingList/Count/LinkedList.cs:418-426 | bumps the node's count by one, then swaps it forward while the predecessor's count is strictly smaller; the entries become `Promote(old entries, i)` |
| SelfOrganizingCountList.LinkedList.ShiftStep | data-structures-csharp/SelfOrganizingList/Count/LinkedList.cs:422-425 | one iteration of the promotion loop moves the node one place forward and keeps the loop's stopping point unchanged |
| SelfOrganizingCountList.LinkedList.ShiftLeft | data-structures-csharp/SelfOrganizingList/Count/LinkedList.cs:428-467 | exchanges the node with its predecessor, relinking its neighbours and updating front and back; without a predecessor nothing changes and front is returned; no access count changes |
| SelfOrganizingCountList.LinkedList.SwappedChain | data-structures-csharp/SelfOrganizingList/Count/LinkedList.cs:440-464 | the links ShiftLeft writes form the chain of the swapped node sequence |
| SelfOrganizingCountList.LinkedList.ValidateNotEmpty | data-structures-csharp/SelfOrganizingList/Count/LinkedList.cs:213-219 | succeeds exactly on a non-empty list, and otherwise fails with InvalidOperationException |
| SelfOrganizingCountList.LinkedList.Remove | data-structures-csharp/SelfOrganizingList/Count/LinkedList.cs:29-58 | an empty list throws InvalidOperationException and is left unchanged; otherwise returns whether the item was present and unlinks only its first node, keeping the others in order; the counts stay non-increasing |
| SelfOrganizingCountList.LinkedList.Unlink | data-structures-csharp/SelfOrganizingList/Count/LinkedList.cs:38-50 | the hit branch removes the node at position k, from the start or from the middle |
| SelfOrganizingCountList.LinkedList.RemoveFromStart | data-structures-csharp/SelfOrganizingList/Count/LinkedList.cs:338-353 | the front node is unlinked; the list that remains is the old one without position 0 |
| SelfOrganizingCountList.LinkedList.RemoveFromMiddle | data-structures-csharp/SelfOrganizingList/Count/LinkedList.cs:373-390 | the node at position k > 0 is unlinked, and back moves to its predecessor when it was last |
| SelfOrganizingCountList.LinkedList.Clear | data-structures-csharp/SelfOrganizingList/Count/LinkedList.cs:85-98 | empties the list: Count 0, front and back null, every former node's Next null |
| SelfOrganizingCountList.LinkedList.CopyTo | data-structures-csharp/SelfOrganizingList/Count/LinkedList.cs:117-140 | the errors, in this order: a null array gives ArgumentNullException, an index < 0 or > Length gives ArgumentOutOfRangeException, too few slots give ArgumentException; an error leaves the array unchanged; otherwise the values are written front to back from arrayIndex and no other slot changes |
| SelfOrganizingCountList.LinkedList.Front | data-structures-csharp/SelfOrganizingList/Count/LinkedList.cs:155-158 | the value of the first node |
| SelfOrganizingCountList.LinkedList.Back | data-structures-csharp/SelfOrganizingList/Count/LinkedList.cs:163-166 | the value of the last node |
| AccessCountOrder.Values | data-structures-csharp/SelfOrganizingList/Count/LinkedList.cs:173-181 | the values front to back, position by position |
| AccessCountOrder.ShiftTarget | data-structures-csharp/SelfOrganizingList/Count/LinkedList.cs:422 | where the promotion loop stops: every entry passed has a strictly smaller count, and the entry in front of the stop (if any) has one at least as large |
| AccessCountOrder.ShiftTargetUnique | data-structures-csharp/SelfOrganizingList/Count/LinkedList.cs:422 | that stopping point is the only position with both properties |
| AccessCountOrder.Moving | data-structures-csharp/SelfOrganizingList/Count/LinkedList.cs:422-425 | the entries while the promoted node stands at p; the length is unchanged |
| AccessCountOrder.MovingShape | data-structures-csharp/SelfOrganizingList/Count/LinkedList.cs:422-425 | meanwhile entries before p and after i are untouched, the bumped entry is at p, and the ones it passed moved back one place |
| AccessCountOrder.MovingRotates | data-structures-csharp/SelfOrganizingList/Count/LinkedList.cs:422-425 | the same, as a rotation of the block from p to i |
| AccessCountOrder.Promote | data-structures-csharp/SelfOrganizingList/Count/LinkedList.cs:418-426 | a promotion keeps the length; `PromotePermutes`, `PromoteValues` and `PromoteKeepsOrder` state what it does to the entries |
| AccessCountOrder.Access | data-structures-csharp/SelfOrganizingList/Count/LinkedList.cs:65-79 | a lookup keeps the length, and a miss changes nothing |
| AccessCountOrder.RemoveValue | data-structures-csharp/SelfOrganizingList/Count/LinkedList.cs:29-58 | a removal by value shortens the list by one exactly when the value is present |
| AccessCountOrder.PromotePermutes | data-structures-csharp/SelfOrganizingList/Count/LinkedList.cs:418-426 | a promotion keeps every entry, and only the promoted entry's count changes (it goes up by one) |
| AccessCountOrder.PromoteKeepsValues | data-structures-csharp/SelfOrganizingList/Count/LinkedList.cs:418-426 | a promotion only reorders the values, as a permutation |
| AccessCountOrder.PromoteValues | data-structures-csharp/SelfOrganizingList/Count/LinkedList.cs:418-426 | the values after a promotion: the promoted value taken out of its place and put at the swap loop's stopping point, every other value in its old order |
| AccessCountOrder.PromoteKeepsOrder | data-structures-csharp/SelfOrganizingList/Count/LinkedList.cs:418-426 | on a list with non-increasing counts, the counts stay non-increasing after a promotion |
| AccessCountOrder.PromotePassesOnlyEqualCounts | data-structures-csharp/SelfOrganizingList/Count/LinkedList.cs:422 | on an ordered list, the promoted node passes exactly the predecessors whose count equalled its old one; every entry still in front of it has a larger count |
| AccessCountOrder.AppendZeroKeepsOrder | data-structures-csharp/SelfOrganizingList/Count/LinkedList.cs:15-21 | appending a count-0 entry keeps the counts non-increasing |
| AccessCountOrder.RemoveAtKeepsOrder | data-structures-csharp/SelfOrganizingList/Count/LinkedList.cs:373-390 | removing any entry keeps the counts non-increasing |
| AccessCountOrder.AccessKeepsOrder | data-structures-csharp/SelfOrganizingList/Count/LinkedList.cs:29-79 | a lookup (hit or miss) and a removal by value keep the counts non-increasing |
| AccessCountOrder.TieKeepsFrontScenario | Tests/SelfOrganizingListTests.cs:38-53 | add 1 and 2, look up 1, then 2 (a tie: 1 stays in front), then 2 again (2 moves to the front) |
| SortedLinkedList.UpperBound | data-structures-csharp/DoublyLinkedList/SortedLinkedList.cs:27-37 | the insertion scan's stop: every value before it is at most x, and the value at it is greater than x |
| SortedLinkedList.UpperBoundIsScanStop | data-structures-csharp/DoublyLinkedList/SortedLinkedList.cs:27-37 | any position with those two properties is the scan's stop |
| SortedLinkedList.Inserted | data-structures-csharp/DoublyLinkedList/SortedLinkedList.cs:18-41 | the values after an add are one longer, with the item at the scan's stop |
| SortedLinkedList.InsertedProperties | data-structures-csharp/DoublyLinkedList/SortedLinkedList.cs:18-41 | adding keeps a sorted list sorted and adds exactly one x; the insertion is stable: x goes after every value at most x and before every greater one |
| SortedLinkedList.AboveUpperBound | data-structures-csharp/DoublyLinkedList/SortedLinkedList.cs:31-34 | in a sorted list every value from the scan's stop on is greater than the item |
| SortedLinkedList.InsertedSorted | data-structures-csharp/DoublyLinkedList/SortedLinkedList.cs:18-41 | inserting at the scan's stop keeps the list sorted |
| SortedLinkedList.InsertedContents | data-structures-csharp/DoublyLinkedList/SortedLinkedList.cs:18-41 | adding keeps every value and adds the item exactly once |
| SortedLinkedList.RemoveAtKeepsSorted | data-structures-csharp/DoublyLinkedList/SortedLinkedList.cs:389-406 | removing any element keeps the list sorted |
| SortedLinkedList.SortedLinkedList.constructor | data-structures-csharp/DoublyLinkedList/SortedLinkedList.cs:159-163 | a new list is valid and empty |
| SortedLinkedList.SortedLinkedList.Add | data-structures-csharp/DoublyLinkedList/SortedLinkedList.cs:18-41 | the values become `Inserted(old values, item)`, which stays sorted; a fresh node is placed at the scan's stop and the other nodes stay in order; Count is one more |
| SortedLinkedList.SortedLinkedList.ScanForInsertion | data-structures-csharp/DoublyLinkedList/SortedLinkedList.cs:27-37 | the scan returns the first position whose value is strictly greater than the item, or Count |
| SortedLinkedList.SortedLinkedList.AddNodeAtIndex | data-structures-csharp/DoublyLinkedList/SortedLinkedList.cs:309-323 | links the node in at the index: at the front for 0, at the back for Count, in the middle otherwise |
| SortedLinkedList.SortedLinkedList.AddFront | data-structures-csharp/DoublyLinkedList/SortedLinkedList.cs:241-251 | the node becomes the first |
| SortedLinkedList.SortedLinkedList.AddBack | data-structures-csharp/DoublyLinkedList/SortedLinkedList.cs:257-267 | the node becomes the last |
| SortedLinkedList.SortedLinkedList.AddNodeEmptyList | data-structures-csharp/DoublyLinkedList/SortedLinkedList.cs:273-277 | the node becomes the whole list |
| SortedLinkedList.SortedLinkedList.AddNodeToFront | data-structures-csharp/DoublyLinkedList/SortedLinkedList.cs:283-288 | the node is linked before the old front |
| SortedLinkedList.SortedLinkedList.AddNodeToBack | data-structures-csharp/DoublyLinkedList/SortedLinkedList.cs:294-299 | the node is linked after the old back |
| SortedLinkedList.SortedLinkedList.AddMiddle | data-structures-csharp/DoublyLinkedList/SortedLinkedList.cs:330-348 | walks to the node at the index and inserts the new node before it |
| SortedLinkedList.SortedLinkedList.LinkBefore | data-structures-csharp/DoublyLinkedList/SortedLinkedList.cs:337-344 | the hit branch of that walk: the four link writes put the node at the index |
| SortedLinkedList.SortedLinkedList.ValidateNotEmpty | data-structures-csharp/DoublyLinkedList/SortedLinkedList.cs:229-235 | fails exactly on an empty list, with InvalidOperationException |
| SortedLinkedList.SortedLinkedList.Remove | data-structures-csharp/DoublyLinkedList/SortedLinkedList.cs:49-76 | an empty list throws InvalidOperationException and is unchanged; otherwise returns whether the item was present and removes its first occurrence only; the list stays sorted and counted |
| SortedLinkedList.SortedLinkedList.Unlink | data-structures-csharp/DoublyLinkedList/SortedLinkedList.cs:58-71 | the hit branch removes the node at position k |
| SortedLinkedList.SortedLinkedList.RemoveFromStart | data-structures-csharp/DoublyLinkedList/SortedLinkedList.cs:354-369 | the front node is unlinked |
| SortedLinkedList.SortedLinkedList.RemoveFromMiddle | data-structures-csharp/DoublyLinkedList/SortedLinkedList.cs:389-406 | the node at position k > 0 is unlinked, and back moves when it was last |
| SortedLinkedList.SortedLinkedList.Get | data-structures-csharp/DoublyLinkedList/SortedLinkedList.cs:85-98 | null exactly when the item is absent, otherwise the first node holding it; nothing changes |
| SortedLinkedList.SortedLinkedList.Contains | data-structures-csharp/DoublyLinkedList/SortedLinkedList.cs:118-121 | true exactly when the item is present |
| SortedLinkedList.SortedLinkedList.Clear | data-structures-csharp/DoublyLinkedList/SortedLinkedList.cs:105-110 | front and back are null and Count is 0 |
| SortedLinkedList.SortedLinkedList.CopyTo | data-structures-csharp/DoublyLinkedList/SortedLinkedList.cs:130-153 | null, range and size errors before any write; otherwise the values front to back from arrayIndex, with no other slot changed |
| SortedLinkedList.SortedLinkedList.Front | data-structures-csharp/DoublyLinkedList/SortedLinkedList.cs:170-173 | the first value, which is the least |
| SortedLinkedList.SortedLinkedList.Back | data-structures-csharp/DoublyLinkedList/SortedLinkedList.cs:180-183 | the last value, which is the greatest |
| DoublyLinkedList.ListNode.constructor | data-structures-csharp/SelfOrganizingList/MTF/ListNode.cs:24-29 | a new node holds the value and has no links |
| DoublyLinkedList.LinkedList.constructor | data-structures-csharp/DoublyLinkedList/LinkedList.cs:105-109 | a new list is valid and empty |
| DoublyLinkedList.LinkedList.Add | data-structures-csharp/DoublyLinkedList/LinkedList.cs:16-27 | appends the item at the tail, keeping the earlier nodes; Count is one more; on an empty list head and tail are the new node |
| DoublyLinkedList.LinkedList.AddNodeEmptyList | data-structures-csharp/DoublyLinkedList/LinkedList.cs:189-194 | the node becomes head and tail, and Count becomes 1 |
| DoublyLinkedList.LinkedList.AddNodeToEnd | data-structures-csharp/DoublyLinkedList/LinkedList.cs:200-206 | the node is linked after the tail, and Count is one more |
| DoublyLinkedList.LinkedList.Clear | data-structures-csharp/DoublyLinkedList/LinkedList.cs:33-47 | empties the list; every former node has both links null |
| DoublyLinkedList.LinkedList.Contains | data-structures-csharp/DoublyLinkedList/LinkedList.cs:55-68 | true exactly when some element equals the item |
| DoublyLinkedList.LinkedList.Remove | data-structures-csharp/DoublyLinkedList/LinkedList.cs:126-148 | returns whether the item was present (false on an empty list, which is not an error); only the first occurrence goes, and the others keep their order; a miss changes nothing |
| DoublyLinkedList.LinkedList.Unlink | data-structures-csharp/DoublyLinkedList/LinkedList.cs:133-144 | the hit branch removes the node at position k and detaches it |
| DoublyLinkedList.LinkedList.RemoveFromStart | data-structures-csharp/DoublyLinkedList/LinkedList.cs:212-229 | the head is removed and detached; removing the only node leaves head and tail null |
| DoublyLinkedList.LinkedList.RemoveFromMiddle | data-structures-csharp/DoublyLinkedList/LinkedList.cs:235-255 | a node with a predecessor is bridged over and detached; removing the tail moves the tail back |
| DoublyLinkedList.LinkedList.CopyToAsWritten | data-structures-csharp/DoublyLinkedList/LinkedList.cs:76-99 | the code as written: a null array gives a null reference, never ArgumentNullException; too few slots give ArgumentException, checked before the range, with `array.Length - arrayIndex` an unchecked int subtraction that wraps negative (so the size error) for an index far below zero; values land from arrayIndex + 1, and the last write runs off an exactly-fitting array; an empty list copies nothing and returns normally for every arrayIndex from 0 to the array length |
| DoublyLinkedList.CopyToSizeCheckWraps | data-structures-csharp/DoublyLinkedList/LinkedList.cs:78 | at an empty array and index Int32.MinValue, the size test's subtraction wraps to Int32.MinValue, below any count |
| DoublyLinkedList.LinkedList.CopyTo | data-structures-csharp/DoublyLinkedList/LinkedList.cs:76-99 | the corrected copy: null, range and size errors before any write, then the values from arrayIndex on |
| DoublyLinkedList.RemoveTwiceScenario | data-structures-csharp/Program.cs:52-67 | adding 1, 2, 1, 4 and removing 1 twice leaves 2 and 4, without 1 |
| SinglyLinkedList.ListNode.constructor | data-structures-csharp/SinglyLinkedList/ListNode.cs:23-27 | a new node holds the value and has no successor |
| SinglyLinkedList.LinkedList.constructor | data-structures-csharp/SinglyLinkedList/LinkedList.cs:110-114 | a new list is valid and empty |
| SinglyLinkedList.LinkedList.Add | data-structures-csharp/SinglyLinkedList/LinkedList.cs:26-40 | appends at the tail, keeping the earlier nodes; Count is one more; on an empty list head and tail are the new node |
| SinglyLinkedList.LinkedList.Clear | data-structures-csharp/SinglyLinkedList/LinkedList.cs:50-55 | empty, with head and tail null |
| SinglyLinkedList.LinkedList.Contains | data-structures-csharp/SinglyLinkedList/LinkedList.cs:72-84 | true exactly when some element equals the item |
| SinglyLinkedList.LinkedList.Remove | data-structures-csharp/SinglyLinkedList/LinkedList.cs:144-191 | returns whether the item was present; only its first node is unlinked, and a miss changes nothing; `Valid` keeps head null iff empty, tail null iff empty, and the tail's Next null |
| SinglyLinkedList.LinkedList.Unlink | data-structures-csharp/SinglyLinkedList/LinkedList.cs:152-185 | the hit branch: bridges the predecessor over the node, or advances head; the tail moves when the last node goes |
| SearchTreeModel.Compare | data-structures-csharp/BinarySearchTree/Tree.cs:134 | Int32.CompareTo: -1, 0 or 1, negative exactly when a < b, zero exactly when equal |
| SearchTreeModel.SizeCountsKeys | data-structures-csharp/BinarySearchTree/Tree.cs:88-92 | the number of nodes is the number of keys |
| SearchTreeModel.BoundsMeanKeys | data-structures-csharp/BinarySearchTree/Tree.cs:112-119 | all keys below b, or all at least b, in both directions |
| SearchTreeModel.Insert | data-structures-csharp/BinarySearchTree/Tree.cs:104-121 | the tree after an add, a new leaf reached by going left past greater keys and right otherwise; no contract of its own: `InsertKeys`, `InsertSize`, `InsertBounds` and `InsertOrdered` state what it does |
| SearchTreeModel.Search | data-structures-csharp/BinarySearchTree/Tree.cs:266-293 | the search path's answer; true only for a stored key, in any tree (and, by `SearchFindsKeys`, exactly for the stored keys of an ordered tree) |
| SearchTreeModel.Leftmost | data-structures-csharp/BinarySearchTree/Tree.cs:211-217 | the key at the end of the left spine, which is one of the tree's keys |
| SearchTreeModel.DropLeftmost | data-structures-csharp/BinarySearchTree/Tree.cs:218-220 | the tree without its leftmost node, whose right subtree takes its place; no contract of its own: `DropLeftmostKeys`, `DropLeftmostSize`, `DropLeftmostBounds` and `DropLeftmostOrdered` state what it does |
| SearchTreeModel.RemoveRoot | data-structures-csharp/BinarySearchTree/Tree.cs:150-245 | the three removal cases for the top node: no right child, a right child without a left child, and otherwise the detached minimum with both subtrees (below a parent the corrected case, see Findings); no contract of its own: `RemoveRootKeys`, `RemoveRootSize` and `RemoveRootBounds` state what it does |
| SearchTreeModel.RemoveData | data-structures-csharp/BinarySearchTree/Tree.cs:127-148 | the recursive removal by three-valued comparison; no contract of its own: `RemoveDataKeys`, `RemoveDataSize`, `RemoveDataBounds` and `RemoveDataOrdered` state what it does |
| SearchTreeModel.InsertKeys | data-structures-csharp/BinarySearchTree/Tree.cs:104-121 | inserting adds exactly one occurrence of the key |
| SearchTreeModel.InsertSize | data-structures-csharp/BinarySearchTree/Tree.cs:104-121 | inserting adds exactly one node |
| SearchTreeModel.InsertBounds | data-structures-csharp/BinarySearchTree/Tree.cs:104-121 | inserting a key within a bound keeps the tree within it |
| SearchTreeModel.InsertOrdered | data-structures-csharp/BinarySearchTree/Tree.cs:112-119 | inserting keeps the order left < node <= right |
| SearchTreeModel.SearchFindsKeys | data-structures-csharp/BinarySearchTree/Tree.cs:266-293 | in an ordered tree the search path finds the key exactly when it is one of the keys |
| SearchTreeModel.DropLeftmostKeys | data-structures-csharp/BinarySearchTree/Tree.cs:211-220 | detaching the least node removes exactly its key |
| SearchTreeModel.DropLeftmostSize | data-structures-csharp/BinarySearchTree/Tree.cs:211-220 | detaching the least node removes one node |
| SearchTreeModel.DropLeftmostBounds | data-structures-csharp/BinarySearchTree/Tree.cs:211-220 | detaching keeps bounds |
| SearchTreeModel.DropLeftmostOrdered | data-structures-csharp/BinarySearchTree/Tree.cs:211-220 | in an ordered tree the detached key is a lower bound of every key, and the rest stays ordered |
| SearchTreeModel.RemoveRootKeys | data-structures-csharp/BinarySearchTree/Tree.cs:150-164 | removing the top node by the three cases removes exactly its key |
| SearchTreeModel.RemoveRootSize | data-structures-csharp/BinarySearchTree/Tree.cs:150-164 | and exactly one node |
| SearchTreeModel.RemoveRootBounds | data-structures-csharp/BinarySearchTree/Tree.cs:150-164 | and keeps bounds and order |
| SearchTreeModel.RemoveDataBounds | data-structures-csharp/BinarySearchTree/Tree.cs:127-148 | removal keeps bounds |
| SearchTreeModel.RemoveDataSize | data-structures-csharp/BinarySearchTree/Tree.cs:127-148 | removal takes one node away when the search finds the key, none otherwise |
| SearchTreeModel.RemoveDataKeys | data-structures-csharp/BinarySearchTree/Tree.cs:127-148 | in an ordered tree removal takes exactly one occurrence of the key out of the keys (none when absent) |
| SearchTreeModel.RemoveDataOrdered | data-structures-csharp/BinarySearchTree/Tree.cs:127-148 | removal keeps the tree ordered |
| SearchTreeModel.AddScenarios | Tests/TreeTests.cs:11-87 | the positions of the added keys in the tree tests (not 31-40; see Left out) |
| SearchTreeModel.RemoveRootScenarios | Tests/TreeTests.cs:91-130 | removing root 100 makes 50, 150 or 125 the root, as the three removal tests expect |
| BinarySearchTree.TreeNode.constructor | data-structures-csharp/BinarySearchTree/TreeNode.cs:14-19 | a new node holds the key and has no children |
| BinarySearchTree.Root | data-structures-csharp/BinarySearchTree/Tree.cs:21-24 | the reference to a shape is null exactly for the empty shape |
| BinarySearchTree.NoRightSelfLoop | data-structures-csharp/BinarySearchTree/Tree.cs:235-241 | no node of a well-linked tree is its own right child, which the as-written removal produces |
| BinarySearchTree.MinNode | data-structures-csharp/BinarySearchTree/Tree.cs:211-217 | the end of the left spine is a node of the tree |
| BinarySearchTree.MinParent | data-structures-csharp/BinarySearchTree/Tree.cs:211-217 | its parent is a node of the tree |
| BinarySearchTree.DropMinShapeFacts | data-structures-csharp/BinarySearchTree/Tree.cs:211-220 | detaching the least node on the heap shape removes that node and, on the search tree, the leftmost key |
| BinarySearchTree.DropMinLinked | data-structures-csharp/BinarySearchTree/Tree.cs:220 | bridging the parent's left link over the minimum leaves the links agreeing with the shape without it |
| BinarySearchTree.Tree.constructor | data-structures-csharp/BinarySearchTree/Tree.cs:11-15 | an empty tree, Count 0 |
| BinarySearchTree.Tree.Add | data-structures-csharp/BinarySearchTree/Tree.cs:38-43 | the tree becomes `Insert(old tree, item)`, so it stays ordered and holds one more item; Count is one more |
| BinarySearchTree.Tree.AddNewNode | data-structures-csharp/BinarySearchTree/Tree.cs:104-121 | links the node in as a new leaf, going left exactly past greater keys; the reference result is the node for an empty subtree and the subtree's root otherwise |
| BinarySearchTree.Tree.Clear | data-structures-csharp/BinarySearchTree/Tree.cs:69-72 | the root is null and the tree empty, but Count keeps its value |
| BinarySearchTree.Tree.FindItemAndParent | data-structures-csharp/BinarySearchTree/Tree.cs:266-293 | finds a node exactly when the search path reaches the item; it holds the item; the parent links to it, or it is the root when the parent is null |
| BinarySearchTree.Tree.FindItem | data-structures-csharp/BinarySearchTree/Tree.cs:253-257 | non-null exactly when the item is one of the keys |
| BinarySearchTree.Tree.Contains | data-structures-csharp/BinarySearchTree/Tree.cs:80-83 | true exactly when the item is one of the keys |
| BinarySearchTree.Tree.Remove | data-structures-csharp/BinarySearchTree/Tree.cs:51-62 | returns whether the search finds the item; the tree becomes `RemoveData(old tree, item)`; Count drops by one exactly on success; below a parent the third removal case is the corrected one (see Findings) |
| BinarySearchTree.Tree.RemoveDataAt | data-structures-csharp/BinarySearchTree/Tree.cs:127-148 | the recursive removal: false on an empty subtree; the subtree becomes `RemoveData`; whatever pointed at the subtree now points at its new root, and nothing else outside it changes; below a parent the third removal case is the corrected one (see Findings) |
| BinarySearchTree.Tree.RemoveNode | data-structures-csharp/BinarySearchTree/Tree.cs:150-164 | the three cases together make the subtree `RemoveRoot` of the old one; below a parent the third case is the corrected one (see Findings) |
| BinarySearchTree.Tree.ReplaceChild | data-structures-csharp/BinarySearchTree/Tree.cs:166-184 | the reference to the node (root, or the parent's child chosen by comparing keys) now points at the child; the parent's other link is unchanged |
| BinarySearchTree.Tree.RemoveNodeNoRightChild | data-structures-csharp/BinarySearchTree/Tree.cs:166-184 | without a right child the left subtree takes the node's place |
| BinarySearchTree.Tree.RemoveNodeNoRightLeftChild | data-structures-csharp/BinarySearchTree/Tree.cs:186-207 | the right child takes the node's place and adopts its left subtree |
| BinarySearchTree.Tree.RemoveNodeRightLeftChild | data-structures-csharp/BinarySearchTree/Tree.cs:209-227 | the least node of the right subtree is detached and takes the node's place with both its subtrees (the source's root case, used also below a parent; see Findings) |
| BinarySearchTree.Tree.RemoveNodeRightLeftChildAsWritten | data-structures-csharp/BinarySearchTree/Tree.cs:209-245 | as written: at the root as above; below a parent the right child r is linked in, takes the node's left subtree and becomes its own right child |
| BinarySearchTree.Tree.Adopt | data-structures-csharp/BinarySearchTree/Tree.cs:225-226 | the new top receives the removed node's two subtrees |
| BinarySearchTree.Tree.DetachMinimum | data-structures-csharp/BinarySearchTree/Tree.cs:211-220 | the loop walks the left spine to the least node, bridges its parent over it and returns it |
| ArrayBackedList.ArrayList.Elements | data-structures-csharp/ArrayList/ArrayList.cs:128-134 | the first Count slots in index order |
| ArrayBackedList.ArrayList.constructor | data-structures-csharp/ArrayList/ArrayList.cs:22-23 | a fresh buffer of the given capacity, every slot default(T) (`Blank`), Count 0 |
| ArrayBackedList.ArrayList.Create | data-structures-csharp/ArrayList/ArrayList.cs:15-24 | throws ArgumentOutOfRangeException exactly for a negative size; otherwise capacity equals size and Count is 0 |
| ArrayBackedList.ArrayList.ValidateIndex | data-structures-csharp/ArrayList/ArrayList.cs:166-172 | accepts exactly 0 <= index < Count; otherwise IndexOutOfRangeException |
| ArrayBackedList.ArrayList.Item | data-structures-csharp/ArrayList/ArrayList.cs:63-67 | the element at a valid index; otherwise IndexOutOfRangeException |
| ArrayBackedList.ArrayList.SetItem | data-structures-csharp/ArrayList/ArrayList.cs:68-72 | overwrites exactly that slot at a valid index; otherwise the error, with the buffer unchanged |
| ArrayBackedList.ArrayList.Insert | data-structures-csharp/ArrayList/ArrayList.cs:44-52 | an invalid index fails before any change; past validation, Count goes up and the buffer is resized (kept when Count still fits, otherwise a fresh buffer of capacity 1 for 0 and double otherwise, its new slots default(T)), then the overlong shift throws ArgumentException; old contents keep their slots |
| ArrayBackedList.ArrayList.Add | data-structures-csharp/ArrayList/ArrayList.cs:79-82 | always fails with IndexOutOfRangeException and changes nothing, since index Count is never valid |
| ArrayBackedList.ArrayList.RemoveAt | data-structures-csharp/ArrayList/ArrayList.cs:54-59 | an invalid index fails before any change; past validation, Count goes down, then the overlong shift throws ArgumentException |
| ArrayBackedList.ArrayList.ResizeArray | data-structures-csharp/ArrayList/ArrayList.cs:147-164 | reallocates only when Count exceeds capacity: new capacity 1 for 0, otherwise double; old contents keep their indices and the new slots hold default(T) |
| ArrayBackedList.ArrayList.Clear | data-structures-csharp/ArrayList/ArrayList.cs:84-88 | Count 0; the first old-Count slots take default(T), the others and the capacity stay |
| ArrayBackedList.ArrayList.Enumerate | data-structures-csharp/ArrayList/ArrayList.cs:128-134 | yields exactly slots 0 to Count - 1 in order |
| ArrayBackedList.Fill | data-structures-csharp/ArrayList/ArrayList.cs:86 | Array.Clear: the first count slots take the blank value, and the rest are unchanged |
| ArrayBackedList.CopyInto | data-structures-csharp/ArrayList/ArrayList.cs:162 | Array.Copy: the target's prefix equals the source, and the rest of the target is unchanged |
| CSharpInt.Wrap | data-structures-csharp/ArrayList/GrowthStrategy/DoubleGrowthStrategy.cs:16 | unchecked int arithmetic: congruent modulo 2^32, and exact in range |
| GrowthStrategy.DoubleNewSize | data-structures-csharp/ArrayList/GrowthStrategy/DoubleGrowthStrategy.cs:14-17 | the new size agrees with 2n modulo 2^32 and is exactly 2n whenever 2n fits an int |
| GrowthStrategy.DoubleExact | data-structures-csharp/ArrayList/GrowthStrategy/DoubleGrowthStrategy.cs:14-17 | without overflow the new size is 2n; a positive size grows; 0 stays 0; the result is always even |
| GrowthStrategy.DoubleWrapsAround | data-structures-csharp/ArrayList/GrowthStrategy/DoubleGrowthStrategy.cs:16 | 2^30 doubles to Int32.MinValue |
| GrowthStrategy.DoubleFromTwo | Tests/GrowthStrategyTests.cs:12-47 | from 2, the k-th size is 2^(k+1) while it fits |
| GrowthStrategy.DoubleScenario | Tests/GrowthStrategyTests.cs:12-47 | ten steps from 2 give 4, 8, ..., 2048 |
| GrowthStrategy.JavaRule | data-structures-csharp/ArrayList/GrowthStrategy/JavaGrowthStrategy.cs:17 | the rounding rule on integers: the least integer whose double is at least 3n |
| GrowthStrategy.JavaNewSize | data-structures-csharp/ArrayList/GrowthStrategy/JavaGrowthStrategy.cs:15-18 | the new size is the ceiling of 3n/2, for every size whose result fits an int |
| GrowthStrategy.JavaBounds | data-structures-csharp/ArrayList/GrowthStrategy/JavaGrowthStrategy.cs:17 | for n >= 0: n <= new size <= 2n, strict growth for n >= 1, and 0 stays 0 |
| GrowthStrategy.JavaFromTwo | Tests/GrowthStrategyTests.cs:50-85 | from 2, every size stays between 2 and the doubling bound 2^(k+1) |
| GrowthStrategy.JavaScenario | Tests/GrowthStrategyTests.cs:50-85 | ten steps from 2 stay within 4, 8, ..., 2048, and end at 140 |
| Sequences.FirstIndex | data-structures-csharp/DoublyLinkedList/LinkedList.cs:126-148 | the position of the first equal element, or the length when there is none; it is in range exactly when the item occurs |
| Sequences.RemoveFirst | data-structures-csharp/DoublyLinkedList/LinkedList.cs:126-148 | removal of the first equal element, a miss changing nothing; no contract of its own: `RemoveFirstContents` states what it does |
| Sequences.RemoveFirstContents | data-structures-csharp/SinglyLinkedList/LinkedList.cs:144-191 | removing the first match takes one occurrence out, and shortens the sequence exactly when the item was present |
| Sequences.RemoveAtContents | data-structures-csharp/DoublyLinkedList/SortedLinkedList.cs:389-406 | removing at a position takes exactly that element out |

## Left out

- Generic element types: the lists keep `T` with Dafny equality in place of
  `EqualityComparer<T>.Default` and `Equals`. The sorted list and the tree use
  `int` keys, with `CompareTo` as integer comparison (`SearchTreeModel.Compare`).
- Null elements: a null `T` is not modelled. The singly-linked list calls
  `current.Data.Equals(item)`, which throws for a null element; that is not
  modelled either.
- The `ref` parameter of `AddNewNode`: the reference's new value is returned and
  the caller stores it into the field it came from.
- `RemoveData`'s `comparison == -1`: the test is exact for `Int32.CompareTo`,
  which returns only -1, 0 or 1. It is modelled by the three-valued `Compare`.
- Integer overflow of `Count` and of the access counters: both are `nat`. The
  growth rules and the size test of the doubly-linked list's as-written
  `CopyTo` model 32-bit ints; there the index is a C# `int` and an array
  length at most `Int32.MaxValue`, which the method requires.
- GrowthStrategy.DoubleExact: the doubling is stated exactly only below 2^30.
  Above that the product wraps; `DoubleWrapsAround` shows one instance, and
  `DoubleNewSize` states the wrap, congruence modulo 2^32, for every input.
- GrowthStrategy.JavaNewSize: requires that the rounded value fits an int. The
  C# cast of an out-of-range double is unspecified, so that case is not
  modelled.
- `GoldenGrowthStrategy` and `MultiplierGrowthStrategy`: they use floating point
  multipliers with `Math.Ceiling`.
- `ArrayList.IndexOf`, `Contains` and `Remove`: the loop index never moves, so
  they do not terminate on a non-empty buffer.
- `ArrayList.CopyTo`: it copies the whole buffer rather than the elements.
- The singly-linked list's `CopyTo`: the pre-increment writes from
  `arrayIndex + 1` and has no validation.
- The enumerators (`yield`) and the non-generic `IEnumerable`: traversal is
  modelled as the value sequences (`Values`, `Items`, `Elements`, `Enumerate`).
- DoublyLinkedList/ListNode.cs is not part of this model. The node of the
  doubly-linked and sorted lists has the `Data`/`Next`/`Prev` shape of
  SelfOrganizingList/MTF/ListNode.cs:24-58.
- The move-to-front list: its list class is not part of this model. Its
  `ListNode.cs` supplies only the node shape of the doubly-linked lists.
- `Queue`, `Deque` and `Stack`: they wrap list operations these lists do not
  define; `Stack` wraps the `ArrayList`, whose `Add` always fails. None of them
  is part of this model.
- The unused private helpers of the count list are not modelled: `AddFront`,
  `AddNodeToFront`, `AddNodeAtIndex`, `AddMiddle`, `RemoveAllAfterNode`,
  `RemoveMiddle` and `ValidateIndex`.
- The unused private helpers of the sorted list are not modelled:
  `RemoveAllAfterNode`, `RemoveMiddle`, `GetAtIndex` and `ValidateIndex`.
- SelfOrganizingCountList.LinkedList.Front: requires a non-empty list, where
  the source dereferences a null front.
- SelfOrganizingCountList.LinkedList.Back: requires a non-empty list, where
  the source dereferences a null back.
- SortedLinkedList.SortedLinkedList.Front: requires a non-empty list, where
  the source dereferences a null front.
- SortedLinkedList.SortedLinkedList.Back: requires a non-empty list, where
  the source dereferences a null back.
- The interfaces and the console driver `Program.cs` carry no behaviour. One
  scenario of `Program.cs` is a lemma.
- Tests/TreeTests.cs:31-40 expects a greater key at the root's left, which
  contradicts Tree.cs:112-119, so it is not used. The index-based tests of the
  lists call operations these lists do not have.
- Garbage collection: `Clear` of the sorted and singly-linked lists only drops
  references, and the model does the same.

## Findings

| source | as written | input that shows it | evidently intended | confidence | as-written member | corrected member |
|---|---|---|---|---|---|---|
| data-structures-csharp/BinarySearchTree/Tree.cs:228-243 | Below a parent, the third removal case links in `node.Right` rather than the detached minimum. It then overwrites that child's left subtree with `node.Left` and sets its `Right` to `node.Right`, which is the child itself. | Add 10, 50, 40, 60, 55, then remove 50. Node 60 takes the place of 50 and becomes its own right child. Key 55, detached from 60's left, is no longer reachable. In general the right child's former right subtree is lost as well. | As in the root case (lines 222-227), the detached minimum takes the node's place with both of its subtrees. | not executed | BinarySearchTree.Tree.RemoveNodeRightLeftChildAsWritten, with BinarySearchTree.NoRightSelfLoop showing that no well-linked tree has such a node | BinarySearchTree.Tree.RemoveNodeRightLeftChild |
| data-structures-csharp/DoublyLinkedList/LinkedList.cs:76-99 | `array.Length` is read before the null check, so a null array raises NullReferenceException. The size check precedes the range check. `array[++arrayIndex]` writes from `arrayIndex + 1`. | A null array gives NullReferenceException, not ArgumentNullException. A list [1] copied into a 1-slot array at index 0 passes the checks, then writes slot 1, which is out of range. | Null, range and size checks first, then the values from `arrayIndex` on, as in the other two lists' `CopyTo`. | not executed | DoublyLinkedList.LinkedList.CopyToAsWritten | DoublyLinkedList.LinkedList.CopyTo |
