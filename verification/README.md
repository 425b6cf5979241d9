# Ordered data structures of an introductory C++ course, in Dafny

This project models the data structures and algorithms of a C++ course on
object-oriented data structures, and it proves what their code promises:

- the `my_max` function template;
- the Tower of Hanoi: a stack of cubes that refuses a larger cube on a
  smaller one, with a recursive solver and an iterative solver;
- an array-based binary min-heap;
- a doubly linked list, its ordered insertion and its sorting exercises;
- a complete binary tree built from a list of values, and its traversals;
- a generic tree whose null children are counted and whose levels are listed;
- a binary search tree dictionary;
- an AVL tree with rotations and rebalancing, and its debugging checks.

Each C++ class whose methods update its fields is a Dafny `class`:

- a `std::vector` or linked chain of nodes it mutates is a `seq` field or a
  chain of heap-allocated nodes;
- the heap's buffer is an `array`;
- each method's `ensures` ties the new state to a specification function of
  the old state.

The pure parts are functions on datatypes:

- tree shapes;
- the value-level effect of a move;
- the list sorting routines, which work on copies.

Lemmas prove what those functions promise. Console output, `operator<<` and
deallocation are not modelled. An exception thrown by the source is an
explicit rejection: a `false` flag, `None` or an `Err` value.

Source paths below are relative to the repository root.

## Model

| member | source | states |
|---|---|---|
| Templates.MyMax | cpp-templates/main.cpp:18-22 | the result is one of the two arguments, and it is `a` whenever `a > b` |
| Templates.MyMaxIsUpperBound | cpp-templates/main.cpp:18-22 | under a strict total order `>`, neither argument is greater than the result |
| Templates.MyMaxSymmetric | cpp-templates/main.cpp:18-22 | under a strict total order the result does not depend on the order of the arguments |
| Templates.MyMaxExamples | cpp-templates/main.cpp:25-26 | `my_max(3, 5)` is 5 and `my_max('a', 'd')` is `'d'` |
| CubeStack.Pushed | cpp-tower/Stack.cpp:15-26 | a push is accepted exactly when the stack is empty or the new cube is no longer than the top; an accepted push appends the cube and keeps everything below it |
| CubeStack.PushedKeepsTower | cpp-tower/Stack.cpp:15-26 | an accepted push onto a tower leaves a tower, in which no cube lies on a smaller one |
| CubeStack.PoppedKeepsTower | cpp-tower/Stack.cpp:28-32 | taking the top cube off a tower leaves a tower |
| CubeStack.Stack.constructor | cpp-tower/Stack.cpp:15-40 | a new stack holds no cube |
| CubeStack.Stack.PushBack | cpp-tower/Stack.cpp:15-26 | `accepted` holds exactly when the value-level push is accepted; the cube is appended when accepted, and otherwise the stack is unchanged; a tower stays a tower |
| CubeStack.Stack.PeekTop | cpp-tower/Stack.cpp:34-36 | returns the last cube of a non-empty stack, which on a tower is no longer than any cube below it |
| CubeStack.Stack.RemoveTop | cpp-tower/Stack.cpp:28-32 | returns the last cube and drops it from the stack; a tower stays a tower |
| CubeStack.Stack.Size | cpp-tower/Stack.cpp:38-40 | the number of cubes |
| CubeStack.InitialStacks | cpp-tower-solution2/Game.cpp:11-36 | three distinct fresh stacks; stack 0 holds lengths 4, 3, 2, 1 from the bottom, and stacks 1 and 2 are empty |
| TowerRecursive.Game.constructor | cpp-tower-solution2/Game.cpp:11-36 | the initial game: cubes 4, 3, 2, 1 on stack 0 and nothing on the other two |
| TowerRecursive.Game.MoveCube | cpp-tower-solution2/Game.cpp:39-42 | the top cube leaves `s1`; it lands on `s2` exactly when the push is accepted, and it is lost otherwise, as with the source's exception |
| TowerRecursive.Game.Move | cpp-tower-solution2/Game.cpp:45-63 | when the plan fits, the top `k = end - start + 1` cubes of `source` end up on top of `target` in the same order; `spare` ends as it was; no push is rejected |
| TowerRecursive.Game.Solve | cpp-tower-solution2/Game.cpp:65-73 | a tower on stack 0 moves whole onto stack 2, leaving stacks 0 and 1 empty, and no push is rejected |
| TowerIterative.MoveTopKeepsTowers | cpp-tower-solution/Game.cpp:38-41 | moving a top cube onto a stack whose top is no shorter keeps every stack a tower |
| TowerIterative.MoveTopKeepsCubes | cpp-tower-solution/Game.cpp:38-41 | moving a top cube keeps the multiset of all cubes |
| TowerIterative.LegalStepKeepsTowers | cpp-tower-solution/Game.cpp:43-55 | a legal move between two stacks keeps every stack a tower and keeps the multiset of all cubes |
| TowerIterative.RoundOne | cpp-tower-solution/Game.cpp:60-64 | the first round of three legal moves from the initial game gives stacks [4, 3], [] and [2, 1] |
| TowerIterative.RoundTwo | cpp-tower-solution/Game.cpp:60-64 | the second round gives [4, 1], [3, 2] and [] |
| TowerIterative.RoundThree | cpp-tower-solution/Game.cpp:60-64 | the third round gives [], [3, 2] and [4, 1] |
| TowerIterative.RoundFour | cpp-tower-solution/Game.cpp:60-64 | the fourth round gives [2, 1], [] and [4, 3] |
| TowerIterative.RoundFive | cpp-tower-solution/Game.cpp:60-64 | the fifth round gives [], [] and [4, 3, 2, 1] |
| TowerIterative.AfterRoundsStep | cpp-tower-solution/Game.cpp:60-64 | each round takes the game from one of the five intermediate states to the next |
| TowerIterative.FiveRoundsSolve | cpp-tower-solution/Game.cpp:59-65 | after `n` rounds from the initial game the state is the `n`-th intermediate one, and stack 2 holds four cubes exactly when `n` is 5, so the loop runs five rounds |
| TowerIterative.Game.constructor | cpp-tower-solution/Game.cpp:11-36 | the initial game: cubes 4, 3, 2, 1 on stack 0 and nothing on the other two |
| TowerIterative.Game.Move | cpp-tower-solution/Game.cpp:38-41 | `accepted` holds exactly when the push of the moved cube is accepted; an accepted move is the value-level move of the top cube; after a rejected push, the cube has left stack i and the other two stacks are unchanged |
| TowerIterative.Game.LegalMove | cpp-tower-solution/Game.cpp:43-55 | the move is never rejected, and the new stacks are the value-level legal step |
| TowerIterative.Game.Solve | cpp-tower-solution/Game.cpp:59-65 | from the initial game the loop ends with all four cubes on stack 2, in order, and the other stacks empty |
| MinHeap.RootIsMinimum | heap/Heap.hpp:40-51 | in a heap-ordered array the root is no larger than the key in any slot from 1 to `size` |
| MinHeap.RootIsLeast | heap/Heap.hpp:40-51 | in a non-empty heap-ordered array the root is one of the keys and no larger than any of them |
| MinHeap.SameSlotsOrdered | heap/Heap.hpp:83-92 | two arrays that agree on slots 1..n hold the same keys, and one is heap-ordered when the other is |
| MinHeap.SwapKeepsElements | heap/Heap.hpp:44 | exchanging two slots within 1..n keeps the multiset of keys |
| MinHeap.UpStep | heap/Heap.hpp:54-62 | after swapping a key with a larger parent, the array is heap-ordered except possibly at the parent |
| MinHeap.UpDone | heap/Heap.hpp:54-62 | when the key is at the root or its parent is no larger, the whole array is heap-ordered |
| MinHeap.DownStep | heap/Heap.hpp:71-80 | after swapping a key with its smaller, smaller-keyed child, the array is heap-ordered except possibly below that child |
| MinHeap.DownDone | heap/Heap.hpp:71-80 | when the key is at a leaf or no child is smaller, the whole array is heap-ordered |
| MinHeap.AppendPrepares | heap/Heap.hpp:26-27 | placing a key in the slot after the last keeps the order everywhere except at that slot, and adds the key to the multiset |
| MinHeap.RemoveRootPrepares | heap/Heap.hpp:43-44 | moving the last key to the root and dropping the last slot keeps the order everywhere except below the root, and removes the root's key from the multiset |
| MinHeap.IsRoot | heap/Heap.hpp:95-98 | slot `index` is the root exactly when it is slot 1 |
| MinHeap.IsLeaf | heap/Heap.hpp:101-106 | slot `index` is a leaf exactly when neither child slot is within the first `size` slots |
| MinHeap.Parent | heap/Heap.hpp:109-112 | the parent of slot `index` lies above it, and `index` is its left or its right child |
| MinHeap.CopyPrefix | heap/Heap.hpp:85-86 | a fresh array of `2 * capacity + 1` slots whose slots 1..capacity equal those of the old array |
| MinHeap.Heap.constructor | heap/Heap.hpp:11-16 | an empty valid heap with capacity 2 |
| MinHeap.Heap.MinChild | heap/Heap.hpp:115-128 | the left child, or the right child when it exists and is strictly smaller; its key is no larger than either child's |
| MinHeap.Heap.Swap | heap/Heap.hpp:44 | the two slots are exchanged and no other slot changes |
| MinHeap.Heap.HeapifyUp | heap/Heap.hpp:54-62 | an array ordered except at `index` becomes heap-ordered, with the same keys |
| MinHeap.Heap.HeapifyDown | heap/Heap.hpp:65-80 | an array ordered except below `index` becomes heap-ordered, with the same keys |
| MinHeap.Heap.GrowArray | heap/Heap.hpp:83-92 | the capacity doubles into a fresh array whose first slots hold the old keys; the size and the keys are unchanged |
| MinHeap.Heap.Append | heap/Heap.hpp:25-30 | with room left, one more key is held and the heap stays ordered |
| MinHeap.Heap.Insert | heap/Heap.hpp:19-37 | the heap holds its old keys plus `key` and stays ordered; the capacity doubles exactly when the heap was full |
| MinHeap.Heap.RemoveMin | heap/Heap.hpp:40-51 | returns a least key of a non-empty heap and removes one copy of it; the heap stays ordered |
| MinHeap.BuildHeap | heap/main.cpp:12-24 | inserting keys one by one gives a valid heap holding exactly those keys |
| MinHeap.DrainStep | heap/main.cpp:28-37 | appending the minimum of what is left keeps the output ascending and no larger than what is left |
| MinHeap.DrainInOrder | heap/main.cpp:11-37 | keys inserted and then removed one by one come out as a sorted permutation of the keys |
| ValueBinaryTrees.PreOrderListsElements | binary-tree-traversals/ValueBinaryTree.hpp:138-151 | the pre-order walk lists every element of the tree exactly once |
| ValueBinaryTrees.InOrderListsElements | binary-tree-traversals/ValueBinaryTree.hpp:153-164 | the in-order walk lists every element of the tree exactly once |
| ValueBinaryTrees.PostOrderListsElements | binary-tree-traversals/ValueBinaryTree.hpp:167-178 | the post-order walk lists every element of the tree exactly once |
| ValueBinaryTrees.PostOrderOfComplete | binary-tree-traversals/ValueBinaryTree.h:98-125 | the post-order of a complete subtree is the post-order of its left child, then of its right child, then its root |
| ValueBinaryTrees.SubtreeParts | binary-tree-traversals/ValueBinaryTree.hpp:25-29 | with children at positions 2i+1 and 2i+2, a subtree is its root plus its two child subtrees, and those two do not overlap |
| ValueBinaryTrees.BelowSplits | binary-tree-traversals/ValueBinaryTree.hpp:25-29 | among the first n positions, those below i are i and the disjoint position sets below its two children |
| ValueBinaryTrees.SizeCountsBelow | binary-tree-traversals/ValueBinaryTree.hpp:25-29 | the complete subtree at position i has as many nodes as there are positions below i |
| ValueBinaryTrees.CompleteHasAll | binary-tree-traversals/ValueBinaryTree.hpp:30-132 | the complete tree built from `contents` has exactly `|contents|` nodes, so every value is placed |
| ValueBinaryTrees.SevenTraversals | binary-tree-traversals/main.cpp:40-70 | on the tree of 1..7 the pre-, in- and post-order walks give the three expected outputs |
| ValueBinaryTrees.TreeNode.constructor | binary-tree-traversals/ValueBinaryTree.h:51-52 | a node holds a copy of the data and two null children |
| ValueBinaryTrees.ValueBinaryTree.constructor | binary-tree-traversals/ValueBinaryTree.h:59 | a new tree is empty, with a null root |
| ValueBinaryTrees.ValueBinaryTree.FromContents | binary-tree-traversals/ValueBinaryTree.h:92-94 | the tree built from `contents` is the complete tree of `contents` |
| ValueBinaryTrees.ValueBinaryTree.CreateCompleteTree | binary-tree-traversals/ValueBinaryTree.hpp:30-132 | every node of the old tree is unlinked from its children, standing for its release; the new nodes are fresh and hold `contents` level by level, left to right, with the children of position i at 2i+1 and 2i+2 |
| ValueBinaryTrees.ValueBinaryTree.FillLevels | binary-tree-traversals/ValueBinaryTree.hpp:58-124 | starting from the root alone, the loop over the remaining items leaves the complete tree of `contents`, every node after the root fresh |
| ValueBinaryTrees.ValueBinaryTree.Attach | binary-tree-traversals/ValueBinaryTree.hpp:96-121 | the next node is stored through the first open child pointer of the queue and becomes the next position |
| ValueBinaryTrees.ValueBinaryTree.DestroySubtree | binary-tree-traversals/ValueBinaryTree.h:98-125 | every node below the given one loses its child pointers, nodes elsewhere keep theirs, and the nodes are released in post-order |
| ValueBinaryTrees.ValueBinaryTree.DestroyWholeTree | binary-tree-traversals/ValueBinaryTree.h:129-132 | every node is released and the tree is left empty, with a null root |
| ValueBinaryTrees.ValueBinaryTree.PreOrderFrom | binary-tree-traversals/ValueBinaryTree.hpp:138-151 | the values visited from a node, in the source's order, are the pre-order of the value view of that subtree |
| ValueBinaryTrees.ValueBinaryTree.InOrderFrom | binary-tree-traversals/ValueBinaryTree.hpp:153-164 | the values visited from a node are the in-order of the value view of that subtree |
| ValueBinaryTrees.ValueBinaryTree.PostOrderFrom | binary-tree-traversals/ValueBinaryTree.hpp:167-178 | the values visited from a node are the post-order of the value view of that subtree |
| ValueBinaryTrees.SevenTree | binary-tree-traversals/main.cpp:40-70 | building the tree of 1..7 on the heap and walking it from the root gives `1 2 4 5 3 6 7`, `4 2 5 1 6 3 7` and `4 5 2 6 7 3 1` |
| GenericTrees.NullsFromSlots | z_hw/Ordered_DataStructure/GenericTree/GenericTreeExercises.h:214-240 | every pointer is a node or null, and all but the root sit in a child slot, so the null pointers number one plus the child slots minus the nodes |
| GenericTrees.CountNullChildrenRecursive | z_hw/Ordered_DataStructure/GenericTree/GenericTreeExercises.h:214-240 | the result is the number of null pointers in the tree the pointer leads to, a null pointer counting itself |
| GenericTrees.CountNullChildrenIterative | z_hw/Ordered_DataStructure/GenericTree/GenericTreeExercises.h:247-283 | the explicit-stack walk gives the same count of null pointers as the recursive definition |
| GenericTrees.DequeueShrinks | z_hw/Ordered_DataStructure/GenericTree/GenericTreeExercises.h:336-346 | serving the front of the queue and appending its children makes the queue's total size smaller, and moves every null pointer but the served one into the new queue |
| GenericTrees.QueueIsLevels | z_hw/Ordered_DataStructure/GenericTree/GenericTreeExercises.h:336-346 | the order in which a first-in first-out queue serves its pointers is the level order of the forest it holds |
| GenericTrees.LevelStep | z_hw/Ordered_DataStructure/GenericTree/GenericTreeExercises.h:288-295 | the level order of a level is its data, then the level order of the level below |
| GenericTrees.TraverseLevels | z_hw/Ordered_DataStructure/GenericTree/GenericTreeExercises.h:308-349 | the results are the data of the tree level by level, left to right, with no item for a null pointer, as the exercise documents |
| GenericTrees.TraverseLevelsAsWritten | z_hw/Ordered_DataStructure/GenericTree/GenericTreeExercises.h:308-349 | the code as it stands fails exactly when a non-null root has a null pointer below it, and otherwise gives the level order |
| GenericTrees.NullChildExample | z_hw/Ordered_DataStructure/GenericTree/GenericTreeExercises.h:336-346 | a node whose only child pointer is null makes the code fail, where the documented result is that node's data alone |
| GenericTrees.EnqueueAll | z_hw/Ordered_DataStructure/GenericTree/GenericTreeExercises.h:342-345 | the queue afterwards is the old queue followed by the child pointers in order |
| GenericTrees.FirstTestLevels | z_hw/Ordered_DataStructure/GenericTree/GenericTreeExercises.h:359-377 | the first test tree lists as A, then B E, then C D F G |
| GenericTrees.SecondTestLevels | z_hw/Ordered_DataStructure/GenericTree/tests/week3_tests.cpp:67-93 | the second test tree lists as A B D J K C E I L F G M H |
| GenericTrees.AddChildCounts | z_hw/Ordered_DataStructure/GenericTree/GenericTreeExercises.h:102-107 | adding a child adds exactly one node and no null pointer |
| GenericTrees.GenericTree.constructor | z_hw/Ordered_DataStructure/GenericTree/GenericTreeExercises.h:119 | a tree built from one datum is a single node with no children |
| GenericTrees.GenericTree.Clear | z_hw/Ordered_DataStructure/GenericTree/GenericTreeExercises.h:99 | the root becomes null |
| GenericTrees.GenericTree.CreateRoot | z_hw/Ordered_DataStructure/GenericTree/GenericTreeExercises.h:100 | the tree becomes a single node holding the datum |
| GenericTrees.GenericTree.AddChild | z_hw/Ordered_DataStructure/GenericTree/GenericTreeExercises.h:102-107 | a new leaf is appended to the children of the node at the path, and the tree has one more node |
| GenericTrees.TreeFactory | z_hw/Ordered_DataStructure/GenericTree/GenericTreeExercises.h:88-108 | whatever the tree held before, it becomes 4 over 8 and 15, with 8 over 16 and 23 and 16 over 42, and it lists in level order as 4 8 15 16 23 42 |
| GenericTrees.FactoryLevels | z_hw/Ordered_DataStructure/GenericTree/GenericTreeExercises.h:402-415 | the factory tree in level order is 4, then 8 15, then 16 23, then 42 |
| LinkedLists.Node.constructor | z_hw/Ordered_DataStructure/LinkedList/LinkedList.h:45 | a node holds the data and two null links |
| LinkedLists.InsertPos | z_hw/Ordered_DataStructure/LinkedList/LinkedListExercises.h:52-55 | the insertion point lies after every element no greater than the new one, in front of the earliest greater element, or at the end |
| LinkedLists.InsertPosUnique | z_hw/Ordered_DataStructure/LinkedList/LinkedListExercises.h:52-55 | no other index has nothing greater before it and something greater at it |
| LinkedLists.InsertKeepsSorted | z_hw/Ordered_DataStructure/LinkedList/LinkedListExercises.h:41-45 | inserting at the insertion point keeps a sorted list sorted |
| LinkedLists.InsertAddsOne | z_hw/Ordered_DataStructure/LinkedList/LinkedListExercises.h:82-137 | the insertion adds exactly one occurrence of the new item and nothing else |
| LinkedLists.InsertAt | z_hw/Ordered_DataStructure/LinkedList/LinkedListExercises.h:52-55 | the list after insertion is the part before the insertion point, the new item, then the rest |
| LinkedLists.LinkedList.constructor | z_hw/Ordered_DataStructure/LinkedList/LinkedList.h:258 | the new list is empty and valid |
| LinkedLists.LinkedList.PushFront | z_hw/Ordered_DataStructure/LinkedList/LinkedList.h:383-406 | a fresh node holding the item goes in front of the old nodes, which stay in place; the links and `size_` stay consistent |
| LinkedLists.LinkedList.PushBack | z_hw/Ordered_DataStructure/LinkedList/LinkedList.h:410-433 | a fresh node holding the item goes after the old nodes, which stay in place; the links and `size_` stay consistent |
| LinkedLists.LinkedList.Front | z_hw/Ordered_DataStructure/LinkedList/LinkedList.h:130-137 | the first item, or an error exactly when the list is empty |
| LinkedLists.LinkedList.Back | z_hw/Ordered_DataStructure/LinkedList/LinkedList.h:156-163 | the last item, or an error exactly when the list is empty |
| LinkedLists.LinkedList.Size | z_hw/Ordered_DataStructure/LinkedList/LinkedList.h:121 | the number of items |
| LinkedLists.LinkedList.Empty | z_hw/Ordered_DataStructure/LinkedList/LinkedList.h:125 | a null head pointer means exactly that the list has no items |
| LinkedLists.LinkedList.Clear | z_hw/Ordered_DataStructure/LinkedList/LinkedList.h:185-192 | every node is removed, the list is empty and valid, and the size check never throws |
| LinkedLists.LinkedList.IsSorted | z_hw/Ordered_DataStructure/LinkedList/LinkedList.h:518-543 | true exactly when every adjacent pair is in order; lists of fewer than two items are sorted |
| LinkedLists.LinkedList.Equals | z_hw/Ordered_DataStructure/LinkedList/LinkedList.h:549-572 | true exactly when both lists hold the same items in the same order |
| LinkedLists.LinkedList.AssertCorrectSize | z_hw/Ordered_DataStructure/LinkedList/LinkedList.h:854-863 | on a valid list the node count from the head equals `size_`, so the check never fails |
| LinkedLists.LinkedList.AssertPrevLinks | z_hw/Ordered_DataStructure/LinkedList/LinkedList.h:869-891 | on a valid list the backward walk from the tail meets the forward nodes in reverse, so the check never fails |
| LinkedLists.LinkedList.InsertOrdered | z_hw/Ordered_DataStructure/LinkedList/LinkedListExercises.h:82-137 | exactly one fresh node is linked in, at the insertion point; the old nodes keep their order and their memory, and the items are the value-level insertion |
| LinkedLists.LinkedList.InsertIntoEmpty | z_hw/Ordered_DataStructure/LinkedList/LinkedListExercises.h:86-92 | on an empty list the new node becomes both the head and the tail |
| LinkedLists.LinkedList.InsertByWalk | z_hw/Ordered_DataStructure/LinkedList/LinkedListExercises.h:94-136 | on a non-empty list the walk links the node in at the insertion point of its item, and the size grows by one |
| LinkedLists.LinkedList.LinkBeforeNode | z_hw/Ordered_DataStructure/LinkedList/LinkedListExercises.h:99-117 | the node goes in front of the current node, as the new head or between it and its predecessor |
| LinkedLists.LinkedList.LinkFirst | z_hw/Ordered_DataStructure/LinkedList/LinkedListExercises.h:103-109 | the node goes in front of the head and becomes the new head |
| LinkedLists.LinkedList.LinkBefore | z_hw/Ordered_DataStructure/LinkedList/LinkedListExercises.h:110-117 | the node goes between the current node and its predecessor |
| LinkedLists.LinkedList.LinkLast | z_hw/Ordered_DataStructure/LinkedList/LinkedListExercises.h:122-128 | the node goes after the tail and becomes the new tail |
| LinkedLists.LinkedList.PopFront | z_hw/Ordered_DataStructure/LinkedList/LinkedList.h:437-473 | on an empty list nothing changes; otherwise the head node and its item go, and the rest stays linked |
| LinkedLists.LinkedList.PopBack | z_hw/Ordered_DataStructure/LinkedList/LinkedList.h:477-513 | on an empty list nothing changes; otherwise the tail node and its item go, and the rest stays linked |
| LinkedLists.InsertOrderedScenario | z_hw/Ordered_DataStructure/LinkedList/main.cpp:131-144 | inserting 7, 4, -1 and 10 in turn into 5 6 8 9 gives -1 4 5 6 7 8 9 10 |
| ListSorting.SortedCons | z_hw/Ordered_DataStructure/LinkedList/LinkedList.h:518-543 | an item in front of a sorted list keeps it sorted exactly when it is no larger than the first item |
| ListSorting.MergeSpec | z_hw/Ordered_DataStructure/LinkedList/LinkedListExercises.h:312-324 | the merge of two lists has as many items as both together |
| ListSorting.MergeSpecPermutes | z_hw/Ordered_DataStructure/LinkedList/LinkedListExercises.h:173-176 | the merge keeps every item of both inputs, duplicates included |
| ListSorting.MergeSpecSorted | z_hw/Ordered_DataStructure/LinkedList/LinkedListExercises.h:142-149 | the merge of two sorted lists is sorted |
| ListSorting.MergeStartsWithAFront | z_hw/Ordered_DataStructure/LinkedList/LinkedListExercises.h:312-324 | a non-empty merge starts with the front of one of the inputs |
| ListSorting.Drain | z_hw/Ordered_DataStructure/LinkedList/LinkedListExercises.h:254-309 | each draining loop keeps every item, and on input that is already in order it simply appends the rest |
| ListSorting.DrainSwap | z_hw/Ordered_DataStructure/LinkedList/LinkedListExercises.h:271-276 | the swap branch of a draining loop keeps every item, and it can only be reached when the input is out of order |
| ListSorting.MergeDone | z_hw/Ordered_DataStructure/LinkedList/LinkedListExercises.h:252-338 | once both sides are empty, the merged list holds the items of both inputs and, on sorted inputs, is their merge |
| ListSorting.Merge | z_hw/Ordered_DataStructure/LinkedList/LinkedListExercises.h:212-339 | the result holds every item of both inputs with multiplicity; on sorted inputs it is the sorted merge, ties taken from the right list |
| ListSorting.SplitHalves | z_hw/Ordered_DataStructure/LinkedList/LinkedList.h:640-679 | the two halves put together give the list back, and the right half has the floor of half the items |
| ListSorting.FlattenSingletons | z_hw/Ordered_DataStructure/LinkedList/LinkedList.h:686-705 | a list of one-item lists flattens back to the items, in order |
| ListSorting.Explode | z_hw/Ordered_DataStructure/LinkedList/LinkedList.h:686-705 | one single-item list per item, in order |
| ListSorting.MergeSortRecursive | z_hw/Ordered_DataStructure/LinkedList/LinkedList.h:710-780 | the result is sorted and is a permutation of the list |
| ListSorting.MergeSortIterative | z_hw/Ordered_DataStructure/LinkedList/LinkedList.h:785-836 | the result is sorted and is a permutation of the list |
| SearchTrees.OrderedIffIncreasing | bst/Dictionary.hpp:110-145 | a tree is a search tree exactly when the keys of its in-order walk strictly increase |
| SearchTrees.ContentIsItems | bst/Dictionary.hpp:110-145 | the dictionary a tree holds is the one its in-order walk describes |
| SearchTrees.ItemsCoverContent | bst/Dictionary.hpp:110-145 | the keys met by the in-order walk are exactly the keys of the tree |
| SearchTrees.FindPath | bst/Dictionary.hpp:110-145 | the search returns a slot of the tree, which holds either null or a node with the key |
| SearchTrees.FindPathFinds | bst/Dictionary.hpp:110-145 | on a search tree the slot holds a node exactly when the key is present, and that node holds the key's data |
| SearchTrees.InsertAtFound | bst/Dictionary.hpp:151-161 | a new leaf in the null slot where the search ends keeps a search tree ordered and adds exactly that key |
| SearchTrees.RemoveAtSlot | bst/Dictionary.hpp:167-174 | replacing a subtree with one that lacks exactly one of its keys keeps the whole tree ordered and takes out exactly that key |
| SearchTrees.WalkWithoutRoot | bst/Dictionary.hpp:180-270 | a tree whose walk is the walk of a node's two subtrees is ordered and holds the node's dictionary without its key |
| SearchTrees.SetPayloadAt | bst/Dictionary.hpp:381-488 | overwriting a node's key and data keeps the shape of the tree |
| SearchTrees.SwapPayloads | bst/Dictionary.hpp:381-488 | exchanging the nodes of two slots keeps the shape of the tree |
| SearchTrees.SwapExchanges | bst/Dictionary.hpp:381-488 | after the swap the node from the first slot sits at the second, the node from the second sits at the first, and every other node stays where it was |
| SearchTrees.SwappedSlotAsWrittenMisses | bst/Dictionary.hpp:450-463 | when the first node is the left child of the second, the slot returned as written holds the second node, not the first |
| SearchTrees.SwappedSlotHoldsFirst | bst/Dictionary.hpp:381-488 | the second slot holds the first node after the swap, and the slot returned as written agrees with it whenever the second slot lies below the first |
| Dictionaries.RightmostOf | bst/Dictionary.hpp:355-370 | a slot of the subtree: null for a null subtree, otherwise a node with no right child reached by right steps only |
| Dictionaries.IopOf | bst/Dictionary.hpp:284-348 | null input gives its own slot; with no left child, the null left slot; otherwise the rightmost slot of the left subtree |
| Dictionaries.LastItemIsGreatest | bst/Dictionary.hpp:355-370 | on a search tree the rightmost node holds the largest key |
| Dictionaries.IopIsPredecessor | bst/Dictionary.hpp:284-348 | on a search tree whose node has a left child, the in-order predecessor is a node holding the largest key smaller than the node's key |
| Dictionaries.RemoveRightmostItems | bst/Dictionary.hpp:262-268 | unlinking the rightmost node takes exactly the last pair off the in-order walk |
| Dictionaries.UnlinkItems | bst/Dictionary.hpp:180-270 | the removal takes exactly the node's own pair out of the in-order walk |
| Dictionaries.UnlinkRemoves | bst/Dictionary.hpp:180-270 | on a search tree the removal keeps the order and takes out exactly the node's key |
| Dictionaries.UnlinkBySwap | bst/Dictionary.hpp:232-269 | swapping a two-child node with its predecessor and removing the predecessor's slot, which has no right child, gives the same tree as the direct removal |
| Dictionaries.TwoChildRemove | bst/Dictionary.hpp:232-269 | the same within a whole tree: after the swap, removing the predecessor's slot removes the original node |
| Dictionaries.Dictionary.constructor | bst/Dictionary.h:21 | a new dictionary is empty |
| Dictionaries.Dictionary.Find | bst/Dictionary.hpp:77-86 | succeeds exactly when the key is present, with the data stored under it; otherwise the not-found error |
| Dictionaries.Dictionary.Insert | bst/Dictionary.hpp:151-161 | a present key gives an error and changes nothing; otherwise a leaf goes into the slot where the search ends, the tree stays a search tree and the key maps to the data |
| Dictionaries.Dictionary.Remove | bst/Dictionary.hpp:167-174 | a missing key gives an error and changes nothing; otherwise the key's data is returned, the key is gone, and the tree stays a search tree |
| Dictionaries.Dictionary.RemoveAt | bst/Dictionary.hpp:180-270 | a null slot gives an error; otherwise the node's data is returned and the slot gets what the removal puts there |
| Dictionaries.Dictionary.SwapNodes | bst/Dictionary.hpp:381-488 | the nodes of the two slots trade places, and the slot returned is the one the code returns: the first slot when the first node is a child of the second, otherwise the second slot, which then holds the node that was in the first |
| Dictionaries.DemoContents | bst/main.cpp:92-144 | the contents after each insert and remove of the example program, and the two failing calls at the end |
| Dictionaries.DictionaryExample | bst/main.cpp:92-144 | the example program: 51 is found, removing 11, 51 and 19 returns their data, finding 51 and removing 99 then fail, and 2, 4, 20, 37 and 55 remain |
| AvlBalance.Height | avl/AVL.h:213-222 | a null subtree has height -1, and any other subtree has a height of at least 0 |
| AvlBalance.OrderedPassesOrderCheck | avl/AVL-extra.hpp:144-172 | every search tree passes the order check |
| AvlBalance.OrderCheckLocalOnly | avl/AVL-extra.hpp:144-172 | a balanced tree whose grandchild breaks the search order still passes the order check, which compares a node with its children only |
| AvlBalance.RunDebuggingChecks | avl/AVL-extra.hpp:97-141 | the checks return true exactly when every cached height is right, every balance factor is -1, 0 or 1 and the whole tree is in search order; otherwise they fail |
| AvlBalance.BalancedChildren | avl/AVL.h:226-235 | both subtrees of an AVL node are AVL trees, its cached height is one more than its taller child's, and its balance factor is -1, 0 or 1 |
| AvlBalance.UpdateHeightBalances | avl/AVL.hpp:392-400 | recomputing the height of a node with AVL subtrees and balance factor -1, 0 or 1 gives an AVL tree one taller than its taller child |
| AvlBalance.UpdateHeightIdle | avl/AVL.hpp:392-400 | on a tree whose heights pass the height check, recomputing the height changes nothing |
| AvlBalance.RotateLeft | avl/AVL.hpp:473-515 | the left rotation of a node with a right child is a node |
| AvlBalance.RotateRight | avl/AVL.hpp:518-540 | the right rotation of a node with a left child is a node |
| AvlBalance.RotateRightLeft | avl/AVL.hpp:543-568 | the right-left rotation is a node |
| AvlBalance.RotateLeftRight | avl/AVL.hpp:571-583 | the left-right rotation is a node |
| AvlBalance.UpdateHeightItems | avl/AVL.hpp:392-400 | recomputing a height keeps the in-order walk |
| AvlBalance.RotateLeftItems | avl/AVL.hpp:473-515 | the left rotation keeps the in-order walk |
| AvlBalance.RotateRightItems | avl/AVL.hpp:518-540 | the right rotation keeps the in-order walk |
| AvlBalance.RotationsKeepItems | avl/AVL.hpp:473-583 | each of the four rotations keeps the in-order walk wherever it applies |
| AvlBalance.Rotated | avl/AVL.hpp:403-454 | the rotation chosen for a balance factor of -2 to 2 yields a node |
| AvlBalance.EnsureBalanceKeepsItems | avl/AVL.hpp:403-470 | a rebalancing that succeeds keeps the in-order walk |
| AvlBalance.RightRotationBalances | avl/AVL.hpp:423-427 | a node leaning left by two whose left child leans left or not at all becomes an AVL tree after a right rotation, no taller than one more than its taller child before |
| AvlBalance.LeftRightRotationBalances | avl/AVL.hpp:428-430 | a node leaning left by two whose left child leans right becomes an AVL tree after the left-right rotation, exactly as tall as its taller child was |
| AvlBalance.LeftRotationBalances | avl/AVL.hpp:439-443 | a node leaning right by two whose right child leans right or not at all becomes an AVL tree after a left rotation |
| AvlBalance.RightLeftRotationBalances | avl/AVL.hpp:444-446 | a node leaning right by two whose right child leans left becomes an AVL tree after the right-left rotation, exactly as tall as its taller child was |
| AvlBalance.EnsureBalanceRestores | avl/AVL.hpp:403-470 | a node with AVL subtrees and balance factor -2 to 2 is rebalanced without error into an AVL tree at most one taller than its taller child, and exactly one taller when no rotation was needed |
| AvlBalance.EnsureBalanceAsWrittenRejects | avl/AVL.hpp:431-437 | after removing 1 from the AVL tree 2(1, 4(3, 5)), the rebalancing as written throws on the right child's balance factor 0, while the documented rebalancing succeeds and gives an AVL tree |
| AvlBalance.RebalanceChild | avl/AVL.hpp:138-168 | replacing one child of an AVL node by an AVL tree whose height differs by at most one, then rebalancing, succeeds, keeps the walk, gives an AVL tree, and changes the height by at most one, in the direction of the child's change |
| AvlUpdates.RemoveMaxWalk | avl/AVL.hpp:606-645 | removing the rightmost node below the target takes exactly the last pair off that subtree's in-order walk |
| AvlUpdates.IopRemoveWalk | avl/AVL.hpp:586-603 | removal through the predecessor returns the target's data and leaves the walk of the target's two subtrees |
| AvlUpdates.RemoveWalk | avl/AVL.hpp:175-264 | removing a node returns its data and leaves the walk of its two subtrees |
| AvlUpdates.FindAndRemoveMissing | avl/AVL.hpp:138-168 | removing a key that is absent reports not found |
| AvlUpdates.FindAndRemoveRemoves | avl/AVL.hpp:138-168 | on a search tree a removal that succeeds found the key, returns its data, keeps the search order and takes out exactly that key |
| AvlUpdates.RemoveMaxBalances | avl/AVL.hpp:606-645 | with the documented rebalancing of avl/AVL.h:68-70, below the target, removing the rightmost node of an AVL subtree succeeds and leaves an AVL tree of the same height or one less |
| AvlUpdates.IopRemoveBalances | avl/AVL.hpp:586-603 | with the documented rebalancing of avl/AVL.h:68-70, removing an AVL node with a left child through its predecessor succeeds and leaves an AVL tree of the same height or one less |
| AvlUpdates.RemoveBalances | avl/AVL.hpp:175-264 | with the documented rebalancing of avl/AVL.h:68-70, removing the node of an AVL tree succeeds and leaves an AVL tree of the same height or one less |
| AvlUpdates.FindAndRemoveBalances | avl/AVL.hpp:138-168 | with the documented rebalancing of avl/AVL.h:68-70, removing a present key from an AVL search tree succeeds and leaves an AVL tree of the same height or one less |
| AvlUpdates.FindAndRemoveCorrect | avl/AVL.hpp:130-168 | with the documented rebalancing of avl/AVL.h:68-70, on an AVL search tree, removing an absent key reports not found; removing a present key returns its data and leaves an AVL search tree holding every other key, of the same height or one less |
| AvlUpdates.IopRemoveAsWrittenDangles | avl/AVL.hpp:606-645 | when the predecessor lies below the target's left child, the removal as written reads a deleted node, although the intended removal succeeds and takes out the target's key; when it is the left child itself, the code as written makes that removal |
| AvlUpdates.FindAndInsertAdds | avl/AVL.h:148-150 | on a search tree inserting a present key reports it, and an insertion that succeeds keeps the search order and maps the key to the data |
| AvlUpdates.FindAndInsertBalances | avl/AVL.h:148-150 | inserting a new key into an AVL search tree succeeds and leaves an AVL tree of the same height or one more |
| AvlTrees.AVL.constructor | avl/AVL.h:93 | a new tree has a null head and holds nothing |
| AvlTrees.AVL.Empty | avl/AVL.h:240-245 | true exactly when the tree holds no key |
| AvlTrees.AVL.Find | avl/AVL.hpp:39-107 | succeeds exactly when the key is present, with the data stored under it |
| AvlTrees.AVL.PrintInOrder | avl/AVL-extra.hpp:18-38 | the printed pairs describe exactly the tree's contents, with keys increasing on a search tree |
| AvlTrees.AVL.Insert | avl/AVL.hpp:114-123 | a present key gives an error and changes nothing; otherwise a leaf of height 0 goes into the slot where the search ends, the tree stays a search tree and the key maps to the data |
| AvlTrees.AVL.InsertBalanced | avl/AVL.h:148-150 | a present key gives an error and changes nothing; a success maps the key to the data in a search tree; on an AVL tree a new key always succeeds and the tree stays AVL, growing by at most one |
| AvlTrees.AVL.FindAndInsert | avl/AVL.h:148-150 | the slot gets the result of the rebalancing insertion, or the error it reports; on a search tree a present key changes nothing |
| AvlTrees.AVL.Remove | avl/AVL.hpp:130-135 | a missing key gives not found and changes nothing; a success returns the key's data and leaves a search tree without that key; with the documented rebalancing, on an AVL tree a present key is always removed and the tree stays AVL, shrinking by at most one |
| AvlTrees.AVL.FindAndRemove | avl/AVL.hpp:138-168 | the slot gets the result of the removal with the documented rebalancing and its data is returned, or the error it reports; an absent key changes nothing |
| AvlTrees.AVL.RemoveAt | avl/AVL.hpp:175-264 | the slot gets what the removal of its node leaves and the node's data is returned; a null slot is an error that changes nothing |
| AvlTrees.AVL.IopRemove | avl/AVL.hpp:586-603 | the slot gets the result of the intended removal through the predecessor, with the documented rebalancing, and the target's data is returned, or the error it reports |
| AvlTrees.AVL.IopRemoveFrom | avl/AVL.hpp:606-645 | a null search slot is an error that changes nothing; otherwise the target takes the predecessor's key and data, the search slot gets what removing its rightmost node leaves, and the target's data is returned |
| AvlTrees.AVL.SwapNodes | avl/AVL.hpp:278-389 | the nodes of the two slots trade places, heights staying with the positions, and the slot returned is the one the code returns: the first slot when the first node is a child of the second, otherwise the second slot, which then holds the node that was in the first |
| AvlTrees.AVL.UpdateHeightAt | avl/AVL.hpp:392-400 | a null slot is left alone; otherwise the node's height is recomputed from its children |
| AvlTrees.AVL.RotateLeftAt | avl/AVL.hpp:473-515 | the slot gets its left rotation; a null node or null right child is an error that changes nothing |
| AvlTrees.AVL.RotateRightAt | avl/AVL.hpp:518-540 | the slot gets its right rotation; a null node or null left child is an error that changes nothing |
| AvlTrees.AVL.RotateRightLeftAt | avl/AVL.hpp:543-568 | the slot gets its right-left rotation; a missing node on the way is an error that changes nothing |
| AvlTrees.AVL.RotateLeftRightAt | avl/AVL.hpp:571-583 | the slot gets its left-right rotation; a missing node on the way is an error that changes nothing |
| AvlTrees.AVL.EnsureBalanceAt | avl/AVL.hpp:403-470 | the slot gets its subtree rebalanced as documented, or the error that rebalancing reports |
| AvlTrees.AVL.ClearTree | avl/AVL.h:248-254 | when it finishes without error the tree is empty, and with the documented rebalancing it always does on an AVL tree |
| AvlTrees.InsertStaleHeight | avl/AVL.hpp:114-123 | inserting a larger key under a single node leaves a tree that fails the height check, while the rebalancing insertion gives an AVL tree |

## Left out

- Console output: `printVertical`, the text `_printInOrder` writes (its visiting order is modelled as a sequence), `operator<<`, `LinkedList::print`, the `cout` trace inside `Heap::insert`, the depth trace of the recursive `_move` and the `main` drivers. The driver scenarios whose results matter are lemmas.
- Deallocation: `delete`, destructors and `clear`'s freeing of nodes. Dafny objects are garbage collected. `destroySubtree` is modelled by unlinking the nodes in the order the source deletes them.
- Node fields that store references (`const K& key`, `const D& data`): keys and data are stored by value, so a key whose lifetime ends outside the tree is not modelled.
- Element types: keys of the dictionary and the AVL tree, linked-list items, heap items and the data of the complete binary tree's nodes (a template parameter `T` in binary-tree-traversals/ValueBinaryTree.h) are `int`. Dictionary and AVL data, and generic-tree labels, are type parameters.
- Cube lengths are `real`, the source's `double`, compared exactly. Floating-point rounding is not modelled, and neither is any cube attribute other than its length.
- Linked-list copies: `splitHalves`, `explode`, `merge` and the two merge sorts work only on copies of their inputs. They are modelled on sequence values, so the node-level copying and the inputs staying untouched are not modelled beyond that.
- LinkedLists.LinkedList.InsertByWalk: the `finish` flag that ends the source's walk is modelled as a `break`.
- The `ENABLE_DEBUGGING_CHECKS` build switch: the AVL debugging checks are modelled as predicates that always run.
- `GenericTree.h` is not part of this model. Its `clear`, `createRoot` and `addChild` are modelled as the tree factory uses them: a child is appended to the children of the node at a given path.
- The AVL `_remove` calls `_iop_of`, which only the dictionary defines. Its two-child case is modelled through `_iopRemove`, whose two-argument definition is used rather than the three-argument declaration in avl/AVL.h:171.
- `get_height` and `get_balance_factor`, which avl/AVL.hpp calls, are taken to be `_get_height` and `_get_balance_factor` of avl/AVL.h.
- `_find_and_insert` is only declared in avl/AVL.h. AvlTrees.AVL.InsertBalanced and AvlTrees.AVL.FindAndInsert are a rebalancing insertion added as an extension. AvlTrees.AVL.Insert models `insert` as written.
- AvlTrees.AVL.EnsureBalanceAt: rebalances as avl/AVL.h:68-70 documents. A taller child with balance factor 0 gets a single rotation, where avl/AVL.hpp:431-437 and 447-453 throw (the Findings row for avl/AVL.hpp:423-453).
- AvlTrees.AVL.Remove: rebalances through EnsureBalanceAt, as documented. So removing 1 from 2(1, 4(3, 5)) succeeds, where the source throws. On a tree that is not an AVL tree, a rebalancing error can be raised part-way, and the tree left behind after such an error is not stated.
- AvlTrees.AVL.FindAndRemove: rebalances through EnsureBalanceAt, as documented, rather than with the throwing code (the Findings row for avl/AVL.hpp:423-453).
- AvlTrees.AVL.IopRemove: models the intended `_iopRemove` through IopRemoveFrom, with the documented rebalancing. The read of the deleted target at avl/AVL.hpp:628 (the Findings row for avl/AVL.hpp:606-645) and the balance-0 throw are not modelled.
- AvlTrees.AVL.ClearTree: removes the head key through Remove, so it uses the documented rebalancing. With the source's `_ensureBalance`, clearing 2(1, 4(3, 5)) throws while removing 2.
- AvlTrees.AVL.IopRemoveFrom: requires the predecessor slot to lie strictly below the target's slot. That holds for every call the removal makes.
- MinHeap.Heap.RemoveMin: requires a non-empty heap. The source does not check, and would read past the items it holds.
- CubeStack.Stack.PeekTop: requires a non-empty stack. The source does not check.
- CubeStack.Stack.RemoveTop: requires a non-empty stack. The source does not check.
- TowerRecursive.Game.Solve: requires at least one cube on stack 0, stacked as a tower. With no cubes, the source's `size() - 1` wraps around as an unsigned value.
- TowerRecursive.Game.Move: does not state that moving k cubes takes 2^k - 1 single-cube moves. It states where the cubes end up and that no push is rejected.
- bst/main.cpp and the other drivers use concrete keys and strings. Dictionaries.DictionaryExample takes any keys ordered as those are, and any data standing for the strings.
- avl/main.cpp is not modelled.

## Findings

| source | as written | input that shows it | evidently intended | confidence | as-written member | corrected member |
|---|---|---|---|---|---|---|
| z_hw/Ordered_DataStructure/GenericTree/GenericTreeExercises.h:336-346 | `traverseLevels` queues every child pointer and reads `data` through each dequeued pointer, null ones included | a root holding 7 whose only child pointer is null | a null child contributes no item, as the exercise documents, giving [7] | not executed | GenericTrees.TraverseLevelsAsWritten | GenericTrees.TraverseLevels |
| bst/Dictionary.hpp:450-463 | when `node1` is the child of `node2`, `_swap_nodes` returns a child field of the node now in `node2`'s old slot, and that field holds the original `node2` | `node1` is the left child of `node2`, with different keys | return the slot now holding the original `node1` | not executed | SearchTrees.SwappedSlotAsWrittenMisses | SearchTrees.SwappedSlotHoldsFirst |
| avl/AVL.hpp:423-453 | `_ensureBalance` throws when the taller child's balance factor is 0 | removing 1 from the AVL tree 2(1, 4(3, 5)) | a single rotation, as avl/AVL.h:68-70 says this case is handled | not executed | AvlBalance.EnsureBalanceAsWrittenRejects | AvlBalance.EnsureBalanceRestores |
| avl/AVL.hpp:606-645 | the outermost `_iopRemove` holds `iopNode` as a reference to the target's left field. When the predecessor lies deeper, the target is moved there and deleted, and the reference is then read | the tree 4(2(1, 3), 5) with target 4, whose predecessor 3 lies below 2 | rebalance the node now in the target's left slot | not executed | AvlUpdates.IopRemoveAsWrittenDangles | AvlTrees.AVL.IopRemoveFrom |
| avl/AVL-extra.hpp:144-172 | `_debugOrderCheck` compares a node only with its two children and does not recurse | 2(1(-, 3), 4), in which 3 lies in the left subtree of 2 | every key of the left subtree below the node's key and every key of the right subtree above it | not executed | AvlBalance.OrderCheckLocalOnly | AvlBalance.RunDebuggingChecks |
| avl/AVL.hpp:114-123 | `insert` links a new leaf without updating any height or rebalancing | inserting a larger key below a single node | the rebalancing insertion `_find_and_insert` declared in avl/AVL.h:148-150 | not executed | AvlTrees.InsertStaleHeight | AvlTrees.AVL.InsertBalanced |
