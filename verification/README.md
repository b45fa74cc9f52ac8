# SortedLinkedList in Dafny

A model of `SortedLinkedList<T>`, a doubly linked list that keeps its
elements sorted after every mutation. Elements may be `null`; the
`AddNullsStrategy` chosen at construction keeps all nulls in one run at the
front (`LEADING_NULLS`) or at the back (`TRAILING_NULLS`) of the chain.

The project has three layers.

- `ordering.dfy` (module `Ordering`) holds the element type, the strategy,
  `DefaultComparator.compare`, the placement order the list is meant to
  keep, and the `Sorted` predicate. An element is `Null` or `Val(key, tag)`.
  The comparator looks only at `key`. The `tag` lets two equal-comparing
  elements be told apart, so the tie-break of `add` can be observed.
- `sorted_list.dfy` (module `SortedList`) sees the chain as the sequence of
  its elements from head to tail. The public operations are pure functions
  with the same branches as the Java methods, with three exceptions.
  `toList` is a method with the iterator loop of the Java code. `size()`
  and `isEmpty()` are not separate members: they are the length of the
  sequence, and `isEmpty` appears as the lemma `Chain.EmptyIffNoEnds`.
  `clear` has no early return for an empty list here, since both paths
  leave no elements; that branch appears only in `Chain.Clear`. `checkIndex`, `getNode(T)`,
  `findInsertNodePosition` and the index-counting iterator are modelled
  too. Thrown exceptions become `Failure` values, including the
  NullPointerException of dereferencing a null argument (`NullArgument`).
- `chain.dfy` (module `Chain`) is the node-level refinement. Java node
  references are handles into an arena of `Node(item, next, prev)` records.
  `Nil` (-1) is the null reference. A ghost sequence `order` lists the
  handles from head to tail. `insertBefore`, `insertAfter`, `removeNode`,
  both `getNode` overloads, `findInsertNodePosition`, `addNullItem`, `add`,
  both `remove` overloads and `clear` are methods that follow the Java
  statements. `insertBefore` and `insertAfter` are proved to keep the
  prev/next links consistent with `order` and to place the element; they
  leave `head`, `tail` and `size` to their callers, as the Java helpers do.
  Every other method is proved to keep the links, `head`, `tail` and `size`
  consistent with `order`, and to change the elements exactly as the
  function in `SortedList` does.
- `scenarios.dfy` (module `Scenarios`) states, as lemmas, the results of
  concrete add, get and remove sequences like those in the repository's
  tests.
- `wrappers.dfy` (module `Wrappers`) defines `Option` and `Result`.

Nothing depends on I/O, clocks or randomness. The element type's
`compareTo` is the only collaborator. It is fixed to integer comparison on
`key`.

## Model

| member | source | states |
|---|---|---|
| Ordering.Compare | src/main/java/com/solbeg/sortedlinkedlist/SortedLinkedList.java:288-296 | compare is 0 exactly for two nulls or two equal keys; with a non-null first argument, a result <= 0 means the first element is placed no later than the second, and < 0 means strictly earlier |
| Ordering.CompareSemantics | src/main/java/com/solbeg/sortedlinkedlist/SortedLinkedList.java:288-296 | null against null is 0; two values compare by key; a value compares below a null under TRAILING and above it under LEADING |
| Ordering.CompareNullFirstQuirk | src/main/java/com/solbeg/sortedlinkedlist/SortedLinkedList.java:291-294 | compare(null, x) has the same sign as compare(x, null), so the comparator is not antisymmetric and is not itself the placement order |
| Ordering.LeTotalPreorder | src/main/java/com/solbeg/sortedlinkedlist/SortedLinkedList.java:288-296 | the placement order is reflexive, total and transitive, and its symmetric part is exactly "compare returns 0" |
| Ordering.SortedIffPairwise | src/main/java/com/solbeg/sortedlinkedlist/SortedLinkedList.java:83-112 | a chain is sorted (keys ascending, nulls in one run at the strategy's end) exactly when every earlier element is placed no later than every later one |
| Ordering.SortedIffAdjacent | src/main/java/com/solbeg/sortedlinkedlist/SortedLinkedList.java:83-112 | a chain is sorted exactly when every element is placed no later than its successor |
| SortedList.InsertIndex | src/main/java/com/solbeg/sortedlinkedlist/SortedLinkedList.java:96-111 | reference placement: every element before the returned index compares below the item, and the element at the index (if any) does not |
| SortedList.ScanFrom | src/main/java/com/solbeg/sortedlinkedlist/SortedLinkedList.java:236-246 | the scan stops on the first element comparing greater than or equal to the item, or on the last element; every element it passes compares below the item |
| SortedList.FindInsertNodePosition | src/main/java/com/solbeg/sortedlinkedlist/SortedLinkedList.java:236-246 | on a non-empty list the scan from the head returns a valid position; every element before it compares below the item, and it stops on an element comparing at least the item or on the tail |
| SortedList.ScanUnique | src/main/java/com/solbeg/sortedlinkedlist/SortedLinkedList.java:236-246 | the scan result is the only index with that stopping property |
| SortedList.ScanFindsNonHeadPosition | src/main/java/com/solbeg/sortedlinkedlist/SortedLinkedList.java:102-109 | when add reaches the scan, the node found is neither the head nor past the tail and is exactly the reference placement, so inserting before it without touching head is correct |
| SortedList.AddNullItem | src/main/java/com/solbeg/sortedlinkedlist/SortedLinkedList.java:248-258 | a null is appended under TRAILING and prepended under LEADING; nothing else moves |
| SortedList.Add | src/main/java/com/solbeg/sortedlinkedlist/SortedLinkedList.java:83-112 | add grows the list by one and adds exactly the item to its elements |
| SortedList.AddInsertsBeforeFirstAtLeast | src/main/java/com/solbeg/sortedlinkedlist/SortedLinkedList.java:90-111 | on a sorted list, the head shortcut, the tail shortcut and the scan all insert a non-null item immediately before the first element it compares less than or equal to, or at the end |
| SortedList.InsertAtInsertIndexSorted | src/main/java/com/solbeg/sortedlinkedlist/SortedLinkedList.java:96-111 | inserting at the reference placement keeps the list sorted |
| SortedList.AddNullItemSorted | src/main/java/com/solbeg/sortedlinkedlist/SortedLinkedList.java:248-258 | adding a null keeps the list sorted: the null joins the null run |
| SortedList.AddPreservesSorted | src/main/java/com/solbeg/sortedlinkedlist/SortedLinkedList.java:83-112 | add keeps a sorted list sorted, for null and non-null items |
| SortedList.AddPlacesBeforeEquals | src/main/java/com/solbeg/sortedlinkedlist/SortedLinkedList.java:97-100 | the new item lands ahead of every element comparing equal to it, and deleting it gives back the old list, so all other elements keep their relative order |
| SortedList.CheckIndex | src/main/java/com/solbeg/sortedlinkedlist/SortedLinkedList.java:260-265 | checkIndex throws exactly when the index is negative or at least the size, reporting that index and size |
| SortedList.Get | src/main/java/com/solbeg/sortedlinkedlist/SortedLinkedList.java:63-65 | get succeeds exactly for 0 <= index < size and returns that element; otherwise it throws IndexOutOfBounds, in particular for every index of an empty list |
| SortedList.RemoveAt | src/main/java/com/solbeg/sortedlinkedlist/SortedLinkedList.java:114-119 | remove(index) fails exactly where get fails; on success, putting the returned element back at the index gives the old list |
| SortedList.DeleteAtSorted | src/main/java/com/solbeg/sortedlinkedlist/SortedLinkedList.java:163-178 | unlinking any one node keeps a sorted list sorted |
| SortedList.FindEqualFrom | src/main/java/com/solbeg/sortedlinkedlist/SortedLinkedList.java:218-230 | getNode(T) finds the first element comparing equal to the item, and none when no element does |
| SortedList.FindEqual | src/main/java/com/solbeg/sortedlinkedlist/SortedLinkedList.java:218-230 | getNode(T) returns the first position whose element compares equal to the item, and none exactly when no element does (in particular on an empty list) |
| SortedList.FindEqualUnique | src/main/java/com/solbeg/sortedlinkedlist/SortedLinkedList.java:218-230 | the first equal position is the only one with that property |
| SortedList.RemoveValue | src/main/java/com/solbeg/sortedlinkedlist/SortedLinkedList.java:121-129 | remove(item) leaves the list unchanged, and returns null, exactly when no element compares equal to the item; otherwise it returns an element equal to the item and the list loses exactly that one element |
| SortedList.RemoveValueSpec | src/main/java/com/solbeg/sortedlinkedlist/SortedLinkedList.java:121-129 | remove(item) deletes and returns the first element comparing equal to the item; when none does, it returns null and leaves the list unchanged |
| SortedList.RemoveValueSorted | src/main/java/com/solbeg/sortedlinkedlist/SortedLinkedList.java:121-129 | remove(item) keeps a sorted list sorted |
| SortedList.RemoveNullIndistinguishable | src/main/java/com/solbeg/sortedlinkedlist/SortedLinkedList.java:121-129 | removing a null that is present and removing an absent item both return null |
| SortedList.RemoveAfterAddRestores | src/main/java/com/solbeg/sortedlinkedlist/SortedLinkedList.java:83-129 | on a sorted list, add(item) followed by remove(item) returns that same item and the original list, for null and non-null items |
| SortedList.RemoveAfterAddNullRestores | src/main/java/com/solbeg/sortedlinkedlist/SortedLinkedList.java:83-129 | adding a null and removing a null gives back the original list under either strategy, although under TRAILING the null removed is the first of the run, not the one just added |
| SortedList.TrailingNullClosesUp | src/main/java/com/solbeg/sortedlinkedlist/SortedLinkedList.java:163-178 | under TRAILING, unlinking the first node of the null run from the list with one more null appended gives back the list |
| SortedList.AddEach | src/main/java/com/solbeg/sortedlinkedlist/SortedLinkedList.java:71 | adding a sequence one element at a time adds exactly its elements and keeps a sorted list sorted |
| SortedList.AddAll | src/main/java/com/solbeg/sortedlinkedlist/SortedLinkedList.java:67-73 | addAll(Collection) returns false and changes nothing for a null or empty collection, and otherwise returns true after adding every element in order |
| SortedList.AddAllListAsWritten | src/main/java/com/solbeg/sortedlinkedlist/SortedLinkedList.java:75-81 | addAll(SortedLinkedList) as written: false and no change whenever the receiver is empty, even for a null argument; when the receiver is not empty, NullPointerException for a null argument, IndexOutOfBounds for an empty one, and otherwise, for an argument other than the receiver, every element added |
| SortedList.CopyConstructorAsWrittenLosesElements | src/main/java/com/solbeg/sortedlinkedlist/SortedLinkedList.java:49-52 | the copy constructor, through the as-written addAll, yields an empty list from a non-empty one |
| SortedList.AddAllList | src/main/java/com/solbeg/sortedlinkedlist/SortedLinkedList.java:75-81 | corrected addAll(SortedLinkedList), guarded like addAll(Collection): true exactly when the argument is non-null and non-empty; a null argument changes nothing; otherwise the result holds the elements of both lists; a sorted list stays sorted |
| SortedList.CopyOf | src/main/java/com/solbeg/sortedlinkedlist/SortedLinkedList.java:49-57 | the copy constructor with the corrected addAll: a sorted list holding exactly the argument's elements, and an empty list for a null argument |
| SortedList.FromCollection | src/main/java/com/solbeg/sortedlinkedlist/SortedLinkedList.java:39-47 | the collection constructors give a sorted list holding exactly the collection's elements, and an empty list for a null collection |
| SortedList.SortedUnique | src/main/java/com/solbeg/sortedlinkedlist/SortedLinkedList.java:83-112 | two sorted arrangements of the same elements hold comparator-equal elements at every position |
| SortedList.InsertionOrderIrrelevant | src/main/java/com/solbeg/sortedlinkedlist/SortedLinkedList.java:67-73 | adding the same elements in any two orders gives lists that agree position by position up to the comparator |
| SortedList.RoundTrip | src/main/java/com/solbeg/sortedlinkedlist/SortedLinkedList.java:39-47 | rebuilding a sorted list from its toList with the collection constructor gives back the list up to the comparator |
| SortedList.NewIterator | src/main/java/com/solbeg/sortedlinkedlist/SortedLinkedList.java:303-307 | the iterator constructor succeeds exactly for an index inside the list, so an iterator over an empty list throws IndexOutOfBounds |
| SortedList.Next | src/main/java/com/solbeg/sortedlinkedlist/SortedLinkedList.java:309-321 | next succeeds exactly while nextIndex < size, returns the element at nextIndex and advances by one; past the end it throws NoSuchElement |
| SortedList.HasNext | src/main/java/com/solbeg/sortedlinkedlist/SortedLinkedList.java:309-311 | hasNext is true exactly while nextIndex is below the size; next succeeds exactly when it is true (see SortedList.Next) |
| SortedList.Drain | src/main/java/com/solbeg/sortedlinkedlist/SortedLinkedList.java:309-321 | calling next until hasNext turns false yields size - nextIndex elements, starting with the element at nextIndex, and none from an exhausted iterator |
| SortedList.DrainYieldsSuffix | src/main/java/com/solbeg/sortedlinkedlist/SortedLinkedList.java:309-321 | an iterator yields exactly the elements from its position to the tail, in order |
| SortedList.Iterate | src/main/java/com/solbeg/sortedlinkedlist/SortedLinkedList.java:232-234 | a for-each over a list yields its elements in order, and throws IndexOutOfBounds when the list is empty |
| SortedList.ToList | src/main/java/com/solbeg/sortedlinkedlist/SortedLinkedList.java:145-155 | toList returns the elements from head to tail, and the empty list for an empty receiver |
| SortedList.Clear | src/main/java/com/solbeg/sortedlinkedlist/SortedLinkedList.java:131-143 | clear leaves no elements (the node-level work is Chain.Clear) |
| Chain.EmptyIffNoEnds | src/main/java/com/solbeg/sortedlinkedlist/SortedLinkedList.java:29-31 | on a valid list, size is 0 exactly when head is null, exactly when tail is null, and exactly when there are no elements |
| Chain.InsertBefore | src/main/java/com/solbeg/sortedlinkedlist/SortedLinkedList.java:180-189 | insertBefore links a new node between a node and its predecessor; the links stay consistent and the element lands at that node's position |
| Chain.InsertAfter | src/main/java/com/solbeg/sortedlinkedlist/SortedLinkedList.java:191-200 | insertAfter links a new node between a node and its successor; the links stay consistent and the element lands just after that node |
| Chain.RemoveNode | src/main/java/com/solbeg/sortedlinkedlist/SortedLinkedList.java:163-178 | removeNode joins the neighbours, or moves head or tail, and drops size by one; the list is valid again, holds the old elements minus that position, and the removed node is cleared |
| Chain.GetNode | src/main/java/com/solbeg/sortedlinkedlist/SortedLinkedList.java:202-216 | getNode(index) throws outside 0 <= index < size and otherwise returns the node at that position, whichever end it walks from |
| Chain.WalksAgree | src/main/java/com/solbeg/sortedlinkedlist/SortedLinkedList.java:204-214 | index steps forward from head and size - 1 - index steps backward from tail reach the same node |
| Chain.Get | src/main/java/com/solbeg/sortedlinkedlist/SortedLinkedList.java:63-65 | get on the chain returns what get on the element sequence returns, error included |
| Chain.FindInsertNodePosition | src/main/java/com/solbeg/sortedlinkedlist/SortedLinkedList.java:236-246 | the iterator walk returns the node at the position the scan function computes |
| Chain.GetNodeByValue | src/main/java/com/solbeg/sortedlinkedlist/SortedLinkedList.java:218-230 | getNode(T) returns the node at the first position comparing equal to the item, and null exactly when there is none |
| Chain.ScanForEqual | src/main/java/com/solbeg/sortedlinkedlist/SortedLinkedList.java:222-229 | given the position of the first element comparing equal to the item, the iterator loop stops on the node there, and runs off the tail exactly when there is no such element |
| Chain.SingleNode | src/main/java/com/solbeg/sortedlinkedlist/SortedLinkedList.java:90-94 | the first node of an empty list becomes head and tail of a valid one-element list |
| Chain.AddNullItem | src/main/java/com/solbeg/sortedlinkedlist/SortedLinkedList.java:248-258 | addNullItem on the chain keeps it valid and changes its elements as the functional addNullItem does |
| Chain.Add | src/main/java/com/solbeg/sortedlinkedlist/SortedLinkedList.java:83-112 | add on the chain keeps it valid and changes its elements as the functional add does |
| Chain.AddToNonEmpty | src/main/java/com/solbeg/sortedlinkedlist/SortedLinkedList.java:96-111 | the head shortcut, tail shortcut and scan on a non-empty chain keep it valid and agree with the functional add |
| Chain.RemoveAt | src/main/java/com/solbeg/sortedlinkedlist/SortedLinkedList.java:114-119 | remove(index) on the chain fails as the functional remove does, and otherwise returns the same element and a valid chain holding the same remaining elements |
| Chain.RemoveValue | src/main/java/com/solbeg/sortedlinkedlist/SortedLinkedList.java:121-129 | remove(item) on the chain returns the same element and leaves the same elements as the functional remove, in a valid chain |
| Chain.Clear | src/main/java/com/solbeg/sortedlinkedlist/SortedLinkedList.java:131-143 | clear leaves a valid empty list (no head, no tail, size 0), and every former node with its data cleared |
| Chain.ClearNodes | src/main/java/com/solbeg/sortedlinkedlist/SortedLinkedList.java:135-140 | the walk from head along next clears the data and links of every node of the chain and keeps the arena size |
| Scenarios.TrailingNullsGoLast | src/main/java/com/solbeg/sortedlinkedlist/SortedLinkedList.java:83-112 | adding 100, null, 4, 25 under TRAILING gives [4, 25, 100, null] |
| Scenarios.LeadingNullsGoFirst | src/main/java/com/solbeg/sortedlinkedlist/SortedLinkedList.java:83-112 | adding 100, null, 4, 25 under LEADING gives [null, 4, 25, 100] |
| Scenarios.NullsThenValueTrailing | src/test/java/com/solbeg/sortedlinkedlist/SortedLinkedListIntsReversedTest.java:247-260 | null, null, 1024 under TRAILING: 1024 at index 0, nulls at 1 and 2, indices 3 and -1 out of bounds |
| Scenarios.NullsThenValueLeading | src/test/java/com/solbeg/sortedlinkedlist/SortedLinkedListIntsReversedTest.java:263-278 | null, null, 1024 under LEADING: nulls at 0 and 1, 1024 at 2 |
| Scenarios.EqualKeysReverse | src/main/java/com/solbeg/sortedlinkedlist/SortedLinkedList.java:97-100 | adding two elements with equal keys to an empty list puts the second ahead of the first, under either strategy |
| Scenarios.RemoveMissingValue | src/main/java/com/solbeg/sortedlinkedlist/SortedLinkedList.java:121-125 | removing a value no element compares equal to returns null and leaves the list unchanged |
| Scenarios.EmptyListBounds | src/test/java/com/solbeg/sortedlinkedlist/SortedLinkedListIntsReversedTest.java:77-83 | every index of an empty list is out of bounds for get and remove, and so is creating an iterator over it |

## Left out

- The `reversed` ordering flag and the constructors taking it: the tests
  call them, but the class does not declare them.
- The spliterator, `equals` and `hashCode`: the class does not declare them.
- Java generics and `Comparable`: keys are mathematical integers compared
  by sign. `String.compareTo` magnitudes do not matter, because the list
  only tests the sign of a comparison.
- `size` as a 32-bit `int`: a list of more than 2^31 - 1 elements would
  overflow it. The model's size is unbounded.
- `Objects.requireNonNull` guards: every call site passes a non-null node
  or item, and the preconditions of the model say so.
- The exception message text built with `String.format`: errors carry the
  index and size instead.
- Mutation of the list while an iterator is live: the class promises
  nothing about it.
- The `AddNullsStrategy` enum file is not part of this model; it is the
  two-constructor datatype `Strategy`.
- Node reclamation by the garbage collector: the arena only grows. Cleared
  nodes stay in it, unreachable from `head`.
- SortedList.Add: the boolean that `add` returns is not modelled, because
  every branch of `add` returns true (lines 87, 93, 100, 105, 111).
- SortedList.AddAllListAsWritten: assumes the argument is a different list
  from the receiver. `list.addAll(list)` walks the receiver's own iterator
  while `add` grows the list, and the iterator's cached `next` goes stale.
  On `[5]` the second `next()` dereferences null and throws
  NullPointerException, after the list has become `[5, 5]`. Under
  TRAILING_NULLS with two or more nulls, each appended null lands ahead of
  the cursor, so the loop never ends. The model returns success instead.
- SortedList.RoundTrip: states equality up to the comparator, not element
  identity. Elements with equal keys come back in reverse insertion order
  because `add` puts a new element ahead of its equals.

Behaviours of the code worth knowing when reading the model:

- `toList` followed by `addAll` into a new list gives back equal-key
  elements in reverse order. SortedList.RoundTrip proves only equality up
  to the comparator; Scenarios.EqualKeysReverse shows the reversal on one
  instance, and the reversal is not proved in general.
- `compare` is not antisymmetric when its first argument is null
  (Ordering.CompareNullFirstQuirk), so sortedness is stated with the
  placement order `Le`, not with `compare`.
- `addAll(SortedLinkedList)` tests the receiver's emptiness instead of the
  argument's (see Findings).
- A fresh iterator over an empty list throws, because the iterator
  constructor calls `checkIndex(0)`. `toList` avoids this with its own
  emptiness test; `addAll(SortedLinkedList)` does not.

## Findings

| source | as written | input that shows it | evidently intended | confidence | as-written member | corrected member |
|---|---|---|---|---|---|---|
| src/main/java/com/solbeg/sortedlinkedlist/SortedLinkedList.java:76 | `addAll(SortedLinkedList)` returns false when the receiver is empty, so the copy constructors (lines 49-57), which call it on a fresh list, copy nothing | `new SortedLinkedList<>(listHolding1)` gives an empty list | test the argument: return false only when the argument is null or empty, otherwise add all its elements | not executed | SortedList.CopyConstructorAsWrittenLosesElements | SortedList.CopyOf |
