# ArrayLinkedList in Dafny

This project models `ArrayLinkedList.java`. It is a singly linked list of
`int` payloads whose nodes live in a growable array of slots. Nodes are
linked by index instead of by reference, and `-1` stands for "no node"
(`NULL`). The list is both a queue and a stack:

- `add` appends at the tail;
- `poll` removes at the head;
- `pop` removes at the tail;
- `peek` reads the head.

Vacant slots form a second chain, the free list, threaded through the same
`next` field. `allocateNode` hands out its first slot. `freeNode` pushes a
slot back onto its front. When no slot is free, `expandArray` doubles the
array and appends the new slots to the end of the free chain.

The model has three modules.

- `Slots` (`slots.dfy`) defines the slot datatype and the constants. It
  states what a chain of slot indices is: in range, each slot linking to the
  next, the last one linking to `NULL`. It proves that a chain is determined
  by its start, that it never repeats a slot, and that two disjoint chains
  whose lengths add up to the array length cover every slot. It also states
  what doubling does to a slot array.
- `ArrayLinkedLists` (`array_linked_list.dfy`) holds the class
  `ArrayLinkedList`. Its fields are the Java fields: `nodes` as an
  `array<Node>`, plus `size`, `head`, `tail` and `freeList`. Three ghost
  fields give the logical view:
  - `Contents`, the elements from head to tail;
  - `Occ`, the occupied chain of slot indices;
  - `Free`, the free chain.

  `Valid()` is the representation invariant, with these parts:
  - `head` starts the occupied chain and `tail` ends it;
  - `freeList` starts the free chain;
  - occupied slots are `used`, and free slots are unused and hold `EMPTY_VALUE`;
  - the two chains together hold every slot (a counting invariant, closed
    by the pigeonhole lemma `Slots.Cover`);
  - `size` is the length of the occupied chain;
  - `Contents` are the payloads along it.

  Each modelled Java method is a Dafny method; `peek`, `isEmpty` and
  `size` are functions. Each method's contract gives the new concrete state
  and the new logical view. The public operations (the constructor, `Add`,
  `Poll`, `Pop`, `ExpandArray`) establish or preserve `Valid()`.
  `AllocateNode` ends with the handed-out slot detached (`Layout(index)`:
  used, on neither chain), and `Append` links it in and restores `Valid()`.
  `FreeNode` and `InitializeFreeList` are building blocks whose callers
  re-establish the invariant. The module-level lemmas (`AllocateStep`,
  `AddStep`, `PollStep`, `PopStep`, `ExpandStep`, …) show that each slot
  update keeps the invariant.
- `Scenarios` (`scenarios.dfy`) states what a client observes over whole
  operation sequences: queue order, stack order, the `EMPTY_VALUE` answers
  on an empty list, reuse of the freed slot by the next add, and the array length after `n`
  adds.

## Model

| member | source | states |
|---|---|---|
| Slots.ChainEmptyIff | ArrayLinkedList.java:8 | a chain is empty exactly when its start is `NULL` |
| Slots.ChainStep | ArrayLinkedList.java:98-99 | following `next` from the k-th slot of a chain leads to the (k+1)-th slot, or to `NULL` at the end |
| Slots.ChainUnique | ArrayLinkedList.java:11-15 | the chain from a start index is unique, so the fields and the slot array fix the whole list |
| Slots.ChainNoRepeat | ArrayLinkedList.java:167-170 | a chain visits no slot twice, so the walk to the slot before the tail stops at the right slot |
| Slots.ChainDistinct | ArrayLinkedList.java:18-21 | the slots of a chain are pairwise distinct |
| Slots.ChainPush | ArrayLinkedList.java:69-70 | putting a slot that points at the start in front of a chain gives a chain from that slot (freeNode's push) |
| Slots.ChainSnoc | ArrayLinkedList.java:119-120 | linking a slot after the last slot of a chain, with a `NULL` link, extends the chain (add's append) |
| Slots.ChainJoin | ArrayLinkedList.java:101 | pointing the last slot of one chain at the start of another gives one chain through both |
| Slots.FreshBlockChain | ArrayLinkedList.java:40-50 | a block of vacant slots, each linking to the next index and the last to `NULL`, is a chain over its index range |
| Slots.Cover | ArrayLinkedList.java:11 | two disjoint, repetition-free chains whose lengths add up to the array length hold every slot |
| Slots.AppendedBlock | ArrayLinkedList.java:78-90 | after doubling, the old slots are unchanged and the new slots form a chain from the old capacity |
| Slots.GrownSlots | ArrayLinkedList.java:74-104 | the doubled array is twice as long, keeps every old slot except the free chain's last one, which now links to the old capacity, and ends with the fresh vacant block |
| ArrayLinkedLists.RepEmptiness | ArrayLinkedList.java:12-15 | `head == NULL`, `tail == NULL` and `size == 0` agree, the free list is `NULL` exactly when the free chain is empty, and a non-NULL head holds the first element |
| ArrayLinkedLists.AllocateStep | ArrayLinkedList.java:58-62 | taking the first free slot, marking it used and clearing its link leaves the invariant with that slot detached |
| ArrayLinkedLists.AddStep | ArrayLinkedList.java:111-122 | storing the value in the detached slot and linking it after the tail (or making it head and tail) restores the invariant, with the value appended to the contents |
| ArrayLinkedLists.PollStep | ArrayLinkedList.java:133-142 | unlinking the head, freeing its slot and clearing the tail on the last element keeps the invariant, with the first element removed |
| ArrayLinkedLists.PopOneStep | ArrayLinkedList.java:155-164 | popping the only element (`head == tail`) frees its slot and leaves an empty list |
| ArrayLinkedLists.PopStep | ArrayLinkedList.java:166-176 | freeing the tail slot and cutting the link of its predecessor keeps the invariant, with the last element removed |
| ArrayLinkedLists.ExpandKeepsOccupied | ArrayLinkedList.java:79 | growth leaves every occupied slot as it was, so no index in use is relocated |
| ArrayLinkedLists.ExpandFreeChain | ArrayLinkedList.java:92-102 | after growth the free chain is the old free chain followed by the new slots in index order, rooted at `freeList` or, when that was `NULL`, at the old capacity |
| ArrayLinkedLists.ExpandFreeVacant | ArrayLinkedList.java:82-84 | every slot on the grown free chain is unused and holds `EMPTY_VALUE` |
| ArrayLinkedLists.ExpandStep | ArrayLinkedList.java:74-104 | the grown array satisfies the invariant with the same list and the new slots appended to the free chain |
| ArrayLinkedLists.ArrayLinkedList.constructor | ArrayLinkedList.java:31-37 | ten vacant slots chained 0 to 9, free list at 0, an empty list, and the invariant established |
| ArrayLinkedLists.ArrayLinkedList.InitializeFreeList | ArrayLinkedList.java:40-50 | every slot becomes vacant and linked to the next index, the last to `NULL`, and the free list starts at 0 |
| ArrayLinkedLists.ArrayLinkedList.AllocateNode | ArrayLinkedList.java:53-63 | returns the first free slot, growing the array first when none is free; the slot is used with a `NULL` link, it leaves the free chain, and each case gives the exact new slot array |
| ArrayLinkedLists.ArrayLinkedList.TakeFree | ArrayLinkedList.java:58-62 | the free list advances to the taken slot's successor, the slot is marked used with a `NULL` link, and nothing else changes |
| ArrayLinkedLists.ArrayLinkedList.FreeNode | ArrayLinkedList.java:66-71 | the slot becomes vacant with `EMPTY_VALUE`, links to the old free list and becomes its new front |
| ArrayLinkedLists.ArrayLinkedList.GrowSlots | ArrayLinkedList.java:75-90 | a fresh array of twice the length holding the old slots followed by a chained block of vacant slots |
| ArrayLinkedLists.ArrayLinkedList.LastFree | ArrayLinkedList.java:96-100 | the walk stops at the last slot of the free chain, whose link is `NULL` |
| ArrayLinkedLists.ArrayLinkedList.ExpandArray | ArrayLinkedList.java:74-104 | the array doubles, the old free chain is kept and extended by the new slots, the list is unchanged and the invariant holds |
| ArrayLinkedLists.ArrayLinkedList.Add | ArrayLinkedList.java:109-124 | the value is appended to the contents in a newly allocated slot that becomes the tail, `size` grows by one, and the new slot array is given for both the growth and the no-growth case |
| ArrayLinkedLists.ArrayLinkedList.Append | ArrayLinkedList.java:111-122 | the allocated slot gets the value and becomes the tail, linked after the old tail or as the only element |
| ArrayLinkedLists.ArrayLinkedList.Poll | ArrayLinkedList.java:127-146 | an empty list returns `EMPTY_VALUE` and changes nothing; otherwise returns the first element, removes it, frees the head slot, and clears `tail` when the list becomes empty |
| ArrayLinkedLists.ArrayLinkedList.BeforeTail | ArrayLinkedList.java:167-170 | on two or more elements the walk from head ends at the second-to-last occupied slot, whose link is the tail |
| ArrayLinkedLists.ArrayLinkedList.PopOnly | ArrayLinkedList.java:155-164 | the only element is returned, its slot freed, and head, tail and size cleared |
| ArrayLinkedLists.ArrayLinkedList.PopLast | ArrayLinkedList.java:166-179 | the last element is returned, its slot freed, and its predecessor becomes the tail with a `NULL` link |
| ArrayLinkedLists.ArrayLinkedList.Pop | ArrayLinkedList.java:149-180 | an empty list returns `EMPTY_VALUE` and changes nothing; otherwise returns the last element and removes it, with the exact new slot array for one element and for more |
| ArrayLinkedLists.ArrayLinkedList.Peek | ArrayLinkedList.java:183-192 | the first element, or `EMPTY_VALUE` on an empty list |
| ArrayLinkedLists.ArrayLinkedList.IsEmpty | ArrayLinkedList.java:195-197 | true exactly when the list holds no element |
| ArrayLinkedLists.ArrayLinkedList.Size | ArrayLinkedList.java:200-202 | the number of elements in the list |
| ArrayLinkedLists.ArrayLinkedList.FullWhenNoFree | ArrayLinkedList.java:53-56 | the free list is `NULL` exactly when the list fills the array, so allocateNode grows the array only when it is full |
| ArrayLinkedLists.ArrayLinkedList.Partition | ArrayLinkedList.java:18-21 | no slot is on a chain twice, every slot is on exactly one of the two chains, `size` counts the occupied ones and `used` marks exactly them |
| Scenarios.Grow | ArrayLinkedList.java:75-76 | doubling a positive capacity until it holds `n` gives at least `n` and less than `2n`, unless no doubling was needed |
| Scenarios.Capacity | ArrayLinkedList.java:7 | the capacity after `n` adds holds `n` elements and is either the initial 10 or less than `2n` |
| Scenarios.GrowStep | ArrayLinkedList.java:53-56 | one more element doubles the capacity exactly when the array is full |
| Scenarios.CapacityAtInitialBoundary | ArrayLinkedList.java:7 | ten elements fit in the initial array, and the eleventh doubles it to twenty |
| Scenarios.Filled | ArrayLinkedList.java:109-124 | adding `values` in order to a fresh list gives exactly those contents in an array of `Capacity(|values|)` slots |
| Scenarios.DrainByPoll | ArrayLinkedList.java:127-146 | polling until empty returns every element in order and leaves the list empty |
| Scenarios.Fifo | ArrayLinkedList.java:127-146 | three adds and three polls return the values in insertion order |
| Scenarios.Lifo | ArrayLinkedList.java:149-180 | three adds and three pops return the values in reverse order |
| Scenarios.Mixed | ArrayLinkedList.java:149-180 | after two adds, poll returns the first and pop the second, and the list is empty |
| Scenarios.SingleElement | ArrayLinkedList.java:155-164 | popping a single element returns it and clears `head` and `tail` |
| Scenarios.EmptyAnswers | ArrayLinkedList.java:183-202 | on an empty list poll, pop and peek return `EMPTY_VALUE`, the size is 0 and the list is empty |
| Scenarios.FillAndDrain | ArrayLinkedList.java:109-146 | whatever is added comes back from poll in the same order, through any number of doublings |
| Scenarios.Reuse | ArrayLinkedList.java:66-71 | over any number of add-then-poll rounds each poll returns the value just added, every add takes slot 0 (the slot the previous poll freed), and the array never grows |

## Left out

- The `System.out.println` calls (lines 105, 123, 129, 144, 151, 162, 178, 185, 190) are console output only. They are not modelled.
- `display`, `displayInternal` and `main` print the list or demonstrate it. They are not part of this model.
- The Java `int` overflow of `oldCapacity * 2` (line 76) and a failing `new Node[...]` are not modelled. Capacities are unbounded integers, so growth never fails.
- Node is a value (a datatype), not a shared object. Line 101 writes through the old array, and the write shows in the new array only because both arrays share the Node object. The model writes the new array directly and leaves the old array, which is dropped at line 104, untouched.
- The class is declared `ArrayLinkedListSimulation` (line 6), but its constructor is named `ArrayLinkedList` (line 31), which does not compile as written. The model uses one name, `ArrayLinkedList`, for both.
- The initial capacity is the constant 10 (line 7). The code has no capacity parameter.
- `EMPTY_VALUE` and `NULL` are both `-1`. A stored `-1` returned by poll, pop or peek looks the same as the empty answer. The model returns exactly what the code returns, and the contracts tell the two cases apart through `Contents`.
- The helper methods each model one part of a single Java method:
  - `TakeFree` (lines 58-62) and `ExpandArray` together make up AllocateNode;
  - `Append` (lines 111-122) is the linking part of add;
  - `GrowSlots` (lines 75-90) and `LastFree` (lines 96-100) are parts of expandArray;
  - `BeforeTail` (lines 167-170), `PopOnly` and `PopLast` are parts of pop.
- The else-branch of expandArray (lines 95-102) cannot run from allocateNode, which grows only when the free list is `NULL`. It is modelled anyway: `ExpandArray` and `ExpandFreeChain` cover both branches.
