# Height queue of a tree differ, in Dafny

This project models the frontier queue of `src/lib/hqueue.rs`. The
enclosing tree-matching algorithm uses it to visit two trees top-down, one
height at a time.

- A `HeightQueue` holds node handles of one tree in a single sequence. Each
  entry (`PriorityNodeId`) pairs a handle with its cached height. The
  sequence is kept in ascending order of height and never holds a handle
  twice.
- `push` inserts a handle. It has four cases: the entry is already present,
  it goes to the front, it goes to the back, or a scan finds its place in
  the middle.
- `pop` removes the whole tier of entries tied for the maximum height.
- `pop_and_push_children` replaces that tier with the children of its nodes.
- `match_heights` drives two queues, one per tree, to a common maximum
  height. It repeatedly expands the queue whose maximum is strictly taller.

The model has three modules:

- `ArenaModel` (`arena.dfy`) stands for the tree storage the queue reads.
  The arena's own code is not part of this model: an `Arena<H>` only gives
  each handle a height and a list of children. `ChildrenShorter` states that a child is
  always shorter than its parent. `ExactHeights` states the height
  definition: 0 for a leaf, otherwise 1 + the tallest child.
- `Frontier` (`frontier.dfy`) is the queue as a value. Each operation is a
  function on the entry sequence, written with the source's own branches,
  including the middle-case scan exactly as it is coded. The lemmas prove
  what the source promises about these functions.
- `HQueue` (`hqueue.dfy`) is the imperative form. `HeightQueue` is a class
  whose `queue` field its methods update in place, using the source's loops.
  The free method `MatchHeights` runs the source's `while` loop over two
  distinct queue objects. Each method is proved to produce exactly what the
  corresponding `Frontier` function gives. Each also preserves the queue
  invariant `ValidQueue`: sorted, no duplicate handles, cached heights equal
  to the arena's.

The two handle kinds of the source, source-tree and destination-tree
handles, become the two type parameters `S` and `D` of `MatchHeights`.

## Model

| member | source | states |
|---|---|---|
| `Frontier.ContainsPairIffHandle` | src/lib/hqueue.rs:150-155 | the duplicate test compares the (handle, height) pair; when heights are cached it holds exactly when the handle itself is present |
| `Frontier.SizeCountsHandles` | src/lib/hqueue.rs:121-124 | on a duplicate-free queue the length equals the number of distinct handles held |
| `Frontier.MaxHeight` | src/lib/hqueue.rs:126-132 | peek_max is None exactly when the queue is empty; otherwise it is the height of an entry, and on a sorted queue no entry is taller |
| `Frontier.Scan` | src/lib/hqueue.rs:164-169 | the middle-case scan returns the first index i with q[i].height <= h < q[i+1].height; None means no such index exists |
| `Frontier.ScanFinds` | src/lib/hqueue.rs:162-169 | when the middle case is reached (q[0].height < h < q[last].height), the queue has at least two entries and the scan always finds an index, so the new entry is never dropped |
| `Frontier.PushInserts` | src/lib/hqueue.rs:147-171 | pushing an entry already present leaves the queue unchanged; otherwise the result is the old queue with the new entry inserted at one position p, and on a sorted queue everything before p is no taller and everything from p on no shorter |
| `Frontier.PushMembers` | src/lib/hqueue.rs:150-171 | the entries after push are exactly the old entries plus the pushed one |
| `Frontier.PushKeepsSorted` | src/lib/hqueue.rs:147-171 | push keeps a sorted queue sorted, in each of its four cases |
| `Frontier.PushKeepsValid` | src/lib/hqueue.rs:149-171 | pushing a handle with its arena height keeps the queue sorted, free of duplicate handles and with every cached height correct |
| `Frontier.PushHandles` | src/lib/hqueue.rs:150-171 | the handle set after push is the old handle set plus the pushed handle |
| `Frontier.PushEachKeepsValid` | src/lib/hqueue.rs:173-179 | push_children keeps the queue invariant (sorted, distinct, cached) |
| `Frontier.PushEachHandles` | src/lib/hqueue.rs:173-179 | after push_children a handle is present exactly when it was present before or is one of the pushed children |
| `Frontier.PushEachBelow` | src/lib/hqueue.rs:173-179 | if every entry and every pushed child is below height m, every entry afterwards is below m |
| `Frontier.PopTier` | src/lib/hqueue.rs:140-144 | the pop loop leaves a prefix of the queue and removes exactly the tail entries of height max; it stops at an entry of another height; it returns their handles, last position first |
| `Frontier.Pop` | src/lib/hqueue.rs:134-145 | pop on a non-empty queue always removes at least one entry and returns at least one handle |
| `Frontier.PopTakesTopTier` | src/lib/hqueue.rs:134-145 | pop on an empty queue returns nothing and changes nothing; on a sorted queue it removes exactly the entries at the maximum height, returns their handles, and leaves a prefix whose entries are all strictly shorter |
| `Frontier.PopKeepsValid` | src/lib/hqueue.rs:134-145 | pop keeps the queue invariant (sorted, distinct, cached) |
| `Frontier.DrainCoversAll` | src/lib/hqueue.rs:221-245 | popping until empty returns every entry's handle exactly once in total, from the tallest end down |
| `Frontier.DrainTiersDescend` | src/lib/hqueue.rs:221-245 | successive pops of a sorted queue return non-empty tiers; all handles in one tier share a height, and tier heights strictly decrease |
| `Frontier.PushChildrenOfAllKeepsValid` | src/lib/hqueue.rs:186-190 | pushing the children of every popped node keeps the queue invariant |
| `Frontier.PushChildrenOfAllHandles` | src/lib/hqueue.rs:186-190 | after pushing the children of every popped node, a handle is present exactly when it was before or is a child of one of them |
| `Frontier.PushChildrenOfAllBelow` | src/lib/hqueue.rs:186-190 | with children shorter than parents, pushing the children of nodes of height at most m keeps every entry below m |
| `Frontier.PopAndPushChildrenNone` | src/lib/hqueue.rs:181-194 | pop_and_push_children returns None exactly when the queue was empty, and then leaves it unchanged; otherwise it returns Some of the popped tier |
| `Frontier.PopAndPushChildrenKeepsValid` | src/lib/hqueue.rs:181-194 | pop_and_push_children keeps the queue invariant |
| `Frontier.PopAndPushChildrenLowers` | src/lib/hqueue.rs:181-194 | with children shorter than parents, the queue after pop_and_push_children is valid and every entry is below the old maximum, so the new maximum (if any) is strictly lower |
| `Frontier.PopAndPushChildrenStepsDown` | src/lib/hqueue.rs:181-194 | under exact heights, expanding a queue whose maximum is above 0 leaves a non-empty queue whose maximum is exactly one lower |
| `Frontier.PopAndPushChildrenOfRoot` | src/lib/hqueue.rs:301-319 | expanding a queue holding only a root returns Some([root]) and leaves one entry per distinct child of the root |
| `Frontier.MatchHeightsSettles` | src/lib/hqueue.rs:197-212 | given children shorter than parents, match_heights ends with one queue empty or both maxima equal; both queues stay valid and neither maximum grows |
| `Frontier.MatchHeightsMeetAtLower` | src/lib/hqueue.rs:364-384 | under exact heights, from two non-empty queues both stay non-empty and meet at the smaller starting maximum; the queue that started no taller is left untouched |
| `HQueue.HeightQueue.constructor` | src/lib/hqueue.rs:105-109 | a new queue is empty |
| `HQueue.HeightQueue.Clear` | src/lib/hqueue.rs:111-114 | clear leaves the queue empty |
| `HQueue.HeightQueue.IsEmpty` | src/lib/hqueue.rs:116-119 | true exactly when no entries remain |
| `HQueue.HeightQueue.Size` | src/lib/hqueue.rs:121-124 | the number of entries held |
| `HQueue.HeightQueue.PeekMax` | src/lib/hqueue.rs:126-132 | the last entry's height, and None for an empty queue; this is Frontier.MaxHeight of the field |
| `HQueue.HeightQueue.Push` | src/lib/hqueue.rs:150-171 | the four cases and the middle-case for loop leave exactly Frontier.Push of the old entries and the handle's entry, and keep the queue invariant |
| `HQueue.HeightQueue.PushChildren` | src/lib/hqueue.rs:174-179 | the loop over the children leaves exactly Frontier.PushChildren of the old entries, and keeps the queue invariant |
| `HQueue.HeightQueue.Pop` | src/lib/hqueue.rs:135-145 | the while loop leaves the queue and returns the handles exactly as Frontier.Pop gives them; what remains is a prefix of the old queue |
| `HQueue.HeightQueue.PopAndPushChildren` | src/lib/hqueue.rs:183-194 | pop followed by push_children of each popped node gives exactly Frontier.PopAndPushChildren, and keeps the queue invariant |
| `HQueue.MatchHeights` | src/lib/hqueue.rs:198-212 | the while loop expands only the queue whose maximum is strictly taller. It terminates because the sum of the two maxima strictly decreases. It gives exactly Frontier.MatchHeights, and on exit one queue is empty or both peek_max values are equal |

## Left out

- The arena (`ast::Arena`, `NodeId::height`, `NodeId::children`, `breadth_first_traversal`) is not part of this model. It is represented only by a height function and a children function, which are total. Pushing a handle the arena does not hold, which the source leaves to its callers, cannot be expressed; how heights are computed is not modelled.
- `fmt::Debug` for `HeightQueue` (src/lib/hqueue.rs:95-103): diagnostic string formatting only.
- The `Ord` and `PartialOrd` implementations of `PriorityNodeId` (src/lib/hqueue.rs:71-81) are not modelled as separate functions. No queue operation calls them: `push` compares the `height` fields directly. The order they define, by height only, is what `Sorted` states.
- The derived `Clone` and `Eq` of `HeightQueue` are not modelled as methods. The value-level `Frontier.Queue` gives what a clone holds.
- Heights are `u32` in the source and `nat` here. The queue only compares heights and never does arithmetic on them, so there is no overflow to model.
- The `SrcNodeId`/`DstNodeId` marker types become the two type parameters of `MatchHeights`.
- `HQueue.MatchHeights` requires the two queue objects to be distinct. In the source, two simultaneous mutable borrows guarantee this.
- `HQueue.MatchHeights` and `Frontier.MatchHeights` require children to be shorter than their parents, and valid queues. The source terminates only because of this arena property; with an arena that breaks it, the source loop can run forever, and the model does not describe that run.
- The property "only the strictly taller side is ever expanded" is stated per step, by the loop of `HQueue.MatchHeights` and by `Frontier.MatchHeights`. It is stated end to end (the shorter queue is untouched) only in `Frontier.MatchHeightsMeetAtLower`, under exact heights. With heights that are only decreasing, the side that starts shorter may become taller later and be expanded.
- The benchmark (src/lib/hqueue.rs:386-405) and the test fixtures `create_mult_arena` and `create_plus_arena` are not part of this model. The tests' concrete trees are not reproduced: their properties are proved for all queues and arenas.
