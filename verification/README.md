# Search trees, queues and the worker pool

A Dafny model of three parts of the repository, with proofs:

- the two search trees of `utils/tree.h`: the red-black tree with its parent links,
  rotations in place and bottom-up repair loops, and the self-adjusting top-down splay
  tree with its sentinel, both with running times: the header's bound for every
  red-black operation, and its amortised bound for the splay tree with the exact part
  of SPLAY_NEXT that it does not cover;
- the tail queue and the circular queue of `inc/list.h`;
- the worker pool of `inc/http_task.h` and its dispatcher.

## How it is put together

| file | what it holds |
|---|---|
| `Elements.dfy`, `Dictionary.dfy` | the records with their tree entry, the order of the keys; finite maps from keys to nodes, operations and runs on them |
| `Powers.dfy` | powers of two and the logarithm in whole numbers |
| `RedBlack.dfy` | a tree cut open at one place (a context and a subtree); the two repair loops as step functions, the loop invariants, and the proof that each step keeps them |
| `RedBlackDict.dfy` | insertion, removal and lookup as functions of the tree; the map they refine, the height bound, runs |
| `RedBlackRecursion.dfy` | insertion and removal as plain recursions, and the proof that the loops give the same trees |
| `RedBlackTree.dfy` | the class: every macro on the heap, proved to compute the functions above |
| `Splay.dfy`, `SplayDict.dfy`, `SplayTree.dfy` | the same three layers for the splay tree |
| `SplayCost.dfy` | the amortised bound of the splay tree, with whole numbers |
| `QueueEdits.dfy` | edits on a sequence without repetition |
| `TailQueue.dfy`, `CircleQueue.dfy` | the two queues on the heap, proved against those edits |
| `Dispatch.dfy` | the dispatcher on a list of capacities: optimality, round robin, overdrawing |
| `WorkerPool.dfy` | the pool on the heap, and its counter over any run of deaths |

Code that rewrites links in place is a class here, with the same fields and the same
assignments in the same order. A method that changes the heap is proved to turn the
value the object stands for into what a function says; what the header promises is
then a lemma about that function. The central notion for the red-black tree is
`At(c, f, s)`: the heap is exactly the tree obtained by putting `f` into the hole of
the context `c`, parent links included. The repair loops move the hole; their
invariants are `InsHole` (the only fault is a red subtree under a red node, or at the
root) and `RemHole` (every path through the hole is one black node short). For the
splay tree it is `Pieces(l, t, r, …)`: left tree, middle and right tree, the open link
of each side tree left unconstrained.

Loops carry a ghost count of their iterations where the header bounds the time. A
red-black operation takes at most a constant times the height, hence at most
`6 * Log2(n + 1)` iterations, and a whole RB_FOREACH over `n` nodes takes `n`. For the
splay tree, the potential is the sum over all nodes of the logarithm, rounded down, of
the size of their subtrees; an operation whose splays take `c` iterations and that
raises the potential by `d` has `c + 2 * d <= 8 * Log2(n) + 2`.

SPLAY_NEXT splays its node and then walks down to the successor without splaying. The
splays of any `m` commands on a new tree, `n` of them insertions, take at most
`m * (8 * Log2(n) + 2)` iterations. A walk is paid for by the splay that follows it if
the next command looks for the successor that was found, or for a key on the way to
it; otherwise it is abandoned. Over any run, the total number of iterations is at least
that of the abandoned walks and at most `3 * (m + 1) * (8 * Log2(n) + 2)` more. So the
header's bound holds, up to the factor, exactly as far as abandoned walks stay within
it; SPLAY_FOREACH abandons none.

## Findings

Where the code and what one might expect of it differ:

| source | what happens | lemma |
|---|---|---|
| inc/http_task.h:81-110 | `n_proc` does not follow the list: every death lowers it and putting a worker back does not raise it | `WorkerPool.DeathsCounted` gives both numbers after any run of deaths |
| inc/http_task.h:216-228 | a full pool outgrows its maximum of ten | `WorkerPool.FullPoolBound`: exactly when a process dies that is not in the pool; `WorkerPool.BoundCanFail` is such a death |
| inc/http_task.h:231-250 | `notice_child` never looks whether a worker has capacity left | `Dispatch.OverdrawnExactly`: none is overdrawn if and only if the connections do not exceed the total capacity; `Dispatch.OverdrawnOnce` is a case with one too many, and `WorkerPool.Pool.ServeInTurn` gives the limit of 2000 for the real pool |
| utils/tree.h:199-214 | `SPLAY_NEXT` walks down without splaying, and the header's amortised bound can fail for it: `SplayCost.NextRunFails` asks `m` times for the same successor at `n / 2 - 1` iterations each | `SplayCost.BalanceFrom`: what a run takes beyond the bound is the abandoned walks, no less and no more; `SplayCost.BalanceTheorem`: the bound holds whenever every answer is followed by a search for it, and `SplayCost.TraversalWithin`: in particular for `SPLAY_FOREACH` |
| inc/http_task.h:235 | `notice_child` reads the first worker of an empty pool | `WorkerPool.NeverEmptied`: no run of deaths empties a pool that holds a worker and whose counter is at most ten; `WorkerPool.Pool.ServeAfterDeaths` for the pool of `init_manager_proc` |
| utils/tree.h:439-441 | the comment above `RB_GENERATE` speaks of moving a node to the top; no red-black operation does that | the model follows the code |

## Model

| member | source | states |
|---|---|---|
| RedBlack.BalancedByPaths | utils/tree.h:46-51 | the model's local balance condition holds if and only if red nodes have black children and all root-to-leaf paths have the same number of black nodes |
| RedBlack.PlugValid | utils/tree.h:46-51 | a tree is valid if and only if, cut at any place, the piece and its surroundings satisfy the conditions and a red piece is under a black node |
| RedBlack.RotateLeftOrder | utils/tree.h:381-403 | left rotation keeps the in-order sequence and right rotation undoes it |
| RedBlack.RotateRightOrder | utils/tree.h:405-427 | right rotation keeps the in-order sequence and left rotation undoes it |
| RedBlack.InsStepSafe | utils/tree.h:447-491 | each insertion repair step keeps "one red-red violation at most, at the hole", and the hole rises |
| RedBlack.InsStepOrder | utils/tree.h:447-491 | each insertion repair step keeps the in-order sequence |
| RedBlack.InsFixCorrect | utils/tree.h:443-493 | the insertion repair ends in a valid tree with the same contents in order |
| RedBlack.RemLowerSafe | utils/tree.h:504-510 | the sibling is never missing, and a red one is replaced by a black one with the shortage unchanged |
| RedBlack.RemDoneSafe | utils/tree.h:520-539 | the final rotations of the removal repair give a valid tree |
| RedBlack.RemDoneOrder | utils/tree.h:520-539 | the final rotations of the removal repair keep the in-order sequence |
| RedBlack.RemStepSafe | utils/tree.h:499-580 | each removal repair step keeps "one black short through the hole, else valid" and lowers a measure, so the loop ends |
| RedBlack.RemStepOrder | utils/tree.h:499-580 | each removal repair step keeps the in-order sequence |
| RedBlack.RemFixCorrect | utils/tree.h:495-583 | the removal repair ends in a valid tree with the same contents in order |
| RedBlack.UnlinkSafe | utils/tree.h:590-657 | unlinking or transplanting leaves a shortage of one if the lost node was black and a valid tree if it was red, also when the successor is the removed node's own child |
| RedBlack.UnlinkOrder | utils/tree.h:590-657 | unlinking or transplanting takes exactly the removed node out of the in-order sequence |
| RedBlackDict.FindIsLookup | utils/tree.h:694-711 | the descent finds a key if and only if the map has it, and the same node |
| RedBlackDict.InsertCorrect | utils/tree.h:660-692 | insertion keeps order and balance, adds exactly the new node under a new key, and leaves the tree as it is for a present key |
| RedBlackDict.RemoveAtCorrect | utils/tree.h:585-658 | removal at any place of a valid tree gives a valid tree with the remaining contents in order |
| RedBlackDict.RemoveCorrect | utils/tree.h:585-658 | removal keeps order and balance and takes exactly that key out of the map |
| RedBlackDict.MinMaxIsExtreme | utils/tree.h:738-752 | the outermost node answers for the least or the greatest key of the map |
| RedBlackDict.HeightBound | utils/tree.h:53-54 | 2^height is at most (n + 1)^2 in every valid tree of n nodes |
| RedBlackDict.HeightLog | utils/tree.h:53-54 | the height is at most twice the logarithm of n + 1, rounded down |
| RedBlackDict.UnlinkDepth | utils/tree.h:590-657 | the descent to the successor, and the way up from where the repair starts, are no longer than the tree is high |
| RedBlackDict.TraversalSteps | utils/tree.h:764-767 | RB_MIN and RB_NEXT of every node go down each left link and up each right link once: n iterations for n nodes |
| RedBlackDict.StepRefines | utils/tree.h:585-752 | every operation does to the tree and answers what it would on the map |
| RedBlackDict.RunRefines | utils/tree.h:585-752 | over any run of operations the answers and the final contents are those of the map, and the height bound holds |
| RedBlackDict.ReachableRefines | utils/tree.h:333-342 | the same for every tree reachable from the empty one |
| RedBlackRecursion.StepIsMend | utils/tree.h:447-491 | one iteration of the insertion loop is one mending at the grandparent |
| RedBlackRecursion.InsertIsGrow | utils/tree.h:443-493 | insertion gives exactly the tree of the recursion that descends, adds a red leaf and mends on the way back |
| RedBlackRecursion.RemFixIsLessUp | utils/tree.h:495-583 | the removal loop gives exactly the tree of the repair on the way back |
| RedBlackRecursion.RemoveIsShrink | utils/tree.h:585-658 | removal gives exactly the tree of the recursion that takes the node or its successor out and repairs on the way back |
| RedBlackTree.InsertNodes | utils/tree.h:660-692 | an insertion in terms of the set of nodes: unchanged for a present key, otherwise the new node and no other is added |
| RedBlackTree.RemovePlan | utils/tree.h:585-658 | a node of the tree is found under its key, and removal leaves exactly the other nodes |
| RedBlackTree.RBTree.RotateLeft | utils/tree.h:381-403 | all links after the rotation; only the pair, the moved subtree's parent link and one link above are written |
| RedBlackTree.RBTree.RotateRight | utils/tree.h:405-427 | the mirror image |
| RedBlackTree.RBTree.RotateThereAndBack | utils/tree.h:381-427 | rotating left and then right at the pair restores every link |
| RedBlackTree.RBTree.RotateLeftAt | utils/tree.h:381-403 | anywhere in a tree, the heap becomes the rotated tree, parent links included |
| RedBlackTree.RBTree.RotateRightAt | utils/tree.h:405-427 | the mirror image |
| RedBlackTree.RBTree.InsertStepLeft | utils/tree.h:451-470 | the left half of the insertion loop computes the step function; the grandparent exists |
| RedBlackTree.RBTree.InsertStepRight | utils/tree.h:471-490 | the right half |
| RedBlackTree.RBTree.InsertColor | utils/tree.h:443-493 | the insertion loop on the heap computes the insertion repair, in at most as many iterations as the hole is deep |
| RedBlackTree.RBTree.RaiseRight | utils/tree.h:504-510 | the red-sibling case on the heap |
| RedBlackTree.RBTree.RaiseLeft | utils/tree.h:543-549 | the mirror image |
| RedBlackTree.RBTree.FinishRight | utils/tree.h:520-539 | the final rotations on the heap |
| RedBlackTree.RBTree.FinishLeft | utils/tree.h:559-578 | the mirror image |
| RedBlackTree.RBTree.ShiftRight | utils/tree.h:511-518 | the case without a red nephew on the heap: the shortage moves up |
| RedBlackTree.RBTree.ShiftLeft | utils/tree.h:550-557 | the mirror image |
| RedBlackTree.RBTree.RemoveStepLeft | utils/tree.h:502-540 | the left half of the removal loop computes the step function and never dereferences a missing sibling |
| RedBlackTree.RBTree.RemoveStepRight | utils/tree.h:541-579 | the right half |
| RedBlackTree.RBTree.RemoveColor | utils/tree.h:495-583 | the removal loop on the heap computes the removal repair, in at most as many iterations as its measure says |
| RedBlackTree.RBTree.Splice | utils/tree.h:603-614 | a node with at most one child is linked out and the rest is the remaining tree |
| RedBlackTree.RBTree.TakeOver | utils/tree.h:617-630 | all links after the successor has taken the place of the removed node |
| RedBlackTree.RBTree.ReplaceBySuccessor | utils/tree.h:594-639 | the two-child case on the heap, with the parent and child that the repair starts from |
| RedBlackTree.RBTree.FindNode | utils/tree.h:694-711 | the map's answer, in at most height many iterations, the one that finds the key included |
| RedBlackTree.RBTree.InsertNode | utils/tree.h:660-692 | the new tree, map and set of nodes, or the present node and nothing changed; descent and repair take at most height many iterations each |
| RedBlackTree.RBTree.RemoveNode | utils/tree.h:585-658 | the new tree, map and set of nodes, valid in every respect; descent and repair take at most height many iterations each |
| RedBlackTree.RBTree.MinMaxNode | utils/tree.h:738-752 | the first or the last node in order, in at most height many iterations |
| RedBlackTree.RBTree.NextLink | utils/tree.h:713-736 | from any place, child and parent links alone lead to the first node of what follows |
| RedBlackTree.RBTree.NextNode | utils/tree.h:713-736 | the in-order successor, null at the last node, in at most height many iterations |
| RedBlackTree.RBTree.ForEach | utils/tree.h:764-767 | the traversal visits exactly the sorted contents and ends, with as many iterations of RB_MIN and RB_NEXT as there are nodes |
| RedBlackTree.RBTree.Perform | utils/tree.h:53 | every operation does what its function says in a number of iterations logarithmic in the number of nodes |
| RedBlackTree.RBTree.Replay | utils/tree.h:585-752 | any run of operations on the heap gives the answers and the tree of the run of functions |
| Splay.SplayedOrder | utils/tree.h:227-265 | left tree, middle and right tree keep the in-order sequence through every rotation and link, and so does the assembled tree |
| Splay.SplayedNear | utils/tree.h:235-264 | the root then holds the wanted key, or no key lies between it and the wanted one |
| Splay.SplayCorrect | utils/tree.h:226-265 | both, for a splay of a whole tree |
| Splay.SplayIsBroughtUp | utils/tree.h:226-265 | the loop with its two side trees gives exactly the tree of a recursion without them |
| SplayDict.SplaySplits | utils/tree.h:226-265 | the subtrees of the new root are split at the key |
| SplayDict.InsertCorrect | utils/tree.h:134-162 | insertion keeps the order, adds exactly the new node, and changes no contents for a present key; the node with the key is at the root |
| SplayDict.InsertCuts | utils/tree.h:140-161 | the splayed tree is cut beside its root, which hangs below the new node with what lies beyond it |
| SplayDict.JoinLosesNothing | utils/tree.h:177-183 | the link that the join overwrites is empty, because the left subtree was splayed for a key above all of its keys |
| SplayDict.RemoveCorrect | utils/tree.h:164-185 | removal keeps the order and takes exactly that key out of the map, or nothing if it is absent |
| SplayDict.RemoveRoot | utils/tree.h:164-185 | where removal leaves the root: a neighbour of an absent key, else the predecessor, which keeps the right side, else the right side itself |
| SplayDict.FindIsLookup | utils/tree.h:187-197 | lookup answers like the map and keeps the contents; the found node, else a neighbour of the key, is at the root |
| SplayDict.MinMaxCorrect | utils/tree.h:267-307 | the extreme node comes to the root with no child on its outer side |
| SplayDict.NextCorrect | utils/tree.h:199-214 | the successor of a node of the tree, which itself comes to the root |
| SplayDict.StepRefines | utils/tree.h:134-221 | every operation does to the tree and answers what it would on the map |
| SplayDict.ObeyRefines | utils/tree.h:134-221 | the same with SPLAY_NEXT, which answers with the least greater key of the map |
| SplayDict.RunRefines | utils/tree.h:134-221 | the same over any run of operations, SPLAY_NEXT included |
| SplayDict.DosAreSensible | utils/tree.h:134-221 | every run of the other operations is such a run, without any condition |
| SplayCost.PotentialBound | utils/tree.h:42-44 | the potential of a tree of n nodes is at most n lg n |
| SplayCost.SplayPaid | utils/tree.h:42-44 | a splay pays for its iterations but for three times the rank of the root, and more when the side tree of the first link is smaller |
| SplayCost.SplayAmortised | utils/tree.h:42-44 | the access lemma: iterations and twice the rise of the potential are at most 5 lg n + 1 |
| SplayCost.StepAmortised | utils/tree.h:42-44 | the same for every operation of the map, with 8 lg n + 2 |
| SplayCost.RunAmortised | utils/tree.h:42-44 | the same summed up over the splays of any run from any tree, SPLAY_NEXT included |
| SplayCost.LeftmostTurns | utils/tree.h:199-214 | the walk to the leftmost node is at most twice as long as the splay for it, or for any key below it |
| SplayCost.NextPaid | utils/tree.h:199-214 | a command that looks for what follows a node pays for the walk that found it |
| SplayCost.WalksPaid | utils/tree.h:199-214 | over any run, all walks but the abandoned ones and the last take at most twice the splays |
| SplayCost.BalanceFrom | utils/tree.h:42-44 | over any run from any tree, the total lies between the abandoned walks and the bound plus the abandoned walks |
| SplayCost.SplaysFromEmpty | utils/tree.h:42-44 | the splays of any m commands on an empty tree, n of them insertions, take at most m (8 lg n + 2) iterations |
| SplayCost.BalanceTheorem | utils/tree.h:42-44 | any m commands on an empty tree, n of them insertions, take at most 3 (m + 1) (8 lg n + 2) iterations, walks included, if the successors that were asked for are followed |
| SplayCost.DosAreContinued | utils/tree.h:42-44 | without SPLAY_NEXT there is nothing to follow and nothing is walked |
| SplayCost.TraversalWithin | utils/tree.h:321-324 | SPLAY_FOREACH over n nodes takes at most 3 (n (7 lg n + 1) + 5 lg n + 1) iterations, walks included |
| SplayCost.SplayChain | utils/tree.h:226-265 | splaying the least node of a chain leaves half of the others in a row |
| SplayCost.NextWalksAgain | utils/tree.h:199-214 | the successor of the least of n nodes inserted in order can be asked for again and again, at n / 2 - 1 iterations each, without any change of the tree |
| SplayCost.NextRunFails | utils/tree.h:199-214 | asking for it m times in a row takes m (n / 2 - 1) iterations of walks |
| SplayTree.ClosedLeft | utils/tree.h:119-126 | once the open link is filled, the sentinel's link holds the closed left tree |
| SplayTree.ClosedRight | utils/tree.h:119-126 | the same for the right tree |
| SplayTree.InsertNodes | utils/tree.h:134-162 | an insertion in terms of the map and of the set of nodes |
| SplayTree.RemoveNodes | utils/tree.h:164-185 | a removal in terms of the map and of the set of nodes |
| SplayTree.SplayTree.RotateRight | utils/tree.h:87-93 | the rotation in the middle tree leaves both side trees alone |
| SplayTree.SplayTree.RotateLeft | utils/tree.h:95-101 | the mirror image |
| SplayTree.SplayTree.LinkLeft | utils/tree.h:103-109 | root and right subtree move to the right tree, also when its open link is the sentinel's |
| SplayTree.SplayTree.LinkRight | utils/tree.h:111-117 | the mirror image |
| SplayTree.SplayTree.CloseSides | utils/tree.h:122-123 | with both open links filled, the sentinel's two links hold the closed side trees |
| SplayTree.SplayTree.Assemble | utils/tree.h:119-126 | the three pieces become one tree without sharing, whether or not the side trees are empty |
| SplayTree.SplayTree.StepBelow | utils/tree.h:237-249 | one iteration below the root computes the splay function |
| SplayTree.SplayTree.StepAbove | utils/tree.h:250-262 | one iteration above the root |
| SplayTree.SplayTree.SplayLinks | utils/tree.h:226-265 | the splay on the heap computes the splay function on exactly the same nodes, in the counted number of iterations |
| SplayTree.SplayTree.SplayMinMaxLinks | utils/tree.h:267-307 | the same for a splay towards one end |
| SplayTree.SplayTree.InsertNode | utils/tree.h:134-162 | the new tree, map and set of nodes; the root is the new node, or the present one with that key |
| SplayTree.SplayTree.JoinLinks | utils/tree.h:172-182 | the root is unlinked and the splayed left subtree takes the right one, on the heap |
| SplayTree.SplayTree.RemoveNode | utils/tree.h:164-185 | the new tree, map and set of nodes; the root is the predecessor, or a neighbour of an absent key |
| SplayTree.SplayTree.FindNode | utils/tree.h:187-197 | the map's answer, which is then the root; same contents, and otherwise a neighbour of the key at the root |
| SplayTree.SplayTree.MinMaxNode | utils/tree.h:316-319 | the first or last node, at the root, with no child on its outer side |
| SplayTree.SplayTree.NextNode | utils/tree.h:199-214 | the in-order successor, null at the last node; both loops are counted |
| SplayTree.SplayTree.ForEach | utils/tree.h:321-324 | every node once, in order, although each step restructures the tree, in O(n lg n) iterations for n nodes |
| SplayTree.SplayTree.Replay | utils/tree.h:134-221 | any run of commands on the heap gives the answers and the tree of the run of functions, in the counted number of iterations |
| SplayTree.ReplayFromEmpty | utils/tree.h:42-44 | any run on a new tree answers like the map; its splays keep within the Balance Theorem, and so does all of it if successors are followed |
| QueueEdits.EditsInPlace | inc/list.h:69-82 | where each edit puts or takes an element, in terms of what is before and behind |
| QueueEdits.RunIsDistinct | inc/list.h:69-82 | no allowed run of edits makes an element occur twice |
| QueueEdits.TakeUndoes | inc/list.h:69-82 | taking out an inserted element restores the sequence |
| QueueEdits.ReverseAt | inc/list.h:69-82 | the reversal that backward traversals are compared with, position by position |
| TailQueue.TailQueue.LinkedIn | inc/list.h:345-386 | how slots and links may change for an element to be linked in at a position |
| TailQueue.TailQueue.LinkedOut | inc/list.h:388-397 | the same for linking out |
| TailQueue.TailQueue.InsertHead | inc/list.h:350-359 | the matching edit of the sequence, slots and links in order; only the links named are written |
| TailQueue.TailQueue.InsertTail | inc/list.h:361-367 | the matching edit, through the last slot, also on the empty queue |
| TailQueue.TailQueue.InsertAfter | inc/list.h:369-378 | the matching edit |
| TailQueue.TailQueue.InsertBefore | inc/list.h:380-386 | the matching edit, through the slot that holds the named element |
| TailQueue.TailQueue.Remove | inc/list.h:388-397 | the matching edit; the removed element is not written |
| TailQueue.TailQueue.Replay | inc/list.h:345-397 | any allowed sequence of edits is the same edits on the sequence |
| TailQueue.TailQueue.InsertAndRemove | inc/list.h:345-397 | an insertion undone leaves head and all links as they were |
| TailQueue.TailQueue.BackStep | inc/list.h:406-409 | reading the second field of the pair that a slot begins finds the element before it, and null before the first |
| TailQueue.TailQueue.Last | inc/list.h:406-407 | the last element, null when empty |
| TailQueue.TailQueue.Prev | inc/list.h:408-409 | the previous element, null at the first |
| TailQueue.TailQueue.ForEach | inc/list.h:411-414 | visits the sequence |
| TailQueue.TailQueue.ForEachReverse | inc/list.h:416-419 | visits the reversed sequence |
| CircleQueue.CircleQueue.LinkedIn | inc/list.h:442-485 | how links may change for an element to be linked in at a position, the head standing at both ends |
| CircleQueue.CircleQueue.LinkedOut | inc/list.h:487-498 | the same for linking out |
| CircleQueue.CircleQueue.InsertAfter | inc/list.h:447-455 | the matching edit of the sequence |
| CircleQueue.CircleQueue.InsertBefore | inc/list.h:457-465 | the matching edit |
| CircleQueue.CircleQueue.InsertHead | inc/list.h:467-475 | the matching edit |
| CircleQueue.CircleQueue.InsertTail | inc/list.h:477-485 | the matching edit |
| CircleQueue.CircleQueue.Remove | inc/list.h:487-498 | the matching edit |
| CircleQueue.CircleQueue.Replay | inc/list.h:442-498 | any allowed sequence of edits is the same edits on the sequence |
| CircleQueue.CircleQueue.InsertAndRemove | inc/list.h:447-498 | an insertion undone leaves head and all links as they were |
| CircleQueue.CircleQueue.ForEach | inc/list.h:500-503 | visits the sequence, ending at the head |
| CircleQueue.CircleQueue.ForEachReverse | inc/list.h:505-508 | visits the reversed sequence, ending at the head |
| Dispatch.LastMaxCorrect | inc/http_task.h:235-245 | the scan picks the one place that holds a maximum with none after it |
| Dispatch.ChargesLastMax | inc/http_task.h:235-247 | the worker with the last maximum is charged one, and no other |
| Dispatch.TotalFallsByOneEach | inc/http_task.h:247 | k connections lower the total capacity by exactly k |
| Dispatch.AlwaysLevelled | inc/http_task.h:231-250 | a worker that was charged at all stays within one of the largest capacity |
| Dispatch.GreedyIsOptimal | inc/http_task.h:231-250 | from any capacities, no assignment of k connections leaves a smaller maximum or a larger minimum |
| Dispatch.OverdrawnExactly | inc/http_task.h:231-250 | no capacity goes below zero if and only if the connections do not exceed the total |
| Dispatch.OverdrawnOnce | inc/http_task.h:231-250 | ten workers of 200 each are overdrawn by the connection after the 2000th |
| Dispatch.PicksInTurn | inc/http_task.h:231-250 | from equal capacities, the choices go round from the tail of the list to its head, and all capacities at every point |
| Dispatch.FreshPoolIsFair | inc/http_task.h:231-250 | from equal capacities, no two workers ever differ by more than one |
| WorkerPool.DeathsCounted | inc/http_task.h:81-110 | counter and length of the list after any run of deaths |
| WorkerPool.DeathsCensus | inc/http_task.h:216-228 | after any run of deaths, the ids as a multiset: every death takes its id out once, every birth puts its id in |
| WorkerPool.AliveAreInPool | inc/http_task.h:216-228 | if forks return new ids, the pool holds exactly the ids that were there or were born and have not died since, each once, the last birth first |
| WorkerPool.FullPoolBound | inc/http_task.h:216-228 | a full pool keeps its maximum length if and only if every process that died was in it |
| WorkerPool.NeverEmptied | inc/http_task.h:216-228 | with a counter of at most ten, no run of deaths makes the list shorter |
| WorkerPool.BoundCanFail | inc/http_task.h:216-228 | one death of a process outside the pool makes a full pool too long |
| WorkerPool.Processor.constructor | inc/http_task.h:46-55 | the values of a new worker |
| WorkerPool.Pool.InsertHead | inc/list.h:215-218 | the element is the new first one |
| WorkerPool.Pool.CreateProcPool | inc/http_task.h:58-65 | ten new free workers, with full capacity and status 0, before the old ones; the counter unchanged |
| WorkerPool.Pool.InsertPoolObj | inc/http_task.h:69-78 | the first free worker in list order gets the id and is counted, if there is one; otherwise nothing changes |
| WorkerPool.Pool.Discharge | inc/http_task.h:85-96 | the first worker with the id is linked out, in list order |
| WorkerPool.Pool.DeletePoolObj | inc/http_task.h:81-100 | the first worker with the id is linked out, if there is one; the counter falls in any case |
| WorkerPool.Pool.InsertPool | inc/http_task.h:103-110 | a new worker, with its id, full capacity and status 0, at the head if the counter allows |
| WorkerPool.Pool.HandlerDeadProcessor | inc/http_task.h:216-228 | the parent's side of a death: deletion and insertion together; the replacement is new and unused and has the id of the fork, the others stay |
| WorkerPool.Pool.HandlerDeadProcessors | inc/http_task.h:216-228 | any run of deaths on the heap gives the state of the run of functions |
| WorkerPool.Pool.ServeAfterDeaths | inc/http_task.h:231-296 | after the start and any deaths, there is a worker to choose |
| WorkerPool.Pool.Charge | inc/http_task.h:247 | one connection for one worker, nothing else |
| WorkerPool.Pool.NoticeChild | inc/http_task.h:231-250 | the worker with the last maximum, and no other, is charged, and its id is the answer |
| WorkerPool.Pool.NoticeChildren | inc/http_task.h:231-250 | k calls in a row: all capacities and all answers |
| WorkerPool.Pool.InitManagerProc | inc/http_task.h:275-296 | a full pool of new workers with the fork results in list order and equal capacities |
| WorkerPool.Pool.ServeInTurn | inc/http_task.h:231-296 | from the forks to any number of connections: who gets each one, what every worker has left, and that none of the ten is overdrawn if and only if there are at most 2000 |

## Left out

- RedBlackTree.RBTree.InsertNode: says nothing about other trees that `elm` may belong to; the caller owns the element, as in the header.
- RedBlackTree.RBTree.RemoveNode: requires the element to be in the tree, as the macro does; an element that is not is undefined there.
- SplayTree.SplayTree.MinMaxNode: requires a nonzero argument; with zero the loop of SPLAY_MINMAX never ends, and no macro calls it so.
- WorkerPool.Pool.NoticeChild: requires a pool that is not empty, because the code reads the first worker without a test (inc/http_task.h:235); `nleft` is an unbounded integer, so the undefined overflow of a 32-bit counter after about two thousand million calls is not modelled; the same goes for the pool's counter.
- WorkerPool.Pool.HandlerDeadProcessor: the child's side, signals, and a failed fork (which ends the process) are not modelled; the fork's result is a parameter.
- The comparison function of the trees is the order of an integer key; a caller's own comparison is any function that orders elements like such keys.
- The splay sentinel, a local variable of the C function, is a freshly allocated node.
- Loop bodies with many cases are methods of their own (for instance one for each half of a repair loop); the assignments and their order are those of the macros.
- Running time is counted in loop iterations, for the loops of both trees; the rounded-down logarithm stands for the real one.
- RB_AUGMENT is empty by default and not modelled.
- The QUEUEDEBUG checks of the queues are not modelled.
- LIST, SIMPLEQ and the SLIST operations that the pool does not use: easier instances of what is proved for TAILQ.
- Failure of malloc, which ends the process, and free: a worker that is linked out is simply no longer reachable.
- `cross_ok`, `set_status_ok`, `tell_chld_exit`, file-descriptor passing, the epoll loops and all HTTP code: system calls or single assignments.
- `src/rb_tree.c`: an unfinished second copy of the rotations.
