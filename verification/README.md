# libuvcpp: trees, request pool, write pool

A Dafny model of the stateful core of libuvcpp, with proofs: the red-black and
splay trees of `include/tree.h`, the cross-thread request pool of
`libuvcpp/loop.cpp`, and the write pool of `libuvcpp/connect.cpp` over the
growable buffer of `util/safebuffer.cpp`. `dafny verify dfyconfig.toml` checks
everything.

## What is modelled

**Trees.** One instantiation of the macros. Nodes live in an arena and a node is
its index, with -1 for the null pointer; a cell of the arena holds the link
fields of one node (left, right, parent and colour, or left and right). `cmp` is
the order of `key: nat -> int`, an arbitrary rank function, so it stands for any
total preorder on the finitely many nodes and probes of a run. Both `Head` classes
change the arena and the root in place, in the order of the macros. Beside the
arena they keep a ghost tree. `RBShape` says what it means for the arena to hold
a tree, or a tree with a hole and the path above it (`Ctx`), which is how the
broken states inside insertion and removal are described: `RedEdge` (at most one
red-red edge, above the focus) and `OneShort` (the focus, possibly null, is one
black node short). `SplayShape` describes a splay in progress as a middle tree
and two spines hanging off the stack structure `__node`, which is the last cell
of the arena. The long macros are split into one method for each branch.

**Reference.** `SetSpec` is a finite set of nodes with different keys and says
what each operation may answer. Both trees are proved to follow it. Removal is an
operation on members in the source, so a run looks the node up and removes it
only when it is there.

**Request pool.** `LoopModel` is a state machine whose steps are the sections
under `m_lockAsync` and the single actions of the loop thread: libuv begins a
callback, the switch arm runs, `tcb` is cleared, the handle goes back. Steps
interleave in any way, so another thread, or the closure being run, may post
between any two of them. `uv_async_send` sets a flag for its handle that libuv
clears just before the callback. What a thread read of `m_bRunning` before it
took the lock is a parameter. `UvLoop.Loop` has the real fields, and each method
section is proved to take the corresponding step.

**Write pool.** `SendModel` adds the records of `connect.cpp`: `wirteData` is
four steps of its thread (find a connection, reserve, fill, post), `tcpWrite` and the completion
callback are steps of the loop thread, and the connection flag may change at any
time. `UvConnect.Connect` runs the same sections on real `safebuffer` objects
and a real `UvLoop.Loop`. What `uv_write` receives is the result of `TcpWrite`,
and the memory whose address it holds is watched until its completion callback.
`WriteRun` runs any schedule of all these sections on one connection and one loop
in memory, and shows it to be a run of the state machine. `wirteData` ignores the
answer of `readmem`, so the fill step has an outcome: without memory the record
goes on with an empty buffer.

**Buffer.** `SafeBuffers.SafeBuffer` works in place on an array. Whether
`realloc` succeeds, what fresh memory holds and where an `unsigned long` wraps
around are parameters.

## Main results

- Red-black tree: every operation keeps order, equal black counts, no red node
  under a red parent, black root and agreeing parent and child links; insertion
  and removal change the in-order sequence by exactly one node; removal repair
  terminates and always finds a sibling; any run answers as the reference set
  does; h <= 2 lg (n + 1), which bounds descents, repairs and walks; iteration
  yields the sorted sequence, also while visited nodes are being removed.
- Splay tree: the loop computes a recursive splay function and keeps the
  sequence; any run answers as the reference set does, hence as the red-black
  tree does; all splays of a run of m operations on at most n nodes take at most
  m (18 lg (n + 1) + 6) rounds, by a potential argument.
- Request pool, over every interleaving: the handles are shared out between deque
  and map, `uv_async_send` is never merged, every accepted request is started once
  or still waiting, busy means five in flight. Each field is what the history of
  steps says (`LoopHistory`): the deque is first in, first out, the loop runs from
  a start to its end, and `uv_stop` was called exactly when a stop event was run.
  The loop thread can end a running loop without a further call if and only if
  `uv_stop` was called or a stop event waits.
- Write pool, over every interleaving: `uv_write` gets exactly the bytes of the
  call that reserved the record, or nothing exactly when the `readmem` of that
  call failed; a record can become idle again if and only if it was not lost;
  records are conserved and as many as the pool ever had in use. Over every
  schedule of the sections in memory, what `uv_write` was given neither changes
  nor moves until the completion callback.

## Where the code does less than one would expect

- A write that `AddReq` refuses, or that finds no connection when its closure
  runs, leaves its record in `m_mapSend` for good. `SendReturn.LeakIff` says that
  these are exactly the steps after which no continuation makes the record idle
  again, `CanReturnIff` that every record not lost can become idle, and
  `LostWhenStopped`, `LostWhenBusy` and `LostWhenDisconnected` give runs.
- `readmem` keeps the block inside the buffer if and only if the size it asks for
  does not wrap around, or no growth is needed, or the block fills the buffer to
  the last byte (`SafeBuffers.SafeBuffer.ReadMem`, `Fits`). A block of
  2^32 - 1 bytes overruns the buffer where `unsigned long` has 32 bits
  (`OverrunByWrapping`).
- A write whose `readmem` fails is posted all the same: `wirteData` may answer
  true, and `uv_write` gets no bytes (`SendModel.WriteIntegrity`).
- `operator=` into a buffer without memory does not clear what `malloc` returns.
  Whatever that is, zeros follow the data, if and only if the source is filled to
  capacity and growing does not wrap (`SafeBuffers.ZeroTailIff`). A buffer that
  lost its memory to a failed `realloc` shows it (`UnclearedByAssigning`).
  Into a buffer that has memory and need not grow, zeros follow the data if and
  only if the old tail was zero from the new end on
  (`SafeBuffers.SafeBuffer.Assign`, `UnclearedAgain`).
- A call of `stop` while five requests are in flight does nothing, and nothing
  repeats it. `LoopEnd.StopHeededIff` says that a call of `stop` lets a running loop
  end if and only if a handle was free or the loop could end already;
  `LoopEnd.StopUnheard` gives a run. The destructor waits for such an end
  (`libuvcpp/loop.cpp:61-69`).
- The branches of both callbacks that handle a request missing from its map are
  unreachable; they would use an end iterator.
- `SPLAY_REMOVE` answers with its argument, which is the node taken out if and
  only if the argument was a member (`SplayTree.Head.Remove`).
  `SplayTree.TakesOutAnother` removes a node that was never inserted.

## Model

| member | source | states |
|---|---|---|
| RBTree.Head.constructor | include/tree.h:53-61 | an empty tree is valid |
| RBTree.Head.ReplaceChild | include/tree.h:348-355 | the link from the parent, or the head, that led to one node leads to another; nothing else changes |
| RBTree.Head.RotateLeft | include/tree.h:342-360 | in any surroundings, the arena then holds the left-rotated subtree in the same place |
| RBTree.Head.RotateRight | include/tree.h:362-380 | the same for the right rotation |
| RBShape.RotLSet | include/tree.h:342-380 | a rotation keeps the node set, and the two rotations undo each other |
| RBShape.RotLInOrder | include/tree.h:342-360 | a left rotation keeps the in-order sequence |
| RBShape.RotRInOrder | include/tree.h:362-380 | a right rotation keeps the in-order sequence |
| RBShape.RotLAt | include/tree.h:342-360 | the cell updates of a left rotation put the rotated subtree under the same path, with parent links that agree |
| RBShape.RotRAt | include/tree.h:362-380 | the same for the right rotation |
| RBShape.HungAt | include/tree.h:616-624 | setting the cell of a new node and one link of its parent hangs it into the hole and disturbs nothing |
| RBShape.SplicedAt | include/tree.h:579-590 | relinking one child past its parent removes exactly that parent from the tree |
| RBShape.ReplacedAt | include/tree.h:557-570 | copying the cell of one node to another and redirecting its neighbours renames it in the tree |
| RBShape.Locate | include/tree.h:531-590 | every member of a tree has one place: a path and a subtree that together give the tree back |
| RBShape.Zip | include/tree.h:668-687 | a subtree in its surroundings is the whole tree |
| RBShape.Unzip | include/tree.h:668-687 | the whole tree can be seen from any of its nodes |
| RBBalance.FitsIffRedBlack | include/tree.h:53-61 | local conditions along the path are equivalent to the colour rules of the whole tree |
| RBBalance.EveryPathAlike | include/tree.h:54-55 | every path from the root to a leaf has the same number of black nodes |
| RBBalance.BlackHeightBounds | include/tree.h:53-61 | 2 to the black height is at most n + 1, and the height at most twice the black height |
| RBBalance.HeightBound | include/tree.h:61 | h <= 2 lg (n + 1) for every red-black tree |
| RBBalance.DepthBound | include/tree.h:60-61 | the depth of a place plus the height below it is at most the height of the tree |
| RBBalance.RedParent | include/tree.h:411-413 | in insertion a red parent always has a parent itself |
| RBBalance.LiftedRedEdge | include/tree.h:416-421 | the three recolourings under a red uncle move the only possible red-red edge two levels up |
| RBBalance.Turned | include/tree.h:422-427 | the inner rotation turns an inner grandchild into an outer one and keeps the sequence |
| RBBalance.Settled | include/tree.h:428-429 | recolouring and the outer rotation leave no red-red edge |
| RBBalance.RootBlackened | include/tree.h:448 | blackening the root turns the loop state into a valid red-black tree |
| RBTree.Head.InsertFixLeft | include/tree.h:413-429 | one round with the parent on the left keeps the loop state and the sequence and goes up |
| RBTree.Head.InsertFixRight | include/tree.h:430-446 | the same with the parent on the right |
| RBTree.Head.InsertRound | include/tree.h:411-447 | one round keeps the loop state and the sequence and goes up |
| RBTree.Head.InsertColor | include/tree.h:407-449 | from one possible red-red edge to a valid tree with the same sequence, in at most as many rounds as the node is deep |
| RBTree.Head.InsertPoint | include/tree.h:604-614 | the descent ends at the node with the key or at the one hole where it belongs, within 2 lg (n + 1) steps |
| RBTree.Head.Insert | include/tree.h:597-626 | valid again; a new key goes to its sorted place and the answer is null; for an existing key its node is returned and nothing changes; logarithmic work |
| RBSearch.SeekDown | include/tree.h:604-614 | a step towards the key keeps every node outside on its proper side |
| RBSearch.SoughtInVain | include/tree.h:634-643 | a descent that runs out of nodes proves that no node has the key |
| RBSearch.InsertedSorted | include/tree.h:616-624 | the new node belongs in the hole that the descent ends at |
| RBSearch.LeastAfter | include/tree.h:650-664 | the last node passed on its left is the least one not below the key |
| RBSearch.StepsBound | include/tree.h:60-61 | no descent is longer than 2 lg (n + 1) |
| RBDeficit.SiblingExists | include/tree.h:456-463 | the focus of the repair has a sibling whenever it is not the root, also when it is null |
| RBDeficit.RedSibling | include/tree.h:460-464 | the red-sibling rotation keeps the deficit where it is, under a red parent with a black sibling |
| RBDeficit.PushUp | include/tree.h:465-471 | reddening a black sibling with black children moves the deficit to the parent |
| RBDeficit.TurnedSibFits | include/tree.h:473-482 | turning the sibling makes the outer nephew red and keeps the black counts |
| RBDeficit.TurnedSibOrder | include/tree.h:473-482 | and keeps the sequence |
| RBDeficit.BorrowedAt | include/tree.h:483-490 | the final rotation ends the deficit: the whole tree is red-black with the same sequence |
| RBDeficit.Paid | include/tree.h:526-527 | blackening a red focus, or reaching the root, pays the missing black node |
| RBDeficit.OuterLost | include/tree.h:579-594 | splicing out a red node breaks nothing, a black one leaves exactly one deficit; the sequence loses that node |
| RBDeficit.SuccessorOrder | include/tree.h:539-577 | moving the successor into the place of the removed node takes that node and nothing else out of the sequence, also when the successor is its right child |
| RBDeficit.SuccessorLost | include/tree.h:539-577 | the deficit is where the successor was, by the colour the successor had |
| RBDeficit.SuccessorDepth | include/tree.h:541-543 | the walk to the successor and the place of the repair are within the height |
| RBTree.Head.RemoveRedSiblingLeft | include/tree.h:460-464 | afterwards the sibling is black and the deficit unchanged |
| RBTree.Head.RemoveRedSiblingRight | include/tree.h:493-497 | the mirror image |
| RBTree.Head.RemoveTurnSiblingLeft | include/tree.h:473-482 | the inner nephew has taken the place of the sibling |
| RBTree.Head.RemoveTurnSiblingRight | include/tree.h:506-515 | the mirror image |
| RBTree.Head.RemoveBorrowLeft | include/tree.h:483-488 | the sibling has taken the place and the colour of the parent |
| RBTree.Head.RemoveBorrowRight | include/tree.h:516-521 | the mirror image |
| RBTree.Head.RemoveSettleLeft | include/tree.h:472-490 | with a red nephew the deficit ends here |
| RBTree.Head.RemoveSettleRight | include/tree.h:505-522 | the mirror image |
| RBTree.Head.RemoveFixLeft | include/tree.h:458-490 | one round keeps the deficit state and the sequence; it ends the repair, goes up, or stays level at a red focus |
| RBTree.Head.RemoveFixRight | include/tree.h:491-524 | the mirror image |
| RBTree.Head.RemoveRound | include/tree.h:456-525 | either round, chosen by the side of the focus |
| RBTree.Head.RemoveColor | include/tree.h:451-528 | from one deficit to a valid tree with the same sequence; terminates within as many rounds as the focus is deep |
| RBTree.Head.Unlink | include/tree.h:579-590 | the only child takes the place of its parent; the cell taken out keeps its fields |
| RBTree.Head.TakeOver | include/tree.h:557-570 | the successor takes over the place, colour and children of the removed node |
| RBTree.Head.Leftmost | include/tree.h:541-543 | the walk down the left links ends at the first node of the subtree |
| RBTree.Head.RemoveOuter | include/tree.h:535-538 | removal of a node with at most one child, up to the repair |
| RBTree.Head.CutSuccessor | include/tree.h:541-556 | the successor is out of the tree and everything else in place |
| RBTree.Head.RemoveInner | include/tree.h:539-577 | removal of a node with two children, up to the repair |
| RBTree.Head.RemoveFocus | include/tree.h:530-595 | the tree is valid and has lost exactly the node at the focus |
| RBTree.Head.FinishRemove | include/tree.h:591-594 | repair is called exactly when a black node was spliced out, and only then needed |
| RBTree.Head.Remove | include/tree.h:530-595 | valid again; the sequence is the old one with exactly that node taken out; walk and repair are logarithmic |
| RBTree.Head.Find | include/tree.h:628-644 | the node with the key, or null exactly when there is none, within 2 lg (n + 1) rounds |
| RBTree.Head.NFind | include/tree.h:646-665 | the least node not below the key, or null when all are below, within the same bound |
| RBTree.Head.MinMax | include/tree.h:711-724 | the first or last node of the sequence, null for an empty tree, within 2 lg (n + 1) steps |
| RBTree.Head.UpFromRight | include/tree.h:676-684 | the walk up the parent links ends at the first node after the hole, in no more steps than the node is deep |
| RBTree.Head.UpFromLeft | include/tree.h:698-706 | the mirror image |
| RBTree.Head.Next | include/tree.h:668-687 | the in-order successor of a member, null at the end, within 2 lg (n + 1) steps |
| RBTree.Head.Prev | include/tree.h:690-709 | the in-order predecessor of a member, null at the start, within 2 lg (n + 1) steps |
| Ordered.NextPrevInverse | include/tree.h:668-709 | successor and predecessor undo each other |
| Ordered.NextIsLeastAbove | include/tree.h:668-687 | the successor is the least node with a larger key |
| Ordered.PrevIsGreatestBelow | include/tree.h:690-709 | the predecessor is the greatest node with a smaller key |
| RBIterate.Foreach | include/tree.h:738-741 | visits the sorted sequence and stops |
| RBIterate.ForeachReverse | include/tree.h:753-756 | visits the reverse of the sorted sequence |
| RBIterate.ForeachSafe | include/tree.h:748-751 | with a body that removes any chosen visited nodes: every original node is visited once, in order, and exactly the nodes not chosen remain |
| RBIterate.ForeachReverseSafe | include/tree.h:763-766 | the same from the last node to the first |
| RBIterate.ForeachFrom | include/tree.h:743-746 | the same loop from any member on |
| RBIterate.ForeachReverseFrom | include/tree.h:758-761 | the same loop from any member back |
| RBIterate.SafeLoop | include/tree.h:743-766 | from any position and in either direction: the route of the original tree is visited, and exactly the nodes not chosen remain |
| RBIterate.SafeRound | include/tree.h:748-751 | one round: the saved node is the next of the original tree |
| RBIterate.StillThere | include/tree.h:748-751 | nothing from the current node on has been removed |
| RBIterate.NeighbourStays | include/tree.h:748-751 | a neighbour that stays is still the neighbour when others have gone |
| RBIterate.SavedNode | include/tree.h:748-751 | the node saved in the thinned tree is the next of the original route |
| RBIterate.RemoveChosen | include/tree.h:748-751 | the body removes the chosen visited nodes and no others |
| Ordered.KeepOneLess | include/tree.h:748-751 | removing one more node from what is left drops exactly that node |
| SetSpec.RunsAgree | include/tree.h:531-724 | the reference leaves no freedom: two programs that follow it give equal answers |
| SetSpec.SameMembersSameOrder | include/tree.h:36-62 | two sorted sequences with the same members are equal |
| RBRun.Apply | include/tree.h:530-724 | each operation answers and changes the set as the reference allows |
| RBRun.Run | include/tree.h:530-724 | every run from the empty tree agrees with the reference set |
| SplayShape.LinkLeftSplit | include/tree.h:100-104 | the root and its right subtree join the spine of larger nodes; the three parts stay apart |
| SplayShape.LinkRightSplit | include/tree.h:106-110 | the mirror image |
| SplayShape.LinkLeftOrder | include/tree.h:100-104 | linking keeps the sequence and the node set of the three parts |
| SplayShape.RotROrder | include/tree.h:88-92 | the rotation at the root keeps the sequence |
| SplayShape.RotRFacts | include/tree.h:88-98 | and the node set; the two rotations undo each other |
| SplayShape.SpinesAttached | include/tree.h:112-117 | after the first two assignments the links of the stack structure lead to the two closed spines |
| SplayShape.AssembledIn | include/tree.h:112-117 | the four assignments make one tree of the three parts, also when a spine is empty |
| SplayShape.AssembledOrder | include/tree.h:112-117 | with the sequence of the three parts |
| SplayShape.AssembledParted | include/tree.h:209-242 | when the loop may stop, the assembled root parts the other nodes at the key |
| SplayShape.PartedBeyond | include/tree.h:247-278 | a key beyond every node brings the last one to the root, without a child on that side |
| SplayTree.Head.constructor | include/tree.h:66-80 | an empty tree is valid |
| SplayTree.Head.RotateRight | include/tree.h:88-92 | keeps the splay state and writes nothing outside the tree |
| SplayTree.Head.RotateLeft | include/tree.h:94-98 | the mirror image |
| SplayTree.Head.LinkLeft | include/tree.h:100-104 | keeps the splay state; the root moves to its left child |
| SplayTree.Head.LinkRight | include/tree.h:106-110 | the mirror image |
| SplayTree.Head.SplayLeft | include/tree.h:219-228 | one round below the root: keeps the splay state, shrinks the middle tree or may stop |
| SplayTree.Head.SplayRight | include/tree.h:229-238 | the mirror image |
| SplayTree.Head.SplayRound | include/tree.h:218-239 | one round brings the loop one round nearer to the recursively splayed tree |
| SplayTree.Head.Assemble | include/tree.h:112-117 | from the three parts to a valid tree, parted at the key |
| SplayTree.Head.Splay | include/tree.h:209-242 | terminates; the same nodes in the same sequence; the root parts the rest at the key; tree and number of rounds are those of the recursive function; other cells are untouched |
| SplayTree.Head.MinRound | include/tree.h:254-262 | one round towards the least node |
| SplayTree.Head.MaxRound | include/tree.h:263-271 | one round towards the greatest node |
| SplayTree.Head.MinMaxRound | include/tree.h:253-273 | the same progress as a splay for a key beyond every node |
| SplayTree.Head.SplayMinMax | include/tree.h:247-278 | the least or greatest node becomes the root, the sequence stays, within the cost of a splay |
| SplayTree.Head.PutOnTop | include/tree.h:172-184 | the new node becomes the root over the two halves |
| SplayTree.Head.Insert | include/tree.h:164-186 | a new key goes to its sorted place and the answer is null; an existing key is returned and the sequence stays; amortised cost |
| SplayTree.Head.Find | include/tree.h:128-137 | the node with the key, or null exactly when there is none; the sequence stays; amortised cost |
| SplayTree.Head.MinMax | include/tree.h:153-158 | the first or last node of the sequence, null for an empty tree |
| SplayTree.Head.Next | include/tree.h:139-151 | the in-order successor of a member, over the reshaped tree; amortised cost of its splay |
| SplayTree.Head.Remove | include/tree.h:188-207 | the node with the key, and no other, leaves the sequence; null exactly when there is none; the answer is the node that left if and only if the argument was a member; amortised cost |
| SplayTree.TakesOutAnother | include/tree.h:188-207 | a run in which the node taken out is not the one answered |
| SplayTree.Head.DropRoot | include/tree.h:195-204 | the splayed root leaves the tree |
| SplayTree.Head.Rejoin | include/tree.h:198-203 | the second splay leaves a root without right child, so the join loses nothing |
| SplayTree.RootMatch | include/tree.h:134-136 | after a splay a node with the key is at the root or nowhere |
| SplayTree.NothingAbove | include/tree.h:198-203 | a splay for a key above every node leaves the root without right child |
| SplayTree.JoinedHeld | include/tree.h:199-203 | hanging the larger nodes under that root gives one tree of both halves |
| SplayCost.LgParts | include/tree.h:49-51 | two disjoint parts of a tree cannot both have its rank |
| SplayCost.ZigZig | include/tree.h:222-227 | a round with rotation is paid for by the potential and the fall in rank |
| SplayCost.ZigZag | include/tree.h:218-239 | so are two rounds that go opposite ways without rotation |
| SplayCost.ZigZagZag | include/tree.h:218-239 | and one round one way before a rotating round the other way |
| SplayCost.SplayAffords | include/tree.h:209-242 | the rounds of any splay are covered by the fall of the potential and 4 lg (n + 1) + 2 |
| SplayCost.SplayCharged | include/tree.h:49-51 | the same for the potential of whole trees, with 6 lg (n + 1) + 2 |
| SplayCost.LeftOnWay | include/tree.h:219-228 | a left round of the loop is a step of the recursive function |
| SplayCost.RightOnWay | include/tree.h:229-238 | a right round likewise |
| SplayCost.InsertSpends | include/tree.h:164-186 | an insertion costs no more than two splays |
| SplayCost.RemoveSpends | include/tree.h:188-207 | a removal with its two splays keeps within two allowances |
| SplayCost.SpendsThen | include/tree.h:292-295 | the costs of splays in a row add up while the sequence stays |
| SplayCost.BalanceKept | include/tree.h:49-51 | the costs of operations in a row add up within their allowances |
| SplayRun.Foreach | include/tree.h:292-295 | visits every node once in ascending order and stops, although each step reshapes the tree; its splays cost no more than n + 1 allowances |
| SplayRun.Apply | include/tree.h:128-290 | each operation answers as the reference allows, within three allowances |
| SplayRun.TallyNext | include/tree.h:49-51 | one more operation keeps the answers, the sets and the account |
| SplayRun.Advance | include/tree.h:128-290 | the next operation of a run, on the tree in memory |
| SplayRun.Run | include/tree.h:49-51 | every run from the empty tree agrees with the reference set, and all its splays together are logarithmic for each operation |
| BothRuns.Compare | include/tree.h:128-724 | both trees give the same answers to the same run, those of the reference, and end with the same sequence |
| LoopModel.InitInv | libuvcpp/loop.cpp:6-59 | the constructor establishes the invariant |
| LoopModel.TakeFront | libuvcpp/loop.cpp:133-138 | the handle moved from deque to map was neither pending nor being fired |
| LoopModel.PostInv | libuvcpp/loop.cpp:124-143 | an accepted request is recorded at exactly one waiting handle |
| LoopModel.PostStopInv | libuvcpp/loop.cpp:97-114 | a stop event takes a handle without disturbing any request |
| LoopModel.FireInv | libuvcpp/loop.cpp:14-16 | libuv begins a callback only for a handle in flight |
| LoopModel.InvokeInv | libuvcpp/loop.cpp:17-35 | the closure that is run exists and stops waiting when it starts |
| LoopModel.ClearInv | libuvcpp/loop.cpp:29-34 | clearing the closure loses no request |
| LoopModel.ReturnInv | libuvcpp/loop.cpp:42-55 | the handle is found in the map and goes back to the deque |
| LoopModel.NextInv | libuvcpp/loop.cpp:14-144 | every step of every thread keeps the invariant and finds what it takes for granted |
| LoopModel.RunInv | libuvcpp/loop.cpp:14-144 | so in every interleaving, from the start |
| LoopModel.HandlesPartitioned | libuvcpp/loop.cpp:42-55 | deque and map share out the five handles; those in the map are the pending ones and the one being fired |
| LoopModel.BusyIffFive | libuvcpp/loop.cpp:126-130 | a running loop is busy if and only if five requests are in flight |
| LoopModel.FreeIsEmpty | libuvcpp/loop.cpp:29-34 | every handle in the deque has an empty closure |
| LoopModel.NeverCoalesced | libuvcpp/loop.cpp:133-140 | `uv_async_send` always hits a handle without an outstanding one |
| LoopModel.AtMostOnce | libuvcpp/loop.cpp:14-56 | an accepted request has been started once or waits at one handle, never both, never neither |
| LoopModel.StepWaiting | libuvcpp/loop.cpp:14-144 | a waiting handle keeps its event and closure until the closure starts |
| LoopHistory.RunsIff | libuvcpp/loop.cpp:71-89 | the loop runs if and only if it was started and has not ended since; no request and no stop event ends it by itself |
| LoopHistory.StoppingIff | libuvcpp/loop.cpp:31-35 | `uv_stop` was called if and only if the loop thread has run the arm of a stop event |
| LoopHistory.DequeInOrder | libuvcpp/loop.cpp:42-57 | the deque began with the five handles in order, callbacks add theirs at the back, and requests take from the front |
| LoopHistory.AcceptedInOrder | libuvcpp/loop.cpp:117-144 | the accepted requests are those posted while a handle was free, in that order |
| LoopHistory.StartedInOrder | libuvcpp/loop.cpp:17-30 | the closures run are those the slots held when their arm began, in that order |
| LoopHistory.SlotIsLast | libuvcpp/loop.cpp:106-137 | a slot is what the last post, stop or clearing on it left |
| LoopHistory.EventIsLast | libuvcpp/loop.cpp:108-135 | the event of a slot is that of the call that last took its handle |
| LoopHistory.PhaseIsLast | libuvcpp/loop.cpp:14-55 | a callback begins, runs its arm, clears the closure and gives the handle back, in this order |
| LoopHistory.PendingIff | libuvcpp/loop.cpp:112-140 | a handle is pending if and only if `uv_async_send` was called for it and its callback has not begun since |
| LoopEnd.StoppingEnds | libuvcpp/loop.cpp:71-78 | once `uv_stop` was called the loop thread can end the loop |
| LoopEnd.WaitingEnds | libuvcpp/loop.cpp:31-35 | so it can while a stop event waits |
| LoopEnd.NotStopped | libuvcpp/loop.cpp:71-78 | otherwise no action of the loop thread ends it |
| LoopEnd.CanEndIff | libuvcpp/loop.cpp:71-115 | in every state of every run, the loop thread can end a running loop without a further call if and only if `uv_stop` was called or a stop event waits |
| LoopEnd.StopHeededIff | libuvcpp/loop.cpp:97-113 | after a call of `stop` a running loop can end if and only if a handle was free or it could end already |
| LoopEnd.StopUnheard | libuvcpp/loop.cpp:99-103 | a run: with five requests in flight a call of `stop` changes nothing, and the loop cannot end |
| UvLoop.Loop.constructor | libuvcpp/loop.cpp:6-59 | five free handles, in order |
| UvLoop.Loop.Run | libuvcpp/loop.cpp:80-89 | takes the start step, or does nothing when running |
| UvLoop.Loop.AddReq | libuvcpp/loop.cpp:117-144 | stopped exactly when not running, busy exactly when running with five in flight, and then nothing changes; otherwise the front handle takes event and closure and moves to the map |
| UvLoop.Loop.Stop | libuvcpp/loop.cpp:91-115 | when running with a handle free, the front handle takes the stop event and moves to the map; otherwise nothing changes; the flag never does |
| UvLoop.Loop.BeginCallback | libuvcpp/loop.cpp:14-16 | the flag of the handle is cleared and its callback begins |
| UvLoop.Loop.RunArm | libuvcpp/loop.cpp:17-35 | runs the closure of the slot, or calls `uv_stop` exactly for a stop event |
| UvLoop.Loop.ClearClosure | libuvcpp/loop.cpp:29-34 | the closure of the slot is empty, its event stays |
| UvLoop.Loop.ReturnHandle | libuvcpp/loop.cpp:42-55 | the handle leaves the map for the back of the deque; the not-found branch is unreachable |
| UvLoop.Loop.Exit | libuvcpp/loop.cpp:71-78 | the flag is cleared and nothing else |
| SendModel.ReserveInv | libuvcpp/connect.cpp:72-86 | a reserved record was idle or new, and is empty |
| SendModel.FillInv | libuvcpp/connect.cpp:87 | the buffer then holds the bytes of the call, or nothing when `readmem` failed |
| SendModel.SubmitInv | libuvcpp/connect.cpp:89-90 | a posted record is linked one to one with a waiting handle |
| SendModel.TcpWriteInv | libuvcpp/connect.cpp:197-206 | the record whose closure runs is posted, and holds what `readmem` took from its call |
| SendModel.CompleteInv | libuvcpp/connect.cpp:206-222 | the completion callback finds its request in the map |
| SendModel.NextInv | libuvcpp/connect.cpp:60-227 | every step keeps the invariant and finds what it takes for granted |
| SendModel.RunInv | libuvcpp/connect.cpp:60-227 | so in every interleaving, from the start |
| SendModel.StepOnRecord | libuvcpp/connect.cpp:60-227 | what one step may do to a record: only its own completion frees it, only a reservation takes it |
| SendModel.BlockFromCall | libuvcpp/connect.cpp:72-90 | a held record belongs to the call that reserved it, without a break |
| SendModel.PostedAtWrite | libuvcpp/connect.cpp:197-206 | the closure about to run is that of a posted record, with what `readmem` took in place |
| SendModel.ReadOnRecord | libuvcpp/connect.cpp:87 | whether `readmem` took the block is decided by the fill step alone |
| SendModel.FillOfCall | libuvcpp/connect.cpp:87 | a record past its `readmem` had it in the same call |
| SendModel.WriteIntegrity | libuvcpp/connect.cpp:197-206 | `uv_write` is given exactly the bytes of the `wirteData` call that reserved the record, or nothing exactly when the `readmem` of that call failed |
| SendModel.WriteUndisturbed | libuvcpp/connect.cpp:206-227 | over every interleaving the bytes of an issued record stay as they are until its completion; that its memory stays too is `WriteRun.MemoryStays` |
| SendModel.RecordsConserved | libuvcpp/connect.cpp:72-86 | every record allocated is in exactly one of map and deque |
| SendModel.HighWaterMark | libuvcpp/connect.cpp:74-77 | as many records are allocated as the map ever held at once |
| SendHistory.ConnectedIff | libuvcpp/connect.cpp:206-227 | the connection flag is what libuv last reported; no write and no completion changes it |
| SendHistory.EnteredCount | libuvcpp/connect.cpp:62-72 | every reservation belongs to a call that found a connection before |
| SendHistory.IdleInOrder | libuvcpp/connect.cpp:74-83 | `m_dSend` is first in, first out: completions add at the back, reservations take from the front |
| SendHistory.PoolRuns | libuvcpp/connect.cpp:89-90 | below every run of the write pool the request pool makes a run of its own, posting a closure unless it is refused |
| SendModel.LostForever | libuvcpp/connect.cpp:199-202 | a lost record never leaves the map |
| SendReturn.IssuedReturns | libuvcpp/connect.cpp:206-222 | from any state, a record being written can become idle |
| SendReturn.PostedReturns | libuvcpp/connect.cpp:197-206 | so can a posted one, through its closure |
| SendReturn.FilledReturns | libuvcpp/connect.cpp:89-90 | so can one whose closure is not posted yet, once a handle is free |
| SendReturn.ReturnsUnlessLost | libuvcpp/connect.cpp:60-227 | a record in use can become idle if and only if it is not lost |
| SendReturn.LostStays | libuvcpp/connect.cpp:199-202 | no continuation makes a lost record idle |
| SendReturn.CanReturnIff | libuvcpp/connect.cpp:60-227 | in every state of every run, some continuation makes the record idle if and only if it is not lost |
| SendReturn.LeakIff | libuvcpp/connect.cpp:89-90 | a step ends the last chance of a record to become idle if and only if `AddReq` refuses its closure or the closure finds no connection |
| SendReturn.LostWhenStopped | libuvcpp/connect.cpp:89-90 | a run: the first write on a connection whose loop does not run is lost |
| SendReturn.LostWhenBusy | libuvcpp/connect.cpp:89-90 | a run: a write is lost while five other requests are in flight |
| SendReturn.LostWhenDisconnected | libuvcpp/connect.cpp:199-202 | a run: a posted write is lost when the connection goes away before its closure runs |
| UvConnect.Buffers.Allocate | libuvcpp/connect.cpp:74-77 | a new, separate, empty buffer; the others stay where they are |
| UvConnect.Buffers.ClearMem | libuvcpp/connect.cpp:82 | empties one buffer; no other changes, and none moves |
| UvConnect.Buffers.ReadMem | libuvcpp/connect.cpp:87 | appends to one buffer, which may move, or lose everything exactly when a needed `realloc` fails; no other changes or moves |
| UvConnect.Buffers.BytesAtBase | libuvcpp/connect.cpp:204 | the memory of a buffer begins with its bytes |
| UvConnect.LocatedKept | libuvcpp/connect.cpp:72-90 | filling or posting one record leaves the records being written where they are |
| UvConnect.LocatedTaken | libuvcpp/connect.cpp:72-86 | so does taking a record for a new write |
| UvConnect.Buffers.Describe | libuvcpp/connect.cpp:204 | base and length describe exactly the data |
| UvConnect.Connect.constructor | libuvcpp/connect.cpp:4-12 | an empty pool, with buffers of its own |
| UvConnect.Connect.SetConnected | libuvcpp/connect.cpp:38-45 | takes the flag step |
| UvConnect.Connect.PoolMoves | libuvcpp/loop.cpp:14-144 | a step of the request pool that is not about a write leaves the connection valid |
| UvConnect.Connect.BytesStay | libuvcpp/connect.cpp:203-206 | for every record being written, the memory whose address `uv_write` holds begins with what `readmem` took from its `wirteData` call |
| UvConnect.Connect.EnterCall | libuvcpp/connect.cpp:62-65 | takes the entering step |
| UvConnect.Connect.TakeRecord | libuvcpp/connect.cpp:74-83 | the front idle record, cleared, or a new one |
| UvConnect.Connect.ReserveRecord | libuvcpp/connect.cpp:72-86 | takes the reserve step; the memory of every record being written stays as it is |
| UvConnect.Connect.FillRecord | libuvcpp/connect.cpp:87 | takes the fill step, with the outcome of `readmem`; the memory of every record being written stays as it is |
| UvConnect.Connect.SubmitRecord | libuvcpp/connect.cpp:89-90 | takes the submit step on the real request pool; the memory of every record being written stays as it is |
| UvConnect.Connect.TcpWrite | libuvcpp/connect.cpp:197-206 | issues the write with base and length of the data exactly when connected |
| UvConnect.Connect.RunWrite | libuvcpp/connect.cpp:197-206 | run from the loop thread, what is issued is what `readmem` took from the `wirteData` call, and from then on its memory is watched |
| UvConnect.Connect.WriteDone | libuvcpp/connect.cpp:206-222 | the record leaves the map for the back of the deque, the connection flag stays, and the watch on this record alone ends; the not-found branch is unreachable |
| UvConnect.Connect.WirteData | libuvcpp/connect.cpp:60-91 | undisturbed, its effect is exactly enter, reserve, fill and submit, and nothing without a pool or a connection; the answer is true exactly when connected, running and not busy, whatever `readmem` answered; the memory of every record being written stays as it is |
| UvConnect.Connect.WriteConnected | libuvcpp/connect.cpp:72-90 | the same from where a connection and a pool have been found |
| WriteRun.ActOnCalls | libuvcpp/connect.cpp:60-91 | the sections of `wirteData` before its AddReq, and the completion callback, each take their step whenever that is possible |
| WriteRun.ActOnPost | libuvcpp/connect.cpp:89-90 | so does the AddReq of a write |
| WriteRun.ActOnPool | libuvcpp/loop.cpp:80-144 | so do the other calls into the loop |
| WriteRun.ActOnLoop | libuvcpp/loop.cpp:14-78 | so do the actions of the loop thread |
| WriteRun.ActOnArm | libuvcpp/loop.cpp:17-41 | so does the switch, for a write and for anything else |
| WriteRun.Act | libuvcpp/connect.cpp:60-227 | any action keeps the connection and the loop fit together and no watched memory moves |
| WriteRun.SeenRight | libuvcpp/connect.cpp:203-206 | at any moment, what is in memory for `uv_write` is what `readmem` took from the `wirteData` call |
| WriteRun.Run | libuvcpp/connect.cpp:60-227 | any schedule on a new connection and a new loop is a run of the state machine, performs every action that is possible, and has memory right at every moment |
| WriteRun.MemoryStays | libuvcpp/connect.cpp:197-227 | over any schedule, the memory given to `uv_write` neither moves nor changes until the completion of that record |
| SafeBuffers.Rounded | util/safebuffer.cpp:32 | the least multiple of 1024 above the length |
| SafeBuffers.GrowsEnoughIffNoWrap | util/safebuffer.cpp:117-119 | the growth leaves room for block and terminator if and only if its size does not wrap |
| SafeBuffers.GrowsModulo | util/safebuffer.cpp:119 | the size asked for is the sum needed, reduced to what an `unsigned long` holds |
| SafeBuffers.GrowsToNothing | util/safebuffer.cpp:119 | with 32 bits, the largest block makes it ask for no bytes at all |
| SafeBuffers.ZeroTailIff | util/safebuffer.cpp:57-63 | whatever `malloc` returns, zeros follow the data, if and only if the source is full and growing does not wrap |
| SafeBuffers.OverrunByWrapping | util/safebuffer.cpp:117-125 | a block that overruns the buffer by a wrapped size |
| SafeBuffers.UnclearedByAssigning | util/safebuffer.cpp:57-63 | a buffer that lost its memory, and then takes data without zeros behind them |
| SafeBuffers.UnclearedAgain | util/safebuffer.cpp:65-71 | assigned once more, that buffer still has no zero behind its data |
| SafeBuffers.SafeBuffer.constructor | util/safebuffer.cpp:4-13 | no data, all zero; terminated if and only if the length is positive |
| SafeBuffers.SafeBuffer.FromBlock | util/safebuffer.cpp:29-40 | holds the block, terminated, in the least multiple of 1024 bytes above its length; overruns exactly when that size wraps |
| SafeBuffers.SafeBuffer.Copy | util/safebuffer.cpp:15-27 | holds the data of the other, if any, in memory of its own |
| SafeBuffers.SafeBuffer.ClearMem | util/safebuffer.cpp:93-98 | no data; the bytes that held them are zero and the rest of the tail stays |
| SafeBuffers.SafeBuffer.Resize | util/safebuffer.cpp:154-171 | keeps the data and zeros the new tail, also of a buffer without memory, or loses everything when memory cannot be had |
| SafeBuffers.SafeBuffer.MakeRoom | util/safebuffer.cpp:117-124 | afterwards there is room for the block, and for one byte more, exactly when the size asked for does not wrap or no growth was needed |
| SafeBuffers.SafeBuffer.AllocateFor | util/safebuffer.cpp:103-114 | an empty, zeroed buffer of the rounded size |
| SafeBuffers.SafeBuffer.ReadInto | util/safebuffer.cpp:117-127 | readmem into a buffer with memory |
| SafeBuffers.SafeBuffer.ReadMem | util/safebuffer.cpp:100-129 | appends the block and keeps a zero tail, which is not empty exactly when a byte was to spare; the capacity stays, or is the data plus the least multiple of 1024 above the block; fails exactly when a needed `realloc` fails; leaves the buffer exactly when the block does not fit because a size wrapped |
| SafeBuffers.SafeBuffer.CopyIn | util/safebuffer.cpp:125-127 | the block goes behind the data; the rest of the tail stays |
| SafeBuffers.SafeBuffer.AssignToNull | util/safebuffer.cpp:57-63 | the data are copied into the capacity of the source, and whatever fresh memory held follows them, unless the buffer has to grow |
| SafeBuffers.ClearedTail | util/safebuffer.cpp:65-71 | clearing n bytes and writing d over them leaves zeros exactly where zeros were |
| SafeBuffers.SafeBuffer.AssignOver | util/safebuffer.cpp:65-71 | into a buffer with memory: the tail is given byte by byte when it need not grow, and is zero when it grows |
| SafeBuffers.SafeBuffer.Assign | util/safebuffer.cpp:52-75 | the data of the source, which is unchanged; without growth zeros follow if and only if the old tail was zero from the new end on, with growth always; it overruns exactly when a needed size wraps |
| SafeBuffers.Perform | util/safebuffer.cpp:93-171 | one operation on a terminated buffer leaves it terminated, unless a size wraps |
| SafeBuffers.Run | util/safebuffer.cpp:93-171 | after any run of clear, read and resize in which no size wraps, the data are the blocks read since the last clear, followed by at least one byte, all zero |

## Left out

- Aliasing of node structures: nodes are indices into an arena rather than one object for each node, and a node is in one tree at a time.
- `RB_AUGMENT`, which is empty here.
- Operations on nodes that are not members (`RB_REMOVE`, `RB_NEXT`, `RB_PREV`, `SPLAY_NEXT`) and `SPLAY_MINMAX` with 0: the source gives them no meaning.
- SplayTree.Head.Next: its splay is counted, the walk below the splayed root is not.
- UvLoop.Loop.Run: the thread that it starts is the loop thread of the state machine, whose actions `WriteRun` schedules; the unsynchronised handshake on `m_bRunning` at start and end is not modelled, and neither is when an accepted request is eventually run.
- The order in which libuv serves pending handles: any order is allowed.
- UvLoop.Loop.RunArm: the default arm of the switch, for event values outside the enumeration.
- UvConnect.Connect.WirteData: interleavings inside one call, which are the subject of `SendModel` and `WriteRun`.
- Failure of `uv_write`, which the source asserts away.
- UvConnect.Buffers.ReadMem: in the write pool sizes do not wrap; `SafeBuffers.SafeBuffer.ReadMem` says what happens otherwise.
- SafeBuffers.SafeBuffer.ReadMem: nothing is said of a buffer after its copy left the memory.
- SafeBuffers.SafeBuffer.FromBlock: nothing is said of a buffer after its copy left the memory.
- `safebuffer::swap`, which does not exchange the data lengths, and `m_offset`, which two constructors leave unset.
- Connecting, reconnecting, closing and reading, `accept.cpp`, `tcpClient.cpp`, `tcpServer.cpp`, `timer.cpp`: thin calls into libuv. That the connection flag changes at any time stands for them.
- `uvcppclient/uvcpp.cpp`, a second front end over the same ideas.
