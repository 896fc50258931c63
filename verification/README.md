# Verified models of the C core library, the access layer, listend and the web demo's wire codec

The project models the parts of the repository where a mistake is easiest to make and hardest to see,
and proves what they are for. Code that changes objects in place is a class whose methods change the
same fields in the same order; each method is proved against a value (a tree, a map of node values, a
state) that the heap realises, and the theorems are about that value. Concurrent code is a machine
over the atomic steps of any number of threads.

- **Binary search trees.** `BinTree` has trees and contexts (a tree around a hole) as values, ordered by
  whatever comparison the caller gives (`Orders`: any total preorder).
  `RbTree.RbTree` is the red-black tree with its sentinel, colours and parent links: insertion,
  deletion, lookup, the in-order walk with its bounded stack (`Stack.Stack`), the filtered search and
  the release of the whole tree; `RbShape` has the colour rules and what each repair step does to
  them. `AvlTree.AvlTree` is the AVL tree with stored balance factors and the `taller` and `lower`
  flags; `AvlShape` has the rotations.
- **B-tree of order m.** `KeyedItems` has sequences of items with integer keys, `BtShape` the tree values, `BtNodes` says how node fields realise them,
  `BNodes.BNode` is a node with its three fixed buffers, `BTree.BTree` the tree.
- **Lock-free ring.** `Ring.Step32` is the program on 32-bit counters, `Ring.Step` the same on the
  unbounded indices they stand for, with a history of what was pushed and taken; `Tiling` is about
  reservations; `RingCalls` follows every call from its request to its answer, from outside. `Bits` has the power-of-two arithmetic.
- **Reference-count table.** `Mref`.
- **Frame reassembly.** `Frames` splits a byte stream; `Receiver.Receiver` is the phase machine.
- **Chat index and connection life cycle.** `ChatTab.ChatTab` is the index; `LsndSteps` has the
  handlers of listend as steps on values, `Listend.Listend` the handlers on connection objects.
- **Smaller cores.** `QuickSort`, `LocalTime`, `PbJs`; `Options` is the type of a value that may be missing.

## What is assumed

- Ring: memory is sequentially consistent; no compare-and-set compares with a head read a positive
  multiple of 2^32 reservations ago (`Ring.NotLapped`); callers push and pop at least one element, as
  every caller in the repository does. A request for no element breaks the ring, a push as well as a pop:
  `EmptyPushBreaks`, `EmptyPopBreaks`.
- Mref: what happens under one hold of a bucket lock is one step; the allocator never gives out a
  block that is in use; clients only give up references they hold. Counts are unbounded.
- Receiver: every frame the stream begins fits the receive buffer, and the head is not empty.
- Listend: every handler is one step; connection ids are not zero and never given out twice; all online
  requests of a connection carry the same session id (`conn_list` keeps its entries under the fields
  of the connection itself).
- Binary trees and quicksort: the caller's comparison is a total preorder on blocks of data, whatever they are
  (the callbacks of the repository compare numbers, pairs of numbers or strings). A callback that subtracts
  64-bit keys and casts the difference orders two keys exactly if they are less than 2^63 apart
  (`Orders.DifferenceOrders`). The B-tree compares `int` keys itself.
- Chat index: room ids are below 2^63, so room 0 is the first one that a walk over the room table meets.

## Where the code differs from its own description

- A deletion from a B-tree leaf moves the last key into the hole without shifting, so a tree of order 4
  or more may lose its order (`BTree.BTree.Remove` says exactly when, `BTree.OrderFourLosesOrder` is a run);
  all other rules are kept, and order 3 is safe.
- A room that a session joins after its first one is recorded on the session's side only, and joining
  answers 0 instead of the group for a session that is new (`ChatTab.ChatTab.RoomAddSession`).
- Room 0, whose id reads as the end of the list, stops the cleaning of rooms: while it is empty no room is
  dropped at all (`ChatTab.ChatTab.CleanRooms`, with a run in `ChatTab.EmptyRoomStays`).
- A group id has 32 bits in requests and in the session's own table, but groups are stored and looked up under
  its last 16 bits. Ids that agree in these are one group, so a send may reach members who joined another one;
  `ChatTab.ChatTab.SendExact` says exactly when it does not, `ChatTab.SendReachesBoth` is a run where it does.
- `local_time` casts the hours to `unsigned int`, so it inverts its own calendar exactly for hours below 2^32;
  its day of the year is wrong from the last day of each leap year to the end of the next year; and it has a
  leap year every fourth year, so that its dates are the Gregorian ones exactly before 1 March 2100.
- The web demo's reader turns numbers into those of JavaScript, so an id comes back unchanged exactly if it
  fits 53 bits after its trailing zeros are dropped (`PbJs.NumberExact`, with two messages that become one in
  `PbJs.LargeUsersMeet`). The second reader of a chat broadcast differs from the first one exactly if a number
  stands behind bytes in field 6 (`PbJs.DecodeBc`).
- `power2` shifts by 32 for negative numbers, which is undefined (`Bits.Power2`).
- The red-black walk leaves a parent without a right subtree without visiting it; only the colour rules
  make that right (`RbShape.Shallow`).

## Model

| member | source | states |
|---|---|---|
| `RbShape.PlugColored` | src/clang/lib/core/rb_tree.c:30-57 | the colour rules hold of a whole tree exactly if they hold of a subtree and its surroundings accept its black height and colour |
| `RbShape.RecolorRepairs` | src/clang/lib/core/rb_tree.c:338-347 | with a red uncle, recolouring moves a red-red violation two levels up and keeps everything else |
| `RbShape.InnerRepairs` | src/clang/lib/core/rb_tree.c:325-403 | one inner rotation turns an inner grandchild violation into an outer one, in both mirror images |
| `RbShape.RotateRepairs` | src/clang/lib/core/rb_tree.c:325-403 | an outer rotation ends the violation with the items in the same order |
| `RbShape.RedBrotherRotates` | src/clang/lib/core/rb_tree.c:555-657 | deletion, red brother: after the rotation the brother is black and the missing black is still at the same subtree |
| `RbShape.BlackBrotherReddens` | src/clang/lib/core/rb_tree.c:555-657 | deletion, black brother without red children: the missing black moves one level up |
| `RbShape.NearRedRotates` | src/clang/lib/core/rb_tree.c:555-657 | deletion, near nephew red: the rotation at the brother makes the far nephew red |
| `RbShape.FarRedFinishes` | src/clang/lib/core/rb_tree.c:555-657 | deletion, far nephew red: one rotation restores all colour rules |
| `RbShape.SuccessorFits` | src/clang/lib/core/rb_tree.c:511-541 | taking out the successor leaves the colour rules whole if it was red, one black short at one place if black |
| `RbShape.Spliced` | src/clang/lib/core/rb_tree.c:454-509 | the same for a node with one child at most |
| `RbShape.HeightBound` | src/clang/incl/rb_tree.h:13 | height at most twice the black height, and 2^(black height) at most items + 1 |
| `RbShape.DepthBound` | src/clang/incl/rb_tree.h:13 | with fewer than 2^64 items no path is longer than 128, far below the stack's 512 |
| `RbShape.Shallow` | src/clang/lib/core/rb_tree.c:1028-1040 | a subtree whose brother is missing is one node high, so the walk skips nothing it has not visited |
| `RbTree.RbTree.LeftRotate` | src/clang/lib/core/rb_tree.c:123-141 | the links of node, parent, child and root realise the rotated tree |
| `RbTree.RbTree.RightRotate` | src/clang/lib/core/rb_tree.c:81-99 | the mirror image |
| `RbTree.RbTree.InsertFixup` | src/clang/lib/core/rb_tree.c:325-403 | ends, with all colour rules, all links right, and the items in the same order |
| `RbTree.RbTree.Insert` | src/clang/lib/core/rb_tree.c:257-309 | for every total preorder of the caller: all invariants kept; exactly the new item added and counted, or an equal one reported with the tree unchanged |
| `RbTree.RbTree.DeleteFixup` | src/clang/lib/core/rb_tree.c:555-657 | ends, with all colour rules, all links right, and the items in the same order |
| `RbTree.RbTree.Delete` | src/clang/lib/core/rb_tree.c:419-541 | for every total preorder: all invariants kept; exactly the item equal to the key removed, counted and returned; unchanged if there is none |
| `RbTree.RbTree.Query` | src/clang/lib/core/rb_tree.c:847-864 | for every total preorder: the item equal to the key, or none exactly if there is none |
| `RbTree.RbTree.Climb` | src/clang/lib/core/rb_tree.c:1028-1040 | the climbing loop leaves finished subtrees only |
| `RbTree.RbTree.Trav` | src/clang/lib/core/rb_tree.c:982-1048 | every item visited exactly once, in ascending order, without overflowing the stack |
| `RbTree.RbTree.Find` | src/clang/lib/core/rb_tree.c:1063-1143 | the item with the smallest key that the caller's filter takes; none exactly if it takes no item |
| `RbTree.RbTree.Destroy` | src/clang/lib/core/rb_tree.c:882-966 | every item given up exactly once, every node after its children |
| `Stack.Stack.Push` | src/clang/incl/stack.h:83-93 | a push adds one element on top; on a full stack it is refused and changes nothing |
| `Stack.Stack.Pop` | src/clang/incl/stack.h:107-117 | a pop takes the top element, or answers nil on an empty stack |
| `AvlShape.RightTooHigh` | src/clang/lib/core/avl_tree.c:339-466 | the single or double rotation over a right subtree two levels too high balances it; only an evenly balanced child keeps the height |
| `AvlShape.LeftTooHigh` | src/clang/lib/core/avl_tree.c:491-633 | the mirror image |
| `AvlShape.RotationsSame` | src/clang/lib/core/avl_tree.c:339-633 | all four rotations keep the items in order |
| `AvlShape.GrownLeft` | src/clang/lib/core/avl_tree.c:267-315 | what a left subtree that grew by a level does to factor and height |
| `AvlShape.ShrunkLeft` | src/clang/lib/core/avl_tree.c:910-999 | what a left subtree that lost a level does to factor and height |
| `AvlTree.AvlTree.RightBalance` | src/clang/lib/core/avl_tree.c:339-466 | rebalances with exact factors and one level less, unless the child is evenly balanced |
| `AvlTree.AvlTree.LeftBalance` | src/clang/lib/core/avl_tree.c:491-633 | the mirror image |
| `AvlTree.AvlTree.InsertInto` | src/clang/lib/core/avl_tree.c:174-315 | `taller` exactly if the subtree grew by one level; factors exact; exactly the new item added at its place |
| `AvlTree.AvlTree.Insert` | src/clang/lib/core/avl_tree.c:126-187 | for every total preorder: all invariants kept; exactly the new item added, or an equal one reported with the tree unchanged; the unhandled case is not reached |
| `AvlTree.AvlTree.DeleteLeftBalance` | src/clang/lib/core/avl_tree.c:910-999 | after the left side lost a level: balanced again, `lower` exactly if the whole lost one |
| `AvlTree.AvlTree.DeleteRightBalance` | src/clang/lib/core/avl_tree.c:1014-1104 | the mirror image |
| `AvlTree.AvlTree.ReplaceAndDelete` | src/clang/lib/core/avl_tree.c:855-895 | the last item of the left subtree takes the deleted one's place; `lower` exactly if that subtree lost a level |
| `AvlTree.AvlTree.DeleteFrom` | src/clang/lib/core/avl_tree.c:763-837 | exactly the item with the key removed, `lower` exact, unchanged if there is none |
| `AvlTree.AvlTree.Delete` | src/clang/lib/core/avl_tree.c:736-837 | for every total preorder: all invariants kept; exactly the item equal to the key removed and returned |
| `AvlTree.AvlTree.Query` | src/clang/lib/core/avl_tree.c:648-665 | for every total preorder: the item equal to the key, or none exactly if there is none |
| `Orders.DifferenceOrders` | src/clang/lib/chat/chat.c:16-19 | the cast difference of two 64-bit keys has the sign of their order exactly if the difference itself fits 64 bits with sign |
| `Bits.Power2` | src/clang/lib/core/comm.c:22-37 | for 1 to 2^30 the least power of two not below v; above it wraps to -2^31; undefined exactly for negative v |
| `Bits.PowerTest` | src/clang/lib/core/comm.c:26-28 | the bit test holds exactly for powers of two |
| `Ring.MaskIsMod` | src/clang/lib/core/ring.c:44-45 | `& mask` is the remainder by a power-of-two size |
| `Ring.StepImage` | src/clang/lib/core/ring.c:106-181 | a step on 32-bit counters is the image of the step on unbounded indices |
| `Ring.RunImage` | src/clang/lib/core/ring.c:106-181 | so is every run |
| `Ring.StepKeeps` | src/clang/lib/core/ring.c:106-181 | every step of every thread keeps the invariant |
| `Ring.RingSafe` | src/clang/lib/core/ring.c:106-181 | in every reachable state the four indices are ordered, reservations tile the ranges between them, and num is the fill level corrected by what is published but not counted |
| `Ring.SlotsNotShared` | src/clang/lib/core/ring.c:122-124 | two threads never own indices with the same slot |
| `Ring.FirstInFirstOut` | src/clang/lib/core/ring.c:155-180 | what a consumer has copied for its indices is what was pushed for them |
| `Ring.TakesNext` | src/clang/lib/core/ring.c:170-172 | the next value copied is the one pushed for the next index, which nobody took before |
| `Ring.HistoryGrows` | src/clang/lib/core/ring.c:106-181 | no step changes what was pushed or taken before |
| `Ring.RingFifo` | src/clang/lib/core/ring.c:106-181 | over every run of the 32-bit program the k-th value taken is the k-th value pushed |
| `Ring.Quiescent` | src/clang/lib/core/ring.c:106-181 | with no call under way, everything below the tail was taken, the rest is in its slots, and num counts it |
| `Ring.RefusedExactly` | src/clang/lib/core/ring.c:115-117 | a call is refused exactly if there is no room, or too little data, from the head it read on, also if the head has moved since (by less than 2^32); then there is not enough from the present head on either |
| `Ring.EmptyPushBreaks` | src/clang/lib/core/ring.c:106-134 | a push of no element that waits lets the producers' tail go back: a run of the 32-bit program that ends idle with a value nobody can publish |
| `Ring.EmptyPopBreaks` | src/clang/lib/core/ring.c:147-181 | a pop of no element does the same to the consumers' tail: a run that ends idle with a slot nobody gives back |
| `RingCalls.CallsKept` | src/clang/lib/core/ring.c:106-181 | every step of every thread keeps what is known of all calls: what a call has pushed or taken so far belongs to what it was asked for, and how it ended |
| `RingCalls.OnlyRequests` | src/clang/lib/core/ring.c:106-181 | the log grows by whole requests only: all the values that the moving thread was asked to push; only threads that were asked to pop take values, each the next one |
| `RingCalls.RunAnswers` | src/clang/lib/core/ring.c:106-181 | over every run each finished push either put exactly the values it was asked for at consecutive indices and answered 0, or nothing and answered -1; each finished pop handed out exactly n values that followed each other and answered n, or took nothing and answered 0 |
| `RingCalls.RefusedForRoom` | src/clang/lib/core/ring.c:115-121 | a call that ends with nothing done changes nothing and ends for want of room or data; a lost compare-and-set ends no call |
| `RingCalls.SomebodyGoesOn` | src/clang/lib/core/ring.c:128-131 | as long as something is reserved for pushing, some thread is next to publish, and it does not wait |
| `RingCalls.SomebodyGivesBack` | src/clang/lib/core/ring.c:174-177 | the same for popping |
| `RingCalls.PushAlone` | src/clang/lib/core/ring.c:106-134 | a push with nobody else inside a call ends after its length and 8 steps with all its values in the ring, published and counted, or after 3 steps with nothing changed, exactly as there is room |
| `RingCalls.PopAlone` | src/clang/lib/core/ring.c:149-181 | a pop likewise hands out the n oldest values in order, or nothing if there are fewer |
| `Tiling.Reserve` | src/clang/lib/core/ring.c:118-120 | a reservation at the head extends the tiling |
| `Tiling.Release` | src/clang/lib/core/ring.c:126-127 | publishing the first reservation shortens it |
| `Tiling.OneOwner` | src/clang/lib/core/ring.c:118-127 | an index in the tiling has one owner |
| `Mref.StepKeeps` | src/clang/lib/core/mref.c:85-249 | every step of every thread keeps the invariant |
| `Mref.WatchedKeeps` | src/clang/lib/core/mref.c:213-249 | an entry with count zero always has a thread that is still to re-check it |
| `Mref.HeldIsSafe` | src/clang/lib/core/mref.c:181-249 | a referenced block is live and counted, and nobody is about to free it |
| `Mref.FreedOnlyAtZero` | src/clang/lib/core/mref.c:232-240 | a block goes on its way to dealloc only with count zero, and out of the table first |
| `Mref.DeallocIsSafe` | src/clang/lib/core/mref.c:240-242 | dealloc is called on a live, unreferenced block by one thread only |
| `Mref.FreshIsNotCounted` | src/clang/lib/core/mref.c:116-151 | mref_add never finds an entry for a fresh block: its count starts at one |
| `Mref.Quiescent` | src/clang/lib/core/mref.c:85-249 | with no call under way exactly the referenced blocks are live |
| `Mref.IncGives` | src/clang/lib/core/mref.c:181-199 | mref_inc adds exactly one reference and one count of a block in the table; otherwise nothing |
| `Mref.DecTakes` | src/clang/lib/core/mref.c:213-249 | mref_dec takes exactly one reference and one count; it looks again exactly if no reference is left |
| `Mref.AllocGives` | src/clang/lib/core/mref.c:85-151 | mref_alloc gives the block out and puts it in the table with one reference, in three steps |
| `Mref.FreesExactly` | src/clang/lib/core/mref.c:230-246 | the second look takes the entry out exactly if it is there without references; then the block is given back |
| `Mref.CallsEnd` | src/clang/lib/core/mref.c:85-249 | no call is ever held up: it takes three steps at most whatever the others do |
| `Mref.RunCounts` | src/clang/lib/core/mref.c:85-249 | over every run the references to a block are its insertions and successful mref_incs less its successful mref_decs; allocations and deallocations are counted likewise |
| `Mref.RunSafe` | src/clang/lib/core/mref.c:85-249 | all of it over every run: dealloc at most once for each allocation, never too early, and never forgotten |
| `Frames.SplitCovers` | src/clang/lib/access/acc_rsvr.c:768-859 | splitting loses, adds and reorders nothing, and every piece is a frame |
| `Frames.SplitConcat` | src/clang/lib/access/acc_rsvr.c:768-859 | frames written one after the other come back as they were |
| `Frames.SplitResumes` | src/clang/lib/access/acc_rsvr.c:768-859 | splitting can go on from the unfinished frame alone |
| `Receiver.Receiver.RecvHead` | src/clang/lib/access/acc_rsvr.c:649-683 | reads the rest of the head over any partial reads, and how it ends otherwise |
| `Receiver.Receiver.RecvBody` | src/clang/lib/access/acc_rsvr.c:697-729 | the same for the body; a reset is an error here, not a close |
| `Receiver.Receiver.RecvPost` | src/clang/lib/access/acc_rsvr.c:744-753 | the whole frame, head and declared body, is handed over once |
| `Receiver.Receiver.RecvData` | src/clang/lib/access/acc_rsvr.c:768-859 | delivered is the split of all bytes read; the answer tells how reading ended; when it is to come again, phase, offset and total describe the unfinished frame |
| `Receiver.Receiver.Describes` | src/clang/incl/sck.h:45-52 | what the saved fields mean for the whole stream |
| `Receiver.Receiver.Serve` | src/clang/lib/access/acc_rsvr.c:317-326 | over any number of entries, cuts and pauses: all bytes in front of the end of the connection are read and delivered is their split, and the answer is that of the end; unless the callback refuses a frame, which then is the last one delivered |
| `Receiver.BeforeEnd` | src/clang/lib/access/acc_rsvr.c:649-729 | for any events with one close, reset or failure among sends, what counts as in front of the end, and as the end |
| `Receiver.Receiver.DeliversWhatWasSent` | src/clang/lib/access/acc_rsvr.c:317-326 | a peer that sends whole frames in any pieces, and then closes or does not, has exactly these delivered, and how the connection ends |
| `ChatTab.EnterCounts` | src/clang/lib/chat/chat_tab.c:327-351 | group and room counters stay exact; exactly one member more |
| `ChatTab.LeaveCounts` | src/clang/lib/chat/chat_tab.c:368-388 | group and room counters stay exact; exactly one member less |
| `ChatTab.CountsAnybody` | src/clang/lib/chat/chat_tab.c:95-101 | the room counter is not zero exactly if the room has a member |
| `ChatTab.ChatTab.RoomAdd` | src/clang/lib/chat/chat_tab.c:541-601 | room and group are made as needed, the member is added to the group of the id's last 16 bits, nothing else changes |
| `ChatTab.ChatTab.RoomAddSession` | src/clang/lib/chat/chat.c:133-195 | a new session becomes a member of the group of the id's last 16 bits; for a known one exactly its own room table changes, and no room |
| `ChatTab.LaterRoomIsOneSided` | src/clang/lib/chat/chat.c:145-180 | a session whose second room has no member |
| `ChatTab.ChatTab.RoomDel` | src/clang/lib/chat/chat_tab.c:618-702 | exactly the membership in the group of the id's last 16 bits ends; missing rooms and groups are no error |
| `ChatTab.ChatTab.RoomDelSession` | src/clang/lib/chat/chat.c:217-243 | the session is in no group of the room afterwards; all others stay |
| `ChatTab.ChatTab.DelSession` | src/clang/lib/chat/chat.c:261-290 | the session is in no group of any room afterwards; its connection mapping goes only if it is its own |
| `ChatTab.ChatTab.SetSidToCid` | src/clang/lib/chat/chat.c:338-393 | the session maps to the new connection |
| `ChatTab.ChatTab.DelSidToCid` | src/clang/lib/chat/chat.c:408-427 | only the mapped connection can end the mapping |
| `ChatTab.ChatTab.GetCidBySid` | src/clang/lib/chat/chat.c:304-323 | the mapped connection, or 0 |
| `ChatTab.ChatTab.DelRoom` | src/clang/lib/chat/chat_tab.c:87-111 | exactly a room without members is dropped |
| `ChatTab.ChatTab.CleanRooms` | src/clang/lib/chat/chat.c:661-708 | no room with members is dropped, no membership changes; with an empty room 0 nothing is dropped, otherwise exactly the empty rooms |
| `ChatTab.EmptyRoomStays` | src/clang/lib/chat/chat.c:690-700 | a run after which an empty room is still there, because room 0 is empty too |
| `ChatTab.ChatTab.TravSession` | src/clang/lib/chat/chat_tab.c:721-743 | visits exactly the members whose id is the same in 16 bits, or the whole room for an id that is 0 in 16 bits, each once |
| `ChatTab.ChatTab.SendExact` | src/clang/incl/chat/chat.h:36 | a send reaches exactly those who joined that group if and only if nobody in the room joined another id that is the same in 16 bits (or any other id, if this one is 0 in 16 bits) |
| `ChatTab.SendReachesBoth` | src/clang/lib/chat/chat_tab.c:721-743 | a run in which a send to group 1 reaches a member of group 65537 |
| `LsndSteps.GoesOnline` | src/clang/exec/listend/lsnd_mesg.c:132-188 | the connection comes online and is the one its session leads to; the one that was online is to be kicked |
| `LsndSteps.OnlineAckKeeps` | src/clang/exec/listend/lsnd_mesg.c:132-188 | the answer to an online request keeps the invariant, also when it comes at the wrong time |
| `LsndSteps.StepKeeps` | src/clang/exec/listend/lsnd_mesg.c:87-1168 | every handler keeps the invariant |
| `LsndSteps.RunSafe` | src/clang/exec/listend/lsnd_mesg.c:87-1168 | in every run: at most one online connection for each session, the one the table names; exactly the marked connections wait for their kick or were given it; sessions in the chat index have live connections |
| `LsndSteps.KickStays` | src/clang/exec/listend/lsnd_mesg.c:1131-1135 | a marked connection stays marked until it is destroyed, and no message of it is handled |
| `LsndSteps.KickStaysInRuns` | src/clang/exec/listend/lsnd_mesg.c:1131-1135 | the same over runs |
| `LsndSteps.GoneForever` | src/clang/exec/listend/lsnd_mesg.c:1079-1100 | no table ever names a destroyed connection again |
| `LsndSteps.TimerKicks` | src/clang/exec/listend/lsnd_comm.c:150-211 | every kick that is due is given, and only to marked connections |
| `LsndSteps.CreateDoes` | src/clang/exec/listend/lsnd_mesg.c:1041-1061 | the new connection waits, without session and number; all else is as before |
| `LsndSteps.DestroyDoes` | src/clang/exec/listend/lsnd_mesg.c:1079-1100 | exactly what named the connection goes from conn_list, the chat index and the session table |
| `LsndSteps.ReceiveDoes` | src/clang/exec/listend/lsnd_mesg.c:1120-1168 | exactly a message with a new number on an unmarked connection is handled, and its number stored; a request to go online stores the session and lists the connection, one to go offline makes a listed connection offline, others change nothing |
| `LsndSteps.OnlineAckDoes` | src/clang/exec/listend/lsnd_mesg.c:132-188 | the three outcomes of the answer field by field: nothing, the connection marked, or online with its session leading to it and the listed old connection marked |
| `LsndSteps.JoinAckDoes` | src/clang/exec/listend/lsnd_mesg.c:362-420 | exactly the session of a listed connection that is online gets into the chat index |
| `LsndSteps.KickOrderDoes` | src/clang/exec/listend/lsnd_mesg.c:892-933 | exactly a listed connection leaves the list and is marked, with the time of its first order; all else is as before |
| `LsndSteps.KickTimerDoes` | src/clang/exec/listend/lsnd_comm.c:150-211 | exactly the kicks that are due are given, none before its time |
| `Listend.Listend.CallbackCreat` | src/clang/exec/listend/lsnd_mesg.c:1041-1061 | the handler on objects takes the step on values |
| `Listend.Listend.CallbackDestroy` | src/clang/exec/listend/lsnd_mesg.c:1079-1100 | likewise, and the connection leaves every chat room |
| `Listend.Listend.MembersLive` | src/clang/exec/listend/lsnd_mesg.c:1079-1100 | whoever is in a chat room has a connection that was not destroyed |
| `Listend.Listend.Kick` | src/clang/exec/listend/lsnd_comm.c:225-253 | marks the connection; who is listed already keeps its time |
| `Listend.Listend.UpmesgKick` | src/clang/exec/listend/lsnd_mesg.c:892-933 | it answers 0 exactly if the connection is listed under that session; then this leaves conn_list, has stat Kick and a place in the kick list with its first time, and all other connections are untouched; otherwise nothing changes |
| `Listend.Listend.TimerKick` | src/clang/exec/listend/lsnd_comm.c:174-211 | the drain loop gives exactly the due kicks |
| `Listend.Listend.MesgOnline` | src/clang/exec/listend/lsnd_mesg.c:87-114 | lists the connection under its session; refused if it is listed |
| `Listend.Listend.MesgOffline` | src/clang/exec/listend/lsnd_mesg.c:269-304 | a listed connection goes offline; the answer always closes |
| `Listend.Listend.MesgRoomQuit` | src/clang/exec/listend/lsnd_mesg.c:444-480 | the session leaves that room and nothing else; a request that cannot be unpacked answers -1 and changes nothing |
| `Listend.Listend.CallbackRecv` | src/clang/exec/listend/lsnd_mesg.c:1120-1168 | nothing is handled for marked connections or stale sequence numbers; otherwise the registered handler's step, with its answer |
| `Listend.Listend.OnlineAckLogic` | src/clang/exec/listend/lsnd_mesg.c:132-188 | the handler takes the step on values; succeeds exactly for a listed connection that is waiting for it |
| `Listend.Listend.UpmesgRoomJoinAck` | src/clang/exec/listend/lsnd_mesg.c:362-420 | only the online connection of the session gets into the room, in the group of the id's last 16 bits |
| `BTree.KeyBsearch` | src/clang/lib/core/btree.c:90-111 | the index of the key, or of a neighbour of its place |
| `BtShape.Min` | src/clang/lib/core/btree.c:57-60 | the least number of keys: a full node and a key more can be cut into two such nodes |
| `BtShape.GoDown` | src/clang/lib/core/btree.c:145-160 | in a tree in order the key can only be below the chosen child |
| `BtShape.SplitGood` | src/clang/lib/core/btree.c:222-243 | both halves of an overfull node are within the bounds |
| `BtShape.SplitPlace` | src/clang/lib/core/btree.c:265-290 | comparing keys finds the place of the middle key behind the cut node; the items keep their order |
| `BtShape.MergeInOrder` | src/clang/lib/core/btree.c:470-510 | merging keeps the items in order |
| `BtShape.RightInOrder` | src/clang/lib/core/btree.c:395-416 | so does borrowing from the left |
| `BtShape.LeftInOrder` | src/clang/lib/core/btree.c:429-452 | so does borrowing from the right |
| `BtShape.EnoughToLend` | src/clang/lib/core/btree.c:387-429 | a neighbour too large to merge with can lend a key |
| `BtShape.LeafFillUnsorted` | src/clang/lib/core/btree.c:327-333 | with two keys behind the hole the order is lost |
| `BtShape.NoGap` | src/clang/lib/core/btree.c:317-339 | never in a tree of order 3 |
| `BtShape.InnerRemoved` | src/clang/lib/core/btree.c:320-329 | the predecessor in the place of an inner key: exactly that item goes |
| `BtNodes.SplitLinked` | src/clang/lib/core/btree.c:217-299 | the changed fields of node, new node, parent and moved children are the cut tree |
| `BtNodes.MergeLinked` | src/clang/lib/core/btree.c:470-510 | the changed fields are the merged tree |
| `BtNodes.BorrowLinked` | src/clang/lib/core/btree.c:395-452 | the changed fields are the tree with the child on the other side |
| `BTree.BTree.Split` | src/clang/lib/core/btree.c:217-299 | any chain of splits ends with all rules kept and the items in the same order |
| `BTree.BTree.Insert` | src/clang/lib/core/btree.c:126-203 | shape, order and links kept; exactly the new key added, the very same tree if it is present; one leaf with room stays one leaf |
| `BTree.BTree.Query` | src/clang/lib/core/btree.c:728-746 | the data of the key; none exactly if a tree in order has no such key |
| `BTree.BTree.Merge` | src/clang/lib/core/btree.c:357-510 | any chain of borrows and merges ends with all rules kept and the items in the same order |
| `BTree.BTree.MergeRoot` | src/clang/lib/core/btree.c:363-377 | a root without keys gives way to its child |
| `BTree.BTree.RemoveFromLeaf` | src/clang/lib/core/btree.c:327-338 | exactly the item goes; order kept exactly if at most one key is behind the hole |
| `BTree.BTree.RemoveFromInner` | src/clang/lib/core/btree.c:317-338 | exactly the item goes, order kept |
| `BTree.BTree.Remove` | src/clang/lib/core/btree.c:694-714 | shape and links kept, exactly the found item gone; order kept exactly if the key is not in a leaf with two or more keys behind it |
| `BtShape.LeafGap` | src/clang/lib/core/btree.c:327-333 | in a tree that is one leaf, exactly the keys with two or more behind them lose the order |
| `BTree.OrderFourLosesOrder` | src/clang/lib/core/btree.c:317-339 | a run of order 4: 1, 2, 3 inserted and 1 removed leaves a tree out of order |
| `BTree.BTree.OrderThree` | src/clang/lib/core/btree.c:317-339 | order 3 always keeps its order |
| `QuickSort.QuickSortOnce` | src/clang/lib/core/quick_sort.c:66-96 | the pivot ends between the elements at most it and those at least it |
| `QuickSort.JoinAscending` | src/clang/lib/core/quick_sort.c:111-123 | sorted parts around the pivot are sorted together |
| `QuickSort.QuickSortRange` | src/clang/lib/core/quick_sort.c:111-123 | the slice is sorted, the rest untouched, and it ends |
| `QuickSort.QuickSort` | src/clang/lib/core/quick_sort.c:37-51 | a sorted permutation, for every total preorder |
| `LocalTime.MonthAndDay` | src/clang/lib/core/redo.c:530-554 | month and day of the day counted in the year, with 29 February |
| `LocalTime.YearAndHours` | src/clang/lib/core/redo.c:507-524 | the year within four and the hours left of it |
| `LocalTime.LocalTime` | src/clang/lib/core/redo.c:471-555 | for every time from 1970 on: a valid date; it names the time again exactly if the hours fit 32 bits, and the weekday is right then; the day of the year is right exactly in the first 1095 days of each four years; the date is Gregorian and names the time in that calendar exactly before 1 March 2100 |
| `LocalTime.Periods` | src/clang/lib/core/redo.c:494-496 | the cast keeps the number of four-year periods exactly below 2^32 hours |
| `LocalTime.GregorianDate` | src/clang/lib/core/redo.c:494-511 | a date of this calendar is a Gregorian one for the same time exactly if it is before 1 March 2100; after that it names an earlier time in the Gregorian calendar, or (29 February) no day |
| `LocalTime.GregorianEnds` | src/clang/lib/core/redo.c:494-511 | exactly a day apart from March 2100 to the end of 2199 |
| `PbJs.VarintRoundTrip` | demo/web/pb.js:3-25 | reading undoes writing at any position, for all naturals; a negative number is read as its last 7 bits |
| `PbJs.WriteVarint` | demo/web/pb.js:3-12 | the loop writes the varint |
| `PbJs.ReadVarint` | demo/web/pb.js:14-25 | the loop with shifts and ors reads it, also when the bytes end early |
| `PbJs.FieldUint64` | demo/web/pb.js:38-44 | tag and value of a number field, through 32-bit tag arithmetic with sign, for all numbers |
| `PbJs.FieldString` | demo/web/pb.js:46-49 | tag, length and bytes of a string field, likewise |
| `PbJs.DecodeFields` | demo/web/pb.js:51-74 | under every number the value of the last field with it, and nothing else |
| `PbJs.RoundTrip` | demo/web/pb.js:38-74 | exactly the fields that were written are read, in their order: any value rounded to a number of JavaScript, any field number under what the tag arithmetic leaves of it |
| `PbJs.OnTheWire` | demo/web/pb.js:38-49 | the bytes of a number field and a string field |
| `PbJs.ComesBack` | demo/web/pb.js:38-74 | a field is read as it was written exactly if its number is below 2^28 and its value is a number of JavaScript |
| `PbJs.LastIs` | demo/web/pb.js:51-74 | a field is found under its number if no later field has that number |
| `PbJs.NumberExact` | demo/web/pb.js:62 | a value is kept exactly if nothing is left over from its first 53 bits; so all below 2^53 are |
| `PbJs.ScaleFits` | demo/web/pb.js:62 | what a value is rounded to: a power of two that leaves exactly 53 bits of it |
| `PbJs.RoundNearest` | demo/web/pb.js:62 | the value is rounded to the nearest multiple, and to the even one of two |
| `PbJs.LargeUsersMeet` | demo/web/pb.js:115-133 | two chat messages of different users, written and read, that come back with the same user |
| `PbJs.EncodeRoomChat` | demo/web/pb.js:115-124 | the message is the six fields |
| `PbJs.DecodeRoomChat` | demo/web/pb.js:125-133 | on the bytes of any chat message: its user, room, group (rounded to numbers of JavaScript) and text; on any bytes: the last field of each number, and it throws exactly if the text is a number other than 0 |
| `PbJs.RoomChatRoundTrip` | demo/web/pb.js:115-133 | all six fields of a chat message come back, numbers rounded |
| `PbJs.SharedFields` | demo/web/pb.js:81-114 | fields 1 and 2 of the other messages come back, numbers rounded, whatever else they hold |
| `PbJs.EncodeOnline` | demo/web/pb.js:81-91 | a reader finds user, session, token, app and version under 1 to 5, and under 6 the terminal if it is given and nothing otherwise |
| `PbJs.OnlineRoundTrip` | demo/web/pb.js:81-91 | the same for the fields as they are listed |
| `PbJs.EncodeRoomJoin` | demo/web/pb.js:102-104 | the message is these two fields |
| `PbJs.ReadInt32` | demo/web/app.js:180-188 | the 32-bit loop reads the same value exactly if it is below 2^31, however the varint is padded, and ends behind it |
| `PbJs.SkipVarint` | demo/web/app.js:191-192 | skipping ends behind the varint, or behind the bytes |
| `PbJs.DecodeBc` | demo/web/app.js:176-207 | the last bytes of field 6; what decodeFields finds there differs exactly if that is a number with bytes of field 6 before it |
| `PbJs.LastDiffers` | demo/web/app.js:203 | the last field and the last bytes with a number differ exactly if the last field is a number and there are bytes |
| `PbJs.NumberBehindText` | demo/web/app.js:176-207 | bytes on which the two readers differ |
| `PbJs.EncodedReadable` | demo/web/pb.js:38-49 | what the writers write is readable for the second reader, with strings shorter than 2^31 |
| `PbJs.BcReadsChat` | demo/web/app.js:176-207 | the second reader gets the text of a chat message |

## Left out

- Allocation failures, logging, printing, sockets and pipes; the callbacks' own effects are parameters. The forwarder takes every message.
- The counts that mref_alloc, mref_inc and mref_dec return.
- `decodeOnlineAck` and `decodeRoomJoinAck`, which select fields as decodeRoomChat does, from messages of the servers.
- Locks are the size of the steps. That `chat_room_del_session` does not release its lock is not modelled.
- Weak memory in the ring, and heads read 2^32 reservations earlier: assumed away as said above.
- Freed memory: nodes taken out of a tree are simply not reachable any more, and B-tree nodes that were merged away stay in the ghost set of nodes.
- `avl_find`, `avl_trav`, `avl_destroy` and `btree_destroy`: plain recursions over a tree whose shape is proved.
- B-tree node loops that move keys, data and children together are one loop for each buffer, and the new node's parent is set when it is made.
- The double rotations of the AVL tree set their links in one order, where the source has another order of the same assignments on the deletion path; both give the same fields.
- RbTree.RbTree.Trav: for fewer than 2^64 items, as a 64-bit count implies; the caller's function does not change the tree.
- PbJs.RoundTrip: strings are shorter than 2^53 bytes, as arrays of JavaScript are.
- PbJs.DecodeBc: a length of 2^31 or more reads as a negative one and the loop may not end, and other wire types are skipped without their value, so only bytes with tags and lengths below 2^31 and the wire types 0 and 2 are modelled.
- PbJs.DecodeRoomChat: texts are the bytes of their encoding; what the decoder makes of bytes that are no UTF-8 is not modelled.
- LocalTime.LocalTime: does not model the overflow of the 64-bit time within eight hours of its end.
- ChatTab.ChatTab.RoomAddSession: counters are unbounded; the source's are 32 and 64 bits wide.
- Subscriptions in the chat index, room statistics and the forwarding of messages upstream.
- `shm_btree.c`, `shm_hash.c`, `shm_slot.c`, `hash_tab.c` (maps here), lists, queues, memory pools, HTTP, the forwarder and the smoke tools.
