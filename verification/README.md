# Dafny model of a telecom framework's core data structures

The framework (5gframework, C) schedules timers on a red-black tree, moves bytes in bucket brigades, reads and writes
JSON, shares database handles and dispatches events between threads, and digests and formats text. This project models
those parts in Dafny and proves what they keep, for all inputs, all reachable states and all interleavings.

| files | what they model |
|---|---|
| `RbShape` `RbRotation` `RbBalance` `RbSplice` `RbTree` | the intrusive red-black tree: nodes on the heap with a sentinel, parent links, rotations, both fix-up loops |
| `TimerQueue` `Timer` | timers with wrapped 64-bit keys on that tree, against a queue of true deadlines |
| `Buckets` `Brigade` `BrigadeRuns` `Allocator` | buckets on shared reference-counted buffers, brigades, runs on several of them, and the allocator's free list |
| `CStrings` `Json` `JsonRoundTrip` `JsonReparse` `JsonBounds` `JsonGrammar` `JsonPrinter` `JsonParser` | the JSON printer and parser: reference functions, the grammar of RFC 8259 and what its texts mean, the loops and buffers, and what connects them |
| `SqlPool` `SqlRuns` `SqlHandles` | the database handle pool, all interleavings of its users, and the pool as it is changed in place |
| `Events` `EventRuns` `EventDispatcher` | the event dispatcher and its pools of ready-made events, all interleavings, and the dispatcher as it is changed in place |
| `Blocks` `Md` `Sha1` | streaming MD4, MD5 and SHA-1 around an arbitrary compression function |
| `BcryptCode` `Mprintf` | the bcrypt base-64 code, formatted output to memory, SQL escapes |
| `Basics` | small notions that the others share |

How to read it. What the C code changes in place is a class or an array here, and its loops are loops. A ghost value
beside it (the shape of the tree, the bytes each bucket holds, the message so far) is tied to the fields by `Valid()`,
and the contracts speak about that value. Trees are described by a subtree and the context around it, so that one step
of a fix-up loop is one equation. Clocks, random choices and memory handed out by the system are parameters.

Findings:
- The handle pool keeps to its size limit as long as acquires do not overlap (`SqlRuns.SerialBounded`). The gate is read
  outside the lock, and `SqlRuns.Outgrown` gives, for every n, every maximum and any two threads, a run that reaches n
  handles; so all runs of a set of threads keep to a non-zero limit if and only if it has at most one thread
  (`SqlRuns.WithinExactly`).
- The sizing scan of the JSON string parser steps over the terminator when a literal is cut off behind a backslash;
  `JsonBounds.ScanExact` says exactly when.
- Surrogate pairs are joined with "or" where RFC 8259 adds; `JsonBounds.PairParsedExactly` says exactly which pairs the
  parser gets right, and `JsonBounds.PairMisread` gives one that it does not.
- A timer deleted on its own keeps its flag (`Timer.Timers.DelTimer`). Adding its event again would delete a node that
  the tree does not hold; `Timer.Timers.AddExactly` says exactly when, by a condition a caller can check.
- The ids of events are checked too weakly for the table of 1024 subscriber lists. Binding leaves the table exactly for
  negative ids and for 1024 (`EventDispatcher.BindExactly`), delivery exactly for events without a callback of their own
  whose id is not from 0 to 1023 (`EventDispatcher.Dispatcher.Serve`).
- The index of the MD4 and MD5 update loop is a 32-bit word: an update is right if and only if the bytes in the buffer
  and the input are together less than 2^32 (`Md.Context.Update`).
- The cache of handles by thread never finds one: a release forgets the thread, so in every interleaving the search for
  a handle of the thread fails (`SqlRuns.NeverCached`).
- The SQL conversions fit one kind of reader each: `Mprintf.ReadsBackExactly` says which arguments each reader gets back.

## Model

| member | source | states |
|---|---|---|
| RbTree.RbTree.Insert | src/agc_rbtree.c:8-76 | inserting a fresh node keeps every red-black rule and all links; the in-order sequence is the old one with the node at one place, and if the keys were ordered that place is behind all keys not greater than its own and before all greater ones, so equal keys stay in insertion order |
| RbTree.RbTree.FindSlot | src/agc_rbtree.c:78-134 | both insert policies: the walk from the root ends at a free link whose in-order position is behind every key not greater and before every greater one |
| RbTree.RbTree.Attach | src/agc_rbtree.c:95-99 | the new node becomes a red leaf in the free link, every other node and link unchanged |
| RbTree.RbTree.InsertFirst | src/agc_rbtree.c:18-26 | into an empty tree: a black root alone |
| RbTree.RbTree.InsertFix | src/agc_rbtree.c:32-75 | from a tree whose only fault is a red node under a red parent (or a red root), the loop ends in a valid tree with the same in-order sequence |
| RbTree.RbTree.RedUncleUp | src/agc_rbtree.c:37-41 | red uncle: recolouring moves the only fault two levels up and keeps the sequence |
| RbTree.RbTree.BlackUncleLeft | src/agc_rbtree.c:42-51 | black uncle, parent a left child: at most two rotations leave no fault |
| RbTree.RbTree.BlackUncleRight | src/agc_rbtree.c:62-71 | the mirror image, with left and right exchanged |
| RbBalance.RedUncle | src/agc_rbtree.c:37-41 | the balance argument of the red-uncle case on trees with a hole |
| RbBalance.InnerToOuter | src/agc_rbtree.c:43-46 | turning an inner grandchild into an outer one keeps the same single fault |
| RbBalance.OuterDone | src/agc_rbtree.c:48-50 | recolouring and the outer rotation give equal black counts and no red-red edge |
| RbBalance.HasGrandparent | src/agc_rbtree.c:32-35 | a red parent is never the root, so the loop always finds a grandparent |
| RbTree.RbTree.Delete | src/agc_rbtree.c:136-291 | deleting any node of a valid tree keeps every red-black rule and the links of all other nodes, removes exactly that node and its key from the in-order sequence, and wipes the removed node |
| RbTree.RbTree.DeleteRoot | src/agc_rbtree.c:165-176 | the removed node is the root and has at most one child: the child becomes the black root; its stale parent link is not part of the invariant |
| RbTree.RbTree.DeleteNear | src/agc_rbtree.c:178-187 | a node with at most one child that is not the root |
| RbTree.RbTree.DeleteFar | src/agc_rbtree.c:155-163 | a node with two children: the leftmost node on its right takes its place |
| RbTree.RbTree.Unlink | src/agc_rbtree.c:178-193 | taking the substitute out drops it alone from the sequence, whichever child of its parent it is |
| RbTree.RbTree.Replace | src/agc_rbtree.c:195-217 | putting the substitute in the place of the node renames that node in the sequence and nothing else |
| RbTree.RbTree.MoveUpInto | src/agc_rbtree.c:186-223 | both together: the node is gone from the sequence and the substitute stands where it stood |
| RbTree.RbTree.DeleteFix | src/agc_rbtree.c:231-290 | from a tree that is one black node short at one place, the loop ends in a valid tree with the same in-order sequence; its measure drops in every turn, also when the node sinks under a rotated red sibling |
| RbTree.RbTree.RedSiblingLeft | src/agc_rbtree.c:235-240 | a red sibling is rotated up; the shortage stays with the same node and the new sibling is black |
| RbTree.RbTree.RedSiblingRight | src/agc_rbtree.c:263-268 | the mirror image, with left and right exchanged |
| RbTree.RbTree.BlackSiblingLeft | src/agc_rbtree.c:242-258 | a black sibling: recolour and go up, or rotate and be done |
| RbTree.RbTree.BlackSiblingRight | src/agc_rbtree.c:270-286 | the mirror image, with left and right exchanged |
| RbBalance.SiblingIsReal | src/agc_rbtree.c:233-242 | a node that is one black node short has a real sibling, and a red sibling has two real children: the loop never reads links of the sentinel |
| RbBalance.RedSibling | src/agc_rbtree.c:235-240 | the shortage after the rotation of a red sibling |
| RbBalance.BlackNephews | src/agc_rbtree.c:242-244 | with two black nephews the shortage moves to the parent |
| RbBalance.NearNephew | src/agc_rbtree.c:246-251 | with a red near nephew one rotation makes the far nephew red |
| RbBalance.FarNephew | src/agc_rbtree.c:253-256 | with a red far nephew the last rotation ends the shortage |
| RbBalance.RootIsBlack | src/agc_rbtree.c:231-288 | below its root a context with black heights in order holds a black node above the hole, so that the loop measure is positive there |
| RbBalance.HeightBound | src/agc_rbtree.c:8-76 | the height of a valid tree of n nodes is at most twice the binary logarithm of n + 1 |
| RbTree.RbTree.RotateLeftAt | src/agc_rbtree.c:293-318 | the six link writes, at any place of a tree: same in-order sequence, the tree turned around one edge, parents right for every node but the root |
| RbTree.RbTree.RotateRightAt | src/agc_rbtree.c:320-345 | the mirror image, with left and right exchanged |
| RbRotation.RotatedLeftZip | src/agc_rbtree.c:299-317 | the changed links describe exactly the rotated tree |
| RbRotation.RotatedRightZip | src/agc_rbtree.c:326-344 | the mirror image, with left and right exchanged |
| RbTree.RbTree.Min | src/include/agc_rbtree.h:60-68 | the walk to the left ends at the first node of the in-order sequence |
| RbTree.RbTree.Next | src/agc_rbtree.c:347-373 | the result is the next node of the in-order sequence, null behind the last, whatever the parent link of the root holds |
| RbTree.RbTree.Walk | src/agc_rbtree.c:347-373 | from the least node on, repeated calls visit every node once, in order |
| RbTree.GoesLeftIsLess | src/agc_rbtree.c:119-120 | inside a window of half the key range the wrapped signed comparison is a total order, the distance from the start of the window |
| RbTree.SplitStaysOrdered | src/agc_rbtree.c:84-93 | a key put where the walk ends leaves the keys ordered |
| Timer.Timers.AddTimer | src/agc_timer.c:56-75 | if the flag says whether the tree holds the event: the event is in the queue once, behind every timer due not later; an armed event is moved; its flag is set and no other event becomes or stops being stale |
| Timer.Timers.DelTimer | src/agc_timer.c:49-54 | the timer leaves the tree with its links wiped, and its event is always stale afterwards: the flag stays set, so that flags and tree no longer agree |
| Timer.Timers.Dispatch | src/agc_timer.c:111-141 | one turn fires the first timer of the queue if it is due and nothing otherwise; the flag of the fired event is cleared and the stale events stay the same |
| Timer.Timers.FlagMeaning | src/agc_timer.c:64-74 | an event has its flag set if and only if its timer is in the tree |
| Timer.Timers.FlagsExactly | src/agc_timer.c:49-75 | if callers also delete timers, the flags agree with the tree if and only if no event is stale |
| Timer.Timers.AddExactly | src/agc_timer.c:64-66 | adding an event again makes the deletion follow a null link (lines 147-156 of src/agc_rbtree.c) if and only if the flag of the event does not say whether the tree holds it, that is, if it is stale |
| Timer.Timers.Serve | src/agc_timer.c:49-141 | in every run of adds, deletes and turns whose deadlines fit in a moving window, the tree of wrapped keys fires exactly what a queue of true deadlines fires, in the same order, and the stale events are exactly the deleted ones |
| TimerQueue.RunSound | src/agc_timer.c:118-139 | in every run of adds, deletes and turns no timer fires early, and each firing is the earliest armed timer, the first added among equals |
| TimerQueue.SignedExact | src/agc_rbtree.c:119-120 | the wrapped difference of two keys is the true distance of their deadlines if and only if that distance is at least -2^63 and less than 2^63 |
| TimerQueue.MatchesPlace | src/agc_timer.c:68-72 | inserting the wrapped key puts the node where the reference queue puts the deadline |
| TimerQueue.MatchesDrop | src/agc_timer.c:64-66 | deleting the node of an armed event is dropping its deadline from the reference queue |
| Buckets.Pool.RefcountIsUsers | libs/apr-util/buckets/apr_buckets_refcount.c:19-64 | whenever the pool is valid, which every operation keeps, the reference count of a buffer is the number of live buckets on it, is positive, and the buffer is not freed |
| Buckets.Pool.HeapMake | libs/apr-util/buckets/apr_buckets_heap.c:43-74 | a new bucket on a buffer of its own holds the whole buffer; all other buckets hold what they held |
| Buckets.Pool.HeapCreate | libs/apr-util/buckets/apr_buckets_heap.c:76-87 | a bucket with a copy of the given bytes |
| Buckets.Pool.RoomCreate | libs/apr-util/buckets/apr_brigade.c:466-479 | a bucket with an empty window of a new buffer |
| Buckets.Pool.SimpleMake | libs/apr-util/buckets/apr_buckets_simple.c:56-107 | a transient, immortal or metadata bucket over memory that nobody writes |
| Buckets.Pool.Read | libs/apr-util/buckets/apr_buckets_heap.c:21-29 | the bytes the bucket stands for |
| Buckets.Pool.Share | libs/apr-util/buckets/apr_buckets_refcount.c:33-42 | a second bucket on a buffer raises its reference count by one and moves no byte |
| Buckets.Pool.Copy | libs/apr-util/buckets/apr_buckets_refcount.c:33-42 | the copy holds the same bytes, also for simple buckets; no other bucket changes |
| Buckets.Pool.Split | libs/apr-util/buckets/apr_buckets_simple.c:28-46 | not implemented for metadata, invalid behind the end, both without any change; otherwise the bucket keeps the first bytes and the new one has the rest |
| Buckets.Pool.SplitShared | libs/apr-util/buckets/apr_buckets_refcount.c:19-31 | splitting a heap bucket shares its buffer: the two windows are the two parts |
| Buckets.Pool.SplitSimple | libs/apr-util/buckets/apr_buckets_simple.c:28-46 | splitting a bucket over outside memory |
| Buckets.Pool.Destroy | libs/apr-util/buckets/apr_buckets_heap.c:31-39 | a buffer is freed exactly when its last bucket goes; no other bucket changes |
| Buckets.Pool.Extend | libs/apr-util/buckets/apr_brigade.c:481-483 | bytes written behind the window of a bucket that is alone on its buffer change no other bucket |
| Buckets.SoleOwner | libs/apr-util/buckets/apr_brigade.c:442-443 | a reference count of one means that no other bucket points into the buffer |
| Buckets.WriteGood | libs/apr-util/buckets/apr_brigade.c:481-483 | writing behind the window of the only user keeps what every bucket holds |
| Buckets.ShareGood | libs/apr-util/buckets/apr_buckets_refcount.c:33-42 | one more user keeps counts and contents |
| Buckets.DropSharedGood | libs/apr-util/buckets/apr_buckets_refcount.c:44-49 | one user less keeps counts and contents |
| Buckets.DropLastGood | libs/apr-util/buckets/apr_buckets_heap.c:35-38 | freeing the buffer of the last user leaves every other bucket its bytes |
| Brigades.Brigade.Write | libs/apr-util/buckets/apr_brigade.c:429-486 | without a flush callback exactly the given bytes are appended to the brigade; at most its last bucket changes, new buckets come behind, and every other bucket of every brigade holds what it held |
| Brigades.Brigade.LastRoom | libs/apr-util/buckets/apr_brigade.c:438-449 | in-place writing is offered only for a heap bucket alone on its buffer, with the room behind its window |
| Brigades.Brigade.NewRoom | libs/apr-util/buckets/apr_brigade.c:466-479 | a new 8000-byte buffer bucket adds nothing to the text yet |
| Brigades.Brigade.WriteNew | libs/apr-util/buckets/apr_brigade.c:466-483 | small data without a buffer bucket goes to a new one |
| Brigades.Brigade.Writev | libs/apr-util/buckets/apr_brigade.c:488-607 | the concatenation of the pieces is appended exactly, in each of its four ways: one bucket a piece, all in place, partly in place, all in a new buffer |
| Brigades.Fill | libs/apr-util/buckets/apr_brigade.c:561-572 | pieces are copied behind the window up to the first that does not fit, and the length is raised by exactly what was copied |
| Brigades.Brigade.WriteEach | libs/apr-util/buckets/apr_brigade.c:519-527 | one heap bucket for each piece of a large input |
| Brigades.Brigade.WriteRest | libs/apr-util/buckets/apr_brigade.c:591-606 | the remaining pieces fit in one new buffer |
| Brigades.TotalLength | libs/apr-util/buckets/apr_brigade.c:499-504 | the length of all pieces together |
| Brigades.AllFit | libs/apr-util/buckets/apr_brigade.c:543-554 | pieces whose total fits are all copied |
| Brigades.Brigade.Cleanup | libs/apr-util/buckets/apr_brigade.c:37-48 | every bucket of the brigade is destroyed and no other |
| Brigades.Brigade.SplitEx | libs/apr-util/buckets/apr_brigade.c:71-96 | the receiving brigade is emptied first; then the text is cut at a bucket and the two parts together are the old text |
| Brigades.Brigade.Partition | libs/apr-util/buckets/apr_brigade.c:104-188 | the text stays the same; exactly point bytes come before the returned bucket; incomplete if and only if point is behind the end, invalid if and only if it is negative |
| Brigades.Brigade.Cut | libs/apr-util/buckets/apr_brigade.c:149-161 | splitting a bucket inside the brigade keeps the text |
| Brigades.Brigade.Length | libs/apr-util/buckets/apr_brigade.c:190-221 | the number of bytes of the text |
| Brigades.Brigade.Flatten | libs/apr-util/buckets/apr_brigade.c:223-266 | the buffer receives the text up to the given length, its other bytes stay, and the count says how much |
| Brigades.SplitLine | libs/apr-util/buckets/apr_brigade.c:304-354 | bytes are conserved; exactly so much moves: whole buckets up to the first that brings the total to maxbytes, or up to the end, and of the next one the part to its first line feed, if that comes before |
| Brigades.LineBound | libs/apr-util/buckets/apr_brigade.c:346-350 | no more moves than up to the end of the first bucket that brings the total to maxbytes |
| Brigades.MoveFirst | libs/apr-util/buckets/apr_brigade.c:311-346 | one turn: the first bucket up to its line feed, or the whole of it with the others left as they are; a metadata bucket moves itself |
| Brigades.MoveCut | libs/apr-util/buckets/apr_brigade.c:327-332 | with a line feed: the bucket is split behind it and its first part moves |
| Brigades.MoveCopy | libs/apr-util/buckets/apr_brigade.c:337-345 | a short bucket is copied and destroyed: the same bytes move |
| Brigades.MovedCopy | libs/apr-util/buckets/apr_brigade.c:337-345 | copying instead of moving conserves the bytes and every other bucket |
| Brigades.IndexOfLf | libs/apr-util/buckets/apr_brigade.c:325 | the place of the first line feed, or the length |
| BrigadeRuns.Serve | libs/apr-util/buckets/apr_brigade.c:37-607 | in every run of writes, copies, cuts, line splits and cleanups on several brigades, the brigades hold what the same run on plain texts gives, line splits stopping at the buckets as they are; each live bucket is in one brigade; the reference count of a buffer is the number of these buckets on it; with empty brigades no buffer is left |
| BrigadeRuns.OneChanged | libs/apr-util/buckets/apr_buckets_refcount.c:19-64 | an operation that touches no bucket outside its brigade keeps the text of every other brigade, though they share buffers |
| BrigadeRuns.TwoChanged | libs/apr-util/buckets/apr_brigade.c:304-355 | the same for an operation on two brigades |
| Allocator.BucketAlloc.Alloc | libs/apr-util/buckets/apr_buckets_alloc.c:156-199 | a small request gets the head of the free list; if that is empty, the next piece of the active block if it has room; if not, the first piece of one new block; a large one gets memory of its own; the result was not live and has the room asked for; live headers stay as they are; it fails exactly if memory is needed and the system has none, and then nothing changes |
| Allocator.BucketAlloc.Free | libs/apr-util/buckets/apr_buckets_alloc.c:221-234 | the size in the header always tells a piece of a block from memory of its own: a piece goes to the head of the free list, the other back to the system, and the memory taken is again exactly the blocks and the own memory of live nodes |
| Allocator.BucketAlloc.LiveApart | libs/apr-util/buckets/apr_buckets_alloc.c:163-186 | any two live nodes, small or large, have no byte in common |
| Allocator.BucketAlloc.LiveInside | libs/apr-util/buckets/apr_buckets_alloc.c:90-108 | the bytes of a live node lie inside memory that was taken and never in the list itself |
| Allocator.BucketAlloc.Serve | libs/apr-util/buckets/apr_buckets_alloc.c:156-234 | in every sequence of allocations and frees, whatever memory the system hands out: the nodes not yet freed are those asked for, each with its room, pairwise without a common byte and clear of the list |
| Allocator.CarveOne | libs/apr-util/buckets/apr_buckets_alloc.c:170-184 | a new piece lies behind all earlier pieces of its block, so none overlap |
| Allocator.BucketAlloc.constructor | libs/apr-util/buckets/apr_buckets_alloc.c:90-108 | the list takes the first bytes of the first block, whose free part starts behind it |
| JsonRoundTrip.RoundTrip | src/agc_json.c:273-285 | for every tree of 32-bit integers, zero-free strings and named members, parsing the formatted or the unformatted print gives the same tree back and nothing is left |
| JsonRoundTrip.ValueRoundTrip | src/agc_json.c:288-318 | the same for every depth and any following text; the parser stops exactly at the end of the printed value |
| JsonRoundTrip.ArrayRoundTrip | src/agc_json.c:321-398 | an array printed at any depth, formatted or not, parses to the same items and the parser stops behind its bracket |
| JsonRoundTrip.ItemsRoundTrip | src/agc_json.c:332-344 | the items between the brackets come back in order, whether their separators have blanks or not |
| JsonRoundTrip.ObjectRoundTrip | src/agc_json.c:401-493 | an object printed with tabs and line ends or without them parses to the same members and the parser stops behind its brace |
| JsonRoundTrip.BodyRoundTrip | src/agc_json.c:412-432 | the members come back in order, each with its name and value |
| JsonRoundTrip.NumberRoundTrip | src/agc_json.c:108-151 | every 32-bit integer, if the text behind it cannot be taken for more of a number |
| JsonRoundTrip.StringRoundTrip | src/agc_json.c:162-257 | every zero-free string comes back from its escaped literal, and the parser stops behind the closing quote |
| JsonRoundTrip.EscapeUndone | src/agc_json.c:178-213 | each escape the printer writes is read back as the character |
| JsonReparse.Reparse | src/agc_json.c:273-285 | whatever text the parser accepts, its value consists of 32-bit integers and zero-free strings, and printing and parsing that value gives it again |
| JsonReparse.UnescapePlain | src/agc_json.c:173-216 | no escape sequence puts a zero byte into a string |
| JsonBounds.ScanExact | src/agc_json.c:167 | the sizing scan of a string literal leaves the text if and only if the text ends in an unescaped backslash and no quote in it is unescaped |
| JsonBounds.StaysInside | src/agc_json.c:162-221 | no text that ends in an even number of backslashes makes the parser read behind its end; what a parse leaves is a tail of the text |
| JsonBounds.RunsOver | src/agc_json.c:167 | a literal cut off behind a backslash does make it read on |
| JsonBounds.PairExact | src/agc_json.c:198 | the number that two surrogates are joined to is the code point of section 7 of RFC 8259 if and only if bit 6 of the high one is clear |
| JsonBounds.JoinedHalves | src/agc_json.c:198 | the joining, written with bitwise "and" and "or", is the number that the parser model uses, for all numbers |
| JsonBounds.PairParsedExactly | src/agc_json.c:183-209 | a literal of two escapes, any high and any low surrogate, is parsed as the string that RFC 8259 means if and only if bit 6 of the high one is clear |
| JsonBounds.PairParsed | src/agc_json.c:183-209 | it is always parsed, as the UTF-8 bytes of the joined number |
| JsonBounds.PairMisread | src/agc_json.c:198 | the pair D840 DC00, which means 0x20000, is read as 0x10000 |
| JsonBounds.Utf8Injective | src/agc_json.c:201-208 | different code points give different bytes |
| JsonGrammar.DenotesParses | src/agc_json.c:273-281 | every text of the grammar of RFC 8259 with 32-bit integers, with any blanks, any of its escapes and both cases of hexadecimal digits, is parsed as the value it stands for |
| JsonGrammar.ValueReads | src/agc_json.c:288-301 | the same for a value and whatever follows it: the parser stops where the value ends |
| JsonGrammar.StringReads | src/agc_json.c:162-221 | every spelling of a string is read as the string it means |
| JsonGrammar.EscapeMeans | src/agc_json.c:183-209 | any four hexadecimal digits of a code point that is no surrogate are read as its UTF-8 bytes |
| JsonGrammar.Utf8Exactly | src/agc_json.c:201-208 | these are the bytes of section 3 of RFC 3629 and no others |
| JsonGrammar.NumberReads | src/agc_json.c:108-128 | the digits of an integer are read as its decimal value |
| JsonGrammar.ArrayRefused | src/agc_json.c:321-346 | an array is refused if neither comma nor bracket follows an item, or no value follows a comma |
| JsonGrammar.ObjectRefused | src/agc_json.c:401-434 | an object is refused if neither comma nor brace follows a member, or no name follows a comma |
| JsonGrammar.ColonRefused | src/agc_json.c:415 | and if no colon follows a name |
| JsonGrammar.LoneReads | src/agc_json.c:190-195 | an escape of zero, a low surrogate alone and a high one alone stand for nothing |
| JsonGrammar.BadPairReads | src/agc_json.c:195-197 | a high surrogate and a second escape that is no low one stand for nothing |
| JsonGrammar.BareReads | src/agc_json.c:187 | without four digits only the backslash and the letter go |
| JsonGrammar.OtherReads | src/agc_json.c:211 | any other character behind a backslash stands for itself |
| JsonGrammar.PrintDenotes | src/agc_json.c:284-318 | what the printer writes is a text of RFC 8259 that stands for the value printed, in both formats |
| JsonGrammar.ObjectLayout | src/agc_json.c:437-493 | the layout of objects: a member to a line, tabs before it and one behind the colon |
| JsonGrammar.ArrayLayout | src/agc_json.c:349-398 | the layout of arrays: on one line, with a blank behind each comma |
| JsonPrinter.PrintValue | src/agc_json.c:303-318 | a buffer of its own with the text of the value and a zero byte |
| JsonPrinter.PrintStringPtr | src/agc_json.c:224-257 | the first pass counts exactly the bytes that the second writes, terminator included |
| JsonPrinter.EscapedLength | src/agc_json.c:229 | the counting pass yields exactly the length of the escaped text |
| JsonPrinter.PutEscaped | src/agc_json.c:238-252 | each character is written as itself or as its escape |
| JsonPrinter.PrintInteger | src/agc_json.c:131-139 | every 32-bit integer fits in the 21 bytes |
| JsonPrinter.PrintArray | src/agc_json.c:349-398 | what the first pass sets aside is enough for every byte the second writes, whatever the items, depth and format |
| JsonPrinter.ComposeArray | src/agc_json.c:386-397 | the second pass stays inside the buffer and writes brackets, items and separators |
| JsonPrinter.PrintObject | src/agc_json.c:437-493 | what the first pass sets aside is enough for every byte the second writes, names, tabs and line ends included |
| JsonPrinter.ComposeObject | src/agc_json.c:476-492 | the second pass stays inside the buffer and writes braces, tabs, names, values and separators |
| JsonPrinter.PutMember | src/agc_json.c:480-485 | one member, at most as many bytes as were counted for it |
| JsonParser.ReadText | src/agc_json.c:273-281 | the loops compute the reference parse; so every text of RFC 8259 with 32-bit integers gives the value it stands for |
| JsonParser.ReadValue | src/agc_json.c:288-300 | the choice by the first characters gives the reference value, or its failure |
| JsonParser.ReadArray | src/agc_json.c:321-346 | the loop over items builds the chain of items of the reference parse and ends where it ends |
| JsonParser.ReadObject | src/agc_json.c:401-434 | the loop over members builds the chain of members of the reference parse and ends where it ends |
| JsonParser.ReadMember | src/agc_json.c:412-417 | name, colon and value as in the reference parse, and every way to fail |
| JsonParser.ReadNumber | src/agc_json.c:108-128 | sign, an optional zero and digits; anything with a fraction, an exponent or out of 32 bits is reported as not an integer |
| JsonParser.ReadString | src/agc_json.c:162-221 | the unescaped literal in a buffer of its own, terminated; the buffer sized by the first pass holds all that the second writes |
| JsonParser.ScanString | src/agc_json.c:167 | the sizing pass, and whether it leaves the text |
| JsonParser.FillString | src/agc_json.c:172-216 | the writing pass ends where the sizing pass ended |
| JsonParser.EscapeFits | src/agc_json.c:167-209 | no escape writes more bytes than the sizing pass counted for it |
| JsonParser.ReadUnicode | src/agc_json.c:186-199 | the \u case: what the reference escape gives, whose digits, code points and malformed cases are fixed in JsonGrammar |
| JsonParser.PutUtf8 | src/agc_json.c:201-209 | the bytes of a code point, written from the last to the first |
| JsonParser.SkipBlanks | src/agc_json.c:270 | blanks are skipped and nothing else |
| SqlRuns.RunInv | src/agc_sql.c:58-134 | in every interleaving of gates, searches, adds and releases: the lock depth of a handle is its use count, all grants of it that are out belong to its owner, the used total is the sum of the use counts, the handle total is the length of the list |
| SqlRuns.OneHolder | src/agc_sql.c:334-352 | two threads never hold the same handle, and the holder holds it as often as it is locked |
| SqlRuns.CanRelease | src/agc_sql.c:117-134 | a holder can always give its handle back |
| SqlRuns.SerialBounded | src/agc_sql.c:67-105 | if no thread passes the gate while another is between gate and handle, the pool never has more than a non-zero maximum of handles |
| SqlRuns.MissIsFull | src/agc_sql.c:334-352 | a search that finds nothing means at least as many uses as handles (pigeonhole) |
| SqlRuns.Outgrown | src/agc_sql.c:67-105 | if acquires may overlap it can have any number: whatever the maximum, any two threads reach every size |
| SqlRuns.WithinExactly | src/agc_sql.c:67-105 | all runs by a set of threads stay within a non-zero maximum if and only if the set has at most one thread |
| SqlRuns.AloneIsSerial | src/agc_sql.c:67-105 | acquires of one thread never overlap |
| SqlRuns.ChoiceLockable | src/agc_sql.c:334-352 | the search finds a handle the thread can lock if there is one |
| SqlHandles.Pool.GetFree | src/agc_sql.c:324-365 | the handle found is the one nearest to the list head that was cached for the thread, or else that it can lock; it is held by no other thread and now has the hash of the thread; nothing found means that others hold every handle; all totals and locks stay right |
| SqlHandles.Pool.AddHandle | src/agc_sql.c:279-299 | a new handle that nobody held, held once by the thread; all totals and locks stay right |
| SqlHandles.Pool.ReleaseHandle | src/agc_sql.c:117-134 | a holder gives back one hold and no other handle changes; after its last one any thread can lock the handle and its hash is forgotten |
| SqlHandles.Pool.Scan | src/agc_sql.c:334-352 | of the handles cached for the thread the one nearest to the list head; if there is none, of those that it can lock; if there is none, nothing |
| SqlPool.ChoicePicked | src/agc_sql.c:334-352 | the reference searches give exactly this handle |
| SqlPool.ReEnters | src/agc_sql.c:344-352 | a thread that holds the newest handle gets it again although an older one is free |
| SqlRuns.NeverCached | src/agc_sql.c:124-128 | in every interleaving no handle is cached for a thread, unless its hash is 1: a release forgets the hash, so a thread gets the handle nearest to the list head that it can lock |
| SqlRuns.RunForgotten | src/agc_sql.c:124-128 | in every interleaving a handle that nobody uses has the hash 1 |
| SqlHandles.Pool.GateOpen | src/agc_sql.c:67 | the gate is closed exactly if the pool is full and has at least as many uses as handles |
| SqlHandles.Pool.GetHandle | src/agc_sql.c:58-115 | a whole acquire that no other thread interrupts: it keeps the maximum, gives a handle that no other thread holds, and fails without change only if the gate is closed or all handles are held and the database cannot be reached |
| EventRuns.SourceOrder | src/agc_event.c:469-501 | in every interleaving, for every non-null source: the delivered events, then the one in hand, then those queued, are the fired events in order |
| EventRuns.FireInOrder | src/agc_event.c:488-500 | firing appends to the queue of the source |
| EventRuns.ServeInOrder | src/agc_event.c:727-741 | delivery takes the oldest pending event of the source |
| EventRuns.PoolsConserved | src/agc_event.c:877-934 | in every interleaving each event of a pool is free, with a caller, queued or in dispatch, in one place and once; there are never more free ones than the pool was made with |
| EventRuns.GivesBack | src/agc_event.c:1012-1027 | so the unchecked push of a release never fails |
| EventRuns.DoConserved | src/agc_event.c:792-796 | every single step keeps the places of the events apart and complete |
| EventRuns.FreeFits | src/agc_event.c:893-907 | distinct events of one pool are at most as many as its capacity |
| EventDispatcher.Dispatcher.Fire | src/agc_event.c:469-501 | the event goes to the end of what is pending in one queue, that of its source if it has one; no other queue changes |
| EventDispatcher.Dispatcher.TryPop | src/agc_event.c:727-736 | the event that comes into hand is the first of its source that was fired and not delivered; what is pending stays the same |
| EventDispatcher.Dispatcher.Serve | src/agc_event.c:757-790 | an access outside the table if and only if the event has no callback of its own and its id is not from 0 to 1023; otherwise, uninterrupted, the callbacks called are its own, or all that were bound to its id, newest first, and then all that were bound to id 0, newest first; the event is the next undelivered one of its source |
| EventDispatcher.Dispatcher.Begin | src/agc_event.c:766-784 | the same up to the first call: what is to be called is what the binds so far say |
| EventDispatcher.Dispatcher.CallNext | src/agc_event.c:780-786 | one call: the first callback of those still to be called, with the event in hand |
| EventDispatcher.Dispatcher.Play | src/agc_event.c:700-796 | in every interleaving of subscribers, sources, callers and dispatchers, one call of a callback at a time: callbacks see the events of a source in the order of firing; for each delivery exactly the callbacks that the binds before it say are called, each once per bind, newest first; and the table is left only if an id without a place in it was bound or sent |
| EventDispatcher.WholeAudience | src/agc_event.c:780-786 | once the dispatcher of a delivery has no call left to make, the callbacks called are those that the binds known when it began say |
| EventDispatcher.NewestFirstAt | src/agc_event.c:455-460 | in the list of an id each bind stands once, behind exactly the later ones |
| EventDispatcher.Dispatcher.Finish | src/agc_event.c:792-796 | afterwards a fast event is free again in its pool and nowhere else |
| EventDispatcher.Dispatcher.FastInitial | src/agc_event.c:877-910 | a pool is filled once; each of its events is free exactly once; other pools stay the same |
| EventDispatcher.Dispatcher.FastAlloc | src/agc_event.c:912-934 | an event that was neither with a caller nor queued nor in dispatch; it fails only if there is no such pool or all its events are out |
| EventDispatcher.Dispatcher.FastRelease | src/agc_event.c:1012-1027 | the held event is always behind the free ones afterwards: the unchecked push cannot fail |
| EventDispatcher.CallOrder | src/agc_event.c:757-790 | of two calls with events of one source, the earlier call has the event that was fired no later, and the same one only within one delivery, however calls of several dispatchers are interleaved |
| EventDispatcher.Dispatcher.Bind | src/agc_event.c:437-467 | refused if and only if the id is above 1024, and an access outside the table if and only if it is negative or 1024; otherwise the new subscriber comes first in the list of its id; no other list changes |
| EventDispatcher.BindExactly | src/agc_event.c:444-460 | the test of the id lets an access outside the table pass exactly for negative ids and for 1024 |
| EventDispatcher.BindStrays | src/agc_event.c:444-460 | it does so for 1024 and for -1 |
| EventDispatcher.JsonIdExactly | src/agc_event.c:634-641 | an event that passed the test of ids read from JSON is delivered inside the table if and only if its id is not negative |
| Md.DigestOf | libs/apr-util/crypto/apr_md5.c:190-317 | however a message is cut into pieces, the digest is that of the padded whole, as long as each piece and the bytes then in the buffer are together less than 2^32; and exactly then all pieces are taken |
| Md.Context.Update | libs/apr-util/crypto/apr_md4.c:159-240 | state, buffer and bit count stand for the message so far; this holds, and the loop stops where it should, if and only if the bytes in the buffer and the input are together less than 2^32 |
| Md.WrapsExactly | libs/apr-util/crypto/apr_md5.c:218-219 | the 32-bit sum in the guard of the loop wraps behind the last whole block if and only if the bytes in the buffer and the input are together 2^32 or more |
| Md.StopsExactly | libs/apr-util/crypto/apr_md5.c:218-219 | the loop stops behind the last whole block if and only if that sum does not wrap |
| Md.WrapGoesWrong | libs/apr-util/crypto/apr_md5.c:218-219 | where it wraps, the loop goes on behind the end of the input, or for ever |
| Md.Context.LongInput | libs/apr-util/crypto/apr_md5.c:214-227 | input that completes the buffered block: that block, the whole blocks of the input, and the rest in the buffer |
| Md.Context.Blocks | libs/apr-util/crypto/apr_md5.c:218-219 | whole blocks are taken straight from the input, each once |
| Md.Context.CountUp | libs/apr-util/crypto/apr_md5.c:204-208 | the two counter words are the number of bits modulo 2^64, carry included |
| Md.Context.Final | libs/apr-util/crypto/apr_md5.c:288-317 | the digest of the message so far: padding, length and encoding of the state |
| Md.Context.constructor | libs/apr-util/crypto/apr_md5.c:145-157 | the initial state stands for the empty message |
| Md.PaddedWhole | libs/apr-util/crypto/apr_md5.c:302-308 | the padded message is a whole number of blocks |
| Md.PaddedMeaning | libs/apr-util/crypto/apr_md5.c:95-100 | the padded message is the message, the byte 80, as few zero bytes as fill the last block, and the number of bits modulo 2^64 as 8 bytes, low byte first |
| Md.EncodedWords | libs/apr-util/crypto/apr_md5.c:443-456 | read four bytes at a time, low byte first, a digest is the words of the state in order |
| Md.StartBytes | libs/apr-util/crypto/apr_md5.c:149-153 | the initial state in bytes, section 3.3 of RFC 1321 and of RFC 1320 |
| Sha1.DigestOf | libs/apr-util/crypto/apr_sha1.c:220-345 | for every way of cutting a message into chunks SHA-1 gives the compression function folded over the message padded as in section 4 of RFC 3174, words high byte first |
| Sha1.Context.Update | libs/apr-util/crypto/apr_sha1.c:220-257 | after an update the context stands for the message so far |
| Sha1.Context.WholeBlocks | libs/apr-util/crypto/apr_sha1.c:248-254 | whole blocks of the input, each once |
| Sha1.Context.CountUp | libs/apr-util/crypto/apr_sha1.c:226-230 | the two counter words are the number of bits modulo 2^64, carry included |
| Sha1.Context.PadTail | libs/apr-util/crypto/apr_sha1.c:321-332 | the padding, in one block or two |
| Sha1.Context.CompressLast | libs/apr-util/crypto/apr_sha1.c:333-336 | the bit count replaces the last two words after the byte reversal |
| Sha1.Context.Final | libs/apr-util/crypto/apr_sha1.c:313-345 | the digest of the whole message |
| Sha1.ByteReverse | libs/apr-util/crypto/apr_sha1.c:182-202 | the bytes of each word change places |
| Sha1.ReversedWords | libs/apr-util/crypto/apr_sha1.c:182-202 | so that the words a little-endian machine reads are those of the message |
| Sha1.PaddedMeaning | libs/apr-util/crypto/apr_sha1.c:320-336 | the padded message is the message, the byte 80, as few zero bytes as fill the last block, and the number of bits modulo 2^64 as 8 bytes, high byte first |
| Sha1.EncodedWords | libs/apr-util/crypto/apr_sha1.c:338-344 | read four bytes at a time, high byte first, a digest is the words of the state in order |
| Sha1.BlockWords | libs/apr-util/crypto/apr_sha1.c:248-254 | the words of a block are its bytes, four at a time, high byte first |
| Sha1.StartBytes | libs/apr-util/crypto/apr_sha1.c:206-212 | the initial state in bytes, section 6.1 of RFC 3174 |
| Blocks.CountAdd | libs/apr-util/crypto/apr_md5.c:204-208 | adding the low words, carrying and adding the high part is adding to the 64-bit count |
| Blocks.CountIndex | libs/apr-util/crypto/apr_md5.c:202 | the fill of the buffer follows from the low counter word |
| BcryptCode.DecodeEncode | libs/apr-util/crypto/crypt_blowfish.c:385-439 | decoding undoes encoding for every length of at least one |
| BcryptCode.EncodeDecode | libs/apr-util/crypto/crypt_blowfish.c:385-439 | encoding what was decoded gives the text back, the last digit of an incomplete group masked |
| BcryptCode.SaltRewritten | libs/apr-util/crypto/crypt_blowfish.c:766-768 | a 16-byte salt is re-encoded as the first 22 digits of the setting with the last one masked, as the hash function writes it; the setting may go on, as a whole hash does |
| BcryptCode.Encode | libs/apr-util/crypto/crypt_blowfish.c:409-439 | the loop writes the digits of all bytes |
| BcryptCode.Decode | libs/apr-util/crypto/crypt_blowfish.c:385-407 | the loop writes the bytes, or fails at the first character that is not a digit |
| BcryptCode.LetterValue | libs/apr-util/crypto/crypt_blowfish.c:364-374 | the letter of a value has that value |
| BcryptCode.ValueLetter | libs/apr-util/crypto/crypt_blowfish.c:364-374 | a digit is the letter of its own value |
| BcryptCode.LetterTable | libs/apr-util/crypto/crypt_blowfish.c:364-365 | a digit is the character at its place in the table of 64 |
| BcryptCode.ValueTable | libs/apr-util/crypto/crypt_blowfish.c:367-374 | a character has the value of its place in the table, or is no digit |
| BcryptCode.ChunkNumber | libs/apr-util/crypto/crypt_blowfish.c:409-439 | the digits are the bits of the bytes, the highest first, six at a time, filled up with zero bits |
| Mprintf.Print | src/agc_mprintf.c:847-875 | for any sequence of pieces the result is their concatenation, or in a fixed buffer of size n its first n - 1 characters; it is always terminated, since an empty piece comes first (line 266) |
| Mprintf.Collect | src/agc_mprintf.c:811-875 | the same for the pieces alone, where the terminator is there if and only if there was a piece or the buffer began with one |
| Mprintf.Collector.Mout | src/agc_mprintf.c:811-841 | one more piece: all of it, or as much as fits |
| Mprintf.Convert | src/agc_mprintf.c:679-725 | the counted size is exactly the bytes written, terminator included, whether in the fixed buffer or an allocated one |
| Mprintf.Count | src/agc_mprintf.c:689-694 | the counting pass yields exactly the length of the escaped text |
| Mprintf.PutOne | src/agc_mprintf.c:706-716 | one character, doubled or with a backslash |
| Mprintf.UndoneEscaped | src/agc_mprintf.c:705-717 | halving the doubled characters restores the argument, for each of the four conversions, so different arguments give different texts |
| Mprintf.ReadsBackExactly | src/agc_mprintf.c:679-725 | a reader of SQL literals, with or without backslash escapes, gets the argument back and stops at its closing quote if and only if the argument has no character that the conversion leaves to this reader; for all four conversions and both readers |
| Mprintf.QuotedReadsBack | src/agc_mprintf.c:679-725 | what %Q writes is a whole literal: a standard reader gets any argument back and stops exactly behind it |
| Mprintf.ConvertedPlain | src/agc_mprintf.c:685-725 | %Q alone puts quotes around its argument; a null argument is NULL for it and (NULL) for the others, without quotes |
| Mprintf.ConvertedSize | src/agc_mprintf.c:689-725 | what is added to an argument: one character for each quote, for %w for each backslash, and for %Q the two quotes |

## Left out

- RbTree.RbTree.Insert: keys are 64-bit; a 32-bit build wraps earlier, which changes the constant only.
- Timer.Timers.Dispatch: lines 118-139 are one step; the dispatcher releases its lock between finding and deleting a timer.
- Timer.Timers.Serve: needs, for each comparison, a window of less than half the key range, as the key comparison itself does; deletes only armed timers and does not arm a deleted one again, where the code follows a null link.
- Brigades.Brigade.Write: the flush callback, since what it does to the brigade is the caller's.
- Brigades.Brigade.Writev: the flush callback, likewise.
- Brigades.Brigade.Partition: buckets of unknown length, which only files, pipes and sockets have.
- Brigades.SplitLine: buckets whose read can fail.
- Buckets.Pool.HeapMake: allocation failure; allocation is assumed to succeed here and elsewhere, but for the bucket allocator.
- File, pipe, socket, pool and mmap buckets, whose contents depend on the system.
- Brigades and bucket rings are sequences here; the link fields of the rings are not modelled.
- JsonGrammar.DenotesParses: fractions, exponents and numbers beyond 32 bits; surrogate pairs that are misread, and the escape of zero, which a C string cannot hold.
- JsonReparse.Reparse: texts with fractions, exponents or numbers beyond 32 bits, which have an outcome of their own.
- JsonParser.ReadNumber: fractions, exponents and numbers beyond 32 bits, which need floating point, give one outcome of their own.
- JsonParser.ReadValue: items are chained in a datatype, not linked through node fields; the error pointer is not modelled.
- SqlHandles.Pool.GetFree: 32-bit wrap-around of the counters; handles are records in the pool's list, and the list head is the end of the sequence.
- SqlHandles.Pool.GetHandle: a closed gate with no timeout or a long one, where the loop waits for another thread.
- SqlRuns.RunInv: waiting at the gate and its timeout; a step through the gate is possible when it is open.
- EventDispatcher.Dispatcher.Bind: what happens after an access outside the table; the model leaves the state as it was.
- EventDispatcher.Dispatcher.Serve: what happens after an access outside the table, what the callbacks do, and removing subscribers.
- EventDispatcher.Dispatcher.Fire: waiting while a queue is full, and everything after shutdown begins.
- Header lists and duplication of events.
- Md.Context.Update: what the state is after the index has wrapped; character set translation.
- Md.DigestOf: the compression functions themselves are a parameter.
- Sha1.Context.Update: a little-endian machine; on a big-endian one the byte reversal and the reading order both fall away.
- Allocator.BucketAlloc.Alloc: the underlying allocator is a parameter; sizes are those of a 64-bit machine.
- Mprintf.Print: the conversions other than the SQL escapes; 32-bit overflow of lengths.
- Drivers, sockets, modules, configuration, logging and start-up.
