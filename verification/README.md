# node-netkit: a verified model of its containers, its rule compiler and its netlink framing

node-netkit builds nftables and routing messages in JavaScript, sends and splits them in C++, and ships the
container library (`deps/twlib`) its native side is built on. This project models the parts of it where the code
does something hard to see, and proves that it does what those parts are for. `dafny verify dfyconfig.toml` checks
everything.

What is modelled, in the form the code has it (objects with fields that methods update, loops with invariants,
pointers in memory):

* **The open-addressing hash table** of `khash.h` and its owning wrapper `tw_khash.h`. `Words` has the 32-bit
  arithmetic of the macros, `Probing` the probe sequence, `KhFlags` the two bits per bucket, `KHash` the in-place
  rehash that kicks elements from bucket to bucket, `KHashTable` the table object, `TwKHash` the wrapper, whole runs
  of operations against a plain map, and the iterator.
* **The B-tree** of `ktree.h`. `KTree` has trees of memory nodes as values and what merging, borrowing and splitting
  do to their in-order contents; `KbNodes`, `KbDelete` and `KbInsert` the operations on nodes in memory; `KbTree` the
  tree object against a sorted sequence; `KbTraverse` the traversal with its explicit stack.
* **The red-black tree** of `provos_rb_tree.h`, with parent pointers. `RbNodes` describes the memory around a place
  in the tree and the rotations, `RbInsert` and `RbRemove` the two recolouring loops, `RbOrder` searching, stepping in
  both directions and the height.
* **The splay tree** of the same header. `SplayNodes` and `Splay` have the top-down splay, with the two spines it
  builds on an auxiliary node, `SplaySet` the sorted set on top of it.
* **The queue** `tw_safeFIFOmv`. `Fifo` has its critical sections on the linked list; `FifoThreads` lets any number
  of threads run those sections in any order, with spurious wake-ups.
* **The attribute writer** of `nfattr.js` and `nfattributes.js`. `TlvTree` is the plain recursive serializer of
  attribute trees and a reader; `NfAttr` the attribute object and its leaf encoders, with `Bytes` and `Numerals` below
  it; `NfAttributes` the recursion that appends buffers and raises nest lengths afterwards; `NfTables` the tables.
* **The rule compiler** of `node-netfilter.js`. `NfGrammar` is the grammar of rules as functions on text, with the
  round trip; `NfParser` the recursive-descent parser; `NfRule` the semantic actions; `NfVm` what the expressions mean
  to the filter that receives them; `NfElements`, `NfRuleMeaning` and `NfPipeline` the proof that from the text of a
  rule to the verdict on a packet nothing is lost. `NfWords` says the same grammar in characters, `NfMessages` what a
  receiver finds in the messages for tables, chains and rules.
* **The netlink socket** of `netlinksocket.cc`: `NlSocket` has sequence numbers, the splitting of a received buffer
  and the delivery of replies (the header layout is that of sections 2.2 and 2.3.2 of RFC 3549).
* **The reversible ring** `tw_safeCircular`: `Circular` has its indices and wrap-around against a sequence, and whole
  runs against a double-ended queue that is turned around.
* **The buffer chains** of `tw_bufblk.h`: `BufBlks` has blocks as windows onto reference-counted memory, duplication,
  release, slices and the iterator; the count of every memory is the number of live blocks on it.
* **The struct codec** `bufferpack.js` and **the routing messages** of `rtnetlink.js` and `netlink.js`: `BufferPack`
  packs and unpacks under a format, `Rtnetlink` builds messages and parses them back (sections 2.2 and 2.3.2 of
  RFC 3549), `RtNames` ties the names they are read by to the constants they are built with.

Where the code and what it is for part ways, the model follows the code and the proofs say exactly when it is right:

* An address criterion whose address has bits set behind its prefix can match no packet (`NfRuleMeaning.NetCanMatch`).
* A number too large for its field is compared with bytes of another length (`NfRuleMeaning.NumberFillsField`), or
  with a buffer whose contents nothing determines. That the first never matches is an assumption of `NfVm`, the model
  of the receiver, in which a comparison of unequal length never holds; the receiver is no part of the repository. The
  second is left open here.
* The criterion `prot` reads byte 9 of the transport header, although the offset is that of the network header
  (`NfRule.Offset`); the meaning proved is that of the byte it reads.
* A hexadecimal number in a rule is joined with commas before it is read, so that only its first digit counts
  (`NfGrammar.HexP`).
* A value that is neither a number nor an IPv4 address makes the parser throw from the IPv6 action instead of failing.
* The message of a rule has determined bytes exactly when its values have and its expressions fit a 16-bit length field
  (`NfRuleMeaning.CompilesExactly`); there is no check for that length in the code, the write of it throws. A number of
  another digit count is sent all the same, as what its buffer happened to hold.
* The length of a received frame is checked in the signed 32 bits of an int, and a length of 2^31 to 2^31 + 15 passes
  (`NlSocket.LengthCheck`): an accepted frame that gives one is copied past the end of what was received, any other ends
  the walk unnoticed (`NlSocket.WrapBehind`, `NlSocket.WrapAtOnce`). Without such a length the walk does exactly what it
  is meant to do (`NlSocket.ReceivedAsMeant`).
* A received buffer of exactly one header is dropped (`NlSocket.HeaderOnlyDropped`), and a sequence window that wraps
  accepts none of its own answers, nor any other (`NlSocket.OwnWindow`).
* A woken `removeOrBlock` may return without an item: because another remove came first (`FifoThreads.StolenItem`), or
  because an add on a disabled queue wakes a sleeper for nothing (`FifoThreads.RefusedItem`).
  `FifoThreads.EmptyHandedExactly` says when, and `FifoThreads.WokenByAddGetsItem` when it cannot happen.
* `transferFrom` does not reset the direction of the ring it empties (`Circular.SafeCircular.TransferFrom`), `cloneFrom`
  copies no elements unless the ring holds objects. `get` and `set` read past the array when their walk ends at the wrap,
  and in a reversed ring that is entered below index 2 at item 0 already (`Circular.SafeCircular.PlaceForward`,
  `Circular.SafeCircular.PlaceBackward`).
* `getContigBlock` leaves a partly filled block behind when the chain ends too soon, exactly when the offset lies in a
  block that another follows; with a negative offset or size it hands out or reads a window that begins before the bytes
  of its block or ends before it begins (`BufBlks.BufBlk.GetContigBlock`).
* `calcLength` counts one value for a repeated element, so that the texts behind it are measured at the wrong values
  (`BufferPack.CalcLenExact`, `BufferPack.Codec.Pack`).
* A string with a zero byte inside does not survive the format letter S (`BufferPack.RoundTrip`), and unpacking S from
  bytes without a zero never ends.
* The attribute loop of `rtnetlink.js` stands still at an attribute of length 0 (`Rtnetlink.HangsExactly`), and for
  RTM_DELNEIGH and RTM_GETNEIGH it starts inside the template, at the state of the neighbour (`Rtnetlink.TemplateSkipped`):
  with state 0 it stands still, with a state of 1 to 4 it adds a field or none, with a greater one it skips what follows
  (`Rtnetlink.NeighborReads`, `Rtnetlink.NeighborComesBack`).
* The name of a nested attribute table is cut at its second underscore, so `nft_rule_compat_attributes` is looked up
  as `nft_rule_attributes` (`NfTables`).

## Model

| member | source | states |
|---|---|---|
| `Words.KRoundUp32Correct` | deps/twlib/include/TW/khash.h:157 | kroundup32 gives the least power of two that is at least its argument, and 0 exactly when there is none in 32 bits |
| `Words.AndMask` | deps/twlib/include/TW/khash.h:205 | masking with n - 1 is reduction modulo a power of two n |
| `Probing.AcIncOdd` | deps/twlib/include/TW/khash.h:151 | the probe increment is odd whenever the mask is |
| `Probing.AcIncBits` | deps/twlib/include/TW/khash.h:151 | the probe increment bit by bit: each bit of the hash against those three places off in 32 bits, the lowest bit set, under the mask |
| `Probing.SlotNext` | deps/twlib/include/TW/khash.h:207-208 | one pass of the probe loop moves to the next slot of the probe |
| `Probing.SlotsDistinct` | deps/twlib/include/TW/khash.h:207-209 | the first n slots of a probe are pairwise different |
| `Probing.SlotReturns` | deps/twlib/include/TW/khash.h:208-209 | after exactly n steps a probe is back where it began |
| `Probing.ProbeVisitsAll` | deps/twlib/include/TW/khash.h:205-209 | a probe visits every bucket before it returns to its start |
| `KhFlags.SetIsDelTrue` | deps/twlib/include/TW/khash.h:140-147 | marking a bucket deleted in its packed word changes that bucket's flag alone |
| `KhFlags.SetIsEmptyFalse` | deps/twlib/include/TW/khash.h:140-147 | claiming a bucket in its packed word changes that bucket's flag alone |
| `KhFlags.SetIsBothFalse` | deps/twlib/include/TW/khash.h:140-147 | making a bucket live in its packed word changes that bucket's flag alone |
| `KhFlags.FillEmpty` | deps/twlib/include/TW/khash.h:193-198 | words of 0xaa mark every bucket empty |
| `KHash.HoldsUnique` | deps/twlib/include/TW/khash.h:200-213 | the buckets of a table stand for one map only |
| `KHash.ProbeMeetsEmpty` | deps/twlib/include/TW/khash.h:200-213 | while one bucket is empty every probe meets an empty bucket before it returns |
| `KHash.NotFoundIsAbsent` | deps/twlib/include/TW/khash.h:200-213 | under the probe invariant, a key its probe misses up to an empty bucket is nowhere in the table |
| `KHash.PlaceKeepsProbeInv` | deps/twlib/include/TW/khash.h:294-303 | placing a key where its probe arrived keeps every live bucket reachable from its key's home |
| `KHash.DropKeepsProbeInv` | deps/twlib/include/TW/khash.h:307-313 | deleting leaves a tombstone, so every live bucket stays reachable |
| `KHash.LiveCount` | deps/twlib/include/TW/khash.h:294-311 | the number of live buckets is the number of entries of the map |
| `KHash.NewSizeSame` | deps/twlib/include/TW/khash.h:219-221 | a resize to one bucket less rebuilds at the same size |
| `KHash.NewSizeDoubles` | deps/twlib/include/TW/khash.h:219-221 | a resize to one bucket more doubles the table |
| `KHash.UpperBoundIs` | deps/twlib/include/TW/khash.h:267 | the bound is the whole part of n_buckets * 0.77 + 0.5 |
| `KHash.PickUp` | deps/twlib/include/TW/khash.h:232-239 | taking a live element out of the old table loses and duplicates nothing |
| `KHash.Kick` | deps/twlib/include/TW/khash.h:245-250 | swapping the element in hand with the old live element of the claimed bucket loses nothing and retires one old bucket |
| `KHash.Settle` | deps/twlib/include/TW/khash.h:251-255 | writing the element in hand into a bucket that held nothing live ends a kick-out chain with every entry stored once |
| `KHash.FindFree` | deps/twlib/include/TW/khash.h:242-246 | the inner probe ends at a bucket the new table has not claimed, which the element's probe reaches |
| `KHash.KickOnce` | deps/twlib/include/TW/khash.h:240-256 | one pass of the kick-out loop keeps the rehash relation between old table, new table, element in hand and map |
| `KHash.KickOut` | deps/twlib/include/TW/khash.h:240-256 | the kick-out loop ends, with the element placed and everything it displaced placed too |
| `KHash.RehashAll` | deps/twlib/include/TW/khash.h:231-258 | the outer loop moves every live element; afterwards the new flags hold exactly the old map and satisfy the probe invariant |
| `KHashTable.Lookup` | deps/twlib/include/TW/khash.h:200-213 | the probe finds the key's bucket, or the key is missed up to an empty bucket |
| `KHashTable.Search` | deps/twlib/include/TW/khash.h:282-287 | the search loop of kh_put ends at the key or an empty bucket, with the last tombstone it passed |
| `KHashTable.FindSite` | deps/twlib/include/TW/khash.h:277-293 | the bucket kh_put chooses holds the key, or the key is absent and its probe reaches that bucket |
| `KHashTable.Table.constructor` | deps/twlib/include/TW/khash.h:182-184 | a new table is empty |
| `KHashTable.Table.SizeIsCardinality` | deps/twlib/include/TW/khash.h:165-168 | size counts the live buckets, n_occupied the non-empty ones, and size is the cardinality of the map |
| `KHashTable.Table.EmptyBucket` | deps/twlib/include/TW/khash.h:273-276 | a table with buckets always has an empty one |
| `KHashTable.Table.Get` | deps/twlib/include/TW/khash.h:200-213 | kh_get returns the bucket of a key of the map, and n_buckets exactly for the others |
| `KHashTable.Table.Resize` | deps/twlib/include/TW/khash.h:214-269 | kh_resize keeps the map, whatever the requested size, and has no effect when that is too small |
| `KHashTable.Table.MakeRoom` | deps/twlib/include/TW/khash.h:273-276 | before an insertion the table is rebuilt or doubled when its bound is reached; the map is kept and a bucket can be claimed |
| `KHashTable.Table.Put` | deps/twlib/include/TW/khash.h:270-306 | kh_put returns the key's bucket; a new key is added, an old one kept, and the answer tells which |
| `KHashTable.Table.Del` | deps/twlib/include/TW/khash.h:307-313 | kh_del removes the entry of a live bucket and changes nothing otherwise |
| `KHashTable.Table.Clear` | deps/twlib/include/TW/khash.h:193-199 | kh_clear empties the map |
| `TwKHash.Wrapper.Size` | deps/twlib/include/TW/tw_khash.h:592-599 | size is the number of entries |
| `TwKHash.Wrapper.AddReplace` | deps/twlib/include/TW/tw_khash.h:609-645 | addReplace maps the key to the new value and tells whether it was new |
| `TwKHash.Wrapper.AddNoReplace` | deps/twlib/include/TW/tw_khash.h:709-725 | addNoreplace keeps the value of a present key |
| `TwKHash.Wrapper.Find` | deps/twlib/include/TW/tw_khash.h:767-797 | find gives the value of the key, if there is one |
| `TwKHash.Wrapper.Remove` | deps/twlib/include/TW/tw_khash.h:727-765 | remove takes the key out and gives its value |
| `TwKHash.Wrapper.RemoveAll` | deps/twlib/include/TW/tw_khash.h:564-590 | removeAll empties the map |
| `TwKHash.Run` | deps/twlib/include/TW/tw_khash.h:564-797 | any sequence of operations gives the answers and the final contents of the same operations on a plain map, as long as that map stays below 2^30 entries |
| `TwKHash.FewAdds` | deps/twlib/include/TW/tw_khash.h:564-614 | a run has no more entries at its end than it had at first and additions in between, so that few additions keep any run in reach, however long |
| `TwKHash.HashIterator.constructor` | deps/twlib/include/TW/tw_khash.h:478-490 | an iterator starts at the first live bucket |
| `TwKHash.HashIterator.GetNext` | deps/twlib/include/TW/tw_khash.h:426-440 | getNext goes to the next live bucket and tells when there is none |
| `TwKHash.EntriesExact` | deps/twlib/include/TW/tw_khash.h:426-440 | the live buckets in order list each entry of the map exactly once |
| `TwKHash.VisitAll` | deps/twlib/include/TW/tw_khash.h:426-490 | running an iterator from start to end visits every entry once and no other |
| `SortedSeqs.RemoveAtSorted` | deps/twlib/include/TW/ktree.h:308-321 | taking a position out of a sorted sequence leaves it sorted |
| `SortedSeqs.RemoveAtMultiset` | deps/twlib/include/TW/ktree.h:308-321 | taking a position out removes exactly one occurrence of its key |
| `SortedSeqs.InsertAtMultiset` | deps/twlib/include/TW/ktree.h:206-220 | putting a key in at a position adds exactly one occurrence of it |
| `KTree.Focus` | deps/twlib/include/TW/ktree.h:188-204 | the in-order contents of a node split around any child |
| `KTree.MergeKeeps` | deps/twlib/include/TW/ktree.h:256-266 | folding two children and the key between them into one keeps the in-order contents |
| `KTree.RotateKeeps` | deps/twlib/include/TW/ktree.h:271-284 | moving keys and children between siblings through the key between them keeps the in-order contents |
| `KTree.SplitKeeps` | deps/twlib/include/TW/ktree.h:172-187 | splitting a full child around its middle key keeps the in-order contents |
| `KbNodes.GetAux` | deps/twlib/include/TW/ktree.h:113-127 | the binary search finds the last key below the searched one, or the first equal one where there are several, with the comparison at the slot it looked at last |
| `KbNodes.Merge` | deps/twlib/include/TW/ktree.h:257-265 | the merge in memory gives the tree with the pair folded |
| `KbNodes.BorrowLeft` | deps/twlib/include/TW/ktree.h:271-277 | the borrow from the left sibling moves one key and one child through the parent |
| `KbNodes.BorrowRight` | deps/twlib/include/TW/ktree.h:278-284 | the borrow from the right sibling moves one key and one child through the parent |
| `KbNodes.Split` | deps/twlib/include/TW/ktree.h:172-187 | __kb_split in memory gives the tree with the full child split into two |
| `KbDelete.MergedOk` | deps/twlib/include/TW/ktree.h:256-266 | a merge of two minimal siblings is a node within the key limits, of the same height |
| `KbDelete.LentRightOk` | deps/twlib/include/TW/ktree.h:271-277 | after a borrow both siblings are within the key limits |
| `KbDelete.PredecessorReplaces` | deps/twlib/include/TW/ktree.h:246-250 | putting the greatest key of the left child in place of a found key deletes that key |
| `KbDelete.SuccessorReplaces` | deps/twlib/include/TW/ktree.h:251-255 | putting the least key of the right child in place of a found key deletes that key |
| `KbDelete.FixChild` | deps/twlib/include/TW/ktree.h:270-305 | before the descent the child gets a key to spare by a borrow or a merge, and still holds the searched key |
| `KbDelete.DeleteFound` | deps/twlib/include/TW/ktree.h:245-267 | deleting a key found in an inner node, in all three cases |
| `KbDelete.DeleteBelow` | deps/twlib/include/TW/ktree.h:269-306 | deleting a key further down, with the child brought to size first |
| `KbDelete.Delete` | deps/twlib/include/TW/ktree.h:228-307 | __kb_delp_aux removes exactly the key at one position of the in-order contents, keeps all invariants of height and size, and returns that key |
| `KbInsert.SplitChild` | deps/twlib/include/TW/ktree.h:199-202 | the pre-emptive split keeps contents and invariants and says on which side the key belongs |
| `KbInsert.InsertBelow` | deps/twlib/include/TW/ktree.h:197-204 | insertion below an inner node |
| `KbInsert.Insert` | deps/twlib/include/TW/ktree.h:188-205 | __kb_putp_aux adds the key at one position of the in-order contents of a node that is not full and keeps all invariants |
| `KbTree.KbTree.constructor` | deps/twlib/include/TW/ktree.h:51-66 | a new tree is empty |
| `KbTree.KbTree.Put` | deps/twlib/include/TW/ktree.h:206-220 | kb_putp adds one occurrence of the key to the multiset; the contents stay sorted, leaves at one depth, every node but the root has t - 1 to 2t - 1 keys |
| `KbTree.KbTree.Del` | deps/twlib/include/TW/ktree.h:308-321 | kb_delp of a present key removes exactly one occurrence and keeps the same invariants, through the collapse of the root |
| `KbTree.KbTree.Get` | deps/twlib/include/TW/ktree.h:130-141 | kb_getp finds a key exactly when it is in the tree |
| `KbTree.KbTree.Interval` | deps/twlib/include/TW/ktree.h:148-164 | kb_intervalp gives the nearest keys on both sides, or the key itself twice |
| `KbTree.CutIsInterval` | deps/twlib/include/TW/ktree.h:148-164 | a cut of the sorted contents between keys below and above gives the nearest neighbours |
| `KbTraverse.GoDown` | deps/twlib/include/TW/ktree.h:338-346 | what a traversal still emits when it goes down into a child |
| `KbTraverse.ComeBack` | deps/twlib/include/TW/ktree.h:347-351 | what it still emits when it comes back from one |
| `KbTraverse.Traverse` | deps/twlib/include/TW/ktree.h:332-354 | the traversal with its explicit stack emits the sorted contents of the tree |
| `RbNodes.RotateLeft` | deps/twlib/include/TW/provos_rb_tree.h:347-365 | a left rotation with all parent and child pointers, anywhere in the tree |
| `RbNodes.RotateRight` | deps/twlib/include/TW/provos_rb_tree.h:367-385 | a right rotation with all parent and child pointers, anywhere in the tree |
| `RbInsert.RecolouredIsRedAt` | deps/twlib/include/TW/provos_rb_tree.h:427-432 | with a red uncle, recolouring moves the red-red conflict to the grandparent |
| `RbInsert.InLineLeft` | deps/twlib/include/TW/provos_rb_tree.h:439-440 | with a black uncle and red nodes in line, one rotation restores the colours |
| `RbInsert.BentLeft` | deps/twlib/include/TW/provos_rb_tree.h:433-440 | with a black uncle and a bend, two rotations restore the colours |
| `RbInsert.FixUnderLeft` | deps/twlib/include/TW/provos_rb_tree.h:425-441 | the loop body for a parent on the left: the conflict moves up or ends, search order and black heights kept |
| `RbInsert.FixUnderRight` | deps/twlib/include/TW/provos_rb_tree.h:441-457 | the loop body for a parent on the right |
| `RbInsert.InsertColor` | deps/twlib/include/TW/provos_rb_tree.h:418-460 | RB_INSERT_COLOR ends in a red-black tree of the same nodes |
| `RbInsert.Descend` | deps/twlib/include/TW/provos_rb_tree.h:614-624 | the search ends at the node with the key or at the empty place where it belongs |
| `RbInsert.Insert` | deps/twlib/include/TW/provos_rb_tree.h:608-636 | RB_INSERT returns the node with an equal key, or adds exactly the new node and leaves a red-black tree with consistent pointers and a black root |
| `RbRemove.BlackNephews` | deps/twlib/include/TW/provos_rb_tree.h:475-481 | a black sibling with black children painted red moves the shortage to the parent |
| `RbRemove.OuterNephewLeft` | deps/twlib/include/TW/provos_rb_tree.h:493-499 | a black sibling with a red outer child makes the shortage good in one rotation |
| `RbRemove.InnerNephewLeft` | deps/twlib/include/TW/provos_rb_tree.h:483-499 | a black sibling with only its inner child red makes it good in two |
| `RbRemove.ShortPass` | deps/twlib/include/TW/provos_rb_tree.h:466-535 | one pass of RB_REMOVE_COLOR moves the shortage up or ends it, on either side |
| `RbRemove.RemoveColor` | deps/twlib/include/TW/provos_rb_tree.h:462-538 | RB_REMOVE_COLOR turns a tree one black node short at one place into a red-black tree of the same nodes |
| `RbRemove.Splice` | deps/twlib/include/TW/provos_rb_tree.h:589-600 | an only child takes the place of its parent, with all pointers |
| `RbRemove.TakePlace` | deps/twlib/include/TW/provos_rb_tree.h:569-580 | the successor takes the place, pointers and colour of the removed node |
| `RbRemove.Successor` | deps/twlib/include/TW/provos_rb_tree.h:551-553 | the leftmost node on the right is the in-order successor |
| `RbRemove.SuccessorColors` | deps/twlib/include/TW/provos_rb_tree.h:549-587 | what the successor's departure does to the black heights |
| `RbRemove.RemoveInner` | deps/twlib/include/TW/provos_rb_tree.h:549-587 | removal of a node with two children |
| `RbRemove.Remove` | deps/twlib/include/TW/provos_rb_tree.h:540-605 | RB_REMOVE takes exactly the given node out and leaves a red-black tree: search order, pointers both ways, no red-red edge, equal black heights, black root |
| `RbOrder.InOrderSorted` | deps/twlib/include/TW/provos_rb_tree.h:678-719 | the in-order listing holds exactly the nodes, with increasing keys |
| `RbOrder.Find` | deps/twlib/include/TW/provos_rb_tree.h:639-655 | RB_FIND returns the node with the key, or null exactly when there is none |
| `RbOrder.NFind` | deps/twlib/include/TW/provos_rb_tree.h:657-675 | RB_NFIND returns the node with the least key that is at least the given one |
| `RbOrder.MinMax` | deps/twlib/include/TW/provos_rb_tree.h:721-734 | RB_MINMAX returns the first or the last node |
| `RbOrder.Next` | deps/twlib/include/TW/provos_rb_tree.h:678-697 | RB_NEXT goes from each node of the listing to the one after it |
| `RbOrder.Prev` | deps/twlib/include/TW/provos_rb_tree.h:700-719 | RB_PREV goes to the one before it |
| `RbOrder.NextPrev` | deps/twlib/include/TW/provos_rb_tree.h:678-719 | RB_NEXT and RB_PREV undo each other |
| `RbOrder.ListAll` | deps/twlib/include/TW/provos_rb_tree.h:748-751 | iterating RB_NEXT from the minimum lists every node once, in order |
| `RbOrder.HeightBound` | deps/twlib/include/TW/provos_rb_tree.h:65-66 | the height is at most twice the binary logarithm of n + 1 |
| `SplayNodes.RotatedOrder` | deps/twlib/include/TW/provos_rb_tree.h:93-103 | a rotation keeps the in-order sequence |
| `SplayNodes.FillLeftRep` | deps/twlib/include/TW/provos_rb_tree.h:117-122 | hanging a tree at the end of the left spine closes it into one tree in memory |
| `SplayNodes.NearestDecides` | deps/twlib/include/TW/provos_rb_tree.h:132-142 | after a splay the key is in the tree exactly when it is at the root |
| `Splay.SplayHead.RotateRight` | deps/twlib/include/TW/provos_rb_tree.h:93-97 | SPLAY_ROTATE_RIGHT in memory |
| `Splay.SplayHead.LinkLeft` | deps/twlib/include/TW/provos_rb_tree.h:105-109 | SPLAY_LINKLEFT moves the root to the end of the right spine |
| `Splay.SplayHead.LinkRight` | deps/twlib/include/TW/provos_rb_tree.h:111-115 | SPLAY_LINKRIGHT moves the root to the end of the left spine |
| `Splay.SplayHead.DescendLeft` | deps/twlib/include/TW/provos_rb_tree.h:223-233 | one round of the loop below the root keeps all nodes in order between the two spines |
| `Splay.SplayHead.DescendRight` | deps/twlib/include/TW/provos_rb_tree.h:234-243 | one round above the root |
| `Splay.SplayHead.Assemble` | deps/twlib/include/TW/provos_rb_tree.h:117-122 | SPLAY_ASSEMBLE joins the two spines and the middle tree |
| `Splay.SplayHead.Splay` | deps/twlib/include/TW/provos_rb_tree.h:214-284 | SPLAY and SPLAY_MINMAX keep the in-order sequence and bring the key, or a neighbour of where it would be, to the root |
| `SplaySet.SplaySet.Find` | deps/twlib/include/TW/provos_rb_tree.h:132-142 | SPLAY_FIND returns the node with the key, or null exactly when there is none |
| `SplaySet.SplaySet.Insert` | deps/twlib/include/TW/provos_rb_tree.h:169-191 | SPLAY_INSERT puts the node at its place in the order, or returns the one with its key |
| `SplaySet.SplaySet.Remove` | deps/twlib/include/TW/provos_rb_tree.h:193-212 | SPLAY_REMOVE takes exactly the node with the key out of the order |
| `SplaySet.SplaySet.MinMax` | deps/twlib/include/TW/provos_rb_tree.h:158-162 | the minimum and maximum splays return the first and the last node |
| `SplaySet.SplaySet.Next` | deps/twlib/include/TW/provos_rb_tree.h:144-156 | SPLAY_NEXT returns the node behind the given one |
| `SplaySet.SplaySet.ListAll` | deps/twlib/include/TW/provos_rb_tree.h:297-300 | SPLAY_FOREACH visits every node once, in order, while the tree is being splayed |
| `Fifo.SafeFifo.Add` | deps/twlib/include/TW/tw_fifo.h:1422-1451 | the section of add: the item goes to the end, unless the queue is disabled; the linked list stays the queue |
| `Fifo.SafeFifo.SetEnabled` | deps/twlib/include/TW/tw_fifo.h:1405-1420 | enable and disable change what a later add does, and no item |
| `Fifo.SafeFifo.AddEmpty` | deps/twlib/include/TW/tw_fifo.h:1533-1559 | the section of addEmpty |
| `Fifo.SafeFifo.AddToHead` | deps/twlib/include/TW/tw_fifo.h:1491-1531 | the section of addToHead: the item goes to the front |
| `Fifo.SafeFifo.Remove` | deps/twlib/include/TW/tw_fifo.h:1561-1585 | remove takes the first item, if there is one |
| `Fifo.SafeFifo.RemoveOrWait` | deps/twlib/include/TW/tw_fifo.h:1613-1629 | removeOrBlock up to the wait: an item, or one more blocked call |
| `Fifo.SafeFifo.RemoveAfterWait` | deps/twlib/include/TW/tw_fifo.h:1630-1649 | removeOrBlock after the wait: the first item if there still is one |
| `Fifo.SafeFifo.UnblockOne` | deps/twlib/include/TW/tw_fifo.h:1586-1600 | unblock signals exactly when the hand-kept count is positive, and lowers it |
| `Fifo.SafeFifo.UnblockEvery` | deps/twlib/include/TW/tw_fifo.h:1602-1610 | unblockAll broadcasts exactly when the count is positive, and clears it |
| `Fifo.SafeFifo.Clear` | deps/twlib/include/TW/tw_fifo.h:1764-1778 | clearAll empties the list |
| `FifoThreads.StepKeeps` | deps/twlib/include/TW/tw_fifo.h:1422-1649 | every critical section of every thread keeps: items in order and accounted for once, the count covers the sleepers, queued items are answered for while anybody sleeps |
| `FifoThreads.AlwaysInv` | deps/twlib/include/TW/tw_fifo.h:1422-1649 | that invariant holds in every state of every interleaving, spurious wake-ups included |
| `FifoThreads.NoLostWakeUp` | deps/twlib/include/TW/tw_fifo.h:1586-1649 | nobody sleeps beside a queued item once every add and every woken thread has run to its end |
| `FifoThreads.SignalNeverWithheld` | deps/twlib/include/TW/tw_fifo.h:1586-1600 | an unblock wakes a thread whenever one sleeps |
| `FifoThreads.FirstInFirstOut` | deps/twlib/include/TW/tw_fifo.h:1422-1649 | under any interleaving items leave in insertion order, each once |
| `FifoThreads.CountExact` | deps/twlib/include/TW/tw_fifo.h:1586-1629 | without spurious wake-ups the hand-kept count is the number of sleepers |
| `FifoThreads.StolenItem` | deps/twlib/include/TW/tw_fifo.h:1613-1649 | a run in which a woken removeOrBlock returns without an item, because another remove came first |
| `FifoThreads.EmptyHandedExactly` | deps/twlib/include/TW/tw_fifo.h:1613-1649 | in any run a resumed removeOrBlock finds nothing exactly when, since any earlier moment, as many items left as were there and were added; so something left since then or there was nothing to wake up for |
| `FifoThreads.WokenByAddGetsItem` | deps/twlib/include/TW/tw_fifo.h:1586-1649 | a removeOrBlock woken by the unblock behind an add to an enabled queue, with nothing removed or cleared since that add, takes the first item |
| `FifoThreads.RefusedItem` | deps/twlib/include/TW/tw_fifo.h:1435-1454 | a run in which it returns without an item and nobody else removes anything: the add on a disabled queue wakes it all the same |
| `TlvTree.ParsePrint` | nf/nfattributes.js:22-31 | a reader of the serialized attributes recovers every tree, whatever its depth |
| `TlvTree.PrintInjective` | nf/nfattributes.js:22-31 | different attribute trees have different serializations |
| `TlvTree.SmallFits` | nf/nfattr.js:82-87 | when the whole fits 16 bits, so does every length field inside it |
| `TlvTree.LeafLayout` | nl/rtnetlink.js:529-552 | an attribute byte by byte: length, type, data, zeros up to a multiple of four |
| `TlvTree.NestLayout` | nf/nfattr.js:198-203 | a nest byte by byte: length of header and contents, type with its top bit set, contents |
| `NfAttr.BuildIsPrint` | nl/rtnetlink.js:529-552 | buildRtattrBuf is header, payload and padding of a leaf |
| `NfAttr.GenericHex` | nf/nfattr.js:133-174 | the generic encoder turns 0x and digits into the number's bytes exactly for 2, 4 or 8 digits |
| `NfAttr.Attribute.IncrementNestLength` | nf/nfattr.js:82-87 | the length field is raised in place, or the write throws when it does not fit |
| `NfAttr.NewAttribute` | nf/nfattr.js:6-30 | an attribute object carries the bytes its specification and value call for, or the constructor throws |
| `NfAttributes.NfAttributes.UpdateNestHdrLen` | nf/nfattributes.js:22-31 | a nest header is raised by the sizes of everything behind it |
| `NfAttributes.NfAttributes.CloseNest` | nf/nfattributes.js:65-91 | after the update, header and contents are the serialization of the nest |
| `NfAttributes.NfAttributes.ParseField` | nf/nfattributes.js:61-99 | one key appends exactly the serialization of its attribute tree, or ends as that tree does |
| `NfAttributes.NfAttributes.ParseElements` | nf/nfattributes.js:80-83 | the elements of a list, one after the other |
| `NfAttributes.NfAttributes.ParseNfAttrs` | nf/nfattributes.js:54-100 | flattening with back-patched lengths yields exactly the bytes of the recursive serializer for the parameters, and throws exactly when it must |
| `NfAttributes.NfAttributes.WriteAttributes` | nf/nfattributes.js:42-52 | the buffers are handed over in order |
| `NfAttributes.NewNfAttributes` | nf/nfattributes.js:9-20 | a message object holds the serialization of the trees its parameters denote |
| `NfAttributes.MessageRecovered` | nf/nfattributes.js:54-100 | a receiver of the bytes finds exactly those trees |
| `NfTables.NftFits` | nf/nftables.js:233-488 | no attribute number of the tables touches the two flag bits |
| `NfMessages.TableSpecs` | nf/nftables.js:271-277 | what the table gives for each key of a table command: number and kind |
| `NfMessages.ChainSpecs` | nf/nftables.js:291-302 | and of a chain command |
| `NfMessages.HookSpecs` | nf/nftables.js:233-238 | and of its hook |
| `NfMessages.OtherChainSpecs` | nf/nftables.js:291-302 | and for the keys of chains that no command uses |
| `NfMessages.OtherRuleSpecs` | nf/nftables.js:315-325 | of rules |
| `NfMessages.OtherSpecs` | nf/nftables.js:396-402 | of counters, and of verdicts with a chain |
| `NfMessages.DigitsAsNumber` | nf/nfattr.js:176-200 | a number given by its decimal digits is written as the number itself |
| `NfMessages.GenericDecimal` | nf/nfattr.js:133-174 | the generic encoder, of a decimal text: the number, on half a byte for each decimal digit of what the digits are in base 16 |
| `NfMessages.TableMessage` | nf/node-netfilter.js:121-123 | a table command names the table in attribute 1, for every name |
| `NfMessages.ChainMessage` | nf/node-netfilter.js:137-150 | a receiver of a chain command finds table, name and type in attributes 1, 3 and 7 and the hook's number and priority in the nest 4 |
| `NfMessages.RuleNames` | nf/node-netfilter.js:89-118 | a receiver of a rule finds its table and chain by name in attributes 1 and 2 |
| `NfRule.MaskBits` | libs/common.js:68-78 | the binary digits of a mask byte read as its value |
| `NfRule.MaskFromCidr` | libs/common.js:60-81 | the hexadecimal mask of a prefix length |
| `NfRule.Actions.Header` | nf/node-netfilter.js:251-280 | a field name becomes a load of that header field and sets the width for the number after it |
| `NfRule.Actions.NumberAction` | nf/node-netfilter.js:281-304 | a number becomes a comparison with its hexadecimal digits filled up to the field's width |
| `NfRule.Actions.AddressAction` | nf/node-netfilter.js:322-376 | an address becomes a mask and a comparison, and throws for an octet above 255 |
| `NfRule.Actions.RuleAction` | nf/node-netfilter.js:89-118 | the parameters of a rule: protocol test, one load and test per criterion, verdict |
| `NfVm.AndHighOnes` | nf/nftables.js:446-454 | and with a mask of high ones clears the low bits |
| `NfVm.ClearIsBlock` | libs/common.js:60-81 | clearing j bits gives the first number of the block of 2^j |
| `NfElements.LoadReads` | nf/nftables.js:412-419 | a payload element, through the attribute tables and back, is the load that was meant |
| `NfElements.CompareReads` | nf/nftables.js:380-388 | a cmp element is decoded as a comparison with the generic encoder's bytes, and has no encoding where those are undefined |
| `NfElements.MaskReads` | nf/nftables.js:444-464 | a bitwise element is decoded with its mask and a zero xor |
| `NfElements.DecideReads` | nf/nftables.js:472-490 | an immediate element is decoded as NF_DROP, 0, for drop and NF_ACCEPT, 1, for accept |
| `NfRuleMeaning.MaskedValue` | libs/common.js:60-81 | a field anded with the mask of a prefix is the field's number with the bits behind the prefix cleared |
| `NfRuleMeaning.NumberFillsField` | nf/node-netfilter.js:281-304 | the compared bytes fill the loaded field exactly when the number is below 256^width |
| `NfRuleMeaning.ExecCriterion` | nf/node-netfilter.js:100-112 | the expressions of a criterion let exactly the packets through for which it holds |
| `NfRuleMeaning.ExecRule` | nf/node-netfilter.js:89-118 | the expressions of a rule give 0 (drop) or 1 (accept), as it says, exactly on matching packets |
| `NfRuleMeaning.CompilationPreservesMeaning` | nf/node-netfilter.js:89-118 | whenever a rule compiles, running its message on any packet drops it (0) or accepts it (1), as the rule says, if and only if the packet matches |
| `NfRuleMeaning.InRangeCompiles` | nf/node-netfilter.js:89-118 | a rule whose numbers fit their fields and octets fit a byte compiles exactly when its expressions, of a length that its criteria decide, stay below 2^16 bytes; otherwise the build throws |
| `NfRuleMeaning.CompilesExactly` | nf/node-netfilter.js:89-118 | the message of any rule has determined bytes exactly when each of its numbers has 2, 4 or 8 digits after padding, each of its octets fits a byte, and the expressions stay below 2^16 bytes; for another digit count the code sends what its buffer happened to hold |
| `NfRuleMeaning.NetCanMatch` | nf/node-netfilter.js:101-108 | an address criterion can hold for some packet exactly when no bit behind its prefix is set |
| `NfGrammar.RuleRoundTrip` | nf/node-netfilter.js:895-943 | parsing the printed text of a rule gives the rule and leaves nothing, for any blanks between its words, place by place |
| `NfGrammar.RuleTextInjective` | nf/node-netfilter.js:895-943 | different rules have different texts, whatever the blanks in either |
| `NfWords.NameRead` | nf/node-netfilter.js:1272-1362 | a name of letters of either case is read whole, with the spaces and tabs behind it |
| `NfWords.NameExactly` | nf/node-netfilter.js:1272-1362 | nothing that does not begin with a letter is a name |
| `NfWords.ProtocolsRead` | nf/node-netfilter.js:1506-1531 | tcp and udp before blanks are the protocols |
| `NfWords.FieldsRead` | nf/node-netfilter.js:1532-1600 | saddr, daddr, dport and prot before blanks are the fields |
| `NfWords.VerdictsRead` | nf/node-netfilter.js:1363-1373 | drop and accept are the verdicts |
| `NfWords.HexRead` | nf/node-netfilter.js:1601-1626 | of a hexadecimal number all digits are taken and only the first counts |
| `NfWords.RuleTaken` | nf/node-netfilter.js:895-943 | whatever text is taken for a rule is the words of that rule in their order, each behind a space or tab, and nothing else |
| `NfParser.Parser.Literal` | nf/node-netfilter.js:2288-2306 | a literal is consumed exactly when the text continues with it |
| `NfParser.Parser.ParseName` | nf/node-netfilter.js:1272-1361 | table and chain: letters and following blanks, or the position is kept |
| `NfParser.Parser.ParseProtocol` | nf/node-netfilter.js:1506-1530 | a protocol and blanks, or the position is restored |
| `NfParser.Parser.ParseField` | nf/node-netfilter.js:1532-1599 | a field name and blanks, or the position is restored |
| `NfParser.Parser.ParseNumber` | nf/node-netfilter.js:1601-1625 | a number and blanks, or the position is restored |
| `NfParser.Parser.ParseOctets` | nf/node-netfilter.js:1803-1956 | four decimal numbers with dots, or the position is restored |
| `NfParser.Parser.ParseCidr` | nf/node-netfilter.js:1745-1801 | a slash and one or two digits, or the position is kept |
| `NfParser.Parser.ParseIpv4` | nf/node-netfilter.js:1437-1464 | address, prefix and blanks, or the position is restored |
| `NfParser.Parser.ParseValue` | nf/node-netfilter.js:1374-1406 | a number, else an IPv4 address, else the IPv6 action throws |
| `NfParser.Parser.ParseCriterion` | nf/node-netfilter.js:959-980 | a field and a value |
| `NfParser.Parser.ParseCriteria` | nf/node-netfilter.js:906-917 | as many criteria as there are, at least one |
| `NfParser.Parser.ParseRule` | nf/node-netfilter.js:895-943 | a whole rule consumes what the grammar says, or the position is restored |
| `NfParser.ParseRuleText` | nf/node-netfilter.js:2435-2446 | parse answers with the rule exactly when the grammar matches the whole text, and throws otherwise; the throw of the address action within it, for an octet above 255, is modelled with the actions |
| `NfPipeline.ParsedIsGrammatical` | nf/node-netfilter.js:895-943 | whatever the parser accepts has four octets, a prefix of at most two digits and names of letters |
| `NfPipeline.MeaningOnTheWire` | nf/nfcommand.js:9-30 | the bytes of a rule message, parsed and run by a receiver, drop or accept exactly the packets the rule says |
| `NfPipeline.CompileText` | nf/nfcommand.js:9-30 | the text of a rule ends as the buffers of its serialized message exactly when the grammar matches all of it, its values have bytes and its expressions fit 16 bits, and throws exactly when the grammar does not match or an action or the message throws; otherwise the bytes are undetermined |
| `NfPipeline.BuildRuleMessage` | nf/nfcommand.js:9-30 | a rule ends as the buffers of its serialized message exactly when its values have bytes and its expressions fit 16 bits, and throws exactly when an action or the message does; otherwise the bytes are undetermined |
| `NfPipeline.TextMeaning` | nf/nfcommand.js:9-30 | for every accepted text, the bytes sent drop or accept every packet as the rule says |
| `NfPipeline.WrittenRuleMeaning` | nf/nfcommand.js:9-30 | a rule written out with any blanks, in range and short enough for 16-bit lengths, then parsed, compiled and run drops or accepts every packet as it says |
| `NlSocket.FramesOfJoin` | src/netlinksocket.cc:528-575 | any list of messages in one buffer splits into exactly those messages |
| `NlSocket.Request.NumberMessages` | src/netlinksocket.cc:409-435 | consecutive sequence numbers go into the headers, nothing else of the messages changes, and the window is recorded |
| `NlSocket.NumberedReads` | src/netlinksocket.cc:421 | the number is written to bytes 8 to 11, where it is read back, and no other byte changes |
| `NlSocket.Request.Receive` | src/netlinksocket.cc:528-575 | a received buffer adds exactly the replies of the reference walk that the window admits, in order, and records truncation and errors, with every length checked in the 32 bits of an int; no access but the copy of an accepted frame whose length wraps passes the received length, and there it stops |
| `NlSocket.LengthCheck` | src/netlinksocket.cc:535-537 | the check of a frame's length in signed 32 bits lets it pass exactly when it lies between a header and what was received, or from 2^31 to 2^31 + 15, where the subtraction wraps |
| `NlSocket.ReceivedAsMeant` | src/netlinksocket.cc:528-575 | replies are always as meant; the copy goes past the end exactly when the walk meets an accepted frame whose length wraps; the outcome is the meant one exactly when it meets no such length, save where an earlier truncation hides one passed over |
| `NlSocket.WrapBehind` | src/netlinksocket.cc:532-575 | behind any well-formed messages a frame whose length wraps is never recorded as truncated: it is copied past the end when accepted, and passed over with all that follows when not |
| `NlSocket.WrapAtOnce` | src/netlinksocket.cc:535-569 | 20 bytes that give 2^31 as their length: copied past the end where truncation was meant |
| `NlSocket.Request.PostReplies` | src/netlinksocket.cc:630-644 | without an error every queued reply is handed over once, in order |
| `NlSocket.JoinedRepliesAll` | src/netlinksocket.cc:528-575 | the loop over a buffer of kernel messages yields one reply per message |
| `NlSocket.HeaderOnlyDropped` | src/netlinksocket.cc:528-534 | receiving a buffer of kernel messages adds one reply per message exactly when the buffer is not a single header; then it adds none |
| `NlSocket.TroubleInBytes` | src/netlinksocket.cc:553-565 | what a frame says in its bytes: no trouble unless its type is 2; then cut short below 36 bytes, else the number in bytes 16 to 19, zero being none |
| `NlSocket.AnswerReads` | src/netlinksocket.cc:553-565 | the same of a message laid out by its fields |
| `NlSocket.AnswersReceived` | src/netlinksocket.cc:528-575 | any messages in one buffer, by what they say: a reply for each one taken, an error exactly for an error message with a number other than zero or a body cut short; a plain acknowledgement is none |
| `NlSocket.OwnWindow` | src/netlinksocket.cc:418-427 | a number is in the window of a request exactly when the request used it and the counter did not wrap inside it; a wrapped window admits none |
| `NlSocket.WindowsDisjoint` | src/netlinksocket.cc:418-427 | windows of two requests on one socket share no number, wherever the counter stands or wraps, while the two with what lies between use at most 2^32 numbers |
| `NlSocket.AnswerGoesHome` | src/netlinksocket.cc:546-550 | an answer to a message is accepted by its request exactly when the counter did not wrap inside that request, and never by a later one |
| `NlSocket.AcceptedExactly` | src/netlinksocket.cc:546-550 | in whatever order requests take numbers, an answer to any number is accepted by a request exactly when that number was given out between its first and last one and the counter does not wrap between these |
| `Circular.SafeCircular.constructor` | deps/twlib/include/TW/tw_circular.h:232-245 | a new ring is empty |
| `Circular.SafeCircular.AddIfRoom` | deps/twlib/include/TW/tw_circular.h:383-397 | an item goes to the end of the sequence exactly when there is room, across the wrap and in either direction |
| `Circular.SafeCircular.Remove` | deps/twlib/include/TW/tw_circular.h:580-597 | the first item leaves, if there is one; an emptied ring starts over |
| `Circular.SafeCircular.Reverse` | deps/twlib/include/TW/tw_circular.h:197-205 | swapping the two indices reverses the sequence in place |
| `Circular.SafeCircular.Clear` | deps/twlib/include/TW/tw_circular.h:777-793 | nothing is left and the ring is enabled |
| `Circular.SafeCircular.CloneFrom` | deps/twlib/include/TW/tw_circular.h:252-285 | the same sequence in memory of its own when the ring holds objects; otherwise only as many items |
| `Circular.SafeCircular.TransferFrom` | deps/twlib/include/TW/tw_circular.h:292-330 | the items move over; the ring they came from is a valid empty ring exactly when it was not reversed or its capacity is at most one |
| `Circular.SafeCircular.PutWhereRead` | deps/twlib/include/TW/tw_circular.h:324-326 | in a ring so emptied the next item is put where it will be read exactly when that ring is valid |
| `Circular.SafeCircular.Place` | deps/twlib/include/TW/tw_circular.h:459-471 | the place get and set use, after their walk with its wrap |
| `Circular.SafeCircular.PlaceForward` | deps/twlib/include/TW/tw_circular.h:459-471 | forward, it is the place of item n exactly when the walk does not end at the wrap; then it is one past the array |
| `Circular.SafeCircular.PlaceBackward` | deps/twlib/include/TW/tw_circular.h:459-471 | reversed, it is the place of item n exactly when 2n is the number of items (one less in a ring entered at index 0), or n is 0 and the ring full, and the walk stays inside the array; it is one past the array exactly for item 0 of a ring entered below index 2, or where the walk ends at the wrap |
| `Circular.RunsAgree` | deps/twlib/include/TW/tw_circular.h:195-205 | on the sequence of items, every run with reversals gives the replies and items of a double-ended queue that is turned around instead |
| `Circular.Run` | deps/twlib/include/TW/tw_circular.h:195-597 | any run of operations on the ring in memory gives the replies and items of the same run on a bounded sequence and on the queue that is turned around, and without clear conserves its items |
| `Circular.Conserved` | deps/twlib/include/TW/tw_circular.h:383-397 | on the sequence of items, over any run without clear, what was there and what went in is what came out and what is left; the bound is kept |
| `BufBlks.MemBlk.Release` | deps/twlib/include/TW/tw_bufblk.h:250-265 | one holder less, and freed when none is left |
| `BufBlks.Heap.FreedExactlyUnused` | deps/twlib/include/TW/tw_bufblk.h:250-265 | in every valid heap a memory is freed exactly when no live block is on it |
| `BufBlks.BufBlk.OfSize` | deps/twlib/include/TW/tw_bufblk.h:574-590 | a block with new memory, counted once |
| `BufBlks.BufBlk.Sharing` | deps/twlib/include/TW/tw_bufblk.h:379-394 | a block on memory in use, counted once more |
| `BufBlks.BufBlk.CopyFrom` | deps/twlib/include/TW/tw_bufblk.h:720-727 | as many bytes as fit are appended, and nothing else of the memory changes |
| `BufBlks.BufBlk.TotalLength` | deps/twlib/include/TW/tw_bufblk.h:810-818 | the number of bytes the chain shows |
| `BufBlks.BufBlk.AddToEnd` | deps/twlib/include/TW/tw_bufblk.h:705-711 | one chain follows the other |
| `BufBlks.BufBlk.AssignFromBlk` | deps/twlib/include/TW/tw_bufblk.h:432-460 | new blocks show the same bytes of the same memories, block by block, and every count still equals the number of live blocks |
| `BufBlks.BufBlk.Duplicate` | deps/twlib/include/TW/tw_bufblk.h:536-538 | a chain of new blocks with the same windows; nothing is freed |
| `BufBlks.BufBlk.Release` | deps/twlib/include/TW/tw_bufblk.h:667-679 | the chain goes out of service, and a memory is freed exactly when no live block is left on it |
| `BufBlks.RestStep` | deps/twlib/include/TW/tw_bufblk.h:992-997 | the search for an offset loses no byte from block to block |
| `BufBlks.BufBlk.Gather` | deps/twlib/include/TW/tw_bufblk.h:1009-1025 | bytes that span blocks are copied, in order, to a memory of their own, as many as there are |
| `BufBlks.BufBlk.GetContigBlock` | deps/twlib/include/TW/tw_bufblk.h:987-1030 | succeeds exactly when 0 <= offset < total, size >= 0 and offset + size <= total, with exactly that slice; shared when it lies in one block, copied otherwise; a failed call leaves a block with all that was there exactly when the offset lies in a block that another follows; with a negative offset or size, exactly when and which stray window is read or handed out; counts stay exact |
| `BufBlks.BufBlkIter.constructor` | deps/twlib/include/TW/tw_bufblk.h:1132-1137 | the walk is over a duplicate and starts with all bytes ahead |
| `BufBlks.BufBlkIter.GetNextChunk` | deps/twlib/include/TW/tw_bufblk.h:1148-1176 | chunk and remainder make up what was ahead; none exactly at the end; the size asked for bounds it |
| `BufBlks.ReadAll` | deps/twlib/include/TW/tw_bufblk.h:1148-1176 | over a whole walk the chunks end to end are the bytes that were ahead, for any size of chunk |
| `BufBlks.BufBlkIter.PreviewNextChunk` | deps/twlib/include/TW/tw_bufblk.h:1188-1211 | the same chunk, without moving |
| `BufBlks.BufBlkIter.CopyNextChunks` | deps/twlib/include/TW/tw_bufblk.h:1222-1253 | as much as there is or fits is copied, across blocks, and the walk stands behind it |
| `BufBlks.BufBlkIter.Rewind` | deps/twlib/include/TW/tw_bufblk.h:1261-1264 | all bytes are ahead again |
| `BufferPack.IntComesBack` | libs/bufferpack.js:28-41 | an integer of any width, sign and byte order comes back clamped to its type |
| `BufferPack.IntBounds` | libs/bufferpack.js:137-145 | the bounds of the six integer types in numbers |
| `BufferPack.ByteExactly` | libs/bufferpack.js:28-41 | a number from -2^7 to 2^7 - 1, or 0 to 2^8 - 1, is the one byte of its value modulo 2^8 and comes back |
| `BufferPack.ShortExactly` | libs/bufferpack.js:28-41 | from -2^15 to 2^15 - 1, or 0 to 2^16 - 1, two bytes in either order |
| `BufferPack.LongExactly` | libs/bufferpack.js:28-41 | from -2^31 to 2^31 - 1, or 0 to 2^32 - 1, four bytes in either order |
| `BufferPack.OutOfRange` | libs/bufferpack.js:38 | a number out of range is written as the nearest one in range |
| `BufferPack.UnitsComeBack` | libs/bufferpack.js:149-157 | a series comes back exactly when every unit of it is in range |
| `BufferPack.ItemComesBack` | libs/bufferpack.js:180-212 | one element comes back exactly when its values are faithful to it, and then from its own bytes |
| `BufferPack.RoundTrip` | libs/bufferpack.js:170-271 | unpack gives back what packTo wrote exactly when every value is faithful: lengths right, integers in range, no zero byte inside a terminated string |
| `BufferPack.CalcLenExact` | libs/bufferpack.js:324-339 | calcLength is the fixed size of a format and the texts it counts, at one value per element; it is what packTo needs exactly when these texts are as long as the ones packTo writes |
| `BufferPack.PackSize` | libs/bufferpack.js:225-271 | packTo finishes exactly when there are values enough and room for the fixed size and the texts written, and then has written just that |
| `BufferPack.AlignedMeasures` | libs/bufferpack.js:324-339 | without a repeated number or character in front of an S the texts counted are the texts written |
| `BufferPack.Codec.EnInt` | libs/bufferpack.js:36-41 | the loop of masks and shifts writes the two's complement bytes of the clamped value, in either order, and nothing else |
| `BufferPack.Codec.DeInt` | libs/bufferpack.js:28-35 | the loop of sums reads the integer, sign included |
| `BufferPack.Codec.EnString` | libs/bufferpack.js:47-49 | exactly l codes, cut off or filled up with zeros |
| `BufferPack.FillCodes` | libs/bufferpack.js:47-49 | the codes as far as there are any, then zeros |
| `BufferPack.Codec.PackSeries` | libs/bufferpack.js:155-157 | units one after the other |
| `BufferPack.Codec.PackTo` | libs/bufferpack.js:225-271 | bytes of the whole format at the offset, or false, or an exception for a missing string; nothing before the offset changes |
| `BufferPack.Codec.UnpackSeries` | libs/bufferpack.js:149-152 | n units read in a row |
| `BufferPack.Codec.Unpack` | libs/bufferpack.js:170-222 | the values of the whole format, or undefined, or a search for a zero byte that never ends |
| `BufferPack.Codec.CalcLength` | libs/bufferpack.js:324-339 | the length of the format: NaN where a number stands for a text, an exception where a value is missing |
| `BufferPack.Codec.Pack` | libs/bufferpack.js:313-321 | a buffer of the calculated length, filled exactly when there are values enough and the texts written are no longer than the texts counted, and filled to its end exactly when they are as long |
| `Rtnetlink.HangsExactly` | nl/rtnetlink.js:612-637 | the attribute loop never ends exactly when it comes to an attribute that declares length 0 |
| `Rtnetlink.AttributesComeBack` | nl/rtnetlink.js:608-640 | any list of attributes written one after the other is read back as the fields it stands for |
| `Rtnetlink.NamesDistinct` | nl/rtnetlink.js:22-189 | no table gives two types one name |
| `Rtnetlink.EveryFieldFound` | nl/rtnetlink.js:621-631 | attributes of different types are all found under their names, texts without their last byte |
| `RtNames.ConstantFound` | nl/rtnetlink.js:554-640 | where names and constants agree, the data built with the number of a named constant is found under its name, a text without its last byte |
| `RtNames.LinkFieldFound` | nl/rtnetlink.js:22-98 | so it is for link_attributes: IFLA_ADDRESS is found under address, and so on |
| `RtNames.AddrFieldFound` | nl/rtnetlink.js:100-122 | for addr_attributes |
| `RtNames.RouteFieldFound` | nl/rtnetlink.js:124-164 | for route_attributes |
| `RtNames.NeighFieldFound` | nl/rtnetlink.js:166-190 | for neigh_attributes |
| `RtNames.TextExactly` | nl/rtnetlink.js:625-629 | of these names ifname and label are texts, and no other |
| `RtNames.AsciiKeeps` | nl/rtnetlink.js:627 | a text of ASCII is kept as it is |
| `RtNames.LinkOperations` | nl/rtnetlink.js:241-260 | the operation of a type begins with the name of its constant: of links |
| `RtNames.AddrOperations` | nl/rtnetlink.js:241-260 | of addresses |
| `RtNames.RouteOperations` | nl/rtnetlink.js:241-260 | of routes |
| `RtNames.NeighOperations` | nl/rtnetlink.js:241-260 | of neighbours |
| `RtNames.FamilyByName` | nl/rtnetlink.js:571-590 | each type is read with the template and the names that the name of its constant calls for |
| `RtNames.OnlyThese` | nl/rtnetlink.js:571-596 | no other type is read |
| `RtNames.NothingExactly` | nl/rtnetlink.js:557-596 | the empty object is given exactly for what is no single whole message of those types |
| `RtNames.LinkTemplate` | nl/rtnetlink.js:14 | the fields of ifinfomsg, each where a receiver reads it |
| `RtNames.AddrTemplate` | nl/rtnetlink.js:12 | of ifaddrmsg |
| `RtNames.RouteTemplate` | nl/rtnetlink.js:9 | of rtmsg |
| `RtNames.NeighTemplate` | nl/rtnetlink.js:6 | of ndmsg |
| `Rtnetlink.PlainRoundTrip` | nl/rtnetlink.js:5-18 | a template packs to its size and reads back as it was when its fields are in range |
| `Rtnetlink.TemplateSkipped` | nl/rtnetlink.js:192-241 | the parser starts behind the template for every supported type but RTM_DELNEIGH and RTM_GETNEIGH, and only for those |
| `Rtnetlink.MessageComesBack` | nl/rtnetlink.js:554-606 | header, template and attributes of any message of those types are parsed back to the same fields and operation |
| `Rtnetlink.NeighborHangs` | nl/rtnetlink.js:554-606 | a message of the other two types with state 0 is never parsed to its end |
| `Rtnetlink.NeighborReads` | nl/rtnetlink.js:554-606 | the outcome of parsing any message of the other two types, by its state and the number behind it, which the code takes for the length and the type of an attribute |
| `Rtnetlink.NeighborComesBack` | nl/rtnetlink.js:554-606 | with a state of 1 to 4 such a message is parsed back as it was exactly when that number names no attribute, or one that the message has too |
| `Rtnetlink.BuildRtattrBuf` | nl/rtnetlink.js:529-552 | the attribute as the plain serializer prints it |
| `Rtnetlink.SendNetlinkCommand` | nl/netlink.js:127-138 | length, type, flags, sequence number and port are where a receiver reads them, at 0, 4, 6, 8 and 12, and behind the header the buffers end to end |
| `Rtnetlink.HeaderLayout` | nl/netlink.js:18 | the header of any message whose fields are in range, field by field |
| `Rtnetlink.ParseAttrs` | nl/rtnetlink.js:608-640 | the loop with its moving index is the walk from attribute to attribute |
| `Rtnetlink.ParseRtattributes` | nl/rtnetlink.js:554-606 | fields, template and operation of a message, the empty object for what is not one, or no result |

## Left out

- Words.KRoundUp32Correct: words are natural numbers below 2^32 with their bit operations defined bit by bit.
- KHashTable.Table.Put: needs a table that is not exhausted, that is, one that has not claimed its bound at 2^31 buckets; beyond that the size arithmetic leaves 32 bits.
- KHashTable.Table.Resize: the bound n * 0.77 + 0.5 is read as an exact rational number.
- KHashTable.Table.MakeRoom: reallocation is a new array with the old contents; running out of memory is not modelled.
- TwKHash.Run: runs whose map stays below 2^30 entries at every addition, so that doubling stays within 32 bits; finds and removals are not bounded.
- TwKHash.Wrapper.AddReplace: values are stored by value; the owned pointers, their destructors and the lock are not modelled.
- KbNodes.Split: keys are integers in place of a type with a comparison; key and child arrays are sequences in fields, so memmove is slicing; the capacity 2t - 1 is proved as an invariant, n_nodes is not kept.
- KbTree.KbTree.Del: the key must be in the tree, as the code assumes.
- RbRemove.Remove: keys are integers; RB_AUGMENT is empty, as it is by default.
- Splay.SplayHead.Splay: the tree must not be empty, as the code assumes; the two functions for a key and for an extreme are one method, for a probe that is a key, below every key or above every key.
- SplaySet.SplaySet.Remove: takes a key and answers whether it was there, where the code takes a node with that key and returns this argument or NULL.
- SplaySet.SplaySet.Next: the given node must be in the tree, as the code assumes.
- Fifo.SafeFifo.AddEmpty: on a disabled queue the code dereferences a null pointer; the model returns null.
- FifoThreads.StepKeeps: peekOrBlock and timed waits (they take a signal without an item), iterators, assignment, transferFrom and the bounded queue are not modelled; addToHead is modelled as a section only, since it is no first-in-first-out operation.
- NfAttr.GenericHex: text is ASCII; numbers are below 2^53; 64-bit attributes, lengths for which the code leaves its buffer uninitialised, and coercions of objects have no outcome in the model (Unmodelled).
- NfAttr.NewAttribute: writes of payload numbers cut off high bytes, since the code passes a true third argument to the write functions.
- NfAttributes.NfAttributes.ParseNfAttrs: attribute numbers are below 2^15, as in all tables of the repository (NfTables.NftFits); Object.keys of a number is empty.
- NfRuleMeaning.CompilationPreservesMeaning: says nothing where the message is not determined (numbers with other than 2, 4 or 8 digits after padding) or too long for its length fields.
- NfVm.Step: that a comparison of unequal length never matches is an assumption, since the receiver is not in the repository.
- NfRuleMeaning.ExecRule: comparisons other than equality and masks of the wrong length end a rule in the receiver's model; the compiler emits neither for IPv4 rules with sensible criteria.
- KbDelete.Delete: keys are integers, so the search key that a merge writes into the node (ktree.h, line 259) cannot be told from the stored one that compares equal.
- NfParser.ParseRuleText: the action of an address throws within the parse for an octet above 255; here it does so in NfRule.Actions.RuleAction, and NfPipeline.CompileText throws either way.
- NfParser.Parser.ParseRule: the parser is modelled from rule_expression on; operation, family, table and chain commands and error messages are left out, and so are IPv6 values, for which the default family makes the actions throw.
- NlSocket.Request.Receive: the system call, its modes and its errors are left out; a receive is some byte string shorter than 2^31. Where the copy would go past the end of it the model stops, before the frame is counted or queued.
- NlSocket.WindowsDisjoint: the numbers of one request are consecutive and an increment is one step; requests are numbered on worker threads without a lock (netlinksocket.cc, line 296), which may number two messages alike. Requests that only take turns are covered by NlSocket.AcceptedExactly.
- NlSocket.Request.PostReplies: callbacks and the exported buffer objects are left out.
- `KHASH_LINEAR`, the set variant of khash, `tw_khash2.h`, `tw_ktree.h` and the remaining containers of twlib: siblings of what is modelled, or easy.
- Circular.SafeCircular.Remove: calls that block, and the semaphore itself, whose header is not part of this model: its count is a natural number; iterators are left out.
- BufBlks.BufBlk.GetContigBlock: where a negative offset or size leads to a stray window the model says which and stops; the block made on it is not modelled.
- BufBlks.BufBlk.Release: a deleted block stays an object that is out of service; the mutex around each count, memory the caller provides, deepCopy, resize, eatBytes and assignment are left out.
- BufBlks.BufBlk.AssignFromBlk: blocks after the first must have memory, since the code checks out their memory without asking; marks and flags of the copies are left out.
- BufBlks.BufBlkIter.CopyNextChunks: at the end the code leaves the count unset; the model returns 0.
- BufferPack.RoundTrip: formats are given as their elements, not as text; field names, floats and values of the wrong type are left out; characters are bytes.
- BufferPack.Codec.Pack: what the buffer made for the length NaN is, is left to the runtime (Undetermined).
- Rtnetlink.NeighborComesBack: from state 5 on the parser goes on inside the attributes; what it makes of them is stated by NeighborReads alone.
- Rtnetlink.MessageComesBack: template fields are listed by position, not by name; bytes of a text field count without their top bit.
- Route, address and TUN operations, logging, error tables and the JavaScript command builders.
