# The switch, its data structures and two network scripts, verified in Dafny

This project models the OpenFlow switch under `portland-ns3/openflow` (the virtual port table and its red-black
tree, the flow table chain, the packet-in rate limiter, the packet buffers, CRC-32, action lists and incremental
checksums), the wiring loops of `BCube.cc` and the worker threads of `test.py`, and proves what they promise.

Code that updates objects in place is written as classes and methods over the same fields: tree nodes with parent
pointers and two sentinels, virtual port entries with parent pointers, bucket arrays, the two lists of the linear
table, the queues and counters of the rate limiter, the packet buffers. Each such method is proved against a
specification, and what the code promises is proved about that specification.

- **Red-black tree** (`RedBlack*.dfy`). A tree carries its in-order sequence as ghost state, and every node its place
  in it. Shape, colours and black heights are local conditions on a node and its neighbours; `TraversalIsOrder` and
  `EqualBlackHeights` show that they mean the global invariants. Insertion and deletion are the loops of the code,
  case by case.
- **Virtual ports** (`VportTable.dfy`). Entries live in that tree. A ghost depth makes chains of parents well founded.
- **Flow tables** (`FlowKeys`, `LinearTable`, `HashTable`, `Hash2`, `HashIterate`, `Chain`, `AddFlow`, `ChainExamples`).
  `Valid()` of the chain is kept by every insertion, modification, deletion and timeout, so what is proved from it holds
  after any sequence of them. `LookupIsBest` gives the exact condition under which the chain obeys the matching rule
  (section 3.4 of the OpenFlow Switch Specification).
- **Rate limiter**. `RateLimit.dfy` is a machine over events whose runs have the rate bound, conservation, order and
  fairness; `RateLimiter.dfy` is the code, which extends a ghost record of events and keeps it a legal run;
  `DropChoice.dfy` counts the random draws that lead to each choice of a queue to drop from.
- **Packet buffers** (`PacketPool.dfy`), in the same way, over calls.
- **CRC-32** (`Crc32.dfy`, `Words.dfy`), **actions** (`Actions.dfy`), **checksums** (`Checksum.dfy`), **BCube**
  (`BCube.dfy`) and **workers** (`Workers.dfy`, a machine over the steps of all threads).

What the code does otherwise than one would expect, each with its exact condition or a concrete run:

- Removing a virtual port that others are on leaves dangling parents (`Remove`, `RemovalCanDangle`).
- A non-strict modification or deletion also covers entries with wildcards that the description has not
  (`DescriptionCovers`).
- The hash tables answer for packets with other MPLS labels (`LookupIsBest`, `LabelsIgnored`).
- An exact flow can be shadowed by a wildcarded one of priority 65535 (`Chain.Insert`, `Shadowed`, `ShadowingKeys`).
- On little-endian machines a deletion filtered by an output port compares 16 bits with 32 and misses the flows meant
  (`HasOutPort`, `FilteredDeleteMisses`).
- An output to `OFPP_NONE` passes validation on little-endian machines (`OutputsRefused`, `NonePasses`).
- An output to port 0xffffffff is silently dropped (`DeferredDropsReached`, `AllOnesVanishes`).
- The random choice among the longest queues of the rate limiter favours queue 0 when it is one of several (`Uniform`,
  `TwoTied`).
- A UDP datagram without checksum is given one, which is wrong after most changes of port or address
  (`UdpWithoutChecksum`, `UdpAddressWithoutChecksum`, `UdpSpoilt`, `UdpSpoiltByAddress`).

Where a comment and the code differ the code is followed: insertion into a table returns 1 on success and 0 on failure,
although `table.h` line 51 says otherwise.

`dafny verify dfyconfig.toml` checks the whole project.

## Model

| member | source | states |
|---|---|---|
| `RedBlackTree.RotateLeft` | portland-ns3/openflow/datapath/kred-black-tree.c:73-112 | a left rotation keeps the search-tree shape, the in-order sequence and every node's identity, and changes no colour |
| `RedBlackTree.RotateRight` | portland-ns3/openflow/datapath/kred-black-tree.c:128-166 | the mirror image of the left rotation |
| `RedBlackAttach.TreeInsertHelp` | portland-ns3/openflow/datapath/kred-black-tree.c:179-210 | the new leaf is hung where the in-order position behind all keys less than or equal to its own is |
| `RedBlackInsert.Climb` | portland-ns3/openflow/datapath/kred-black-tree.c:229-283 | the insertion fix-up ends, and turns a tree with one possible red-red edge at the new node into one without |
| `RedBlackInsert.RBTreeInsert` | portland-ns3/openflow/datapath/kred-black-tree.c:229-283 | all red-black invariants and the key order are kept; the new node enters the in-order sequence right behind the keys less than or equal to its own; all other nodes keep their identity, key and info |
| `RedBlackWalk.TreeSuccessor` | portland-ns3/openflow/datapath/kred-black-tree.c:299-321 | the next node of the in-order sequence, or nil at its end |
| `RedBlackWalk.TreePredecessor` | portland-ns3/openflow/datapath/kred-black-tree.c:334-353 | the previous node of the in-order sequence, or nil at its start; so the two walks undo each other |
| `RedBlackFixUp.RBDeleteFixUp` | portland-ns3/openflow/datapath/kred-black-tree.c:509-571 | a tree whose black heights agree except for one missing black at a given node becomes fully balanced again, with the same nodes in the same order |
| `RedBlackDelete.SwappedBalanced` | portland-ns3/openflow/datapath/kred-black-tree.c:616-626 | putting the cut-out successor with the place, links and colour of the deleted node keeps every invariant |
| `RedBlackDelete.RBDelete` | portland-ns3/openflow/datapath/kred-black-tree.c:588-637 | all red-black invariants and the key order are kept; the in-order sequence loses exactly the deleted node; every other node keeps its identity, key and info, also when the successor takes the deleted node's place |
| `RedBlackQuery.SubtreeIsSpan` | portland-ns3/openflow/datapath/kred-black-tree.c:370-378 | walking the child pointers of a subtree in order gives a contiguous stretch of the in-order sequence |
| `RedBlackQuery.TraversalIsOrder` | portland-ns3/openflow/datapath/kred-black-tree.c:370-378 | walking the child pointers from the root in order gives exactly the stored nodes in the order that the other contracts speak of |
| `RedBlackQuery.EqualBlackHeights` | portland-ns3/openflow/datapath/kred-black-tree.c:509-637 | the invariant means what it should: any two paths from the root to nil pass the same number of black nodes |
| `RedBlackQuery.SizeBound` | portland-ns3/openflow/datapath/kred-black-tree.c:472-490 | a subtree of black height b holds at least 2^b - 1 nodes |
| `RedBlackQuery.QueryCost` | portland-ns3/openflow/datapath/kred-black-tree.c:472-490 | 2^c <= (n + 1)^2 for any c up to twice the black height of a tree of n nodes |
| `RedBlackQuery.RBExactQuery` | portland-ns3/openflow/datapath/kred-black-tree.c:472-490 | finds a node if and only if the key is present, with at most 2 log2(n + 1) comparisons (written as 2^c <= (n + 1)^2) |
| `RedBlackQuery.RBEnumerate` | portland-ns3/openflow/datapath/kred-black-tree.c:651-671 | the stack is the contiguous stretch of the in-order sequence with exactly the keys between low and high, duplicates included |
| `VportTable.Table.Lookup` | portland-ns3/openflow/datapath/switch-port.c:90-109 | null exactly when no live entry has the port number |
| `VportTable.Table.Insert` | portland-ns3/openflow/datapath/switch-port.c:113-160 | accepted exactly when the parent is another port, in range, and physical or live; then tree, count and parent chains are consistent with the entry added |
| `VportTable.Table.RemovalKeepsParents` | portland-ns3/openflow/datapath/switch-port.c:163-180 | after a removal all parent pointers lead to live entries if and only if no entry pointed at the removed one |
| `VportTable.Table.Remove` | portland-ns3/openflow/datapath/switch-port.c:163-180 | removes exactly the entry of that port; the code does not look for children, and the chains stay sound if and only if there are none |
| `VportTable.Table.AddVport` | portland-ns3/openflow/datapath/forward.c:339-392 | the exact conditions of success, the live entries after it, and that port numbers stay unique |
| `VportTable.Table.PathFacts` | portland-ns3/openflow/datapath/forward.c:52-73 | a chain of parents never visits an entry twice and ends at a physical port |
| `VportTable.Table.RunThrough` | portland-ns3/openflow/datapath/forward.c:31-77 | a fragment to drop changes nothing and sends nothing; otherwise the path leads from the entry of the port over parent pointers to a physical port, every entry on it, and no other, does its actions to the packet as the one before left it and counts it once with the size it then has; chain matches rise by the path length less one; what is sent is the clones of the entries and then the packet, as the last entry left it, by the physical port of that entry; without clones it is sent exactly once |
| `VportTable.ClonesInOrder` | portland-ns3/openflow/datapath/forward.c:52-73 | the clones of each entry are among all that is sent, whole, behind those of the entries before and ahead of those of the entries after |
| `VportTable.RemovalCanDangle` | portland-ns3/openflow/datapath/switch-port.c:163-180 | two ports, the second on the first, and the first removed: the table is left with a parent pointer to a removed entry |
| `Crc.Table.constructor` | portland-ns3/openflow/datapath/crc32.c:10-25 | the table holds the eight-step register value for every byte |
| `Crc.Table.Calculate` | portland-ns3/openflow/datapath/crc32.c:29-43 | the byte-table loop computes the bit-at-a-time CRC for every polynomial and every byte string |
| `Crc.ByteStep` | portland-ns3/openflow/datapath/crc32.c:37-41 | one table look-up equals eight bit steps |
| `Crc.CrcIsRemainder` | portland-ns3/openflow/datapath/crc32.c:29-43 | the CRC is the remainder of dividing the message, followed by 32 zero bits, by the polynomial, as long division over GF(2) computes it |
| `Crc.CrcLinear` | portland-ns3/openflow/datapath/crc32.c:29-43 | the CRC of the bytewise XOR of two inputs of equal length is the XOR of their CRCs |
| `Words.MaskIsModulo` | portland-ns3/openflow/datapath/table-hash.c:30-37 | masking with a power of two less one is the remainder modulo that power |
| `FlowKeys.OverlapIsCommonPacket` | portland-ns3/openflow/datapath/flow.c:66-73 | two keys overlap if and only if some concrete packet matches both, address prefixes included |
| `FlowKeys.MakeNwMask` | portland-ns3/openflow/datapath/flow.c:90-94 | the low six bits, the shift, the subtraction and the complement give a one for each of the leading 32 - n bits, and none from n = 32 on |
| `FlowKeys.PrefixMask` | portland-ns3/openflow/datapath/flow.c:90-94 | a mask of n wildcarded bits compares exactly the leading 32 - n bits, and none from 32 on |
| `FlowKeys.MatchesMeans` | portland-ns3/openflow/datapath/flow.c:31-61 | a packet matches an entry if and only if every field agrees whose wildcard bit, by its number, is clear, and the addresses agree but for as many trailing bits as their 6-bit wildcard fields say |
| `FlowKeys.FieldsFreed` | portland-ns3/openflow/datapath/flow.c:31-61 | changing a field whose wildcard bit is set never changes whether a packet matches |
| `FlowKeys.AddressesFreed` | portland-ns3/openflow/datapath/flow.c:31-61 | nor does changing wildcarded trailing bits of an address |
| `FlowKeys.DescriptionCovers` | portland-ns3/openflow/datapath/flow.c:75-88 | every packet of an entry matches a description if and only if the entry is covered by it without strictness and has no wildcard that the description has not; the code tests the first alone |
| `FlowKeys.StrictDescription` | portland-ns3/openflow/datapath/flow.c:75-88 | with strictness an entry is covered if and only if it has the wildcards of the description and matches the same packets |
| `FlowKeys.EverythingMatches` | portland-ns3/openflow/datapath/flow.c:75-88 | a description with all wildcards covers every entry |
| `FlowKeys.HeadBytesDiffer` | portland-ns3/openflow/datapath/table-hash.c:30-37 | the hashed bytes are 32 and tell any two heads apart, field by field, as wide as they are |
| `FlowKeys.ExtractMatch` | portland-ns3/openflow/datapath/flow.c:96-166 | the masks follow from the wildcards; every field and every bit of the wildcards of the result is given in terms of the message: layers that are not known are wildcarded and zero, layers that are not there exact and zero, all else is taken over; the flag of label 1 is inverted exactly when there is no label 1, that of label 2 exactly when there is neither |
| `FlowKeys.ExactMatch` | portland-ns3/openflow/datapath/flow.c:56-61 | a packet matches an entry without wildcards if and only if the compared heads and both labels agree |
| `FlowKeys.SameWildcardsTransitive` | portland-ns3/openflow/datapath/flow.c:66-73 | among keys of equal wildcards overlap is symmetric and transitive, so an insertion has at most one entry to replace |
| `LinearTable.Flow.HasOutPort` | portland-ns3/openflow/datapath/flow.c:204-233 | true exactly when no port was asked for, or some output action names the port that the 16 bits are taken for: the port itself on a big-endian machine, 2^16 times its number on a little-endian one |
| `ByteOrder.LoadedAlike` | portland-ns3/openflow/datapath/flow.c:217-223 | a 32-bit and a 16-bit field in network order are loaded alike exactly for those ports |
| `LinearTable.Linear.FirstMatchIsBest` | portland-ns3/openflow/datapath/table-linear.c:25-35 | the search finds null exactly when nothing matches, otherwise the match of highest priority, and among those the one of lowest serial number |
| `LinearTable.Linear.Lookup` | portland-ns3/openflow/datapath/table-linear.c:25-35 | returns that first match |
| `LinearTable.SameMeans` | portland-ns3/openflow/datapath/table-linear.c:47-53 | an insertion replaces an entry if and only if priority and wildcards are equal and some packet matches both |
| `LinearTable.TwinReplaced` | portland-ns3/openflow/datapath/table-linear.c:47-58 | replacing an entry by one of the same kind leaves no two entries of the same kind |
| `LinearTable.AddedLists` | portland-ns3/openflow/datapath/table-linear.c:60-74 | insertion where the scan stops keeps strict order by priority, then age, freedom from twins, and the newest-first list of the same entries |
| `LinearTable.Linear.Place` | portland-ns3/openflow/datapath/table-linear.c:43-74 | replaces in place and inherits the serial number, or inserts with the next one, or refuses when full; all table invariants are kept |
| `LinearTable.Linear.Insert` | portland-ns3/openflow/datapath/table-linear.c:37-74 | the exact condition of success; nothing but an entry of the same kind is lost; a new exact flow is what its key finds if and only if nothing of highest priority stands before it |
| `LinearTable.Linear.NeverShadowed` | portland-ns3/openflow/datapath/table-linear.c:37-74 | with wildcarded entries below the highest priority nothing stands before an exact flow |
| `LinearTable.Linear.Delete` | portland-ns3/openflow/datapath/table-linear.c:102-118 | removes exactly the entries that the description covers, of its priority if strict, and that pass the output port filter as the machine computes it, keeps the order of the others, returns their number, and keeps every invariant |
| `LinearTable.Linear.Timeout` | portland-ns3/openflow/datapath/table-linear.c:120-137 | removes exactly the entries not used for longer than their idle timeout or there for longer than their hard timeout, zero being none, keeps the order of the others, and every invariant |
| `LinearTable.Linear.Modify` | portland-ns3/openflow/datapath/table-linear.c:76-91 | gives the new actions to exactly the described entries and returns their number |
| `HashTable.Hash.FindIsComplete` | portland-ns3/openflow/datapath/table-hash.c:39-44 | a flow with the head of a key can only be in the one bucket that is searched |
| `HashTable.Hash.Census` | portland-ns3/openflow/datapath/table-hash.c:46-72 | n_flows is the number of stored flows |
| `HashTable.Hash.Insert` | portland-ns3/openflow/datapath/table-hash.c:46-72 | succeeds exactly for exact keys whose bucket is free or their own; then the key finds the flow, and at most the flow with the same head is lost |
| `HashTable.Hash.Delete` | portland-ns3/openflow/datapath/table-hash.c:116-142 | removes exactly the flows that the description covers, or for an exact key those with its head, whatever the labels and the priority, if they pass the output port filter as the machine computes it |
| `HashTable.Hash.Timeout` | portland-ns3/openflow/datapath/table-hash.c:144-166 | removes exactly the flows that are due by their idle or hard timeout and returns their number |
| `HashTable.Hash.Modify` | portland-ns3/openflow/datapath/table-hash.c:74-103 | gives the new actions to exactly the described flows and returns their number; for an exact key one bucket is enough |
| `Hash2Table.Hash2.FindIsComplete` | portland-ns3/openflow/datapath/table-hash.c:272-284 | when neither subtable answers, no stored flow has the head or matches the key |
| `Hash2Table.Hash2.Insert` | portland-ns3/openflow/datapath/table-hash.c:286-293 | succeeds exactly when one of the two buckets takes the flow; then the key finds this flow even if a stale one with its head sits in the second subtable |
| `Hash2Table.Hash2.Delete` | portland-ns3/openflow/datapath/table-hash.c:306-315 | both subtables lose exactly the picked flows |
| `HashIterate.Iterate` | portland-ns3/openflow/datapath/table-hash.c:179-217 | one subtable from a position on: all that is left, or as many as the callback takes and a position from which the rest is left |
| `HashIterate.MatchingIsExact` | portland-ns3/openflow/datapath/table-hash.c:200-215 | the flows of a walk over buckets are the matching ones, each once |
| `HashIterate.Iterate2` | portland-ns3/openflow/datapath/table-hash.c:332-351 | visited flows and those left at the returned position make up those left before, and it ends without error only when nothing is left: resumed calls visit every flow once |
| `HashIterate.WholeIteration` | portland-ns3/openflow/datapath/table-hash.c:332-351 | for a key with wildcards an iteration from the start covers each matching flow of both subtables exactly once |
| `HashIterate.WholeExactIteration` | portland-ns3/openflow/datapath/table-hash.c:332-351 | for a key without wildcards it covers each stored flow with that head, whatever the labels, exactly once |
| `Chain.Chain.constructor` | portland-ns3/openflow/datapath/chain.c:38-63 | an empty chain of a two-way table of twice 65536 buckets, with the two polynomials, and a linear table of 100 flows |
| `Chain.Chain.Lookup` | portland-ns3/openflow/datapath/chain.c:66-84 | the hash tables' answer or else the linear table's, with the look-up and match counters of each table |
| `Chain.Chain.LookupIsBest` | portland-ns3/openflow/datapath/chain.c:66-84 | the chain returns null exactly when no stored flow matches and otherwise a match of highest priority, if and only if the hash tables do not answer with a flow of other MPLS labels |
| `Chain.Chain.SameLabelsSuffice` | portland-ns3/openflow/datapath/chain.c:66-84 | in particular it does for every packet whose labels all exact flows with its head have |
| `Chain.Chain.Insert` | portland-ns3/openflow/datapath/chain.c:86-105 | 0 exactly when one of the two buckets of an exact flow is free or its own, or the linear table has room or an entry of the same kind; -105 otherwise, and nothing changed; only rivals of the new flow are lost; after success an exact key finds this very flow if and only if it went into a hash table or nothing shadows it |
| `Chain.Chain.InsertedIsFound` | portland-ns3/openflow/datapath/chain.c:86-105 | with wildcarded entries below the highest priority no exact flow is shadowed |
| `Chain.Chain.Modify` | portland-ns3/openflow/datapath/chain.c:107-128 | over all tables exactly the flows that the description covers, of its priority if strict, get the new actions, and the result is their number; what covering means is `DescriptionCovers` and `StrictDescription` |
| `Chain.Chain.Delete` | portland-ns3/openflow/datapath/chain.c:130-155 | over all tables exactly the flows go that pass the output port filter and are covered by the description (in the linear table of its priority if strict; in the hash tables, for an exact key, those with its head), and the result is their number |
| `Chain.Chain.DeleteAll` | portland-ns3/openflow/datapath/chain.c:130-155 | deletion for the description with all wildcards and no output port leaves no flow and returns how many there were |
| `Chain.Chain.Timeout` | portland-ns3/openflow/datapath/chain.c:157-176 | over all tables exactly the flows due by their idle or hard timeout are gone, and the result is their number |
| `AddFlow.AddFlow` | portland-ns3/openflow/datapath/forward.c:272-312 | from any message an entry results with the key extracted from it, the priority of the message or 65535 without wildcards, its timeouts, the current time and its actions, that fits the invariants of the tables; if wildcarded entries stay below the highest priority, a new exact flow is at once the best match of its packets and the one found for them |
| `ChainExamples.LabelsIgnored` | portland-ns3/openflow/datapath/flow.h:90-94 | for every exact key: a chain in which a packet that differs in label 1 only is given a flow that does not match it |
| `ChainExamples.FilteredDeleteMisses` | portland-ns3/openflow/datapath/flow.c:217-223 | for every exact key and every port from 1 to 0xfffe, from an empty chain: on a little-endian machine a deletion filtered by that port removes nothing although the one flow outputs to it |
| `ChainExamples.Shadowed` | portland-ns3/openflow/datapath/chain.c:66-101 | for any three exact keys that fall into the same buckets: the third flow is stored in the linear table and its own packets go to an older wildcarded flow of priority 65535 |
| `ChainExamples.KeysCollide` | portland-ns3/openflow/datapath/table-hash.c:30-37 | keys that fall into the same buckets exist, whatever the polynomials and the sizes of the tables |
| `ChainExamples.ShadowingKeys` | portland-ns3/openflow/datapath/table-hash.c:30-37 | so three keys as `Shadowed` asks for exist in any tables |
| `RateLimit.Bounds` | portland-ns3/openflow/secchan/ratelimit.c:151-219 | in every run at most burst packets wait and the bucket is never overdrawn |
| `RateLimit.Conservation` | portland-ns3/openflow/secchan/ratelimit.c:77-122 | in every run: packets limited = dropped + dequeued + waiting |
| `RateLimit.FirstInFirstOut` | portland-ns3/openflow/secchan/ratelimit.c:151-187 | in every run the packets of a port leave, let through, sent or dropped, in the order they came, and the queue is what is still to leave |
| `RateLimit.RateBound` | portland-ns3/openflow/secchan/ratelimit.c:125-149 | from any refill on: 1000 x packets granted <= 1000 x burst + rate x time since |
| `RateLimit.RateBoundFromStart` | portland-ns3/openflow/secchan/ratelimit.c:245-258 | from the start on: 1000 x packets granted <= the initial 100 x rate + rate x time since |
| `RateLimit.RefillMeans` | portland-ns3/openflow/secchan/ratelimit.c:125-135 | in every run a refill brings the tokens to what there was and rate x time since the last filling, up to 1000 x burst, if that is at least 1000, and changes nothing, not even the time of the last filling, otherwise |
| `RateLimit.NothingLost` | portland-ns3/openflow/secchan/ratelimit.c:125-149 | in every run in which the bucket was never too small: 1000 x packets granted + tokens there or due = the initial 100 x rate + rate x time since the start |
| `RateLimit.QueuesByPort` | portland-ns3/openflow/secchan/ratelimit.c:151-187 | in every run a queue holds packets of one port only, as long as ports are below OFPP_MAX |
| `RateLimit.OneTokenEach` | portland-ns3/openflow/secchan/ratelimit.c:140-149 | every packet let through or sent has a token of its own |
| `RateLimit.Fairness` | portland-ns3/openflow/secchan/ratelimit.c:107-122 | while a port waits no other port is served twice and fewer than OFPP_MAX services happen, by a falling cyclic distance |
| `RateLimiter.RateLimiter.constructor` | portland-ns3/openflow/secchan/ratelimit.c:245-263 | starts with empty queues, 100 x rate tokens, counters at zero and an empty run |
| `RateLimiter.RateLimiter.DropPacket` | portland-ns3/openflow/secchan/ratelimit.c:77-104 | drops the head of a non-empty longest queue, the one that the random draws choose |
| `DropChoice.Shares` | portland-ns3/openflow/secchan/ratelimit.c:84-100 | among all sequences of random draws each longest queue has one share and queue 0 two, since the scan finds it as long as itself |
| `DropChoice.Uniform` | portland-ns3/openflow/secchan/ratelimit.c:84-100 | the choice is uniform among the longest queues, as the comment promises, if and only if queue 0 is not one of several |
| `DropChoice.TwoTied` | portland-ns3/openflow/secchan/ratelimit.c:84-100 | of two tied queues, queue 0 is taken in four of six sequences of draws |
| `RateLimiter.RateLimiter.DequeuePacket` | portland-ns3/openflow/secchan/ratelimit.c:107-122 | serves the first port from the one in turn upwards, and around, that has packets waiting, and the turn goes to the port behind it; the end of the loop is never reached |
| `RateLimiter.RateLimiter.RefillBucket` | portland-ns3/openflow/secchan/ratelimit.c:125-135 | tokens and time of the last filling after it, from those before; the run stays legal |
| `RateLimiter.RateLimiter.GetToken` | portland-ns3/openflow/secchan/ratelimit.c:140-149 | takes 1000 tokens exactly when there are as many |
| `RateLimiter.RateLimiter.LocalPacket` | portland-ns3/openflow/secchan/ratelimit.c:151-187 | lets a packet pass exactly when nothing waits and a token is there, which it takes; otherwise puts it at the end of the queue of its port, dropping one first exactly when the limiter is full; the run stays legal |
| `RateLimiter.RateLimiter.Periodic` | portland-ns3/openflow/secchan/ratelimit.c:200-219 | sends the least of the packets waiting, the tokens over 1000 after the refill, and 50; so at least the least of the packets waiting, 50, burst, and rate x time since the last filling / 1000; one token more is spent exactly when it stops at 50 with packets and tokens left |
| `RateLimiter.RateLimiter.Burst` | portland-ns3/openflow/secchan/ratelimit.c:125-219 | after a pause long enough to earn burst packets, with none waiting, burst packets in a row are let through |
| `PacketPool.SaveIds` | portland-ns3/openflow/datapath/forward.c:629-672 | a successful save never returns the id of failure and its id retrieves the packet; a failed one leaves every slot as it was |
| `PacketPool.NoIdFindsNothing` | portland-ns3/openflow/datapath/forward.c:674-692 | the id of failure retrieves nothing and discards nothing |
| `PacketPool.CookieCounts` | portland-ns3/openflow/datapath/forward.c:659-665 | the cookie of a slot is the number of packets put there modulo 2^24 - 1 |
| `PacketPool.CurrentIds` | portland-ns3/openflow/datapath/forward.c:659-689 | an id is current if and only if the number of packets put into its slot since is a multiple of 2^24 - 1 |
| `PacketPool.RetrieveIsExact` | portland-ns3/openflow/datapath/forward.c:674-692 | an id retrieves the packet saved under it unless it was taken out, and nothing once 1 to 2^24 - 2 packets followed in the slot; another packet is found only if the id was issued again for it |
| `PacketPool.NotTooSoon` | portland-ns3/openflow/datapath/forward.c:643-657 | a packet still buffered is not overwritten before it is OVERWRITE_JIFFIES old |
| `PacketPool.NextSave` | portland-ns3/openflow/datapath/forward.c:642-672 | a save that comes to a slot filled before succeeds if and only if that packet was taken out or is OVERWRITE_JIFFIES old; its id is the slot and, above 8 bits, one more than the fillings so far modulo 2^24 - 1 |
| `PacketPool.FirstSave` | portland-ns3/openflow/datapath/forward.c:642-672 | a save that comes to a slot never filled succeeds, with the first id of the slot |
| `PacketPool.LeavesOnce` | portland-ns3/openflow/datapath/forward.c:629-729 | the packets put into a slot are those retrieved, discarded or overwritten, in order and each once, and the one still there |
| `PacketPool.TurnsCount` | portland-ns3/openflow/datapath/forward.c:642 | the slots are tried in turn, also by saves that fail |
| `PacketPool.PacketBuffers.Save` | portland-ns3/openflow/datapath/forward.c:629-672 | does the save step and returns its id |
| `PacketPool.PacketBuffers.Retrieve` | portland-ns3/openflow/datapath/forward.c:674-692 | does the retrieval step and returns its packet |
| `PacketPool.PacketBuffers.Discard` | portland-ns3/openflow/datapath/forward.c:712-729 | does the discarding step |
| `PacketPool.PacketBuffers.DiscardAll` | portland-ns3/openflow/datapath/forward.c:694-710 | empties every slot and keeps the cookies |
| `Actions.ValidateActions` | portland-ns3/openflow/datapath/dp_act.c:442-480 | the loop computes the recursive check |
| `Actions.AcceptedIsSplit` | portland-ns3/openflow/datapath/dp_act.c:442-480 | a byte list is accepted if and only if it is the concatenation of acceptable actions, each of its stated length, a multiple of 8, with nothing left over |
| `Actions.GoodMeans` | portland-ns3/openflow/datapath/dp_act.c:317-440 | which actions are acceptable, in bytes: the length of every kind, the ports refused, and the one vendor action |
| `Actions.FirstBadDecides` | portland-ns3/openflow/datapath/dp_act.c:442-480 | behind any acceptable actions the answer is that for the first action that is not, and which one that is |
| `Actions.AcceptedIsWalkable` | portland-ns3/openflow/datapath/dp_act.c:528-583 | an accepted list can be walked without checks: every action has a positive length within the list, and an output has all its fields |
| `Actions.OutputsRefused` | portland-ns3/openflow/datapath/dp_act.c:24-36 | exactly which output ports are refused: on a little-endian machine the 16-bit values times 2^16, on a big-endian one the values themselves |
| `Actions.NonePasses` | portland-ns3/openflow/datapath/dp_act.c:24-36 | an output to OFPP_NONE is accepted on a little-endian machine |
| `Actions.ExecuteActions` | portland-ns3/openflow/datapath/dp_act.c:527-589 | deferring each output sends what cloning at every output sends, less outputs to the port read as -1; the packet itself is used once: sent last exactly when the last action is an output to another port and no action lost the packet, else freed, or lost by an action |
| `Actions.CloneEachMeans` | portland-ns3/openflow/datapath/dp_act.c:528-583 | what the meaning of a list is, in bytes: an output sends the packet as it is to the port in bytes 4 to 8, anything else changes the packet for the rest or loses it |
| `Actions.DeferredDropsReached` | portland-ns3/openflow/datapath/dp_act.c:533-589 | whatever the actions do to the packet: deferring sends what cloning sends if and only if no output to port 0xffffffff is reached before the packet is lost, and less otherwise |
| `Actions.ReachesIsNames` | portland-ns3/openflow/datapath/dp_act.c:533-589 | such an output is reached only if the list names that port, and whenever it does if no action loses the packet |
| `Actions.DeferredIsCloning` | portland-ns3/openflow/datapath/dp_act.c:533-589 | if no output action of the list names port 0xffffffff, deferring sends what cloning sends, whatever the other actions do to the packet |
| `Actions.DeferredDropsNamed` | portland-ns3/openflow/datapath/dp_act.c:533-589 | if no action loses the packet: it does so if and only if no output action names that port, and otherwise sends less |
| `Actions.AllOnesVanishes` | portland-ns3/openflow/datapath/dp_act.c:533-589 | such an output is accepted on either byte order and sent nowhere |
| `Checksum.UpdateResidue` | portland-ns3/openflow/datapath/dp_act.c:221-234 | new checksum + new field = old checksum + old field in one's complement arithmetic (section 3 of RFC 1624) |
| `Checksum.FieldAndCheck` | portland-ns3/openflow/datapath/dp_act.c:221-234 | updating a 32-bit field and its checksum keeps the sum modulo 2^16 - 1 |
| `Checksum.PortAndCheck` | portland-ns3/openflow/datapath/dp_act.c:268-304 | so does updating a 16-bit port widened to 32 bits |
| `Checksum.UpdateIsZero` | portland-ns3/openflow/datapath/dp_act.c:221-234 | the new checksum is zero exactly when old checksum + old field = new field in one's complement arithmetic |
| `Checksum.Datagram.SetNwAddr` | portland-ns3/openflow/datapath/dp_act.c:236-266 | writes the address into words 6 and 7, or 8 and 9, and nothing else but the checksums in word 5 of the header and word 8 of TCP or 3 of UDP; both sums stay what they were modulo 2^16 - 1, and verify after if and only if they did before; a UDP datagram is accepted after exactly when its words verified or the old field and checksum make up the new address |
| `Checksum.Datagram.SetTpPort` | portland-ns3/openflow/datapath/dp_act.c:268-304 | writes the port into word 0 or 1 and nothing else but the checksum; the sum stays what it was modulo 2^16 - 1, and verifies after if and only if it did before; the same for the acceptance of UDP |
| `Checksum.UdpWithoutChecksum` | portland-ns3/openflow/datapath/dp_act.c:288-300 | a UDP datagram without checksum is accepted after a port change if and only if old and new port are equal or 0 and 0xffff, or its words happen to verify |
| `Checksum.UdpAddressWithoutChecksum` | portland-ns3/openflow/datapath/dp_act.c:254-262 | the same after an address change, if and only if the addresses are equal modulo 2^16 - 1 or the words happen to verify |
| `Checksum.UdpSpoilt` | portland-ns3/openflow/datapath/dp_act.c:288-300 | a concrete datagram without checksum that is refused after a port change |
| `Checksum.UdpSpoiltByAddress` | portland-ns3/openflow/datapath/dp_act.c:254-262 | the same datagram refused after an address change |
| `BCube.WireLevel0` | portland-ns3/ntu-dsi-dcn/scratch/BCube.cc:259-277 | the running index equals its closed form: switch i is wired to the n hosts with its digits above position 0 |
| `BCube.WireLevel1` | portland-ns3/ntu-dsi-dcn/scratch/BCube.cc:286-321 | the same for position 1, across the jumps at the ends of blocks |
| `BCube.WireLevel2` | portland-ns3/ntu-dsi-dcn/scratch/BCube.cc:330-368 | the same for position 2 |
| `BCube.Partition` | portland-ns3/ntu-dsi-dcn/scratch/BCube.cc:259-368 | the n^2 switches of a level partition the hosts 0 to n^3 - 1 into groups of n distinct hosts |
| `BCube.SharedSwitch` | portland-ns3/ntu-dsi-dcn/scratch/BCube.cc:259-368 | two hosts share a switch of level l if and only if their base-n digits agree everywhere but in position l |
| `BCube.AtMostOneShared` | portland-ns3/ntu-dsi-dcn/scratch/BCube.cc:259-368 | two distinct hosts share at most one switch |
| `BCube.ThreeHops` | portland-ns3/ntu-dsi-dcn/scratch/BCube.cc:259-368 | any host reaches any other over one switch of every level, the levels taken in any order |
| `Workers.RunKeepsInv` | portland-ns3/ntu-dsi-dcn/test.py:843-917 | in every interleaving each job is in exactly one place, each worker takes one stop token, and no worker is gone while a job is queued |
| `Workers.RunsEnd` | portland-ns3/ntu-dsi-dcn/test.py:843-917 | no interleaving has more than 6 (jobs + workers) + 1 steps |
| `Workers.StuckIsDone` | portland-ns3/ntu-dsi-dcn/test.py:1424-1446 | when no thread can do a step, all workers are gone, the queues are empty and exactly one result for every job was collected: there is no deadlock |
| `Workers.ResultsSound` | portland-ns3/ntu-dsi-dcn/test.py:843-917 | jobs marked to be skipped are never run, and jobs are given up only after an interruption |
| `Workers.ResultsHaveOrigins` | portland-ns3/ntu-dsi-dcn/test.py:849-917 | every result on its way or collected comes from one step: given up if its job was looked at after the interruption, skipped if before and to be skipped, else with the return code that its run ended with |
| `Workers.RunningWasChecked` | portland-ns3/ntu-dsi-dcn/test.py:849-917 | a job is run only if it was looked at before any interruption and is not to be skipped |
| `Workers.TallyResults` | portland-ns3/ntu-dsi-dcn/test.py:1442-1474 | each tally is the number of results of its kind; they add up to all results but the interrupted ones, and passed + skipped reaches the total exactly when every job was skipped or returned 0 |

## Left out

- Concurrency inside the switch: locks and RCU are not modelled, each operation is atomic. Memory is not freed, and
  allocation does not fail.
- Machine integers: counters, serial numbers, times and token counts are unbounded, so wrap-around of
  `next_serial`, of jiffies in `time_after`, and overflow of `rate_limit * 100` are not modelled. Words that are
  shifted and masked (addresses, wildcards, CRC registers) are strings of 32 bits; cookies, buffer ids and checksums
  have their exact ranges.
- Time is an argument that does not go backwards; random choices, failures of sends and of actions, and the point at
  which a callback stops are arguments over which everything is quantified.
- Tree keys are integers and their comparison is the integer order; destruction and printing of trees are left out.
- HashTable.Hash.Slot: the mask of the bucket number is written as a remainder; `MaskIsModulo` is the link.
- Stored actions are a list of output ports and others; that a stored list can be walked is `Actions.AcceptedIsWalkable`.
- Chain.Chain.Insert: the flow passed in is one that is not yet stored, as `add_flow` makes it; no hardware table comes
  before the two tables, and the loop over tables is written out.
- Resumed iteration of the linear table: new flows are put first, so it is not exactly-once.
- VportTable.Table.RunThrough: the actions of an entry are any function from a packet to a packet and the clones sent;
  MPLS push, pop and label setting are not written out. An entry whose last action is an output hands over the packet
  itself, which the walk goes on using afterwards; lists that end so are left out.
- FlowKeys.ExtractMatch: a round trip with `flow_fill_match` is not claimed, since inverting the label flags is not
  idempotent; extraction of keys from packets is left out.
- `n_queue_dropped` is never incremented in the code, so drops are counted in the ghost record.
- RateLimiter.RateLimiter.LocalPacket: messages that are not packet-ins never reach it; the wait callback, status text
  and the relay around it are left out.
- Actions.ExecuteActions: what single actions do to a packet is a parameter; VLAN, Ethernet and MPLS rewriting are
  left out. `make_writable` failing is part of that parameter.
- Checksum.Datagram.SetNwAddr: packets with CHECKSUM_PARTIAL, the running sum of CHECKSUM_COMPLETE and fragments without
  a transport header are not modelled; `csum_partial` and `csum_fold` are kernel functions, modelled as 32-bit addition
  with end-around carry and its folding.
- BCube: the simulator calls, addresses and traffic are left out; only which host meets which switch is modelled.
- Workers: the text and XML output, and running a job as a process, are left out; a job's return code is arbitrary.
- Netlink, device, sysfs and message parsing code, Fat-tree and other topologies, and the rest of secchan: plumbing or
  easier claims of the same kind.
