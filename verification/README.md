# madcap: forwarding engine and descriptor rings

The repository adds the "madcap" tunnel offload to Ethernet drivers. This project models its hard parts in Dafny and proves what
they promise:

- **The patricia trie** (patricia.c, patricia.h) as node objects updated in place, against a finite map from bit strings to nodes.
  `AddressBits`, `TrieGraph`, `TrieUpdate`, `TrieSearch`, `TrieWalk` hold the reasoning on values; `Patricia` holds the code.
- **The software forwarding engine** (sfmc.c): `Routes` (route list and trie in step, neighbour cache), `LocatorTable` (hash chains
  with a resumable dump), `Checksum`, `Encap` (headers pushed in place, and a receiver that parses them).
- **The device slots and the two-level dump** (madcap.c): `DeviceDump`.
- **The e1000 rings**: `TxSplit`, `TxPieces`, `TxErrata` and `TxGrowth` (cutting
  packets, what the errata adjustments achieve, the reservation, and how much a head may grow), `TxLayout`, `TxRing` (the transmit
  ring as a queue), `QueueWake` (stop and wake in every interleaving), `RxFrames`, `RxModel`, `RxRing` (receive, discard, refill), `RxFilter`
  (address filters), `Fifo82547`. `RingIndex` has positions in a ring, `Shifts` powers
  of two.
- **Smaller cores**: `FlowHash` (the two-key flow-director hash of ixgbe), `Eeprom` (word bursts, checksum, byte access).

Conventions. State that the source changes in place is a class; a method is specified by a function or predicate on values, and the
properties of those are lemmas. `Valid` is the invariant of a class; `Run` methods take an arbitrary list of events and show that
every reachable state is valid. Bits are most significant first in addresses and least significant first in machine words.
Integers are unbounded, with wrap-around written out where the source relies on it.

Where the code and its comments differ, the code is modelled: a route that arrives second for a prefix is not installed, although the
caller gets its object (`Routes.Sfmc.FibAdd`); unregistering a device always reports that it was missing (`DeviceDump.MadNet.Unregister`);
bytes written to the EEPROM checksum word are replaced by the checksum (`Eeprom.Device.SetThenGet` has the exact condition); the
reservation of transmit descriptors is too small for a grown head exactly for segment sizes 1 to 4 (`TxGrowth.GrowthIsCovered`); a packet
whose encapsulated length exceeds 65535 is sent with a truncated length (`Encap.FrameParses` has the exact condition).

## Model

| member | source | states |
|---|---|---|
| `AddressBits.CompWithMaskIsPrefixEquality` | device-drivers-4.2.0/e1000/patricia.c:69-81 | the masked byte comparison holds exactly if the first `mask` bits of the two addresses are equal, for every mask length |
| `AddressBits.DifferBit` | device-drivers-4.2.0/e1000/patricia.c:526-546 | the result is the first bit in which the two addresses differ, or the limit if they agree up to it |
| `TrieGraph.PathsUnique` | device-drivers-4.2.0/e1000/patricia.h:74-87 | in a well-formed trie no two nodes stand for the same bit string |
| `TrieGraph.TopmostCovers` | device-drivers-4.2.0/e1000/patricia.c:551-562 | all nodes that share the first d bits with the node where the climb ends lie below it |
| `TrieUpdate.FillCase` | device-drivers-4.2.0/e1000/patricia.c:564-579 | filling a glue node keeps the trie invariant and adds exactly one prefix |
| `TrieUpdate.ChildCase` | device-drivers-4.2.0/e1000/patricia.c:590-606 | a new leaf keeps the trie invariant and adds exactly one prefix |
| `TrieUpdate.ParentCase` | device-drivers-4.2.0/e1000/patricia.c:608-632 | a node put above another keeps the trie invariant and adds exactly one prefix |
| `TrieUpdate.GlueCase` | device-drivers-4.2.0/e1000/patricia.c:633-667 | a glue node with a new leaf keeps the trie invariant and adds exactly one prefix |
| `TrieUpdate.InnerCase` | device-drivers-4.2.0/e1000/patricia.c:680-694 | a node with two children becomes glue: the invariant is kept, one prefix goes, all other data stay |
| `TrieUpdate.ThinCase` | device-drivers-4.2.0/e1000/patricia.c:748-774 | splicing out a node with at most one child keeps the invariant and removes one prefix |
| `TrieUpdate.LeafAndGlueCase` | device-drivers-4.2.0/e1000/patricia.c:696-742 | removing a leaf under glue together with the glue keeps the invariant and removes one prefix |
| `TrieSearch.BestIsUnique` | device-drivers-4.2.0/e1000/patricia.c:356-446 | the longest match in a set of prefixes is unique |
| `TrieSearch.LinearScanIsBest` | device-drivers-4.2.0/e1000/patricia.c:356-446 | a scan over a list of prefixes in any order finds the longest match, so search and scan agree |
| `TrieSearch.StackComplete` | device-drivers-4.2.0/e1000/patricia.c:372-413 | after the descent every stored prefix that matches the query is on the stack |
| `TrieWalk.WalkVisitsAllOnce` | device-drivers-4.2.0/e1000/patricia.h:129-167 | the walk order lists every node of the trie, once |
| `TrieWalk.WalkStep` | device-drivers-4.2.0/e1000/patricia.h:153-167 | each step of the explicit-stack walk takes the next node of the walk order and leaves at most maxbits entries on the stack |
| `TrieWalk.InorderIsPermutation` | device-drivers-4.2.0/e1000/patricia.c:264-284 | the recursive walk reports the same prefixes as the explicit-stack walk |
| `TrieWalk.NodeCount` | device-drivers-4.2.0/e1000/patricia.c:481-481 | a trie for P >= 1 prefixes has at most 2P - 1 nodes, and none for no prefix |
| `TrieWalk.ShapeIsCanonical` | device-drivers-4.2.0/e1000/patricia.c:456-669 | there is a node for a bit string exactly if it is stored or two stored prefixes part there: the shape depends on the set only |
| `TrieWalk.SameKeysSameTree` | device-drivers-4.2.0/e1000/patricia.c:456-775 | two tries for the same prefixes are the same tree: nodes with the same bit string hold a prefix in both or neither and have children with the same bit strings on the same sides |
| `TrieWalk.SameKeysSameSize` | device-drivers-4.2.0/e1000/patricia.c:456-775 | two tries for the same prefixes have as many nodes |
| `Patricia.Tree.SearchExact` | device-drivers-4.2.0/e1000/patricia.c:287-352 | returns the node of the prefix, or null exactly if it is not stored |
| `Patricia.Tree.SearchBest2` | device-drivers-4.2.0/e1000/patricia.c:356-446 | returns the longest stored prefix that matches (strictly shorter if not inclusive), or null if there is none |
| `Patricia.Tree.PushPath` | device-drivers-4.2.0/e1000/patricia.c:372-413 | the search stack holds all candidates and never more than maxbits + 1 entries |
| `Patricia.Tree.Descend` | device-drivers-4.2.0/e1000/patricia.c:485-520 | the descent ends at a stored prefix, long enough or without the child on the way |
| `Patricia.Tree.Climb` | device-drivers-4.2.0/e1000/patricia.c:551-562 | the climb ends at the topmost node with at least differ_bit bits |
| `Patricia.Tree.Lookup` | device-drivers-4.2.0/e1000/patricia.c:456-669 | returns a node that holds exactly the prefix, whatever its host bits; adds only it to the map; keeps all node objects, their data and the full invariant |
| `Patricia.Tree.Remove` | device-drivers-4.2.0/e1000/patricia.c:672-775 | only this prefix leaves the map; every other prefix stays on its node object with its data; the invariant is kept in all shapes |
| `Patricia.Tree.PutData` | device-drivers-4.2.0/e1000/patricia.h:126-127 | sets one data pointer and keeps the trie |
| `Patricia.Tree.Walk` | device-drivers-4.2.0/e1000/patricia.h:129-167 | visits the nodes in the walk order, each once, and reports those that hold a prefix |
| `Patricia.Tree.WalkInorder` | device-drivers-4.2.0/e1000/patricia.c:264-284 | reports the prefixes in order and returns how many |
| `Patricia.Tree.Clear` | device-drivers-4.2.0/e1000/patricia.c:186-225 | frees every node once, never reads a freed one, hands over the data, and leaves num_active_node at 0 |
| `Patricia.Tree.CountBound` | device-drivers-4.2.0/e1000/patricia.c:588-588 | num_active_node is the number of nodes and at most 2P - 1 |
| `Patricia.Tree.LookupThenRemove` | device-drivers-4.2.0/e1000/patricia.c:672-775 | a fresh insertion yields a well-formed trie that holds the prefix on a node and all other data where they were; removal takes exactly that out again, and map, node bit strings and num_active_node are as before |
| `Patricia.Run` | device-drivers-4.2.0/e1000/patricia.c:456-775 | after every run of inserts and removes the trie is valid and stands for the set the same requests give |
| `Routes.PadIrrelevant` | device-drivers-4.2.0/e1000/patricia.h:175-184 | the bytes dst2prefix leaves unset never matter for an IPv4 prefix |
| `Routes.DstKeyBits` | device-drivers-4.2.0/e1000/patricia.h:175-184 | the bits of a destination are those of its bytes in network order, highest bit first |
| `Routes.Sfmc.FindExact` | device-drivers-4.2.0/e1000/sfmc.c:150-164 | finds the installed route of exactly this prefix |
| `Routes.Sfmc.FindBest` | device-drivers-4.2.0/e1000/sfmc.c:166-180 | finds the installed route with the longest matching prefix |
| `Routes.InStepInsert` | device-drivers-4.2.0/e1000/sfmc.c:204-231 | list, trie data and table stay in bijection when a new route is attached |
| `Routes.InStepDelete` | device-drivers-4.2.0/e1000/sfmc.c:252-264 | list, trie data and table stay in bijection when a route is taken out |
| `Routes.Sfmc.FibInsert` | device-drivers-4.2.0/e1000/sfmc.c:204-231 | the first route for a prefix stays and is returned; otherwise the new one is installed at the list head |
| `Routes.Sfmc.FibAdd` | device-drivers-4.2.0/e1000/sfmc.c:233-250 | returns the new object even if an older route is kept |
| `Routes.Sfmc.FibDelete` | device-drivers-4.2.0/e1000/sfmc.c:252-264 | exactly this route leaves list, trie and table; all saved node handles stay valid |
| `Routes.Sfmc.FibDel` | device-drivers-4.2.0/e1000/sfmc.c:266-278 | the route of this prefix goes, or -ENOENT exactly if there is none |
| `Routes.Sfmc.FibDestroy` | device-drivers-4.2.0/e1000/sfmc.c:280-292 | list, table and trie end up empty, with no node left |
| `Routes.Sfmc.NeighResolve` | device-drivers-4.2.0/e1000/sfmc.c:730-752 | a known neighbour is taken over; otherwise the gateway has an entry that is being resolved and the route is as it was; no other route's cache becomes wrong |
| `Routes.Sfmc.NeighUpdate` | device-drivers-4.2.0/e1000/sfmc.c:754-766 | exactly the routes through this gateway get the new address and state |
| `Routes.Sfmc.KernelChange` | device-drivers-4.2.0/e1000/sfmc.c:768-789 | what a change of the neighbour table without a notice may spoil, and when it is harmless |
| `Routes.Sfmc.UsableMac` | device-drivers-4.2.0/e1000/sfmc.c:717-728 | a usable route carries the hardware address of its gateway |
| `Routes.Sfmc.PortObjAdd` | device-drivers-4.2.0/e1000/sfmc.c:630-682 | a route without gateway is installed only with link scope; the first route for a prefix wins; its neighbour is looked up and its cache agrees with it |
| `Routes.Sfmc.LlNeighWork` | device-drivers-4.2.0/e1000/sfmc.c:795-812 | a queued host route is installed if its prefix is free, and resolved whether it was installed or not |
| `Routes.Run` | device-drivers-4.2.0/e1000/sfmc.c:204-812 | after every run of installs, lookups, deletes, destroys, notices and silent changes: the installed route of every prefix is the object of the first install still standing, list and trie are in bijection with them, the neighbour table knows what the events told it, and every installed route that was looked up through a gateway without unnoticed change is usable exactly if the gateway is known, with its address |
| `Routes.NoSilentChange` | device-drivers-4.2.0/e1000/sfmc.c:768-789 | as long as every change of the neighbour table is notified, no address is unnoticed |
| `LocatorTable.FlatUnique` | device-drivers-4.2.0/e1000/sfmc.c:85-109 | no identifier occurs twice in the table |
| `LocatorTable.Table.AllIsTable` | device-drivers-4.2.0/e1000/sfmc.c:390-417 | the entries in bucket and chain order are exactly the locators, each once |
| `LocatorTable.Table.Find` | device-drivers-4.2.0/e1000/sfmc.c:135-147 | finds the locator of an identifier, or nothing exactly if there is none |
| `LocatorTable.Table.EntryAdd` | device-drivers-4.2.0/e1000/sfmc.c:356-372 | adds a locator, or -EEXIST and no change exactly if the identifier is there |
| `LocatorTable.Table.EntryDel` | device-drivers-4.2.0/e1000/sfmc.c:374-388 | removes a locator, or -ENOENT and no change exactly if it is missing |
| `LocatorTable.Table.Destroy` | device-drivers-4.2.0/e1000/sfmc.c:118-133 | empties the table |
| `LocatorTable.Table.EntryDump` | device-drivers-4.2.0/e1000/sfmc.c:390-417 | returns the entry at the cursor position and advances, or nothing at the end |
| `DeviceDump.MadNet.GetOps` | madcap/madcap.c:607-624 | returns the operations of a registered device, else null |
| `DeviceDump.MadNet.Register` | madcap/madcap.c:627-658 | registers a device; -EEXIST exactly if it is registered, -ENOMEM exactly if all slots are taken |
| `DeviceDump.MadNet.Unregister` | madcap/madcap.c:661-681 | removes the device from the slots and always returns -ENOENT |
| `DeviceDump.MadNet.DumpCall` | madcap/madcap.c:376-444 | one call sends the next message and advances the two-level cursor by one, or nothing exactly when all is sent; the restarting loop terminates |
| `DeviceDump.MadNet.DumpAll` | madcap/madcap.c:376-444 | repeated calls send all lists of the chosen devices in slot, bucket and chain order, then stop |
| `DeviceDump.MadNet.DumpIsExact` | madcap/madcap.c:376-444 | a dump sends exactly the entries of the wanted registered devices, and none twice if device indices differ |
| `Checksum.FoldIsCanon` | device-drivers-4.2.0/e1000/sfmc.c:476-479 | folding carries (section 1 of RFC 1071) equals subtracting 0xFFFF until 16 bits are enough |
| `Checksum.IpChecksum` | device-drivers-4.2.0/e1000/sfmc.c:469-495 | the loop computes the complement of the one's-complement sum for every length, even or odd, from every start value within 16 bits |
| `Checksum.ChecksumOrder` | device-drivers-4.2.0/e1000/sfmc.c:469-495 | the checksum does not depend on the order of the words |
| `Checksum.StoredChecksumVerifies` | device-drivers-4.2.0/e1000/sfmc.c:588-589 | a checksum stored in its zeroed aligned field makes the checksum of the whole 0 |
| `Encap.ExtractId` | device-drivers-4.2.0/e1000/sfmc.c:454-466 | the shift loop computes the identifier function |
| `Encap.IdIsTopBits` | device-drivers-4.2.0/e1000/sfmc.c:454-466 | the identifier is the `length` most significant bits of the loaded 64-bit value |
| `Encap.LoadIsLowFirst` | device-drivers-4.2.0/e1000/sfmc.c:460-461 | the loaded value is the number whose bytes, low first, are the eight bytes at the offset |
| `Encap.IdIsLastBytes` | device-drivers-4.2.0/e1000/sfmc.c:454-466 | an identifier of n whole bytes is the number made of the last n of the eight bytes, low byte first |
| `Encap.OctetCounts` | device-drivers-4.2.0/e1000/sfmc.c:586-596 | the octet of a byte is the number it stands for |
| `Encap.FrameParses` | device-drivers-4.2.0/e1000/sfmc.c:566-598 | a receiver gets back addresses, type of service, identification, time to live, ports, a valid header, an acceptable UDP checksum and the original bytes, exactly if the IP length fits 16 bits |
| `Encap.FrameDetermines` | device-drivers-4.2.0/e1000/sfmc.c:566-598 | two frames that a receiver reads alike went to the same hardware address and the same locator with the same packet |
| `Encap.PushHeaders` | device-drivers-4.2.0/e1000/sfmc.c:566-598 | the in-place pushes produce the frame and leave the packet bytes as they were |
| `Encap.EncapPacket` | device-drivers-4.2.0/e1000/sfmc.c:497-601 | when the packet is passed, refused, queued behind a host route or encapsulated; untouched unless encapsulated; the frame goes to the locator of its identifier over the longest-match route with the gateway's address; headroom and identifier bytes are needed only where the source uses them |
| `TxSplit.SizesPartition` | device-drivers-4.2.0/e1000/e1000_main.c:2849-2952 | the buffer sizes of a part add up to it, each between 1 and max_per_txd |
| `TxSplit.HeadCount` | device-drivers-4.2.0/e1000/e1000_main.c:2849-2904 | bound on the buffers of the head under all errata adjustments |
| `TxSplit.FragCount` | device-drivers-4.2.0/e1000/e1000_main.c:2906-2952 | bound on the buffers of a fragment under all errata adjustments |
| `TxSplit.ReservationSuffices` | device-drivers-4.2.0/e1000/e1000_main.c:3190-3222 | context and data descriptors never exceed the reserved count + 2, if the head grew by less than 2^max_txd_pwr since it was sampled |
| `TxGrowth.EncapsulationFits` | device-drivers-4.2.0/e1000/e1000_main.c:3110-3222 | growth by up to 42 bytes is covered without segmentation and for every segment size from 5 on |
| `TxGrowth.TinyMssDoesNotFit` | device-drivers-4.2.0/e1000/e1000_main.c:3153-3156 | for each segment size from 1 to 4, a packet with complete headers and more payload than a segment, grown by the 34 or 42 bytes of an encapsulation, that needs more descriptors than reserved |
| `TxGrowth.GrowthIsCovered` | device-drivers-4.2.0/e1000/e1000_main.c:3110-3222 | every packet of a segment size fits its reservation after encapsulation exactly if the size is 0 (no segmentation) or at least 5 |
| `TxPieces.PacketCovered` | device-drivers-4.2.0/e1000/e1000_main.c:2834-2963 | the pieces of head and fragments lie inside their parts, are in order and disjoint, none is empty or longer than max_per_txd, and every byte of the packet is in one |
| `TxErrata.FirstIsShort` | device-drivers-4.2.0/e1000/e1000_main.c:2868-2875 | on a PCI-X bus the first buffer of a packet has at most 2015 bytes |
| `TxErrata.BuffersEndWell` | device-drivers-4.2.0/e1000/e1000_main.c:2877-2937 | on an 82544 in PCI-X mode every buffer of more than four bytes ends with bit 2 of its address set |
| `TxErrata.LastIsSentinel` | device-drivers-4.2.0/e1000/e1000_main.c:2863-2926 | the last buffer of a TSO packet has at most eight bytes, if its last part is not empty |
| `TxErrata.LinearAfterTso` | device-drivers-4.2.0/e1000/e1000_main.c:2852-2861 | a linear packet behind a TSO packet takes at least two buffers |
| `TxErrata.PlainPiece` | device-drivers-4.2.0/e1000/e1000_main.c:2849-2952 | where no adjustment applies a buffer takes all that is left, up to max_per_txd |
| `TxPieces.CountIsWireBytes` | device-drivers-4.2.0/e1000/e1000_main.c:2954-2956 | the counted bytes are those of as many frames as the packet has segments, each with the head repeated, however the payload is spread |
| `TxLayout.RemoveOldest` | device-drivers-4.2.0/e1000/e1000_main.c:3857-3886 | wiping the oldest packet leaves a ring that holds the others |
| `TxLayout.StepsPlace` | device-drivers-4.2.0/e1000/e1000_main.c:2954-3039 | context, mapping and queueing together place one packet block behind the others, its start naming its own end |
| `TxRing.Ring.UnusedIsFree` | device-drivers-4.2.0/e1000/e1000.h:217-219 | the index arithmetic counts the free descriptors, less one |
| `TxRing.Ring.CountDescs` | device-drivers-4.2.0/e1000/e1000_main.c:3190-3216 | the counting code computes the reservation |
| `TxRing.Ring.TxMap` | device-drivers-4.2.0/e1000/e1000_main.c:2834-2963 | the two loops fill the buffers with exactly the pieces of the packet |
| `TxRing.Ring.TxQueue` | device-drivers-4.2.0/e1000/e1000_main.c:2982-3039 | writes one data descriptor per piece and marks the last |
| `TxRing.Ring.XmitFrame` | device-drivers-4.2.0/e1000/e1000_main.c:3111-3287 | either busy with nothing changed but the stopped flag, or the packet is the new last in flight and counted as sent |
| `TxRing.Ring.HardwareDone` | device-drivers-4.2.0/e1000/e1000_main.c:3857-3860 | the controller finishes exactly the oldest unfinished packet, if there is one |
| `TxRing.Ring.CleanTxIrq` | device-drivers-4.2.0/e1000/e1000_main.c:3844-3947 | frees exactly the finished packets at the front, once each and in order, reports their bytes, and wakes the queue under its conditions |
| `TxRing.Ring.Step` | device-drivers-4.2.0/e1000/e1000_main.c:2834-3947 | each event does to the ring what it does to a plain queue of packets |
| `TxRing.Run` | device-drivers-4.2.0/e1000/e1000_main.c:2834-3947 | over every list of events the ring is the queue that the same events give: packets in flight with their pieces, sent, freed, stopped flag and counters; freed packets are the first sent, in order; bytes sent less completed are the bytes in flight; the indices never meet |
| `QueueWake.ProducerKeeps` | device-drivers-4.2.0/e1000/e1000_main.c:3078-3108 | no step of the sender leaves a stopped queue unattended |
| `QueueWake.DrainKeeps` | device-drivers-4.2.0/e1000/e1000_main.c:3888-3905 | no step of the controller or the cleaner leaves a stopped queue unattended |
| `QueueWake.NoLostWakeup` | device-drivers-4.2.0/e1000/e1000_main.c:3888-3905 | in every state of every interleaving a stopped queue has work in flight, or a sender or cleaner that will look again |
| `QueueWake.QueueCanBeWoken` | device-drivers-4.2.0/e1000/e1000_main.c:3888-3905 | from every such state controller and cleaner alone get the queue running |
| `QueueWake.DrainProgress` | device-drivers-4.2.0/e1000/e1000_main.c:3844-3947 | every step of controller or cleaner that does something leaves less to do |
| `QueueWake.EveryDrainWakes` | device-drivers-4.2.0/e1000/e1000_main.c:3888-3905 | whatever order controller and cleaner take, a run that does something at each step is bounded, and where it can go no further the queue is awake |
| `RxFrames.FramesPartition` | device-drivers-4.2.0/e1000/e1000_main.c:4416-4432 | frames and unfinished rest make up the descriptor stream, and each frame has its only end of packet at its end |
| `RxFrames.ExpectedStep` | device-drivers-4.2.0/e1000/e1000_main.c:4416-4468 | what one more descriptor adds to the packets to be passed up |
| `RxFrames.DeliversFrame` | device-drivers-4.2.0/e1000/e1000_main.c:4447-4461 | of a frame without carrier byte the packet is all but the four checksum bytes, or all of it if those are wanted |
| `RxFrames.DeliversTbiFrame` | device-drivers-4.2.0/e1000/e1000_main.c:4434-4461 | of a frame kept by the TBI rule the carrier byte goes first |
| `RxFrames.TbiWithinLimits` | device-drivers-4.2.0/e1000/e1000_hw.h:2480-2488 | less its carrier byte a frame kept by the TBI rule lies between the frame limits, shifted by a VLAN tag as the rule says |
| `RxFrames.ErrorBits` | device-drivers-4.2.0/e1000/e1000_hw.h:624-629 | a frame is erroneous exactly if one of its five error bits is set |
| `RxFrames.ErrorsStop` | device-drivers-4.2.0/e1000/e1000_main.c:4434-4444 | unless all frames are wanted an erroneous frame passes only by the TBI rule, and only with a CRC error alone |
| `RxFrames.CleanStep` | device-drivers-4.2.0/e1000/e1000_main.c:4396-4482 | taking the first finished descriptor keeps the ring layout |
| `RxFrames.FreeClean` | device-drivers-4.2.0/e1000/e1000_main.c:4396-4482 | a cleaned descriptor goes to the end of those with the driver, with its buffer if the packet was copied |
| `RxRing.Ring.Dispatch` | device-drivers-4.2.0/e1000/e1000_main.c:4422-4468 | the discarding flag and the error filter pass on exactly the single-descriptor frames that are accepted |
| `RxRing.Ring.AllocRxBuffers` | device-drivers-4.2.0/e1000/e1000_main.c:4565-4674 | gives out the requested descriptors up to the first that has no buffer and gets none, each with a buffer |
| `RxRing.Ring.Arrive` | device-drivers-4.2.0/e1000/e1000_main.c:4661-4673 | the hardware takes in all that arrives while there is room between its head and tail register, and only where there is a buffer |
| `RxRing.Ring.CleanRxIrq` | device-drivers-4.2.0/e1000/e1000_main.c:4356-4494 | a poll does to the ring exactly what it does to the description without indices: what is taken in, cleaned, left and refilled, whichever allocations fail |
| `RxRing.Run` | device-drivers-4.2.0/e1000/e1000_main.c:4356-4674 | however the stream is cut into polls and whatever is allocated when, the ring is as described without indices; the descriptors cleaned and finished are the stream taken in, and the packets passed up are the accepted single-descriptor frames of those cleaned, in order |
| `RxModel.PollKeepsStream` | device-drivers-4.2.0/e1000/e1000_main.c:4376-4482 | a poll loses, repeats and reorders nothing it takes in, and cleans at most its budget |
| `RxModel.RunKeepsStream` | device-drivers-4.2.0/e1000/e1000_main.c:4356-4674 | over every run what has been cleaned and what is finished is all that was taken in, in order |
| `RxModel.IntakeIsAll` | device-drivers-4.2.0/e1000/e1000_main.c:4356-4494 | a poll with room in every turn takes in all that arrives |
| `RxModel.GrantStops` | device-drivers-4.2.0/e1000/e1000_main.c:4580-4655 | a refill stops exactly at the first descriptor without a buffer for which allocation fails |
| `RxModel.GrantAll` | device-drivers-4.2.0/e1000/e1000_main.c:4580-4655 | if no allocation fails a refill gets all it asks for |
| `RxFilter.HashAgrees` | device-drivers-4.2.0/e1000/e1000_hw.c:4325-4357 | the computed hash is the twelve address bits the hardware takes, for each filter type |
| `RxFilter.ValueBytes` | device-drivers-4.2.0/e1000/e1000_hw.c:4333-4336 | byte i of the number of an address is its byte i on the wire |
| `RxFilter.RarInjective` | device-drivers-4.2.0/e1000/e1000_hw.c:4365-4405 | two addresses never share the contents of a register pair |
| `RxFilter.RarIsValue` | device-drivers-4.2.0/e1000/e1000_hw.c:4369-4373 | the two registers together are the number of the address, below the valid bit |
| `RxFilter.HoldsIsMatched` | device-drivers-4.2.0/e1000/e1000_hw.c:4365-4405 | what the driver writes for an address is what the hardware matches with it |
| `RxFilter.HashPlace` | device-drivers-4.2.0/e1000/e1000_main.c:2305-2311 | register and bit number of a hash are its place in the table read as one row of 4096 bits |
| `RxFilter.LoadedIsFound` | device-drivers-4.2.0/e1000/e1000_main.c:2288-2334 | every loaded address is found, in an exact register or in the hash table |
| `RxFilter.FoundIsLoaded` | device-drivers-4.2.0/e1000/e1000_main.c:2288-2334 | registers 1 to 14 hold nothing else, and the table accepts only addresses that share a loaded hash |
| `RxFilter.Nic.WriteTable` | device-drivers-4.2.0/e1000/e1000_main.c:2324-2334 | writing downwards leaves the whole table right even where an odd write spoils the word below |
| `RxFilter.Nic.SetRxMode` | device-drivers-4.2.0/e1000/e1000_main.c:2242-2341 | afterwards every listed unicast and multicast address is accepted, register 0 is kept, and the mode bits are as the flags say |
| `FlowHash.Half` | device-drivers-4.2.0/ixgbe/ixgbe_82599.c:1421-1438 | half a fused step adds the right stream bits to both hashes |
| `FlowHash.SigHash` | device-drivers-4.2.0/ixgbe/ixgbe_82599.c:1450-1504 | for all keys, inputs and masks the fused hash is, bit by bit, the parity of the stream bits at distance j from the 32 key bits: the bucket key in the lower half, the signature key in the upper half |
| `FlowHash.Windows` | device-drivers-4.2.0/ixgbe/ixgbe_82599.c:1460-1479 | the hashed words are windows, 16 bits apart, of one 48-bit stream: the common word repeated from its middle with the flow word added at bits 0 and 16, and not yet for key bit 0 |
| `FlowHash.ParityIsReference` | device-drivers-4.2.0/ixgbe/ixgbe_82599.c:1421-1497 | taking key bits in pairs gives the parity over all 32 |
| `FlowHash.NtohlBytes` | device-drivers-4.2.0/ixgbe/ixgbe_82599.c:1460-1463 | the byte at the lowest address is the highest of the value in host order |
| `FlowHash.PerfectHash` | device-drivers-4.2.0/ixgbe/ixgbe_82599.c:1578-1622 | the input is masked in place and its hash field gets 13 bits of the single-key hash |
| `FlowHash.BucketsAgree` | device-drivers-4.2.0/ixgbe/ixgbe_82599.c:1557-1622 | the perfect-filter hash field holds the bucket key's parity over the stream of the compressed masked input, bit by bit |
| `FlowHash.PerfectKeeps` | device-drivers-4.2.0/ixgbe/ixgbe_82599.c:1584-1621 | all else in the result is the masked input, and the hash has 13 bits |
| `FlowHash.BothHashes` | device-drivers-4.2.0/ixgbe/ixgbe_82599.c:1450-1622 | both hashes of one masked input, which agree on the bits that both masks keep |
| `FlowHash.RehashStable` | device-drivers-4.2.0/ixgbe/ixgbe_82599.c:1571-1622 | hashing the result again changes nothing if the mask keeps the hash field out |
| `FlowHash.FdirTcpMask` | device-drivers-4.2.0/ixgbe/ixgbe_82599.c:1633-1644 | each half of the port mask is reversed |
| `Fifo82547.Fifo.Reset` | device-drivers-4.2.0/e1000/e1000_main.c:598-618 | the FIFO size follows the frame size and tracking starts at 0 |
| `Fifo82547.FifoSizes` | device-drivers-4.2.0/e1000/e1000_main.c:598-616 | the FIFO has 10 KB, or 18 KB with frames beyond 8 KB |
| `Fifo82547.Fifo.ChangeMtu` | device-drivers-4.2.0/e1000/e1000_main.c:3535-3605 | invalid sizes change nothing; valid ones restart the tracking for the new size |
| `Fifo82547.WrapAdd` | device-drivers-4.2.0/e1000/e1000_main.c:3072-3074 | one subtraction wraps the position |
| `Fifo82547.Fifo.Send` | device-drivers-4.2.0/e1000/e1000_main.c:3052-3076 | the head stays inside the FIFO; in half duplex an accepted packet passes the end by less than 0x3E0, and a refused one would not |
| `Fifo82547.Fifo.StallTask` | device-drivers-4.2.0/e1000/e1000_main.c:2363-2392 | a drained FIFO restarts at 0 without stall; otherwise nothing changes |
| `Fifo82547.Fifo.DrainThenSend` | device-drivers-4.2.0/e1000/e1000_main.c:2372-2388 | after a drain the next packet is accepted |
| `Fifo82547.Run` | device-drivers-4.2.0/e1000/e1000_main.c:3052-3076 | over every list of events the frame size, the stall flag and the bytes given to the hardware are those of the description without positions, and the tracked head is where the hardware writes next, below the FIFO size |
| `Eeprom.Device.WriteSpi` | device-drivers-4.2.0/e1000/e1000_hw.c:4114-4170 | the words are written and nothing else, by exactly the bursts that run to the end of each page |
| `Eeprom.BurstsCover` | device-drivers-4.2.0/e1000/e1000_hw.c:4120-4167 | those bursts cover each word of the range once, in order, and none leaves its page |
| `Eeprom.Device.WriteMicrowire` | device-drivers-4.2.0/e1000/e1000_hw.c:4179-4250 | the words are written and nothing else |
| `Eeprom.ChecksumRestored` | device-drivers-4.2.0/e1000/e1000_hw.c:4026-4044 | the complement in word 63 makes the sum of the first 64 words 0xBABA |
| `Eeprom.Device.UpdateChecksum` | device-drivers-4.2.0/e1000/e1000_hw.c:4026-4044 | only word 63 changes, and the checksum then validates |
| `Eeprom.Device.ValidateChecksum` | device-drivers-4.2.0/e1000/e1000_hw.c:3992-4017 | true exactly if the first 64 words sum to 0xBABA on 16 bits |
| `Eeprom.ChecksumDetects` | device-drivers-4.2.0/e1000/e1000_hw.c:3992-4017 | two memories that both pass the check and agree in all of the first 64 words but one agree there too |
| `Eeprom.Device.GetEeprom` | device-drivers-4.2.0/e1000/e1000_ethtool.c:441-486 | returns the bytes of the range for every alignment |
| `Eeprom.Device.SetEeprom` | device-drivers-4.2.0/e1000/e1000_ethtool.c:488-548 | patches the bytes of the range and, if it starts at or before word 63, the checksum, which then validates |
| `Eeprom.AfterSetBytes` | device-drivers-4.2.0/e1000/e1000_ethtool.c:488-548 | bytes outside range and checksum word are kept; bytes in the range are as written exactly if they agree with the checksum |
| `Eeprom.Device.SetThenGet` | device-drivers-4.2.0/e1000/e1000_ethtool.c:441-548 | the memory is patched, the range is read back, and the bytes are as written exactly if those in the checksum word are the checksum |
| `Eeprom.ZerosDoNotSurvive` | device-drivers-4.2.0/e1000/e1000_ethtool.c:542-544 | zeros written to the checksum word of an empty EEPROM do not come back |

## Left out

- Prefix reference counts (Ref_Prefix, Deref_Prefix): prefixes are values, so sharing and freeing of prefix objects is not modelled.
- Allocation failure: node, route, skb and table allocations succeed; receive buffers may fail at any time in `RxRing`.
- The DMA mapping failure unwind of e1000_tx_map, and the packet drop when TSO setup fails.
- Memory barriers and RCU: steps are sequentially consistent; E1000_DESC_UNUSED, which reads next_to_clean twice, counts as one read.
- The explicit stacks of the searches and walks are sequences whose length is proved to stay within the C arrays.
- Kernel constants that are not in the repository: MAX_SKB_FRAGS is taken as 17, and the neighbour states with a usable address are those of NUD_VALID.
- Routes.Sfmc.KernelChange: the kernel may also drop a neighbour entry without a notice; the agreement of caches is then promised again only from the next notice for that address on.
- TxRing.Ring.XmitFrame: requires that the head grew by less than 2^max_txd_pwr bytes between sampling and mapping, or by at most 42 with a segment size that covers it (`TxGrowth.GrowthIsCovered`); what the ring looks like after an overrun is not modelled.
- TxRing.Ring.MaybeStop: nothing comes between its two checks; the interleavings are the subject of `QueueWake`.
- QueueWake.NoLostWakeup: the carrier is up and the device is not going down; otherwise the cleaner does not wake the queue.
- Checksum.IpChecksum: for a start value beyond 16 bits, which no caller passes, only the range of the result is stated.
- Encap.EncapPacket: what happens when the identifier of a selected packet lies outside its buffer, or a packet to be sent has no headroom; the source does not check for either.
- Routes.Sfmc.NeighResolve: a neighbour entry the kernel creates starts without a valid state; an entry that is valid at once, as for a multicast or broadcast gateway, is not modelled.
- Routes.Sfmc.FibDestroy: the source also frees the trie and is not used afterwards; here an empty valid trie is left, and a run may go on with it.
- RxRing.Ring.CleanRxIrq: the retries for buffers that cross a 64 kB boundary are part of whether an allocation succeeds; byte and packet statistics, receive checksum offload and VLAN tags are not modelled; the jumbo receive path is left out.
- RxFilter.Nic.SetRxMode: the reset dance of the 82542 revision 2.0 is left out.
- Eeprom.Device.SetEeprom: the chip always answers, and the range lies inside the EEPROM, which the ethtool core checks; the address bit in the opcode for words from 128 on and the CE4100 flash path are left out.
- Fifo82547.Fifo.Send: frames are at most max_frame_size + 42 bytes, which holds because this chip has no segmentation offload.
- sfmc_llt_cfg (compares a single byte of the configuration), acquiring and releasing of virtual devices, UDP source port hashing.
- Netlink encoding, attribute parsing, the configuration dumps of madcap.c, and iproute2.
- raven.c (the same table without the duplicate check), netdevgen.c, module parameters and /proc handlers.
- PHY, link, autonegotiation, LED, wake-on-LAN and reset register sequences: finite tables over hardware that is not in the repository.
