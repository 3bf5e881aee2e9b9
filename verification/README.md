# Verified model of a user-space IPv4 / ARP / ICMP stack

The project models the parts of the stack that carry its guarantees and proves what they promise.

- `ProbeTable`, `HashMaps`, `Bits`: the open-addressing hash map of `src/collections/hashmap.c`. `ProbeTable` treats a
  table as a value (what a probe finds, what an insertion and a removal do, which finite map it stands for); `HashMaps`
  holds the class with the in-place code, its iterator and whole runs; `Bits` shows that masking is wrapping.
- `ArpSpec`, `ArpKeys`, `ArpHosts`, `ArpThreads`, `ArpSerial`, `ArpWrites`, `ArpNetwork`: address resolution
  (`src/protocols/arp.c`) as an algorithm on values, as one host over the hash map with shared MAC cells, as many threads of
  one host (what every interleaving keeps, and exactly which ones do what the algorithm does), and as many hosts on an
  unreliable network.
- `Bytes`, `Checksum`, `ChecksumLaws`: the Internet checksum (`src/utils/protocols.c`) with its 32-bit accumulator, and
  the laws of RFC 1071.
- `Ip`, `Icmp`, `Tcp`, `Net`: the users of the checksum. Buffers are byte arrays rewritten in place.
- `LinkedLists`: the doubly linked deque of `src/collections/linked_list.c`.

## How it is modelled

- The host is little-endian. `Load16`, `Store16` and their 32-bit forms are the memory accesses; `Swap16` and `Swap32`
  are `htons`/`ntohs` and `htonl`/`ntohl`. 16- and 32-bit wrap-around is written out (`Add32`, `TotalLength`,
  `protocol % 256`). What a frame on the link says is stated in network order (`NetLoad16`, `NetLoad32`) and with the test of
  RFC 1071 on its bytes (`Verifies`).
- The hash map is generic in key, value, hash and equality. The only demand is `Lawful`: equality is an equivalence and
  equal keys hash alike. `NULL` is the pair of constants `noKey`, `noValue`. Its finite map keeps the stored key objects;
  `Get` and `Put` on it work up to the caller's equality.
- A key of the translation table is a pointer (`KeyRef`): the word it points to and whether it points into the heap or
  into a stack frame. `set_in_arp_cache` passes the address of a local variable to `hashmap_put`; that it is never stored
  is part of the invariants.
- Sending is appending a frame to the log of `NetInterface`. `exit(1)` for an unresolved address is an outcome.
- Memory the code reads one slot past the end of a table is a parameter (`beyond`) no result depends on.
- The interleaving model treats each membership test, `hashmap_get`, MAC copy and put as one atomic step. The code holds
  the mutex only around the tests and the puts.
- On the network a packet in flight is delivered to any set of hosts at once, so a broadcast reaches several or all of
  them and all their answers are collected. Packets are also lost, duplicated, reordered and misdelivered.
- Members named `Run`, `RunSpec`, `ReceivePackets`, `AnyMix`, `Drain`, `ReadForward` state a property over whole runs of
  the operations they call.

## Where a promise and the code differ

- Removal clears one flag and leaves no tombstone. It is a removal on the map exactly when no surviving key's probe path
  crosses the freed slot (`RemoveExactIff`); otherwise such a key stays stored but cannot be found (`CrossingIsLost`,
  `RemoveCanLoseAKey`). The next expansion makes it findable again (`HashMap.Expand`). Removing an absent key still
  decrements the size, which is then wrong until the next expansion or clear (`HashMap.Remove`, `HashMap.Expand`).
- The TCP check adds 32-bit addresses in 32 bits. While the addition does not wrap it agrees with RFC 793; when it wraps it
  rejects every segment the RFC accepts and accepts some the RFC rejects (`AgreesIff`, with the exact condition;
  `WrapIsWrongBothWays`, two SYN segments between ordinary addresses). The last octets of the two addresses decide: the
  check is right when they add up to at most 253, and rejects every valid segment when they add up to 256 or more
  (`LastOctetsDecide`). Congruence to the number of wraps describes what is accepted except for an addition that wraps to
  exactly zero (`AcceptsIff`, `WrapToZeroIsRejected`).
- When two threads refresh the same address at the same time the older packet's MAC can stay, although the algorithm keeps
  the newer one's (`OverlapKeepsOlder`, `OverlapIsReachable`). Without an overlap of receptions from an address its entry is
  the algorithm's (`SerialIsReceiveAll`). With overlaps the exact condition is that the MAC copied last is the MAC heard last
  (`RefreshesAgreeIff`, `RestToRestIff`); with concurrent additions too, that the MAC written last into the cell put last is
  (`ArpWrites.AgreesIff`). Which addresses are cached never depends on the interleaving (`CachedAtRest`).
- A request is answered by every host that hears it and has the target's address: at most once if and only if at most one of
  them has (`AnswerCount`, `AtMostOneAnswer`), which distinct addresses ensure (`DistinctIsEnough`). Under exactly that
  condition a delivery brings the network closer to quiet (`DeliveryLowersMeasure`).
- `ip_send` takes a 32-bit length and protocol, the header has 16 and 8 bits. A frame carries its datagram exactly for
  payloads of at most 65515 bytes and protocols below 256 (`Send`).
- `linked_list_concat` does not link the seam backwards (`Concat`).
- An ICMP message of three bytes is accepted as an echo request exactly when it is 8, 255, 247 (`ShortEcho`). It is answered
  with 0, 255, 255, which checks out as well, and the byte behind the datagram is overwritten with zero
  (`ShortEchoReply`).
- `src/protocols/ip.h` gives UDP the number 16; the model follows it.

## Model

| member | source | states |
|---|---|---|
| `Bits.MaskIsModulo` | src/collections/hashmap.c:60-66 | `x & (2^k - 1)`, defined bit by bit, is `x mod 2^k` |
| `Bits.MaskWraps` | src/collections/hashmap.c:60-66 | masking with a power-of-two capacity minus one equals modulo |
| `ProbeTable.Stored` | src/collections/hashmap.c:62-69 | finds the key object equal to the given one if and only if the map has one |
| `ProbeTable.GetAfterPut` | src/collections/hashmap.c:86-96 | law of the finite map: after a put exactly the equal keys see the new value, and keys stay unique |
| `ProbeTable.IndexUnique` | src/collections/hashmap.c:56-71 | a probe has at most one place to stop |
| `ProbeTable.IndexExists` | src/collections/hashmap.c:56-71 | with one free slot every probe stops |
| `ProbeTable.ProbeOrder` | src/collections/hashmap.c:60-71 | the probe stops at the first of the slots hash, hash + 1, ... modulo the length that is free or holds an equal key |
| `ProbeTable.ProbeReaches` | src/collections/hashmap.c:62-69 | on a chained table without duplicates the probe reaches exactly the slot with an equal key |
| `ProbeTable.LookupIsGet` | src/collections/hashmap.c:86-96 | the answer at the probed slot is the answer of the finite map |
| `ProbeTable.FilledProbing` | src/collections/hashmap.c:146-153 | an insertion keeps the cyclic probe-chain invariant and one slot per key |
| `ProbeTable.FilledIsPut` | src/collections/hashmap.c:146-153 | an insertion is a put on the finite map, keeping a stored key object |
| `ProbeTable.Inserted` | src/collections/hashmap.c:146-153 | invariant, map, count of used slots and cardinality after an insertion together |
| `ProbeTable.CountLeavesFree` | src/collections/hashmap.c:143-146 | fewer used slots than slots leaves a free one |
| `ProbeTable.CountIsCardinality` | src/collections/hashmap.c:163-168 | the number of used slots is the cardinality of the map |
| `ProbeTable.FreedContents` | src/collections/hashmap.c:110-118 | the slots left after a removal hold the old map minus the key |
| `ProbeTable.CrossingIsLost` | src/collections/hashmap.c:110-118 | a surviving key whose probe path crosses the freed slot is stored but its lookup answers absent |
| `ProbeTable.RemoveExactIff` | src/collections/hashmap.c:110-118 | every lookup answers as the old map minus the key if and only if no surviving key's path crosses the freed slot; the chain invariant survives under the same condition |
| `ProbeTable.EmptyNextSuffices` | src/collections/hashmap.c:110-118 | an empty slot after the freed one is enough for that |
| `ProbeTable.RemoveCanLoseAKey` | src/collections/hashmap.c:110-118 | a concrete table of 16 slots in which removing one key hides another |
| `ProbeTable.PutAllIsContents` | src/collections/hashmap.c:182-187 | re-inserting a table without duplicates into an empty map gives its own map |
| `ProbeTable.Rehashed` | src/collections/hashmap.c:170-189 | a rebuilt table stands for the same map and has as many used slots |
| `ProbeTable.UsedFromComplete` | src/collections/hashmap.c:230-235 | the iteration order lists every used slot once, by increasing index |
| `ProbeTable.WalkMeetsEachOnce` | src/collections/hashmap.c:244-272 | walking the used slots meets every entry of the map exactly once |
| `HashMaps.HighestBit` | src/collections/hashmap.c:21-27 | 0 up to 1, else the power of two r with r < i <= 2r |
| `HashMaps.LoadBound` | src/collections/hashmap.c:132-144 | a put that does not expand leaves at most three quarters of the slots used |
| `HashMaps.MaskSteps` | src/collections/hashmap.c:66-67 | the masked increment is the cyclic successor |
| `HashMaps.HashMap.constructor` | src/collections/hashmap.c:29-46 | an empty valid map whose capacity is the least power of two that is at least 16 and the requested size |
| `HashMaps.HashMap.IndexOf` | src/collections/hashmap.c:56-71 | stops at the probed slot, the first free or equal one from the hash on, after fewer steps than the capacity |
| `HashMaps.HashMap.ContainsKey` | src/collections/hashmap.c:73-80 | true exactly when the finite map has an equal key |
| `HashMaps.HashMap.GetOrDefault` | src/collections/hashmap.c:86-96 | the finite map's value or the default |
| `HashMaps.HashMap.Lookup` | src/collections/hashmap.c:82-84 | the finite map's value or NULL |
| `HashMaps.HashMap.Remove` | src/collections/hashmap.c:110-118 | frees the probed slot and decrements the size; a right size stays right if and only if the slot was used; on a probing table that is the key's entry, and the table stays one if and only if no path crosses the slot |
| `HashMaps.HashMap.Clear` | src/collections/hashmap.c:120-130 | the empty map with size 0, from any table, whatever its size field says |
| `HashMaps.HashMap.LoadFactor` | src/collections/hashmap.c:132-137 | the largest percentage not above the used share |
| `HashMaps.HashMap.Put` | src/collections/hashmap.c:139-154 | a put on the finite map, whatever the size field says; doubles the capacity exactly above 70 percent; keeps the size as right as it was; terminates together with Expand |
| `HashMaps.HashMap.Store` | src/collections/hashmap.c:146-153 | changes one slot, the probed one |
| `HashMaps.HashMap.Expand` | src/collections/hashmap.c:170-189 | doubles the capacity, makes any table valid with a right size, and keeps map, stored keys and their number for one without duplicates |
| `HashMaps.RemovalStep` | src/collections/hashmap.c:110-118 | a guarded removal on a valid table is the removal of the finite map on what is stored, and leaves a valid table if and only if no path crosses the freed slot |
| `HashMaps.GetAfterOperation` | src/collections/hashmap.c:86-189 | the laws of the finite map: a put is seen by exactly the equal keys, a removal hides exactly those, an expansion is not seen, a clear leaves nothing |
| `HashMaps.StepRefines` | src/collections/hashmap.c:73-189 | every operation on a valid table does what it does to the finite map and leaves a valid table if and only if it is harmless; expansion and clear also after a harmful removal |
| `HashMaps.Apply` | src/collections/hashmap.c:73-189 | the code of one put, guarded removal, expansion or clear takes such a step and keeps the size right |
| `HashMaps.HistoryRefines` | src/collections/hashmap.c:73-189 | along every run whose removals are harmless or followed at once by an expansion or a clear, the tables stand for the maps of the specification |
| `HashMaps.Run` | src/collections/hashmap.c:73-189 | for every hash, consistent equality, initial size and run of put, guarded removal, expand and clear the size is the number of used slots, at most three quarters; if every removal is harmless in the table it meets or followed at once by an expansion or a clear, the table stands for the map the specification builds, its size is the cardinality and keys are unique |
| `HashMaps.HashMapIterator.constructor` | src/collections/hashmap.c:197-204 | an iterator without a map has nothing pending |
| `HashMaps.HashMapIterator.Reset` | src/collections/hashmap.c:205-211 | all used slots are pending again |
| `HashMaps.HashMapIterator.SetMap` | src/collections/hashmap.c:212-219 | all used slots of the map are pending |
| `HashMaps.HashMapIterator.Advance` | src/collections/hashmap.c:230-235 | stops at the first used slot from the index on, or at the end, whatever lies beyond the table |
| `HashMaps.HashMapIterator.Scan` | src/collections/hashmap.c:224-235 | moves to the first pending slot without changing what is pending, whatever lies beyond the table |
| `HashMaps.HashMapIterator.HasNext` | src/collections/hashmap.c:220-243 | true exactly when something is pending; changes nothing pending |
| `HashMaps.HashMapIterator.Next` | src/collections/hashmap.c:244-272 | returns and consumes the first pending slot, or fails when there is none |
| `HashMaps.HashMapIterator.StepOver` | src/collections/hashmap.c:276-281 | one round of skipping takes exactly one pending slot off the front, or finds none |
| `HashMaps.HashMapIterator.Skip` | src/collections/hashmap.c:273-283 | succeeds exactly when n entries were pending and then has consumed n |
| `HashMaps.Drain` | src/collections/hashmap.c:220-272 | the loop of has_next and next returns every used slot once, in index order |
| `HashMaps.Perform` | src/collections/hashmap.c:220-272 | one call takes at most one slot off the front of what is pending, a next exactly one while any is left |
| `HashMaps.PerformAll` | src/collections/hashmap.c:220-272 | any calls take the pending slots off the front, as many as there were calls of next |
| `HashMaps.AnyMix` | src/collections/hashmap.c:220-272 | any mix of calls returns the used slots in index order, one for each call of next until they run out |
| `ArpSpec.ToKeyInjective` | src/protocols/arp.c:42-44 | protocol and address are recovered from the key |
| `ArpSpec.PacketShapes` | src/protocols/arp.c:233-239 | requests and replies are well formed and carry their opcode |
| `ArpSpec.PacketsOnTheWire` | src/protocols/arp.h:14-17 | which packets pass the tests, and every field of requests, replies and keys, as numbers |
| `ArpSpec.CachedIff` | src/protocols/arp.c:174-195 | after any packets an address is cached if and only if a well-formed packet from it targeted this host |
| `ArpSpec.MostRecentWins` | src/protocols/arp.c:174-195 | a cached MAC is that of the most recent well-formed packet from its address, whatever its target or opcode |
| `ArpSpec.CachedIsHeardLast` | src/protocols/arp.c:174-195 | the MAC of a cached address is the one heard last from it |
| `ArpSpec.OnlyIpv4Keys` | src/protocols/arp.c:176-194 | only keys of IPv4 addresses are ever cached |
| `ArpKeys.WordsLawful` | src/protocols/arp.c:36-41 | hash and equals of the translation table are consistent |
| `ArpKeys.GetByWord` | src/protocols/arp.c:45-52 | a lookup through any pointer sees the word's one entry |
| `ArpKeys.PutByWord` | src/protocols/arp.c:54-76 | a put keeps every stored key on the heap exactly when the pointer is a heap pointer or its word is present |
| `ArpHosts.InHostOrder` | src/protocols/arp.c:165-197 | the tests and the reply after the header was converted in place are those of the algorithm on network order |
| `ArpHosts.ArpBuffer.SwapHeader` | src/protocols/arp.c:81-92 | swaps opcode, hardware type and protocol type in place |
| `ArpHosts.ArpHost.constructor` | src/protocols/arp.c:97-99 | an empty table |
| `ArpHosts.ArpHost.IsIn` | src/protocols/arp.c:45-52 | whether the key is cached |
| `ArpHosts.ArpHost.LookupCell` | src/protocols/arp.c:57-60 | the stored cell, NULL exactly for an uncached key |
| `ArpHosts.ArpHost.PutCell` | src/protocols/arp.c:62-64 | the word's cell is replaced and no stack key is stored |
| `ArpHosts.ArpHost.SetIn` | src/protocols/arp.c:54-65 | exactly one MAC changes, in place; the stored pointers stay |
| `ArpHosts.ArpHost.AddTo` | src/protocols/arp.c:66-76 | the key maps to the MAC, every other entry stays |
| `ArpHosts.ArpHost.Learn` | src/protocols/arp.c:179-195 | a cached sender is refreshed, a new one is added only if we are the target |
| `ArpHosts.ArpHost.Receive` | src/protocols/arp.c:158-213 | the table changes as the reception algorithm says; a well-formed request for us puts exactly one frame on the link, to the sender's MAC, the reply field by field, and any other packet none |
| `ArpHosts.ArpHost.SendReply` | src/protocols/arp.c:132-154 | the buffer becomes the reply, from us to the sender, and is sent to the sender's MAC |
| `ArpHosts.ArpHost.Resolve` | src/protocols/arp.c:217-256 | the cached MAC and no traffic, or NULL and one broadcast request |
| `ArpHosts.Destroy` | src/protocols/arp.c:101-127 | frees every stored key and cell exactly once, no pointer twice and no stack pointer |
| `ArpHosts.FreedOnce` | src/protocols/arp.c:108-122 | the same, of the walked entries |
| `ArpHosts.ReceivePacket` | src/protocols/arp.c:158-213 | one packet in a buffer of its own: the table, and the one reply frame or none |
| `ArpHosts.ReceivePackets` | src/protocols/arp.c:158-213 | after any packets a fresh host's hash map holds exactly the table of the algorithm |
| `ArpThreads.FindIff` | src/protocols/arp.c:45-60 | in a good state a lookup finds exactly the cached words, with a cell of their own |
| `ArpThreads.StepInv` | src/protocols/arp.c:45-76 | every step of every thread keeps the invariant and no cached key disappears |
| `ArpThreads.RunInv` | src/main.c:65-83 | so does every schedule of any number of threads |
| `ArpThreads.ThreadsAreSafe` | src/protocols/arp.c:45-76 | in every interleaving the non-NULL assertion holds, cached keys stay, each word has one heap key and a cell of its own, its MAC was announced for that address by a well-formed packet, and some such packet targeted us |
| `ArpThreads.ResolvedPointerIsGood` | src/protocols/arp.c:217-220 | a pointer returned by a lookup always shows a MAC announced for that address |
| `ArpThreads.LookupStarts` | src/protocols/arp.c:217-230 | a lookup of an address that is not cached gets nothing and changes nothing shared |
| `ArpThreads.LookupReturns` | src/protocols/arp.c:217-220 | whatever other threads do in between, a lookup of a cached address returns the cell stored for it at its second step, which shows a MAC announced for it, and the thread is free after the third |
| `ArpThreads.ReceptionStores` | src/protocols/arp.c:62-75 | the last step of a reception stores the cell it holds under the sender's heap key and changes nothing else |
| `ArpSerial.StepUntouched` | src/protocols/arp.c:45-76 | a step touches no address but that of the packet its thread is receiving or hears |
| `ArpSerial.OwnStep` | src/protocols/arp.c:45-76 | every step of a reception brings its sender's entry on the way to what the algorithm expects, the last one there |
| `ArpSerial.StepSerial` | src/protocols/arp.c:158-213 | a step after which no two receptions from an address overlap keeps that address on the way to the expected entry, whatever overlaps elsewhere |
| `ArpSerial.SerialIsReceiveAll` | src/protocols/arp.c:158-213 | in every schedule of any number of threads in which receptions from an address never overlap, that address has, whenever nobody is receiving from it, exactly the entry of the algorithm on the packets in the order heard |
| `ArpSerial.OneThreadIsReceiveAll` | src/protocols/arp.c:158-213 | a single thread always does what the algorithm does |
| `ArpSerial.StepCovered` | src/protocols/arp.c:174-195 | no step loses track of an address that targeted us: it is cached or a thread receiving from it will add it |
| `ArpSerial.CachedAtRest` | src/protocols/arp.c:174-195 | in every interleaving, overlaps included, an address nobody is receiving from is cached if and only if the algorithm caches it |
| `ArpSerial.OverlapKeepsOlder` | src/protocols/arp.c:54-65 | from every good state that caches an address, a refresh inside another one's leaves the older packet's MAC, where the algorithm has the newer one's |
| `ArpSerial.OverlapIsReachable` | src/protocols/arp.c:54-76 | the same from the start, after a first packet that adds the address |
| `ArpWrites.EntryIsLastWrite` | src/protocols/arp.c:54-76 | in every interleaving the entry of an address is the MAC written last into the cell put last for it |
| `ArpWrites.AgreesIff` | src/protocols/arp.c:54-76 | in every interleaving, concurrent additions included, an address at rest has the algorithm's entry if and only if nothing was put for it or that MAC is the one heard last |
| `ArpWrites.StepSettled` | src/protocols/arp.c:54-65 | once an address is cached, nobody adds it and every refresher holds its cell, a step keeps it so, and only a copy changes its MAC |
| `ArpWrites.RunSettled` | src/protocols/arp.c:54-65 | from there, after every schedule, the entry is the MAC copied last, or the old one |
| `ArpWrites.RefreshesAgreeIff` | src/protocols/arp.c:54-65 | so however refreshes overlap, the entry is the algorithm's if and only if the MAC copied last is the MAC heard last |
| `ArpWrites.HeardIsCopied` | src/protocols/arp.c:54-65 | from rest, something heard is copied or still to be copied, and nothing is copied that was not heard |
| `ArpWrites.RestToRestIff` | src/protocols/arp.c:54-65 | between two moments of rest an entry that agreed agrees again if and only if the last copy and the last packet of that time carry the same MAC |
| `ArpNetwork.DeliverTruthful` | src/protocols/arp.c:158-213 | a delivery to any set of hosts keeps sender pairs and cache entries truthful |
| `ArpNetwork.StepTruthful` | src/protocols/arp.c:132-256 | no lookup, delivery, loss or duplication makes a sender pair or a cache entry untruthful |
| `ArpNetwork.RunTruthful` | src/protocols/arp.c:132-256 | neither does any run |
| `ArpNetwork.OwnersMac` | src/protocols/arp.c:132-256 | with distinct addresses a truthful entry is the owner's MAC |
| `ArpNetwork.NetworkIsTruthful` | src/protocols/arp.c:132-256 | from an empty network of hosts with distinct IPs, after any actions, every packet in flight and every cache entry carries the MAC of the host owning the IP |
| `ArpNetwork.AnswerCount` | src/protocols/arp.c:184-204 | for any hosts and hearers a well-formed request gets exactly as many answers as hearers have the target's address, and anything else none |
| `ArpNetwork.AnswersFromOwners` | src/protocols/arp.c:132-154 | every answer is the reply of a hearer that has the target's address |
| `ArpNetwork.AtMostOneAnswer` | src/protocols/arp.c:184-204 | a packet is answered at most once if and only if it is no well-formed request or at most one hearer has the target's address, and at all if and only if it is one and some hearer has |
| `ArpNetwork.TheOnlyAnswer` | src/protocols/arp.c:132-154 | the one answer is that hearer's |
| `ArpNetwork.DistinctIsEnough` | src/protocols/arp.c:184-204 | hosts with distinct addresses answer every packet at most once |
| `ArpNetwork.DeliveryMeasure` | src/protocols/arp.c:184-204 | a delivery exchanges the weight of the packet (two for a request, else one) for the number of its answers |
| `ArpNetwork.DeliveryLowersMeasure` | src/protocols/arp.c:184-204 | a delivery, to however many hosts, lowers the total weight in flight if and only if the packet is no well-formed request or at most one hearer has the target's address |
| `ArpNetwork.GoesQuiet` | src/protocols/arp.c:184-204 | with only such deliveries and losses a network is quiet within as many of them as that weight |
| `ArpNetwork.DistinctGoesQuiet` | src/protocols/arp.c:184-204 | so with distinct addresses every network left alone goes quiet, broadcasts included |
| `ArpNetwork.LookupAsks` | src/protocols/arp.c:221-254 | a lookup of an uncached address broadcasts exactly one request for that address from the host's own pair, field by field; of a cached one it changes nothing |
| `ArpNetwork.RequestIsAnswered` | src/protocols/arp.c:132-154 | a request heard by the one owner of its target leaves the link and that host's reply enters it last, field by field |
| `ArpNetwork.OthersUnanswered` | src/protocols/arp.c:196-204 | anything else leaves the link and nothing enters it |
| `ArpNetwork.OnlyHearersLearn` | src/protocols/arp.c:158-195 | hosts that do not hear a packet do not change, those that do learn by the algorithm; what duplication and loss do |
| `ArpNetwork.GoneIff` | src/net_interface.c:50-81 | a packet in flight is gone if and only if some action delivered or lost it where it was |
| `ArpNetwork.RunTracks` | src/net_interface.c:50-81 | otherwise it is still in flight at its tracked index |
| `ArpNetwork.CachedForever` | src/protocols/arp.c:179-195 | no action removes a cached key, truthful or not |
| `ArpNetwork.DeliveredSticks` | src/protocols/arp.c:174-195 | a host that received a packet for it from an owner, among others or alone, resolves that owner at once and after any further actions |
| `ArpNetwork.LookupCompletes` | src/protocols/arp.c:132-256 | after a lookup, with anything happening before its request is delivered to the owner, before the reply that causes is delivered back, and after, each host resolves the other for ever; no packet is assumed |
| `ArpNetwork.LookupCompletesAtOnce` | src/protocols/arp.c:132-256 | request and reply delivered at once leave the link as it was and each host resolving the other |
| `ArpNetwork.ExchangeResolves` | src/protocols/arp.c:132-256 | the bare exchange does so from any pair of caches, and the reply is not answered |
| `Net.NetInterface.Send` | src/net_interface.c:50-81 | appends the frame to the log |
| `Checksum.Canon` | src/utils/protocols.c:20-23 | zero only for zero, itself up to 65535 |
| `Checksum.CanonUnique` | src/utils/protocols.c:20-23 | the residue is the one value in 0..65535 congruent modulo 65535 that is zero only for zero |
| `Checksum.AccumulateWraps` | src/utils/protocols.c:10-18 | the accumulator holds the word sum modulo 2^32 |
| `Checksum.Fold` | src/utils/protocols.c:20-23 | folding gives that residue in at most two rounds |
| `Checksum.Sum16` | src/utils/protocols.c:6-24 | for every length, the residue of the 32-bit accumulator over the block's words, a trailing byte alone |
| `Checksum.NoOverflow` | src/utils/protocols.c:6-24 | up to 131074 bytes the accumulator does not wrap and the result is the residue of the word sum |
| `Checksum.ZeroOnlyForZeros` | src/utils/protocols.c:6-24 | zero exactly for an all-zero block |
| `Checksum.OverflowBeyondBound` | src/utils/protocols.c:10-14 | every longer length has a block for which the result is wrong |
| `ChecksumLaws.VerifiesIff` | src/utils/protocols.h:6 | the complement is 0 exactly when the word sum is a positive multiple of 65535 |
| `ChecksumLaws.FillThenVerify` | src/protocols/ip.c:40-48 | zeroing an aligned field, computing and storing makes every block verify |
| `ChecksumLaws.SingleWordChange` | src/protocols/ip.c:45-48 | from a verifying block a changed aligned word goes unnoticed exactly between 0x0000 and 0xffff, towards 0x0000 only if something else is non-zero |
| `ChecksumLaws.SumOfPermutation` | src/utils/protocols.c:10-14 | the word sum does not depend on the order |
| `ChecksumLaws.ReorderingKeepsChecksum` | src/utils/protocols.c:6-24 | reordering aligned words keeps the checksum (section 2(A) of RFC 1071) |
| `ChecksumLaws.ByteOrderIndependence` | src/utils/protocols.c:6-24 | the sum over host words is the byte swap of the sum over network words, odd lengths included (section 2(B)) |
| `ChecksumLaws.StoredBytesAgree` | src/utils/protocols.h:6 | the stored bytes are those of the network-order computation |
| `ChecksumLaws.VerifiesOnHost` | src/utils/protocols.h:6 | the code's test is that of RFC 1071 on bytes in network order |
| `ChecksumLaws.RfcExample` | src/utils/protocols.c:6-24 | the worked example of section 3 of RFC 1071: sum ddf2, stored bytes 22 0d |
| `Ip.SwappedTwice` | src/protocols/ip.c:72-81 | conversion to and from host order is its own inverse |
| `Ip.SwappedFields` | src/protocols/ip.c:72-81 | a converted header holds in host order what lay in network order, and conversely; every other byte stays |
| `Ip.HeaderOkIsVerifies` | src/protocols/ip.c:45-48 | the header check is the test of RFC 1071 on the 20 bytes as they lie on the wire |
| `Ip.FilledChecksOut` | src/protocols/ip.c:40-48 | an updated header passes the check and nothing but its checksum field changed |
| `Ip.WireRoundTrip` | src/protocols/ip.c:144-145 | a sent header has length and addresses in network order and every other byte but the checksum as built; it passes the receiver's check and converts back |
| `Ip.WireDelivers` | src/protocols/ip.c:144-147 | the same, payload included |
| `Ip.DeliveredCarries` | src/protocols/ip.c:124-148 | the bytes sent carry addresses, length, protocol and payload exactly for payloads up to 65515 and protocols below 256 |
| `Ip.SentFrame` | src/protocols/ip.c:124-160 | the frame in network order: length, addresses, protocol, payload and constants, and its length modulo 65536 beyond the limit |
| `Ip.SwapHeader` | src/protocols/ip.c:72-81 | in place, the host-order length and addresses become the big-endian fields of the bytes before, and the other way round; every other byte stays |
| `Ip.UpdateChecksum` | src/protocols/ip.c:40-44 | zero, compute, store in place |
| `Ip.StoreChecksum` | src/protocols/ip.c:43 | stores the complement over the 20 header bytes |
| `Ip.HeaderCheck` | src/protocols/ip.c:45-48 | true exactly when the complement over the 20 header bytes is 0 |
| `Ip.SendPacket` | src/protocols/ip.c:124-148 | exit without a cached MAC, else the converted and filled packet of the header's length goes to that MAC |
| `Ip.HeaderAlloc` | src/protocols/ip.c:22-36 | the constant fields, and the total length in 16 bits |
| `Ip.BuildDatagram` | src/protocols/ip.c:149-156 | addresses, protocol and payload of the datagram in host order |
| `Ip.Send` | src/protocols/ip.c:149-160 | the emitted frame, in network order, has the RFC 791 checksum, length, protocol, source, destination and payload exactly for payloads up to 65515 bytes and protocols below 256; version, header length, identifier, flags and time to live are the constants; a longer one is cut to its length modulo 65536 |
| `Icmp.ShortChecksOut` | src/protocols/icmp.c:54-56 | fewer than four bytes pass the check exactly when the second is 255 and the others add up to 255 |
| `Icmp.AnsweredChecksOut` | src/protocols/icmp.c:65-69 | the rewritten message has type 0, keeps every byte but type and checksum, and passes the check exactly when it has four bytes or is three with code 255 |
| `Icmp.AcceptedAnswerable` | src/protocols/icmp.c:91-112 | which every accepted echo request is |
| `Icmp.ReaddressedFields` | src/protocols/icmp.c:83-84 | from our address to the requester, nothing else changed |
| `Icmp.EchoReplyIsGood` | src/protocols/icmp.c:60-87 | under exactly that condition the frame, in network order, passes both checks, goes from us to the requester, has type 0 and keeps the header bytes before the checksum, code, identifier, sequence number and data |
| `Icmp.ShortEcho` | src/protocols/icmp.c:91-112 | an echo request with fewer than four bytes of ICMP is accepted if and only if it has three, with code 255 and last byte 247 |
| `Icmp.ShortEchoReply` | src/protocols/icmp.c:65-69 | it is answered with 0, 255, 255, which passes the check, and a zero is written behind the datagram |
| `Icmp.RewriteMessage` | src/protocols/icmp.c:65-69 | the in-place part of that |
| `Icmp.ReceiveEchoRequest` | src/protocols/icmp.c:60-87 | sends that reply to the requester's cached MAC, or exits; it is a good echo reply exactly under that condition |
| `Icmp.ReceiveIcmp` | src/protocols/icmp.c:91-120 | answered, with its echo reply, exactly when the message checks out, is an echo request and its sender is cached; for an uncached sender only the question for it is sent; any other message changes and sends nothing |
| `Icmp.ReceiveIp` | src/protocols/ip.c:85-120 | the outcome for every packet, read off its bytes in network order; every accepted echo request from a cached sender is answered with its echo reply |
| `Icmp.DatagramArrives` | src/protocols/ip.c:85-120 | what becomes of an arriving ICMP datagram depends on its payload and whether its sender is cached, in exactly this way |
| `Icmp.SegmentArrives` | src/protocols/tcp.c:34-41 | an arriving TCP segment gets the verdict of the congruence on exactly this segment, source and destination: that of RFC 793 for last octets adding up to at most 253, and never acceptance of a valid one from 256 on |
| `Icmp.OthersArrive` | src/protocols/ip.c:88-119 | a header that does not verify is dropped; UDP and unknown protocols are told by the protocol byte alone |
| `Icmp.ReplyArrives` | src/protocols/icmp.c:105-108 | an echo reply passes both checks on arrival and is then ignored |
| `Icmp.PongKeeps` | src/protocols/icmp.c:60-87 | the reply frame has the length, code and data of the request frame |
| `Icmp.SendPing` | src/protocols/ip.c:149-160 | a sent echo request is a frame a receiver reads back as it |
| `Icmp.ReceivePing` | src/protocols/icmp.c:60-120 | it is replied to with its echo reply, to the MAC cached for its sender |
| `Icmp.ReceivePong` | src/protocols/icmp.c:91-120 | the reply is ignored and nothing sent |
| `Icmp.Ping` | src/protocols/icmp.c:60-120 | the whole exchange between two hosts that have each other cached: one frame each, the request read back exactly, its echo reply, and an end |
| `Tcp.FourByteCheck` | src/protocols/tcp.c:40 | the check of a 32-bit sum is divisibility by 65535 of a non-zero sum |
| `Tcp.AcceptsIff` | src/protocols/tcp.c:34-41 | accepted exactly when the unbounded sum is congruent modulo 65535 to the number of 32-bit wraps and the 32-bit sum is not zero |
| `Tcp.RfcValidIff` | src/protocols/tcp.c:34-41 | the test of section 3.1 of RFC 793 on pseudo-header and segment in network order is divisibility of the same sum |
| `Tcp.AgreesIff` | src/protocols/tcp.c:34-41 | code and RFC agree on a segment if and only if the addition does not wrap, or the sum is no multiple of 65535 and not congruent to the wraps except by wrapping to zero; with a wrap no segment passes both |
| `Tcp.LastOctetsDecide` | src/protocols/tcp.c:34-41 | for every segment: last octets adding up to at most 253 make the check the RFC's, to 256 or more make it reject whatever is valid |
| `Tcp.WrapToZeroIsRejected` | src/protocols/tcp.c:38-40 | an addition that wraps to exactly zero is rejected although it is congruent to its one wrap |
| `Tcp.WrapToZeroHappens` | src/protocols/tcp.c:38-39 | a SYN between two private addresses whose addition does |
| `Tcp.WrapIsWrongBothWays` | src/protocols/tcp.c:38-40 | a valid SYN between two private addresses that is rejected, and an invalid one that is accepted |
| `LinkedLists.LinkedList.constructor` | src/collections/linked_list.c:18-24 | the empty list |
| `LinkedLists.LinkedList.IsEmpty` | src/collections/linked_list.c:33-36 | whether the sequence is empty |
| `LinkedLists.LinkedList.PushTail` | src/collections/linked_list.c:56-68 | appends; the chain stays well formed, forwards and, if it was, backwards |
| `LinkedLists.LinkedList.PushHead` | src/collections/linked_list.c:84-96 | prepends, likewise |
| `LinkedLists.LinkedList.PopHead` | src/collections/linked_list.c:70-83 | takes the first content off, likewise |
| `LinkedLists.LinkedList.PopTail` | src/collections/linked_list.c:42-55 | takes the last content off a list linked in both directions |
| `LinkedLists.Concat` | src/collections/linked_list.c:98-107 | read forward, the first sequence followed by the second; linked backwards exactly when one of the two was empty |
| `LinkedLists.Adopt` | src/collections/linked_list.c:100-101 | the branch of an empty first list: the other's fields, well linked if the other is |
| `LinkedLists.Join` | src/collections/linked_list.c:102-106 | the branch of two non-empty lists, never linked backwards at the seam |
| `LinkedLists.ListIterator.constructor` | src/collections/linked_list.c:115-132 | everything is pending |
| `LinkedLists.ListIterator.HasNext` | src/collections/linked_list.c:133-142 | true exactly when something is pending; changes nothing pending |
| `LinkedLists.ListIterator.Next` | src/collections/linked_list.c:165-179 | returns and consumes the first pending content, or fails |
| `LinkedLists.ListIterator.Skip` | src/collections/linked_list.c:180-187 | succeeds exactly when n contents were pending and then has consumed n |
| `LinkedLists.ReadRest` | src/collections/linked_list.c:133-179 | reading on yields exactly what is pending |
| `LinkedLists.ReadForward` | src/collections/linked_list.c:133-179 | the loop of has_next and next yields the sequence |
| `LinkedLists.Run` | src/collections/linked_list.c:42-96 | any run of pushes and pops at both ends keeps an acyclic doubly linked chain standing for the sequence, and reading it forward yields that sequence |

## Left out

- Device I/O, ioctl and queue ownership (`src/tun_device.c`, `src/net_interface.c`): a sent frame is a log entry.
- Thread start-up, the fixed read buffer and the endless loop of `src/main.c`.
- TCP header conversion, control bits and any connection state: the code has no connection state machine.
- UDP and Ethernet processing: printing and one byte swap.
- `linked_list_it_remove`, `free_linked_list` and tail pops across a concatenation seam: the first leaves size and a link
  stale, the second calls a function that does not exist, the third follows a link that is never set.
- `hashmap_lget_or_default`, which differs from `hashmap_get_or_default` only in how the default is obtained; `free_hashmap`.
- HashMaps.HashMap.Put: requires a free slot or a load above 70 percent, without which the source loops for ever (removals of
  absent keys can lower the size so far). `size * 100` and the doubled capacity are unbounded here; the source's `long`
  overflows only far beyond addressable memory. The same holds for `HashMaps.HighestBit` above 2^62.
- Net.NetInterface.Send: does not capture the choice of a queue, the Ethernet header or a missing device.
- ArpThreads.ThreadsAreSafe: does not capture a `hashmap_get` that overlaps an expansion by another thread, nor a MAC copy
  that is half done when it is read; each is one step here.
- Icmp.ReceiveIp: requires, of TCP and ICMP packets with a good header only, that the length lies between 20 and the buffer,
  and of an accepted echo request that the buffer holds the four bytes of an ICMP header; the source reads or writes outside
  its buffer otherwise.
- Ip.Send: requires at most 65535 bytes; beyond that the source writes past the buffer it allocated.
- Allocation failure, `free`, logging and printing, command execution, and the parsing of addresses.
- IP options and fragmentation: the code always uses a 20-byte header and never reassembles.
