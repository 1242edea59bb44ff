# Ziqe: containers, peer registry, streams and messages

A Dafny model of the code Ziqe's servers stand on, with proofs of what it does. It has three layers.

**The hash table over a shared list.** `LinkedList` is the doubly linked list of `Base/LinkedList.hpp`, with nodes as
heap objects and iterators as nodes or `null`. `HashTable` is the unique-key table of `Base/HashTable.hpp`: all
entries live in one list, the entries of one slot form one contiguous run, `mTable[slot]` is the first node of the
run, and the end of a run shows only by the back reference of an entry changing. `KeyIndex` has the facts about such a
list of entries as a sequence, and `HashTableRuns` compares whole runs of operations with a finite map, for every hash
function and every table size. `Hashes` is the djb2 hash, and `HashTableRanges` the erase of a range. `Witnesses` has
concrete states for some of what goes wrong, here and in the third layer.

**The peer registry.** `OtherServers` of `Core/Common/ProcessPeersServer.hpp` is a list of connections with reference
counts and a hash table from thread IDs to iterators into that list. `Registry` has its abstract state, a sequence of
groups with one group for each Hello, and the laws of adding and removing threads; `RegistryRuns` has the laws of runs
of Hello and Goodbye messages, and `Fates` says which connections any run leaves; `Peers` proves the class, which
works on the heap, against both; `PeersServer` has the handlers, and the server's own thread IDs.

**Streams and messages.** `ExtendedVector` is the window of `Base/ExtendedVector.hpp` over an array of bytes. `Codec`
says what the bytes of an integer are, in both byte orders, and proves the masks and shifts of the source right;
`CodecNumbers` gives each byte and each number from the integer alone. `Fields` has lists of integers and vectors.
`FieldWriter` and `FieldReader` are the classes of these names over an `ExtendedVector`. `InputStreamVector` of
`Network/Stream.cpp` is a queue of packets; `StreamReader` is the field reader over it, and `StreamRuns` compares runs
of reads with the same reads from one piece. `Messages` and `UdpMessages` are the messages with thread IDs and the UDP
header. The network is a parameter: the sequence of results that `receiveData` is going to give, packets that are never
empty, and failures.

Methods with the name of a function of the source have its statements. Where the statements and the reasoning about
them together would be too much for one proof, the statements are in a method of their own (`Link` of `EmplaceEntry`,
`Unlink` of `Erase`, `Connect` of `AddThreads`, `Disconnect` of `RemoveThread`, and so on). A node that the source
deletes is one that has left the ghost sequence `Nodes`. Where the source would dereference `end()`, or take the front
of an empty queue, the method returns `ok` as false, and its contract says exactly when. In the methods of
`ExtendedVector` and of the writers `ok` is false where the assertion that the window's end is not passed would log,
which does not stop the source. Other assertions have no part in `ok`.

## Where the code does not do what it says

The model follows the code, but for one call that is named here. What it then proves is this.

- `LinkedList::erase` of the last node returns the node before it, and not `end()` (`Base/LinkedList.hpp:328-331`).
  `HashTable::erase` is right all the same: contiguity puts the node before a slot's head into another slot
  (`BeforeHead`).
- After `emplace_after` of `end()` on a list that is not empty, a walk from the beginning sees the new node alone. The
  size counts all, and the end and the links of the nodes of before stay as they were (`EmplaceAfter`).
- The range `erase` of the list goes through `end()` exactly for a suffix that is not the whole list. For a prefix
  that is not the whole list the new first node points back at a deleted one (`EraseRange`; `SuffixErased` and
  `PrefixErased` are such states).
- The range `erase` of the hash table does not test the entry behind a removed run as the head of its own slot
  (`Base/HashTable.hpp:283-292`). The table entries are right afterwards if and only if no two entries of the range
  were heads of their slots (`ClearSlots`), and the whole table is if and only if, besides, the list is (`EraseRange`;
  `StaleSlot` is a state where they are not).
- Copy assignment of a list to itself empties it (`Assign`).
- A Hello leaves the reference counts exact if and only if its list of threads is not empty, has no thread twice, and
  names none that is registered (`AddExact`). Nothing that comes later makes up for a Hello that does not: over a whole
  run, the counts end exact if and only if every Hello list was of this kind when it came (`RegistryRuns.RunExactly`).
  Which connections are left after any run, and with which counts, is in `RunFates` and `HelloGone`. The map from
  threads to addresses is right after any Hello (`RunRefinesMap`). A peer without threads announces an empty list, and
  its connection is never removed (`AnnouncedFresh`).
- A Goodbye goes through `end()` exactly when it names a thread twice, or one that is not registered
  (`RemoveThreads`).
- `ExtendedVector::expand` makes the window longer by what was asked for only by coincidence (`ExpandUsable`).
  `writeT` into a window that is too short stores the right bytes, but leaves a usable window if and only if half of
  the underlying vector is enough for them (`WriteT`). A message makes room twice, which adds one more coincidence
  (`WriteToWriter`).
- `LittleEndianFieldWriter` is an alias of the big-endian writer (`Base/FieldWriter.hpp:224-225`), and `MessageStream`
  reads with the little-endian reader (`Core/Protocol/MessageStream.hpp:77-78`). Exactly the integers, the lists of
  fields and the messages with integers that have the same bytes in both directions survive this (`OtherOrder`,
  `MixedRoundTrip`, `MixedMessage`); the type of a Hello message does not (`HelloType`).
- `InputStreamVector::increaseBegin` asserts that no more bytes are dropped than are buffered, but also fails when as
  many are dropped (`IncreaseBegin`). So a read faults exactly when its field ends where a packet ends
  (`StreamRuns.RunExactly`, `RunIsReference`; `LastByte` is the shortest case), and a message is never read when its
  last byte is the last to arrive (`LastMessage`).
- `MessageWithThreadIDs::ReadFrom` tests the result of `readTVector` as if it were that of `tryReadTVector`
  (`Core/Protocol/Message.hpp:277-280`). `ReadFrom` and `ReadFromStream` model the test it is written for. With the
  unchecked read, over a stream, a message is read if and only if all of it and a byte more is buffered as soon as its
  number of threads is; otherwise the read faults (`MessageUnchecked`). With both reads, what comes of a part of a
  message is in `CutOverStream`.
- `MessageWithThreadIDs` cuts the number of threads to 16 bits, so a message is read back if and only if it has no
  more than 65535 (`MessageRoundTrip`).

## Model

| member | source | states |
|---|---|---|
| LinkedLists.LinkedList.EmplaceBefore | Base/LinkedList.hpp:209-233 | the new node is at the given position; all other nodes are kept by identity and order, and the links are right in both directions |
| LinkedLists.LinkedList.EmplaceAfter | Base/LinkedList.hpp:235-265 | the same for the place behind a node, and for `end()` on an empty list; for `end()` on another list, the new node is the beginning and linked to none, the size counts all, and the end and all links of the old nodes stay |
| LinkedLists.LinkedList.EmplaceBack | Base/LinkedList.hpp:267-271 | the new node is the last |
| LinkedLists.LinkedList.EmplaceFront | Base/LinkedList.hpp:273-277 | the new node is the first |
| LinkedLists.LinkedList.Insert | Base/LinkedList.hpp:191-207 | a range of values goes in at a position as a chain of new nodes with these values, and the list stays well linked |
| LinkedLists.LinkedList.InsertAfter | Base/LinkedList.hpp:450-476 | the same behind an existing node, for the rest of a range |
| LinkedLists.LinkedList.Chain | Base/LinkedList.hpp:462-468 | the loop hangs a chain of fresh nodes, linked in both directions, off the node |
| LinkedLists.LinkedList.Erase | Base/LinkedList.hpp:314-334 | exactly that node leaves; the result is the next node, but the node before for the last one |
| LinkedLists.LinkedList.PopBack | Base/LinkedList.hpp:336-339 | the last node leaves, no other does |
| LinkedLists.LinkedList.PopFront | Base/LinkedList.hpp:341-344 | the first node leaves, no other does |
| LinkedLists.LinkedList.EraseRange | Base/LinkedList.hpp:279-312 | when the range erase goes through `end()`, when it leaves a list that is right in both directions, and when it is right walking forward only; each as an equivalence |
| LinkedLists.LinkedList.DeleteRange | Base/LinkedList.hpp:290-301 | the loop counts the nodes of the range off the size, and notes exactly whether the first and the last node of the list are in it |
| LinkedLists.LinkedList.Clear | Base/LinkedList.hpp:429-436 | the list is empty and well linked |
| LinkedLists.LinkedList.Values | Base/LinkedList.hpp:364-382 | walking from `begin()` to `end()` sees every element once, in order, and ends |
| LinkedLists.LinkedList.Assign | Base/LinkedList.hpp:178-183 | from another list: equal contents on fresh nodes, and the other list untouched; from itself: empty |
| LinkedLists.LinkedList.Swap | Base/LinkedList.hpp:346-357 | both lists have the other's nodes, well linked |
| LinkedLists.Spliced | Base/LinkedList.hpp:209-265 | splicing a linked chain in between two neighbours gives a well linked list of distinct nodes, with the right ends |
| LinkedLists.UnsplicedNext | Base/LinkedList.hpp:279-334 | taking a stretch out, with the neighbours pointing past the gap, gives a list that is well linked forward |
| HashTables.HashTable.constructor | Base/HashTable.hpp:201-210 | an empty table with all slots at `end()` satisfies the invariant |
| HashTables.HashTable.LookupKeyInKeyList | Base/HashTable.hpp:424-504 | the walk along one slot's run finds what a linear scan of the whole list finds, and ends |
| HashTables.HashTable.Find | Base/HashTable.hpp:226-236 | the entry of the key with the data the map has for it; `end()` exactly for keys not in the map |
| HashTables.HashTable.IsExist | Base/HashTable.hpp:243-246 | true exactly for the keys of the map |
| HashTables.HashTable.Size | Base/HashTable.hpp:303-306 | the number of keys of the map |
| HashTables.HashTable.Insert | Base/HashTable.hpp:566-598 | a present key: false, its entry, and nothing changes; otherwise one new entry behind the head of its slot's run, or at the end of the list, the map extended by it, and the invariant kept |
| HashTables.HashTable.EmplaceEntry | Base/HashTable.hpp:584-597 | adding an entry keeps runs contiguous, heads, back references and distinct keys; the new entry is the next of the head, or the last of the list |
| HashTables.HashTable.InsertOrAssign | Base/HashTable.hpp:607-641 | the map binds the key to the value; an entry that exists stays the same node at the same place |
| HashTables.HashTable.AssignData | Base/HashTable.hpp:613-616 | assigning to the data of an entry changes the map for its key and nothing else |
| HashTables.HashTable.Index | Base/HashTable.hpp:542-545 | the entry of the key, made with value-initialised data only when there was none |
| HashTables.HashTable.IndexAssign | Core/Common/ProcessPeersServer.hpp:62 | the subscript with an assignment binds the key to the value |
| HashTables.HashTable.Erase | Base/HashTable.hpp:253-263 | exactly that entry leaves, also when it is a slot's head and the last of the list; at most one slot of the table changes, and all other entries keep their nodes |
| HashTables.HashTable.Unlink | Base/HashTable.hpp:253-263 | the slot of a removed head goes to the next entry of the same slot or to `end()`, and no other slot changes, whatever the list's erase returned |
| HashTables.HashTable.EraseKey | Base/HashTable.hpp:647-653 | the key leaves the map, and the result is that of erasing its entry; an absent key changes nothing, and the result is `end()` |
| HashTables.BeforeHead | Base/HashTable.hpp:253-263 | the entry before the head of a run belongs to another slot |
| HashTables.InsertedIndexes | Base/HashTable.hpp:584-597 | an insertion behind the head of a run, or at the end for an empty slot, keeps the whole invariant, and extends the map |
| HashTables.RemovedIndexes | Base/HashTable.hpp:253-263 | a removal with the slot updated keeps the whole invariant, and takes the key out of the map |
| KeyIndex.InsertedContiguous | Base/HashTable.hpp:584-590 | runs stay contiguous when an entry goes right behind its slot's head |
| KeyIndex.InsertedHeads | Base/HashTable.hpp:584-597 | what the head of every slot is after an insertion |
| KeyIndex.RemovedHeads | Base/HashTable.hpp:253-263 | what the head of every slot is after a removal |
| KeyIndex.RunCovers | Base/HashTable.hpp:436-446 | a run walked from its head to a change of the back reference without a hit proves the key absent from the whole list |
| KeyIndex.MapSize | Base/HashTable.hpp:303-306 | the length of the list is the number of keys of the map |
| HashTableRuns.Perform | Base/HashTable.hpp:542-653 | one operation gives the map and the outcome that it has on a finite map |
| HashTableRuns.Execute | Base/HashTable.hpp:226-653 | any run of operations gives the map and the outcomes that it has on a finite map |
| HashTableRuns.OneOperation | Base/HashTable.hpp:542-653 | what each operation alone makes of a finite map, and what its caller sees: an insertion of a present key changes nothing and says so, an assignment always binds, an erased key is gone |
| HashTableRuns.RunJoined | Base/HashTable.hpp:226-653 | a run of operations and then another are the run of both: with the laws of one operation this determines every run |
| HashTableRuns.FindAfter | Base/HashTable.hpp:542-653 | what a search finds right after each operation, for the same key and for any other |
| HashTableRanges.ClearSlots | Base/HashTable.hpp:265-298 | before the range leaves the list, the table is right for what is left if and only if no two entries of the range are heads of their slots |
| HashTableRanges.WalkRange | Base/HashTable.hpp:270-294 | up to the second head of the range the table is untouched; from there on the slot of that head refers to a node that goes |
| HashTableRanges.EraseRange | Base/HashTable.hpp:265-301 | goes through `end()` exactly for a suffix that is not the whole list; otherwise exactly these entries leave the list and the map, and the invariant of the table holds again if and only if no two were heads of their slots and they were no proper prefix |
| HashTableRanges.ScannedNext | Base/HashTable.hpp:274-293 | one round of the loop, for entries of any slots |
| HashTableRanges.WithoutHead | Base/HashTable.hpp:265-301 | what the head of every slot is after a stretch of entries has left |
| Witnesses.PrefixErased | Base/LinkedList.hpp:279-312 | a list of two nodes that is wrong walking backward after its first is erased as a range |
| Witnesses.SuffixErased | Base/LinkedList.hpp:303-306 | erasing the last of two nodes as a range goes through `end()` |
| Witnesses.StaleSlot | Base/HashTable.hpp:282-293 | a table with a slot that refers to a deleted node, after its two entries are erased as a range |
| Witnesses.LastByte | Network/Stream.cpp:49-62 | reading the only byte that is buffered faults |
| Hashes.Djb2 | Base/HashTable.hpp:64-71 | the shift-and-add loop is 5381 times a power of 33 plus every byte times the power of 33 for its place, modulo 2^64 |
| Hashes.HashSteps | Base/HashTable.hpp:64-71 | the hash of no bytes is 5381, and with one byte more it is 33 times the hash before, and the byte, modulo 2^64 |
| Hashes.HashJoined | Base/HashTable.hpp:64-71 | the hash of a concatenation is determined by the hash of the first part and the second part |
| Hashes.CollisionsExtend | Base/HashTable.hpp:64-71 | with the same bytes appended, arrays collide if and only if they collided before |
| Registry.AddSound | Core/Common/ProcessPeersServer.hpp:54-64 | any Hello keeps threads in one group only, and no count below the number of its threads |
| Registry.AddExact | Core/Common/ProcessPeersServer.hpp:54-64 | from exact counts, a Hello leaves exact counts if and only if its list is not empty, distinct and fresh |
| Registry.AddThenRemove | Core/Common/ProcessPeersServer.hpp:54-76 | removing exactly what one Hello added restores the state before it |
| Registry.RemoveAllIsSet | Core/Common/ProcessPeersServer.hpp:66-76 | removing threads one by one is removing them as a set in one go |
| Registry.RemoveAllPermuted | Core/Common/ProcessPeersServer.hpp:66-76 | every permutation of the list gives the same state |
| Registry.RemoveAllSplit | Core/Common/ProcessPeersServer.hpp:66-76 | every split of the list into successive calls gives the same state |
| Registry.RemoveSetTwice | Core/Common/ProcessPeersServer.hpp:66-76 | removing one set and then another is removing both together |
| Registry.CountsSumUp | Core/Common/ProcessPeersServer.hpp:47-50 | exact counts sum up to the number of registered threads |
| RegistryRuns.RunRefinesMap | Core/Common/ProcessPeersServer.cpp:102-110 | over every run whose Goodbyes name registered threads, none twice, whatever the Hellos say, the registry is the plain map from threads to the address of the Hello that registered them last |
| RegistryRuns.LastNamed | Core/Common/ProcessPeersServer.hpp:55-64 | in that map the last message that names a thread decides: after a Hello it is found at the address of that Hello, after a Goodbye it is not found |
| RegistryRuns.NeverNamed | Core/Common/ProcessPeersServer.hpp:55-76 | a thread that no message names stays as it was |
| RegistryRuns.LegalAt | Core/Common/ProcessPeersServer.hpp:66-76 | a run goes through if and only if each of its Goodbyes names threads that are registered when it comes, none twice |
| RegistryRuns.RunExactly | Core/Common/ProcessPeersServer.cpp:102-110 | over every run that goes through, the counts end exact if and only if they were at the start and every Hello list was fresh when it came |
| RegistryRuns.OrderlyAt | Core/Common/ProcessPeersServer.hpp:55-64 | a run is orderly if and only if it goes through, and the list of each of its Hellos is fresh when it comes |
| RegistryRuns.RunSurvivorsExactly | Core/Common/ProcessPeersServer.hpp:154-163 | from exact counts, the groups, with the threads found in each, are those of before without the threads that left, and one for each surviving Hello, if and only if the run was orderly |
| Registry.AddKnown | Core/Common/ProcessPeersServer.hpp:54-64 | a thread that was registered before keeps its old reference, so that count is wrong from then on |
| RegistryRuns.RemoveKeepsWrong | Core/Common/ProcessPeersServer.hpp:66-76 | no Goodbye makes wrong counts right |
| Fates.RunFates | Core/Common/ProcessPeersServer.hpp:54-76 | after any run that goes through, fresh Hello lists or not, the connections are those of before and one for each Hello, in order of arrival; each has lost a reference for every thread that a Goodbye named before another Hello did, and is gone when these were all its references |
| Fates.HelloGone | Core/Common/ProcessPeersServer.hpp:70-72 | the connection of a Hello goes if and only if its list names threads, none twice, and a Goodbye names each of them before another Hello does |
| Fates.SameConnections | Core/Common/ProcessPeersServer.hpp:154-163 | a thread that is announced twice makes a run that is not orderly, with the connections of one that is |
| RegistryRuns.RunSurvivors | Core/Common/ProcessPeersServer.hpp:154-163 | over every orderly run the connections are one for each Hello with a thread that has not left, in order of arrival, and the counts are exact |
| Peers.OtherServers.AddThreads | Core/Common/ProcessPeersServer.hpp:54-64 | one new node at the end of the list, all threads bound to it, and the state of the registry after a Hello, for any list of threads |
| Peers.OtherServers.Connect | Core/Common/ProcessPeersServer.hpp:57-63 | what these statements do to the list and to the table of iterators |
| Peers.OtherServers.RemoveThread | Core/Common/ProcessPeersServer.hpp:67-75 | one round: the thread leaves; its connection goes with the last reference; false exactly for a thread that is not registered |
| Peers.OtherServers.Release | Core/Common/ProcessPeersServer.hpp:70-72 | one reference less at that node, which leaves the list exactly when it was the last |
| Peers.OtherServers.RemoveThreads | Core/Common/ProcessPeersServer.hpp:66-76 | goes through exactly for distinct registered threads, and gives the state with all of them removed |
| Peers.OtherServers.FindThreadStreamInfo | Core/Common/ProcessPeersServer.hpp:87-98 | the address that the map has for the thread, or `InvalidThreadID` exactly when it has none |
| Peers.OtherServers.SendToAll | Core/Common/ProcessPeersServer.hpp:154-163 | the walk meets the address of every connection once, in order |
| Peers.OtherServers.CountsExact | Core/Common/ProcessPeersServer.hpp:47-76 | each node's count is the number of threads whose stored iterator is that node, at least one; every stored iterator is a node of the list; the counts sum up to the size of the table |
| Peers.RemoveIterators | Core/Common/ProcessPeersServer.hpp:66-76 | no stored iterator refers to a node that has left |
| PeersServer.ProcessPeersServer.OnHelloReceived | Core/Common/ProcessPeersServer.cpp:102-105 | a Hello takes the registry to the state after its threads are added |
| PeersServer.ProcessPeersServer.OnGoodbyeReceived | Core/Common/ProcessPeersServer.cpp:107-110 | a Goodbye goes through exactly for distinct registered threads, and takes these out |
| PeersServer.ProcessPeersServer.ReceiveMessages | Core/Common/ProcessPeersServer.cpp:102-110 | a run goes through exactly when it is legal; the table is then the plain map, and the connections are those of before and one for each Hello, in order, each as its threads have left it; from exact counts, the counts are exact again, and the groups are those of the surviving Hellos, if and only if the run was orderly |
| PeersServer.ProcessPeersServer.IteratorsRange | Base/IteratorTools.hpp:131-141 | the counting pass gives the number of nodes that the copying pass copies |
| PeersServer.ProcessPeersServer.GetProcessThreadIDs | Core/Common/ProcessPeersServer.hpp:149-152 | every registered thread ID exactly once, in the order of the entries of the table |
| PeersServer.KeysOnce | Base/HashTable.hpp:353-374 | iterating over the keys enumerates the domain of the map without repeats |
| PeersServer.AnnouncedFresh | Core/Common/ProcessPeersServer.cpp:102-120 | a Hello and a later Goodbye with the same distinct threads in any order are accepted by a registry without them, which is then as it was, but for the connection of a peer without threads |
| Codec.IntegerRoundTrip | Base/FieldReader.hpp:31-89 | an integer written and read in the same byte order is the same |
| Codec.BytesRoundTrip | Base/FieldWriter.hpp:28-88 | the bytes of an integer that was read are the bytes it was read from |
| Codec.PartsRight | Base/FieldWriter.hpp:28-88 | the masks and shifts of the writers, for every width and both byte orders, give the bytes of the integer from the highest or the lowest on |
| Codec.AssembledRight | Base/FieldReader.hpp:31-89 | the shifts of the readers, for every width and both byte orders, give the number with these bytes |
| Codec.OtherOrder | Base/FieldWriter.hpp:222-225 | an integer survives the writer that goes by the name of little-endian and a little-endian reader if and only if its bytes are the same in both directions |
| Codec.HelloType | Core/Protocol/MessageStream.hpp:77-78 | the type of a Hello message is read as 0x4580 |
| CodecNumbers.Encoded8 | Base/FieldWriter.hpp:28-88 | the byte itself is written |
| CodecNumbers.Encoded16 | Base/FieldWriter.hpp:28-88 | the bytes that are written, in both orders, each by a shift and a mask of the integer |
| CodecNumbers.Encoded32 | Base/FieldWriter.hpp:28-88 | the same for 32 bits |
| CodecNumbers.Encoded64 | Base/FieldWriter.hpp:28-88 | the same for 64 bits |
| CodecNumbers.Decoded8 | Base/FieldReader.hpp:31-89 | the byte itself is read |
| CodecNumbers.Decoded16 | Base/FieldReader.hpp:31-89 | the integer that is read from any bytes, in both orders, by shifts of these bytes |
| CodecNumbers.Decoded32 | Base/FieldReader.hpp:31-89 | the same for 32 bits |
| CodecNumbers.Decoded64 | Base/FieldReader.hpp:31-89 | the same for 64 bits |
| CodecNumbers.ReadNumber | Base/FieldReader.hpp:31-89 | what is read stands for the number that the bytes make in base 256, the highest first or last |
| CodecNumbers.WrittenNumber | Base/FieldWriter.hpp:28-88 | the bytes that are written make the number of the integer in base 256 |
| Fields.EncodedSize | Base/FieldWriter.hpp:102-141 | `mySizeOfArgs` is the number of bytes that are written |
| Fields.IntegerAt | Base/FieldWriter.hpp:182-202 | the bytes of an element of a vector are at its index times the width |
| Fields.FieldAt | Base/FieldWriter.hpp:143-153 | the bytes of a field are behind as many bytes as the fields before it take |
| Fields.RoundTrip | Base/FieldReader.hpp:104-137 | a list of integers and vectors of any widths is read back as it was written, whatever bytes follow |
| Fields.RoundTripBack | Base/FieldWriter.hpp:143-189 | values that were read, written again, give the bytes they were read from |
| Fields.MixedRoundTrip | Base/FieldWriter.hpp:222-225 | a list of fields written by the writer that goes by the name of little-endian is read back by a little-endian reader if and only if every integer in it has the same bytes in both directions |
| Fields.Prefix | Base/FieldReader.hpp:104-137 | what is read depends on its own bytes only |
| ExtendedVectors.ExtendedVector.Get | Base/ExtendedVector.hpp:71-81 | the byte of the window, or of the underlying vector behind its end |
| ExtendedVectors.ExtendedVector.Set | Base/ExtendedVector.hpp:71-75 | that byte changes and no other |
| ExtendedVectors.ExtendedVector.HasLength | Base/ExtendedVector.hpp:107-110 | whether the window has so many bytes |
| ExtendedVectors.ExtendedVector.IncreaseBegin | Base/ExtendedVector.hpp:112-117 | as many bytes leave the window at its beginning; the assertion fails exactly when the end is passed |
| ExtendedVectors.ExtendedVector.InsertVectorAtBegin | Base/ExtendedVector.hpp:83-95 | the bytes go to the beginning of the window, which moves behind them, and no other byte changes |
| ExtendedVectors.ExtendedVector.Expand | Base/ExtendedVector.hpp:144-162 | the old bytes stay, zeros follow; the vector grows by exactly what was asked for when the window was not empty or too little was behind it, and not at all otherwise; and where the end of the window comes to lie |
| ExtendedVectors.ExpandUsable | Base/ExtendedVector.hpp:144-162 | the window gets as long as was asked for if and only if nothing was asked for at the end of the vector, or the vector is twice as long as the new end; the vector is long enough in any case |
| ExtendedVectors.RoomExactly | Base/FieldWriter.hpp:143-149 | when room is made for the arguments of `writeT`, the vector grows by exactly the bytes that are missing from the window, or not at all, each exactly when; and where the window ends then |
| FieldWriters.FieldWriter.Write | Base/FieldWriter.hpp:28-88 | the bytes of the integer in the writer's order go to the beginning of the window, and no other byte changes |
| FieldWriters.FieldWriter.WriteInteger | Base/FieldWriter.hpp:162-180 | the same, and the window begins behind them |
| FieldWriters.FieldWriter.WriteVector | Base/FieldWriter.hpp:182-202 | the bytes of all elements in order, and the window begins behind them |
| FieldWriters.FieldWriter.WriteT | Base/FieldWriter.hpp:143-153 | the bytes of all fields go where the window began, in a vector made long enough, and no other byte changes; the window stays usable if and only if it was long enough, or half of the vector was; the vector grows by exactly the bytes that were missing from the window, or not at all |
| FieldReaders.FieldReader.ReadValue | Base/FieldReader.hpp:31-89 | the integer with the first bytes of the window, in the reader's order |
| FieldReaders.FieldReader.ReadT | Base/FieldReader.hpp:104-111 | the same, and exactly these bytes leave the window |
| FieldReaders.FieldReader.ReadTVector | Base/FieldReader.hpp:125-137 | as many integers in order, and exactly their bytes leave the window |
| FieldReaders.FieldReader.TryReadT | Base/FieldReader.hpp:143-149 | the same with an error exactly when there are too few bytes, which leaves the window as it was |
| FieldReaders.FieldReader.TryReadTVector | Base/FieldReader.hpp:151-157 | the same for a vector |
| FieldReaders.FieldReader.ReadFields | Base/FieldReader.hpp:104-137 | a list of fields one after another |
| WriteThenReads.WriteThenRead | Base/FieldWriter.hpp:143-153 | written into a window and read from there, fields of any kind come back; both windows move by `mySizeOfArgs` bytes, and all bytes outside of these are as before |
| InputStreams.InputStreamVector.constructor | Network/Stream.hpp:49-52 | nothing is buffered |
| InputStreams.InputStreamVector.Get | Network/Stream.cpp:64-86 | the byte of the flat sequence, in whichever packet it is, and 0 out of range |
| InputStreams.InputStreamVector.IncreaseBegin | Network/Stream.cpp:49-62 | goes through exactly when some byte is left, and then drops exactly so many bytes of the flat sequence, across any number of packets, empty ones too; the loop ends |
| InputStreams.InputStreamVector.SwitchToNextVector | Network/Stream.cpp:110-113 | the front of the queue becomes the current window; false exactly for an empty queue |
| InputStreams.InputStreamVector.ReceiveNewData | Network/Stream.cpp:99-108 | a packet is appended to the flat sequence, and the size is its length again; a failure changes nothing |
| InputStreams.InputStreamVector.HasLength | Network/Stream.cpp:88-97 | receives exactly while too few bytes are buffered and no receive fails, and ends since no packet is empty; after a failure, what is still to arrive is exactly what is behind the first one |
| InputStreams.FillKeeps | Network/Stream.cpp:88-97 | the old bytes stay a prefix, no byte is lost or made up, and the answer is true exactly when enough bytes arrive before the first failure |
| InputStreams.FillTakes | Network/Stream.cpp:88-108 | by the place of the first failure: false exactly with too few bytes before it, and then these are all buffered and nothing behind the failure is taken; otherwise as many packets are taken as are needed and not one more |
| InputStreams.FillAgain | Network/Stream.cpp:88-97 | asked again after a failure, all bytes that arrive behind it are found |
| StreamReaders.StreamReader.ReadT | Base/FieldReader.hpp:104-111 | over a stream: goes through exactly when more bytes are buffered than are read, and then gives the integer with the first bytes of the flat sequence and drops these |
| StreamReaders.StreamReader.ReadTVector | Base/FieldReader.hpp:125-137 | over a stream: goes through exactly when there are no elements or more bytes are buffered than they take, and then gives them |
| StreamReaders.StreamReader.TryReadT | Base/FieldReader.hpp:143-149 | over a stream: the value, too few bytes, or a fault, each exactly when |
| StreamReaders.StreamReader.TryReadTVector | Base/FieldReader.hpp:151-157 | the same for a vector |
| StreamReaders.StreamReader.TryReadFields | Base/FieldReader.hpp:143-157 | the outcomes of a run of reads, as a function of the flat sequence and what is to arrive |
| StreamRuns.RunExactly | Network/Stream.cpp:49-108 | a run of reads over packets gives what it gives from one piece, up to the first field that ends where a packet ends, and a fault there |
| StreamRuns.RunIsReference | Network/Stream.cpp:49-108 | a run of reads over packets gives what it gives from one piece if and only if no field ends where a packet ends |
| StreamRuns.ChunkingIndependence | Network/Stream.cpp:49-108 | the same bytes in different packets give the same outcomes if and only if the first field that ends where a packet ends is the same in both, if there is one |
| StreamRuns.RunAgrees | Network/Stream.cpp:49-108 | every value that is read before a fault is the right one |
| StreamRuns.StreamRoundTrip | Base/FieldReader.hpp:143-157 | fields that were written and arrive in packets are read back if and only if no field ends where a packet ends |
| StreamRuns.ReadEnds | Base/FieldReader.hpp:143-157 | one read faults exactly when a packet ends where the field ends, and otherwise moves all later packet ends by its size |
| StreamRuns.ReadTakes | Base/FieldReader.hpp:143-157 | what one read leaves buffered and still to arrive, by the place of the first failure: with too few bytes nothing is lost, otherwise no more packets are taken than the read needs |
| Messages.WriteToWriter | Core/Protocol/Message.hpp:285-293 | the type, the number of threads and the IDs, `writableSize` bytes in all, go where the window began, in a vector made long enough, and no other byte changes; when the window stays usable, as an equivalence; the exact length of the vector and end of the window |
| Messages.ReadFrom | Core/Protocol/Message.hpp:270-283 | with the checked read: the thread IDs, or `TooShort`, and what is left of the window in both cases |
| Messages.MessageBytes | Core/Protocol/Message.hpp:295-298 | `writableSize` is the number of bytes of the message |
| Messages.MessageLayout | Core/Protocol/Message.hpp:285-293 | the bytes of a message: the type, the two bytes of the number of threads as digits in base 256, and each ID at its place |
| Messages.ParsedCount | Core/Protocol/Message.hpp:270-283 | with the checked read: so many IDs as the number that the first two bytes make, or too short exactly when fewer than these are there, and what is left |
| Messages.MessageRoundTrip | Core/Protocol/Message.hpp:255-303 | a message is read back if and only if it has no more than 65535 threads; with more, so many of its threads as their number has left in 16 bits |
| Messages.CutShort | Core/Protocol/Message.hpp:271-280 | with the checked read, every proper prefix of a message body is rejected |
| Messages.ReadFromStream | Core/Protocol/Message.hpp:270-283 | with the checked read, over a stream: the outcome, and what is left, as a function of the flat sequence and what is to arrive |
| Messages.ParseTakes | Core/Protocol/Message.hpp:270-283 | with the checked read, over a stream: what is left buffered and still to arrive, by the place of the first failure |
| Messages.MessageOverStream | Core/Protocol/Message.hpp:270-283 | with the checked read, a message body in packets is read if and only if no packet ends right behind its number of threads or its last thread, and faults otherwise |
| Messages.CutOverStream | Core/Protocol/Message.hpp:270-283 | when only a part of a body arrives over a stream: too short without its number of threads; else with the checked read too short, or a fault when a packet ends right behind the number; with the unchecked read a fault |
| Messages.ReadFromStreamUnchecked | Core/Protocol/Message.hpp:270-283 | with the unchecked read that is called, over a stream: the outcome, and what is left, as a function of the flat sequence and what is to arrive |
| Messages.MessageUnchecked | Core/Protocol/Message.hpp:270-283 | with that read, a message body is read if and only if all of it and a byte more is buffered as soon as its number of threads is, and faults otherwise |
| Messages.MessageOnly | Core/Protocol/Message.hpp:255-303 | bytes that are read as a message are exactly those that are written for it, and it has no more than 65535 threads |
| Messages.MixedMessage | Core/Protocol/MessageStream.hpp:77-78 | a message goes from the writer of `MessageStream` through its reader if and only if it has no more than 65535 threads, and its type, their number and all IDs have the same bytes in both directions |
| Messages.LastMessage | Network/Stream.cpp:49-62 | a message is never read when its last byte is the last to arrive before a failure |
| ArraySizes.ElementsBack | Core/Protocol/Message.hpp:268-280 | the number that a 16-bit integer stands for is below 65536, and is cast back to the same integer |
| ArraySizes.ArraySizeBack | Core/Protocol/Message.hpp:290-292 | the cast of the number of threads to 16 bits keeps it modulo 65536 |
| ArraySizes.ElementsNumber | Core/Protocol/Message.hpp:275-277 | the number of threads that is read is the number of the 16-bit integer |
| ArraySizes.ArraySizeNumber | Core/Protocol/Message.hpp:290-292 | the number that is written is that of the threads modulo 65536 |
| UdpMessages.WriteTo | Network/UdpMessage.cpp:51-55 | the four bytes of the header go where the window began, in a vector made long enough, and no other byte changes; the window stays usable exactly as for `writeT`; the vector grows by exactly the bytes that were missing from the window, or not at all |
| UdpMessages.ReadFrom | Network/UdpMessage.cpp:31-49 | the header, or `NotEnoughData`; flags that were read are gone from the window when the number is missing |
| UdpMessages.HeaderBytes | Network/UdpMessage.cpp:51-55 | the bytes of a header are those of the flags and then those of the message number, four in all |
| UdpMessages.HeaderRoundTrip | Network/UdpMessage.cpp:31-55 | a header is read back as it was written, whatever follows |
| UdpMessages.HeaderBack | Network/UdpMessage.cpp:31-55 | four bytes and no fewer are a header, and are the bytes of that header; what is left in both cases |

## Left out

- Sizes and counts are unbounded numbers where the source has `SizeType`, except in `ExtendedVector.Size`, in the hash and in
  the 16-bit number of threads. So the product of a number of elements and a width does not wrap around.
- Messages.ReadFrom: over a vector models the checked read only; the unchecked one reads on behind the end of the window. Over a
  stream both are there.
- Messages.CutShort: holds for the checked read over a vector; both reads over a stream are in `Messages.CutOverStream`.
- Constructor ProcessPeersServer: takes its two containers; sending Hello and Goodbye from the constructor and the destructor is
  left out, but for the list of threads these messages carry and the walk over the connections.
- The hash table with several entries for one key (`Base/HashTable.hpp:656-780`): an entry goes right behind its slot's head, so
  the entries of a key need not be contiguous, and counts and ranges of equal keys are not right as written.
- Copying, moving and iterating over the data of the hash table, and the const overloads, which have the same bodies.
- Base/RedBlackTree.hpp, Base/RangesMap.hpp, `MemoryMap` and `MemoryRevision`: unfinished or disabled.
- Base/SharedPointer.hpp, `UniquePointer`, `Optional`, `Expected`, `Tuple`, `Callback`: `Expected` is a datatype here.
- Lifetimes of vector elements: a vector is a sequence of values or an array.
- `OutputStreamVector`, UDP flags and fragments, sessions, TCP, sockets and system calls: the network is a sequence of results.
- The lock around the registry: every handler is one step.
- The dispatch on message types in `onMessageReceived`, which does nothing yet, and the messages about threads that run.
