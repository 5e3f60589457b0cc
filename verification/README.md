# memhook, modelled and proved in Dafny

memhook tracks the allocations of a Linux process. An interposed `malloc` or `free` calls a hook; the engine keeps
recent allocations in a cache and flushes older ones to a store; a network store sends every call to a server, whose
session cuts the byte stream into packets and replays them on a store of its own; a viewer aggregates what a store
holds. This project models that path and the pieces around it, and proves what the path promises over whole runs.

The main results:

- **Hooks to server.** For every run of hook calls whose new addresses are fresh, every cache setting and every way
  the network splits the bytes, the server ends with a valid store that holds exactly the live allocations
  (`EndToEnd.ServerRecordsLiveAllocations`). The same holds for every interleaving of allocating and freeing threads
  (`EndToEnd.ServerRecordsEveryInterleaving`), and the bytes are those that the engine and store objects send
  (`EndToEnd.RunProcess`).
- **Wire.** Size, writer and reader agree byte for byte; a request survives the wire if and only if its lengths fit
  their 32-bit headers; at every suspension the session has handled exactly the packets received whole.
- **Engine and store.** Cache and store are disjoint and together are one plain map, whenever flushes fire; the
  store's three indexes hold the same records in order; every stored code address has a name.
- **Spin lock.** Mutual exclusion and no lost wakeup for any number of threads and every interleaving, and a contender
  of a held lock does go to sleep.
- **Allocator.** An alloc hook never meets a tracked address, for every interleaving of allocating and freeing threads.
- **Symbol lookup.** The GNU and System V hash searches against a linear scan, the shortened ELF hash against the
  published one, and the scope walk as "the next definition after the caller".
- **Smaller pieces.** The unwinder's LRU cache, aggregation by call stack, the search for a free file name, and
  interruptible sleep.

## How it is built

Each component has a module. What the source updates in place is a class; its methods are proved equal to functions on
plain values, and the laws are lemmas about those functions. Threads are modelled as atomic steps under sequential
consistency, one locked section being one step. Words are 64 bits; wrap-around and truncation are written out where
the source relies on them.

| module | component |
|---|---|
| `Records`, `ByteOrder`, `Serialization` | the records and the wire format |
| `OrderedIndex`, `MappedStorage` | the multi-index containers and the store over them |
| `NetworkClient`, `MemDbSession`, `SessionProtocol` | sending side, receiving side, and both together |
| `Engine`, `AllocatorHooks` | the cache over the store; hooks against the real allocator |
| `AnyStorage` | the store interface, local or remote, with the calls made on it |
| `EndToEnd`, `FlushedSymbols` | hook calls and threads to server store and view; the names on the way |
| `SpinLock` | the futex lock |
| `Bits`, `SymbolHash`, `SymbolTables`, `SymbolLookup` | symbol hashes, hash tables, scope walk |
| `UnwinderCache` | the bounded symbol cache |
| `Aggregation` | grouping by call stack |
| `UniquePath` | the search for a free file name |
| `InterruptibleSleep` | sleepers and interrupters |

Properties that fail of the code have their exact condition:

- A request with a text or list of 2^32 elements or more does not survive the wire (`RequestRoundTrip` is an
  equivalence).
- A module path can be missing when one code address comes with two module bases (`UnsteadyBaseHasNoPath`;
  `BaseHasPathExactly` says when it is there).
- Hooking an address that the store already tracks breaks the disjointness of cache and store
  (`HookKeepsDisjointExactly`, with the state of `SecondHookOverlaps`).
- A local function hides an exported one of the same name behind it in the chain (`LocalHidesExported`; `OfferExact`
  is the equivalence).
- The unwinder's cache answers wrongly when two addresses share a module base but not a path, an address outside every
  module counting as base 0 (`IncoherentLeaks`; `CacheIsTransparent` is the other direction).
- A client's `Clear` closes the session, because the server has no case for it (`SessionHandlesWholePackets`).

## Model

| member | source | states |
|---|---|---|
| `EndToEnd.ServerRecordsLiveAllocations` | src/memhook/engine.cpp:43-102 | for every run of hook calls with fresh addresses, then destruction, and every split of the bytes sent: once all have arrived the session waits for more, and its store is valid and holds exactly the live allocations with size, time, ips and sps |
| `EndToEnd.RunProcess` | src/memhook/engine.cpp:43-102 | engine and network store objects driven by any hook calls and then destroyed have sent exactly the packets of the calls that the specification of the hooks prescribes, in order |
| `EndToEnd.ServerRecordsEveryInterleaving` | src/memhook/memhook.cpp:249-266 | for every number of threads and interleaving of their allocations and frees, the server that received the bytes holds exactly the tracked allocations, all of them held by the allocator |
| `EndToEnd.ViewOfServer` | src/memview/basic_aggregated_mapped_view.h:17-27 | the time index of that server store lists each live allocation once, and its groups partition and conserve that list |
| `FlushedSymbols.ServerNamesAreResolved` | src/memhook/engine.cpp:164-166 | for every run of hook calls of a process that resolves while flushing: on the server each stored frame has the base and offset, each code address the name, and each module the path that the unwinder gave |
| `FlushedSymbols.StoredFrameTold` | src/memhookcore/basic_mapped_storage.h:92-104 | the same of every store whose calls carried resolved frames |
| `FlushedSymbols.FlushNamesMoved` | src/memhook/engine.cpp:161-167 | after a flush into a store without symbols every code address of every moved record has its name, and its base a path |
| `EndToEnd.RunNeverClears` | src/memhook/engine.cpp:49-102 | no run of hook calls clears the store |
| `AnyStorage.Storage.Add` | include/memhook/mapped_storage.h:12-13 | whichever store stands behind the interface has carried out one more Add: a local one equals what all calls build, a network one has requested exactly the calls |
| `AnyStorage.Storage.Remove` | include/memhook/mapped_storage.h:14 | likewise for Remove; a local store says whether the address was there, a network store always says yes |
| `AnyStorage.Storage.UpdateSize` | include/memhook/mapped_storage.h:15 | likewise for UpdateSize, with the same answers |
| `AnyStorage.Storage.Clear` | include/memhook/mapped_storage.h:16 | likewise for Clear |
| `ByteOrder.BigEndianRoundTrip` | include/memhook/serialization.h:87-106 | decoding inverts encoding for every value that fits the width |
| `ByteOrder.BigEndianOfValue` | include/memhook/serialization.h:87-106 | encoding inverts decoding for every byte sequence |
| `ByteOrder.ByteOrderSample` | include/memhook/serialization.h:76-85 | which byte comes first in either order |
| `ByteOrder.HtonWritesBigEndian` | include/memhook/serialization.h:206-211 | whatever the host's byte order, copying `hton(v)` puts the big-endian image of v in the buffer |
| `ByteOrder.NtohReadsBigEndian` | include/memhook/serialization.h:315-321 | whatever the host's byte order, `ntoh` of the loaded bytes is their big-endian value |
| `Serialization.RequestRoundTrip` | include/memhook/serialization.h:333-351 | for every request and tail, reading what was written returns the request and leaves exactly the tail if and only if every length is below 2^32 |
| `Serialization.EnumRoundTrip` | include/memhook/serialization.h:121-124 | an enumerator written through `int32_t` and read back through `uint32_t` is unchanged, also above 2^31 |
| `Serialization.TickRoundTrip` | include/memhook/serialization.h:157-160 | time points survive, negative ones included |
| `Serialization.TextRoundTrip` | include/memhook/serialization.h:213-221 | a text below 2^32 bytes survives in front of any tail |
| `Serialization.TextIsCut` | include/memhook/serialization.h:213-221 | a text of any length arrives cut to its length modulo 2^32, with what follows unaffected |
| `Serialization.FramesRoundTrip` | include/memhook/serialization.h:290-305 | any number of frames survives in front of any tail |
| `Serialization.ParseRequest` | include/memhook/serialization.h:347-351 | whatever decodes has all lengths below 2^32 and used up at least one byte |
| `Serialization.SizeOf.CallFrames` | include/memhook/serialization.h:168-172 | the counter grows, modulo 2^64, by the number of bytes the frames encode to |
| `Serialization.SizeOf.CallRequest` | include/memhook/serialization.h:333-339 | the counter grows, modulo 2^64, by exactly the length of the request's encoding |
| `Serialization.BufferWriter.Put` | include/memhook/serialization.h:206-211 | bytes are appended at the cursor and clipped at the end of the buffer; nothing before the cursor changes |
| `Serialization.BufferWriter.CallText` | include/memhook/serialization.h:213-221 | the truncated length and as many bytes as it says are emitted |
| `Serialization.BufferWriter.CallFrames` | include/memhook/serialization.h:168-172 | the frames' encodings are emitted in order |
| `Serialization.BufferWriter.CallRequest` | include/memhook/serialization.h:341-345 | exactly the request's encoding is emitted at the cursor |
| `Serialization.BufferReader.CallText` | include/memhook/serialization.h:323-330 | result and new position are those of the parse, or the overrun is reported |
| `Serialization.BufferReader.CallElements` | include/memhook/serialization.h:290-305 | the counting loop reads exactly `count` elements, as the recursive parse does |
| `Serialization.BufferReader.CallRequest` | include/memhook/serialization.h:347-351 | result and new position are those of the parse, or the overrun is reported |
| `NetworkClient.NetworkMappedStorage.Serialize` | src/memhookcore/network_mapped_storage.cpp:59-63 | a buffer of the computed size is filled to its last byte, the asserted empty rest, with header and request |
| `NetworkClient.NetworkMappedStorage.SizeOfRequest` | src/memhookcore/network_mapped_storage.cpp:56-57 | the announced size is the length of the encoding modulo 2^64 |
| `NetworkClient.NetworkMappedStorage.Send` | src/memhookcore/network_mapped_storage.cpp:55-67 | exactly one packet is appended, so what was sent stays the packets of all requests so far |
| `NetworkClient.NetworkMappedStorage.constructor` | src/memhookcore/network_mapped_storage.cpp:6-19 | the first request asks for a new storage |
| `NetworkClient.OpeningTellsProcess` | src/memhookcore/network_mapped_storage.cpp:16-18 | the server decodes from the first packet the process id and the time |
| `NetworkClient.NetworkMappedStorage.Add` | src/memhookcore/network_mapped_storage.cpp:23-28 | one Add request is sent |
| `NetworkClient.NetworkMappedStorage.Remove` | src/memhookcore/network_mapped_storage.cpp:30-34 | one Remove request is sent and true is returned |
| `NetworkClient.NetworkMappedStorage.UpdateSize` | src/memhookcore/network_mapped_storage.cpp:36-40 | one UpdateSize request is sent and true is returned |
| `NetworkClient.NetworkMappedStorage.Clear` | src/memhookcore/network_mapped_storage.cpp:42-45 | one Clear request is sent |
| `NetworkClient.PacketWhole` | src/memhookcore/network_mapped_storage.cpp:56-57 | a request that fits a 64-bit size travels whole behind its length |
| `MemDbSession.ZeroReadMeansUnhandled` | src/memdb/memdb_session.cpp:41-45 | for every buffer content, a read of zero bytes is asked for only with a request of an unhandled type at its head |
| `MemDbSession.MemDBSession.constructor` | src/memdb/memdb_session.cpp:15-25 | the session starts waiting for a header with no storage |
| `MemDbSession.MemDBSession.HandleNetRequest` | src/memdb/memdb_session.cpp:97-132 | the storage after the call is the specified one; false exactly for unhandled types, changing nothing |
| `MemDbSession.MemDBSession.ParseOutbound` | src/memdb/memdb_session.cpp:56-76 | terminates and leaves buffer, storage and next read as the cascade function says |
| `MemDbSession.MemDBSession.ParseInbound` | src/memdb/memdb_session.cpp:78-95 | terminates and leaves buffer, storage and next read as the cascade function says, consuming what was decoded |
| `MemDbSession.MemDBSession.OnReadComplete` | src/memdb/memdb_session.cpp:27-54 | an error ends the chain; otherwise the bytes are delivered and a zero-size read closes |
| `SessionProtocol.OutboundStep` | src/memdb/memdb_session.cpp:65-75 | with a packet's header in front the parser waits for exactly the missing body bytes, or goes on |
| `SessionProtocol.InboundStep` | src/memdb/memdb_session.cpp:82-94 | with a packet's body in front the parser handles that request and consumes exactly the body |
| `SessionProtocol.RunsStaySynced` | src/memdb/memdb_session.cpp:27-95 | at every suspension of every legal run the buffer holds exactly the bytes after the handled packets |
| `SessionProtocol.SessionHandlesWholePackets` | src/memdb/memdb_session.cpp:15-132 | for every client stream and every split into reads: handled are exactly the requests whose packets were received whole, in order, up to the first unhandled type, which closes; never a null storage or an overrun |
| `SessionProtocol.ReplayIsLocal` | src/memdb/memdb_session.cpp:117-132 | handling a client's requests in order is making the calls on a local store |
| `SessionProtocol.ServerStoreIsLocalStore` | src/memhookcore/network_mapped_storage.cpp:16-40 | whenever the session waits, its store equals a local store given the calls whose packets have arrived |
| `OrderedIndex.LowerBoundIsFirst` | src/memhook/engine.cpp:158 | every key before the bound is below the value |
| `OrderedIndex.InsertKeepsOrder` | include/memhook/mapping_traits.h:94-114 | linking a record keeps an index sorted |
| `OrderedIndex.InsertAfterEquals` | include/memhook/mapping_traits.h:102-111 | a record is linked behind all records of its key, so equal keys stay in order of arrival, and the others keep their places |
| `OrderedIndex.InOrderStays` | src/memhookcore/basic_mapped_storage.h:57 | a record still in order after its change is not moved |
| `OrderedIndex.ModifiedStays` | src/memhookcore/basic_mapped_storage.h:57 | in an index that is not ordered by size, `modify` leaves the record in place and the index sorted |
| `OrderedIndex.ModifiedKeepsOrder` | src/memhookcore/basic_mapped_storage.h:57 | repositioning the modified record keeps the index sorted |
| `OrderedIndex.ModifiedAsMap` | src/memhookcore/basic_mapped_storage.h:57 | repositioning changes the size of that record and nothing else |
| `MappedStorage.BasicMappedStorage.NoteSymbols` | src/memhookcore/basic_mapped_storage.h:92-104 | the tables after the loop are the fold of the frames, first name and first path winning |
| `MappedStorage.BasicMappedStorage.Add` | src/memhookcore/basic_mapped_storage.h:28-35 | symbols are noted, and the record is linked into all three indexes unless the address is there |
| `MappedStorage.BasicMappedStorage.Remove` | src/memhookcore/basic_mapped_storage.h:37-47 | the record leaves all three indexes; true exactly when it was there |
| `MappedStorage.BasicMappedStorage.UpdateSize` | src/memhookcore/basic_mapped_storage.h:49-59 | the size changes in all three indexes; true exactly when the record was there |
| `MappedStorage.BasicMappedStorage.Clear` | src/memhookcore/basic_mapped_storage.h:61-65 | the records go, the symbol tables stay |
| `MappedStorage.IndexesHoldSameRecords` | include/memhook/mapping_traits.h:94-114 | the three indexes of a valid store are permutations of one another |
| `MappedStorage.IndexesAreSorted` | include/memhook/mapping_traits.h:94-114 | a valid store lists its records by strictly increasing address, by time and by size |
| `MappedStorage.StripAllAt` | include/memhook/traceinfo.h:69-71 | a stored frame has the base, ip, sp and offset of the frame that was passed |
| `MappedStorage.AddRefines` | src/memhookcore/basic_mapped_storage.h:28-35 | validity is kept, and the plain map gains the record only if the address was new |
| `MappedStorage.RemoveRefines` | src/memhookcore/basic_mapped_storage.h:37-47 | validity is kept, and the plain map loses exactly that address |
| `MappedStorage.ResizeRefines` | src/memhookcore/basic_mapped_storage.h:49-59 | validity is kept, only that size changes, and neither the address nor the time index reorders |
| `MappedStorage.ReachableStore` | src/memhookcore/basic_mapped_storage.h:28-65 | after every sequence of calls the store is valid and equals the plain map that the same calls build |
| `MappedStorage.TablesOfRun` | src/memhookcore/basic_mapped_storage.h:83-105 | the tables depend on the frames added only, not on Remove, UpdateSize or Clear |
| `MappedStorage.NamedExactly` | src/memhookcore/basic_mapped_storage.h:92-96 | a code address is named if and only if it was seen |
| `MappedStorage.FirstNameWins` | src/memhookcore/basic_mapped_storage.h:92-104 | a code address keeps the name it first came with, and that frame's base has a path |
| `MappedStorage.EveryIpHasName` | src/memhookcore/basic_mapped_storage.h:28-35 | in every reachable store every ip of every stored call stack has a name |
| `MappedStorage.BaseHasPathExactly` | src/memhookcore/basic_mapped_storage.h:97-102 | a base has a path if and only if it came with the first frame of some code address |
| `MappedStorage.EveryBaseHasPath` | src/memhookcore/basic_mapped_storage.h:92-104 | if every ip always comes with the same base, every stored frame's base has a path |
| `MappedStorage.UnsteadyBaseHasNoPath` | src/memhookcore/basic_mapped_storage.h:92-104 | without that, a base can lack a path: a concrete call |
| `MappedStorage.SymbolsAreStable` | src/memhookcore/basic_mapped_storage.h:92-104 | a recorded name or path never changes afterwards, whatever calls follow |
| `Engine.EngineObject.FeedStore` | src/memhook/engine.cpp:161-167 | the loop makes one Add call per record, oldest first, up to the bound and the item limit |
| `Engine.EngineObject.FlushLocalCache` | src/memhook/engine.cpp:152-177 | cache and calls on the store after the flush are those of the specification |
| `Engine.EngineObject.DoHookAlloc` | src/memhook/engine.cpp:49-67 | null is ignored; otherwise the record is cached unless present, then a timed flush follows, as `HookFlushes` says in terms of records and calls |
| `Engine.EngineObject.DoHookFree` | src/memhook/engine.cpp:69-80 | the record leaves the cache, else one Remove call is made |
| `Engine.EngineObject.DoHookUpdateSize` | src/memhook/engine.cpp:91-102 | the size changes in the cache in place, else one UpdateSize call is made |
| `Engine.EngineObject.DoHookRealloc` | src/memhook/engine.cpp:82-89 | the same address is resized; otherwise the old one is freed and the new one allocated |
| `Engine.EngineObject.FeedOne` | src/memhook/engine.cpp:164-166 | the oldest record is added to the store by the call that `MoveOpCarries` describes |
| `Engine.EngineObject.OnDestroy` | src/memhook/engine.cpp:43-47 | everything is flushed before the store is released |
| `Engine.FlushConserves` | src/memhook/engine.cpp:152-177 | what leaves the cache is exactly what the store gains; without a store nothing leaves |
| `Engine.FlushMovesOldest` | src/memhook/engine.cpp:152-177 | nothing moved is newer than anything kept, and dumping all keeps nothing |
| `Engine.FlushRespectsTimeout` | src/memhook/engine.cpp:158-167 | only records before now minus the timeout move; afterwards the item limit was reached or every kept record is at or after that time |
| `Engine.HookFlushes` | src/memhook/engine.cpp:49-67 | an alloc hook on a fresh address adds only records from before now minus the timeout, at most the item limit, and unless that limit was reached every record left in the cache is at or after that time |
| `Engine.FlushIsLogged` | src/memhook/engine.cpp:161-167 | a flush makes one Add call per moved record, in time order, and no other call |
| `Engine.MoveOpCarries` | src/memhook/engine.cpp:164-166 | that call has the record's address, size and time and, frame by frame, either all that the unwinder says about the code address or the cached frame unchanged, as the policy says |
| `Engine.ResolveAllAt` | src/memhook/callstack_unwinder.cpp:272-276 | resolving fills in path, base, name and offset of the code address and keeps ip and sp |
| `Engine.PassedOnExactly` | src/memhook/engine.cpp:69-102 | a free or a resize reaches the store, as one call, if and only if the cache does not have the record |
| `Engine.SecondHookKeepsFirst` | src/memhook/engine.cpp:60-64 | hooking a cached address again changes nothing about what is live |
| `Engine.InsertKeepsDisjointExactly` | src/memhook/engine.cpp:60-64 | cache and store stay disjoint if and only if the address was cached already or is not in the store |
| `Engine.HookKeepsDisjointExactly` | src/memhook/engine.cpp:49-67 | after a whole alloc hook with a nonnegative timeout, cache and store are disjoint if and only if the address was null, cached already or not in the store: a new record is never flushed by its own hook |
| `Engine.SecondHookOverlaps` | src/memhook/engine.cpp:60-66 | a concrete state in which they are not |
| `Engine.AllocRefines` | src/memhook/engine.cpp:49-67 | an alloc hook on a fresh address makes exactly that allocation live, whatever is flushed |
| `Engine.FreeRefines` | src/memhook/engine.cpp:69-80 | a free hook makes exactly that address not live, wherever its record is |
| `Engine.UpdateSizeRefines` | src/memhook/engine.cpp:91-102 | only the size of that allocation changes, and the in-place edit keeps both cache indexes in order |
| `Engine.EngineIsOneMap` | src/memhook/engine.cpp:49-102 | for every run of hook calls with fresh addresses, cache and store are valid, disjoint and together the plain map of live allocations |
| `Engine.DestroyLeavesAllInStore` | src/memhook/engine.cpp:43-47 | after the last flush the cache is empty and the released store alone holds every live allocation |
| `AllocatorHooks.HookedAddressIsFresh` | src/memhook/memhook.cpp:259-266 | an alloc hook is never called with a tracked address |
| `AllocatorHooks.TrackedIsHeld` | src/memhook/memhook.cpp:249-257 | every tracked address is held by the allocator |
| `AllocatorHooks.EventKeepsInv` | src/memhook/memhook.cpp:140-157 | every atomic step of every thread keeps the invariant, by which the allocator holds exactly the blocks in use |
| `AllocatorHooks.EveryInterleaving` | src/memhook/memhook.cpp:249-266 | for every number of threads and interleaving, the engine tracks only held addresses, every owned block with its size, and otherwise only blocks being freed; held is exactly what is owned, internal or in some thread's hands |
| `AllocatorHooks.ReleasedIsReusable` | src/memhook/memhook.cpp:249-257 | as soon as a block is released, any idle thread may be handed the same address as the next step |
| `AllocatorHooks.BlockChangesHands` | src/memhook/memhook.cpp:249-266 | there is a run in which a block goes through malloc and free of one thread and malloc of another |
| `SpinLock.NextKeepsInv` | src/memhook/spin_lock.cpp:123-149 | every atomic step, wake or timeout keeps exclusion, the sleeper rule and the futex argument |
| `SpinLock.RunsKeepInv` | src/memhook/spin_lock.h:20-30 | in every state of every run at most one thread holds the lock, the word is Free exactly when none does, the futex waits only on Sleeper, and a sleeper is never forgotten |
| `SpinLock.FreeLockWithSleeperIsAttended` | src/memhook/spin_lock.cpp:84-149 | a free lock with a sleeper always has an active contender or an unlocker that owes a wake |
| `SpinLock.SoloAcquires` | src/memhook/spin_lock.cpp:123-145 | a contender of a free lock that runs alone acquires it within its remaining steps |
| `SpinLock.FreeLockIsTaken` | src/memhook/spin_lock.cpp:84-149 | from every reachable free lock with a sleeper, at most four steps without a timeout give it to a waiting thread |
| `SpinLock.ContenderSleeps` | src/memhook/spin_lock.cpp:84-145 | with futexes, a contender of a held lock that runs alone is asleep, with the word Sleeper, within a bounded number of its own steps |
| `SpinLock.SleepsExactly` | src/memhook/spin_lock.cpp:84-112 | a thread falls asleep only in its second or a later delay, in the futex, while the word is still the value it saw |
| `SpinLock.SomeRunSleeps` | src/memhook/spin_lock.cpp:130-145 | there is a run of two threads in which one holds the lock and the other sleeps on it |
| `SpinLock.EveryThreadMayStep` | src/memhook/spin_lock.cpp:84-149 | in every state every thread has a step, a sleeper by timeout |
| `SpinLock.SpinsOut` | src/memhook/spin_lock.cpp:123-128 | under a held lock the spin loop looks exactly as often as its count says, at least once, before its CAS |
| `SpinLock.UncontendedCycle` | src/memhook/spin_lock.h:20-30 | an uncontended lock is taken as Held and given back without a wake, restoring the state |
| `SpinLock.UnlockExact` | src/memhook/spin_lock.h:26-30 | an unlock leaves Free and owes a wake if and only if the word was Sleeper |
| `SpinLock.WakesOne` | src/memhook/spin_lock.cpp:114-120 | a wake resumes exactly one sleeper |
| `SpinLock.DelayNs64` | src/memhook/spin_lock.cpp:62-71 | the delay is below 2^24 ns and, multiplied by 32, below a second |
| `SpinLock.DelayNs32` | src/memhook/spin_lock.cpp:72-81 | the same bounds for the 32-bit generator |
| `SpinLock.FirstDelays64` | src/memhook/spin_lock.cpp:62-71 | the first three numbers of the generator and the delays they give |
| `SpinLock.FirstDelays32` | src/memhook/spin_lock.cpp:72-81 | the first two numbers of the 32-bit generator and their delays |
| `SymbolHash.StepsAgree` | src/memhook/glibc.cpp:200-204 | in the low 28 bits one step of the shortened loop is one step of the System V gABI hash |
| `SymbolHash.GabiStepFolds` | src/memhook/glibc.cpp:196-207 | a gABI step on 32 bits leaves the low 28 bits, exclusive-or-ed with the high nibble shifted to bit 4 |
| `SymbolHash.GabiHashOfExit` | src/memhook/glibc.cpp:196-207 | the published hash of "exit" |
| `SymbolHash.ElfHash` | src/memhook/glibc.cpp:196-207 | for every string the result is the gABI hash; below 2^28, so never the "not computed" sentinel |
| `SymbolHash.NewHash` | src/memhook/glibc.cpp:209-215 | the 64-bit accumulator masked at the end is the 32-bit GNU hash |
| `SymbolHash.GnuHashOfExit` | src/memhook/glibc.cpp:209-215 | the published hash of "exit" |
| `SymbolTables.CheckMatchExact` | src/memhook/glibc.cpp:217-232 | the shifted-bit test accepts exactly functions of that name with a nonzero value |
| `SymbolTables.GnuLookup` | src/memhook/glibc.cpp:266-293 | on every well-formed table the bloom, bucket and chain search terminates with the first match a scan of the hashed symbols finds, or nothing exactly when the scan finds nothing |
| `SymbolTables.EverySymtabHasGnuTable` | src/memhook/glibc.cpp:266-293 | for every symbol table there is a well-formed GNU table, so the condition on tables shuts no object out |
| `SymbolTables.WalkRun` | src/memhook/glibc.cpp:275-289 | the terminated chain alone decides, given a nonzero bucket |
| `SymbolTables.ScanIsFirst` | src/memhook/glibc.cpp:217-232 | the scan returns the first match, and none only when there is none |
| `SymbolTables.SysVLookup` | src/memhook/glibc.cpp:298-308 | on every table whose chains end and hold their hashed symbols under their own hash, the search terminates with the first match on its bucket's chain |
| `SymbolTables.FirstOnIsFirst` | src/memhook/glibc.cpp:298-308 | no symbol before the result on its chain matches |
| `SymbolTables.SysVMatchesScan` | src/memhook/glibc.cpp:294-309 | what it finds is a hashed function of that name, and it finds one if and only if a scan of the hashed symbols, those on some chain, does |
| `SymbolTables.SectionMayBeUnhashed` | src/memhook/glibc.cpp:298-308 | a table that leaves a section symbol on no chain is well-formed |
| `SymbolLookup.SearchMap` | src/memhook/glibc.cpp:264-309 | one object's search by whichever table it has; the lazily cached hash is always the hash of this name |
| `SymbolLookup.DoLookup` | src/memhook/glibc.cpp:234-326 | within a scope, the first object from the start position that offers a weak or global definition |
| `SymbolLookup.FindCaller` | src/memhook/glibc.cpp:338-343 | the caller's first position in the scope |
| `SymbolLookup.LookupSymbol` | src/memhook/glibc.cpp:328-375 | the first offer in the first scope from the caller on, then in the later scopes |
| `SymbolLookup.CandidatesAre` | src/memhook/glibc.cpp:338-346 | the objects looked at are the entries of all scopes in order, from the caller's first occurrence in the first scope on |
| `SymbolLookup.FlatAt` | src/memhook/glibc.cpp:346 | entry j of scope s comes right after the entries of the earlier scopes and the j before it |
| `SymbolLookup.OfferExact` | src/memhook/glibc.cpp:247-322 | an object offers a definition if and only if it is not the caller, not removed, has a table, defines the name and does not hide it; the offer is such a definition |
| `SymbolLookup.ExportedFunctionInfo` | src/memhook/glibc.cpp:311-318 | in terms of the info byte, exactly global and weak functions count: 0x12 and 0x22 |
| `SymbolLookup.UniqueNamesAnswer` | src/memhook/glibc.cpp:311-322 | with unique hashed names, an eligible object answers exactly when it defines the name as a weak or global function |
| `SymbolLookup.FirstOfferIsFirst` | src/memhook/glibc.cpp:345-368 | the walk returns the definition of the first candidate that answers, and nothing if and only if none does |
| `SymbolLookup.LocalHidesExported` | src/memhook/glibc.cpp:311-322 | a concrete well-formed object that defines the name and yet offers nothing |
| `SymbolLookup.FindRoot` | src/memhook/glibc.cpp:390-392 | the end of the caller's chain of loaders |
| `SymbolLookup.DoSym` | src/memhook/glibc.cpp:384-401 | the load address of the object plus the symbol's value, modulo 2^64, for the next definition after the caller; null when the caller is unknown or no candidate answers |
| `UnwinderCache.CallStackCache.Find` | src/memhook/callstack_unwinder.cpp:118-133 | a hit answers from both maps and moves the entry to the end; a miss changes nothing |
| `UnwinderCache.CallStackCache.RememberPath` | src/memhook/callstack_unwinder.cpp:146-158 | the first path of a base stays |
| `UnwinderCache.CallStackCache.Store` | src/memhook/callstack_unwinder.cpp:164-171 | room is made when full, and the entry is appended unless its address is there |
| `UnwinderCache.CallStackCache.GetUnwProcInfoByIP` | src/memhook/callstack_unwinder.cpp:111-172 | the answer and both maps after an undisturbed lookup, for a hit and for a miss, whose answer tells what the resolvers said |
| `UnwinderCache.LookUpRuns` | src/memhook/callstack_unwinder.cpp:111-172 | a lookup that no other thread interrupts is a run of the thread machine, whatever follows it |
| `UnwinderCache.LookedUpIsLookUp` | src/memhook/callstack_unwinder.cpp:111-172 | and that run leaves the caches and the answer of the object's lookup |
| `UnwinderCache.CallStackCache.FlushUnwCache` | src/memhook/callstack_unwinder.cpp:174-179 | both maps are emptied |
| `UnwinderCache.HitIsDirect` | src/memhook/callstack_unwinder.cpp:119-130 | with true entries and paths a hit answers what direct resolution answers |
| `UnwinderCache.NextKeepsInv` | src/memhook/callstack_unwinder.cpp:111-179 | every locked section of every thread keeps capacity, recency order and truth of the entries |
| `UnwinderCache.CacheIsTransparent` | src/memhook/callstack_unwinder.cpp:111-179 | for every capacity of at least one, number of threads and interleaving, if the base determines the path between flushes, the size stays within capacity and every returned answer has the resolvers' name, offset, base and path, or "<unknown>" and 0 where they have none |
| `UnwinderCache.DirectTells` | src/memhook/callstack_unwinder.cpp:137-162 | the direct answer is the one that tells, field by field, what the resolvers said |
| `UnwinderCache.EvictsLeastRecent` | src/memhook/callstack_unwinder.cpp:164-168 | what a store drops was used before everything else in the cache, is dropped only when the cache is full, and is all that is dropped |
| `UnwinderCache.IncoherentLeaks` | src/memhook/callstack_unwinder.cpp:111-172 | the converse: for every resolver that is not coherent and every capacity there is a run of a single thread that returns a wrong answer |
| `Aggregation.EqualIsSameKey` | src/memview/aggregated_printer.h:49-64 | the equality functor holds if and only if the (ip, sp) sequences are equal |
| `Aggregation.EqualHashesEqual` | src/memview/aggregated_printer.h:33-47 | equal call stacks hash equal, whatever the combining function |
| `Aggregation.HashSnoc` | src/memview/aggregated_printer.h:33-47 | every frame enters the hash by its ip and then its sp, in order |
| `Aggregation.HashedFindIsMapFind` | src/memview/aggregated_printer.h:103-104 | a search that looks only at equal hashes finds what a search by key finds |
| `Aggregation.AggregatedContainer.Build` | src/memview/aggregated_printer.h:97-111 | an accepted record grows its group or starts one; an interruption changes nothing and stops |
| `Aggregation.AggregatedContainer.ForEachDo` | src/memview/basic_aggregated_mapped_view.h:22-27 | printing is reached if and only if no call was interrupted, and then the container is the grouping of the accepted records |
| `Aggregation.AcceptedExactly` | src/memview/aggregated_printer.h:100 | exactly the accepted records are aggregated, each as often as it is listed |
| `Aggregation.GroupedIsPartition` | src/memview/aggregated_printer.h:97-124 | one group per distinct (ip, sp) sequence, each with its key's size total and count modulo 2^64 and the frames of one of its records |
| `Aggregation.GroupedConserves` | src/memview/aggregated_printer.h:97-124 | the groups' sizes and counts sum to those of the records, modulo 2^64 |
| `Aggregation.OrderDoesNotMatter` | src/memview/basic_aggregated_mapped_view.h:17-27 | whichever index the records are read from, every key gets the same size and count |
| `UniquePath.DecimalRoundTrip` | src/memhookcore/file_based_mapped_storage_helpers.cpp:31 | reading a printed number back gives the number |
| `UniquePath.DecimalShape` | src/memhookcore/file_based_mapped_storage_helpers.cpp:31 | only digits are printed, without a leading zero |
| `UniquePath.CandidatesDiffer` | src/memhookcore/file_based_mapped_storage_helpers.cpp:27-31 | no two iterations look at the same name |
| `UniquePath.TakenIsBounded` | src/memhookcore/file_based_mapped_storage_helpers.cpp:27-31 | names that are all taken are at most as many as the existing paths |
| `UniquePath.GenerateUniquePath` | src/memhookcore/file_based_mapped_storage_helpers.cpp:11-34 | the result does not exist, is the original if that is free and otherwise the first free candidate, and takes at most one probe more than there are existing paths |
| `InterruptibleSleep.NextKeepsInv` | src/memhook/thread.cpp:121-134 | every step of every sleeper and interrupter keeps the invariant |
| `InterruptibleSleep.NoLostInterrupt` | src/memhook/thread.cpp:121-134 | for every number of threads and interleaving, a blocked sleeper under a set flag has a broadcast coming, after a broadcast nobody is blocked or bound to block, later sleeps only pass mutex and flag and return false, false is returned only under a set flag, and true exactly when the wait ran into its time limit |
| `InterruptibleSleep.NobodyBlockedAfterInterrupt` | src/memhook/thread.cpp:121-125 | once an Interrupt has returned, no thread is blocked in a sleep in any continuation |
| `InterruptibleSleep.UninterruptedSleep` | src/memhook/thread.cpp:127-134 | with the flag clear a sleeper does block, mutex released, and returns true when its time is up |
| `InterruptibleSleep.SleepUnderFlag` | src/memhook/thread.cpp:127-134 | with the flag set a sleep returns false in three steps without blocking |
| `InterruptibleSleep.InterruptWakesAll` | src/memhook/thread.cpp:121-125 | an interruption sets the flag and leaves nobody in the condition wait |

## Left out

- Sockets, asio, signals, shared memory and file mappings, interprocess mutexes, environment variables and command lines: a read is "at least so many bytes arrive", a locked section is one step, settings are parameters.
- Segment capacity and exceptions thrown by a store: they depend on Boost.Interprocess.
- Reading past the buffer, and a null storage pointer: undefined behaviour in the source, here the explicit states `Overrun` and `Faulted`, proved unreachable for a client's stream.
- Equality of server and local store after a client's Clear: the server closes the session there.
- Thread interleavings of `memhook_realloc`, `memhook_mremap` and `memhook_munmap`, and failed results of these calls: they unhook after the address is released. Realloc is covered as a sequential hook call.
- Blocks allocated outside NoHook and freed inside it.
- The cursor form `GetUnwProcInfo`: it evicts without holding the lock. `FlushUnwCache` takes no lock and is modelled with no lookup under way.
- EvictsLeastRecent: "used" means found or inserted; a lookup that resolved an address another thread had inserted meanwhile does not refresh that entry, as in the code.
- `ConditionVariable::WaitFor` and `SleepFor`: their time limit is computed wrongly in the source and timing is not modelled; a wait may end at any time.
- `NetResponse`, maps and pairs on the wire: not used by the protocol.
- The `ref` parameter of the symbol lookup, always a null symbol here, symbol versions, and the write to `l_used`, which no modelled code reads.
- LookupSymbol: requires nonempty scopes and a caller listed in the first scope, because the source reads both without a check.
- GenerateUniquePath: parent path, stem and extension are inputs, since Boost.Filesystem computes them; the existing paths are a fixed finite set of names.
- ForEachDo: the printed order, by size or by count, and the printing itself are not modelled, nor is the bucket layout of the hashed index.
- `boost::hash_combine` is any function of seed and value, because the results do not depend on which.
- HookKeepsDisjointExactly: a negative flush timeout, which would flush a record in its own hook, is not covered.
- The store's `Flush`, which only pushes buffered bytes on: bytes count as sent when they enter the stream.
- The name of the server's storage, for which the process id is the guide: it goes to a storage creator that is not modelled.
- Clock arithmetic in `now - timeout` and the loop counters of the spin lock and the path search are unbounded.
- Weak memory: sequential consistency is assumed. Compare-and-swap and exchange are primitive steps.
- Singleton, option flags, printers, the LevelDB stub, the dlsym wrappers and ELF injection: easy members, stubs or foreign calls.
