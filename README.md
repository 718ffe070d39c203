# simple_ethereum_parser: the address store and the round logic, in Dafny

This project models the core of the parser service in
`packages/parser` of simple_ethereum_parser. The service keeps a bounded,
recency-ordered store of subscribed Ethereum addresses. On every new chain
head it starts a round: one fetch task per tracked address, run by a pool
of workers, and a barrier that counts completions. Each fetch merges a
batch of transactions into that address's bounded window.

The model has six modules, one file each:

- `types.dfy` (`Types`): the records: an address record, a task, a
  transactions request, `Option` and `Result`.
- `cache_spec.dfy` (`CacheSpec`): the address store as a value. It holds
  the recency order, newest first, and the address-to-record map, with the
  functions `Put`, `Get`, `Peek`, `RemoveTail` and `SetTransactions`. The
  lemmas state what the store promises: eviction of the least recently
  touched entry, promotion on lookup, the capacity bound, and no record
  ever overwritten.
- `lru.dfy` (`Lru`): `addressTransactionLRU` as a class that is updated in
  place.
  - Go pointers to list nodes become integer node identities. The `next`
    and `previous` maps hold each node's link fields. `nodeData` holds the
    record embedded in each node. Identities 0 and 1 are the head and tail
    sentinels, and -1 stands for nil.
  - A ghost list of entry nodes, addresses and records ties the object to
    a `CacheSpec.Cache`.
  - Every method is proved to follow the matching `CacheSpec` function.
  - `AllAddresses` keeps the original's walk along the `next` links into a
    buffer of `size()` slots.
- `hex.dfy` (`Hex`): `convertDecimalToHex`, meaning Go's `"0x" + "%x"`,
  together with a reader for exactly those strings. Proved:
  - the round trip holds in both directions;
  - the encoding is injective and canonical.
- `service_spec.dfy` (`ServiceSpec`): the logic of `serviceparser.go` as
  functions on values:
  - the window merge of `doUpdateTransactions`;
  - the request of `constructGetTransactionRequest`;
  - the effect of one fetch on the store;
  - the admission of drained subscriptions;
  - the tasks of a round;
  - the barrier's counter.

  It also defines the round invariant, which every step of the parser
  keeps.
- `service_parser.dfy` (`ServiceParser`): `serviceParser` as a class whose
  goroutines become step methods:
  - the facade calls;
  - `Tick`, one tick of the task distributor;
  - `Announce` and `CountCompletion`, the executor controller;
  - `ExecuteTask`, one worker running one task.

  The results of chain queries are parameters. A ghost set `outstanding`
  holds the tasks of the current round that have not been counted yet.

## Model

| member | source | states |
|---|---|---|
| CacheSpec.Bound | packages/parser/lru.go:38-41 | the size a store of a given capability can reach is at least one and at least the capability |
| CacheSpec.Peek | packages/parser/lru.go:96-102 | the non-promoting lookup finds a record exactly when the address is stored, and it is the stored record |
| CacheSpec.SizeIsLength | packages/parser/lru.go:77-79 | in a well-formed store the map size equals the length of the list and of the address snapshot |
| CacheSpec.RemoveTail | packages/parser/lru.go:81-93 | removeTail as a value: the order loses its last address, the rest stays a prefix in place, and every surviving record is the one held before |
| CacheSpec.RemoveTailSpec | packages/parser/lru.go:81-93 | an empty list is left alone; otherwise exactly the last address leaves list and map, the size drops by one, every other record is kept, and the store stays well formed |
| CacheSpec.Put | packages/parser/lru.go:29-51 | putAddress as a value: the address is present afterwards; a new address is in front with the given record; no address other than the put one is added |
| CacheSpec.PutPreservesValid | packages/parser/lru.go:29-51 | put keeps each address once in the list, list and map agree, and the put address is present afterwards |
| CacheSpec.PutExistingIsNoOp | packages/parser/lru.go:31-36 | putting an address already stored changes neither its record nor the order |
| CacheSpec.PutNewEvictsTail | packages/parser/lru.go:38-50 | a new address into a full store goes in front, exactly the least recently touched address is dropped, the size is unchanged and every other record is kept |
| CacheSpec.PutNewFullSize | packages/parser/lru.go:38-50 | a new address into a full, non-empty store leaves the size unchanged |
| CacheSpec.PutNewInsertsFront | packages/parser/lru.go:43-50 | a new address with room goes in front of the unchanged order, the size grows by one and every other record is kept |
| CacheSpec.PutWithinCapacity | packages/parser/lru.go:38-41 | put never takes the size above the bound, nor above the capability when it is at least one |
| CacheSpec.PutNewWindow | packages/parser/lru.go:29-51 | a new address yields the newest Bound(capability) addresses of the new address followed by the old order |
| CacheSpec.PutEntries | packages/parser/lru.go:29-51 | after put every record is the one stored before under that address or the new one; nothing is rewritten |
| CacheSpec.Get | packages/parser/lru.go:53-75 | getAddress as a value: returns the non-promoting lookup, keeps the map, and puts a hit in front |
| CacheSpec.GetSpec | packages/parser/lru.go:53-75 | the promoting lookup returns exactly the stored record; a hit moves that address to the front and keeps the relative order of all others; a miss changes nothing; the map is untouched |
| CacheSpec.GetAtFront | packages/parser/lru.go:60-62 | a lookup of the most recent address changes nothing |
| CacheSpec.SetTransactions | packages/parser/serviceparser.go:335 | the write through the looked-up record: order and key set kept, that record has the new transactions and the same address |
| CacheSpec.SetTransactionsSpec | packages/parser/serviceparser.go:335 | writing a record's transactions keeps the order, the key set, that record's address and block number and all other records |
| CacheSpec.EvictionScenario | packages/parser/lru_test.go:54-66 | capacity 2 after putting "1", "2", "3": size 2, "1" gone, "2" and "3" present with their records |
| CacheSpec.ReadPromotes | packages/parser/lru.go:53-75 | capacity 2, any distinct a, b, e: after a, b and a lookup of a, putting e evicts b instead of a, and the snapshot is [e, a] |
| CacheSpec.PromotionScenario | packages/parser/lru.go:53-75 | the same with "1", "2", "3": putting "3" evicts "2" instead of "1" |
| CacheSpec.RemoveTailScenario | packages/parser/lru_test.go:287-294 | capacity 2 after "1", "2": removing the tail leaves size 1, drops "1" and keeps "2" |
| CacheSpec.AllAddressesScenario | packages/parser/lru_test.go:332-338 | capacity 2 after "1", "2": the snapshot is ["2", "1"] |
| CacheSpec.ZeroCapacityScenario | packages/parser/lru.go:38-41 | capacity 0 still admits one entry, and a second address replaces it |
| Lru.LinkedPushFront | packages/parser/lru.go:47-50 | the four link writes of the insertion make the new node the first entry of a correctly linked list |
| Lru.LinkedUnlink | packages/parser/lru.go:65-66 | the two link writes of the unlinking take the node out and leave a correctly linked list of the others |
| Lru.LastNode | packages/parser/lru.go:82-88 | the tail sentinel's predecessor is the last entry's node, and its record carries the last address |
| Lru.NodeOf | packages/parser/lru.go:55-60 | a mapped address sits at some list index whose node is the mapped one and holds its record; that node follows the head exactly when it is first |
| Lru.WalkFacts | packages/parser/lru.go:104-109 | a walk from the head meets the entry nodes in order, each holding its record, then the tail and nil; the map has one node per entry |
| Lru.WalkLinks | packages/parser/lru.go:104-109 | in a correctly linked list the head links to the first entry, each entry to the next and the last to the tail, and the tail to nil |
| Lru.WalkRecords | packages/parser/lru.go:104-109 | each entry node holds the record of its address, and the map has one node per entry |
| Lru.RemoveTailStep | packages/parser/lru.go:88-92 | deleting the last node from the map and unlinking it keeps the representation invariant and yields CacheSpec.RemoveTail |
| Lru.PushFrontStep | packages/parser/lru.go:43-50 | a fresh node mapped and linked after the head keeps the representation invariant |
| Lru.MoveToFrontStep | packages/parser/lru.go:64-72 | relinking a node right after the head keeps the invariant and yields the order of CacheSpec.Get |
| Lru.StoreStep | packages/parser/serviceparser.go:335 | a write through a record pointer keeps the invariant and yields CacheSpec.SetTransactions |
| Lru.AddressTransactionLRU.constructor | packages/parser/lru.go:16-27 | the sentinels are linked to each other, the map is empty, and the object stands for the empty store |
| Lru.AddressTransactionLRU.Size | packages/parser/lru.go:77-79 | returns the number of stored addresses |
| Lru.AddressTransactionLRU.GetAddressIn | packages/parser/lru.go:96-102 | returns the non-promoting lookup of the store and changes nothing |
| Lru.AddressTransactionLRU.RemoveTail | packages/parser/lru.go:81-93 | the new store is CacheSpec.RemoveTail of the old one, and the list stays well formed |
| Lru.AddressTransactionLRU.PutAddress | packages/parser/lru.go:29-51 | the new store is CacheSpec.Put of the old one, and the list stays well formed |
| Lru.AddressTransactionLRU.InsertFront | packages/parser/lru.go:43-50 | the new address and record are added in front of the old order, and the list stays well formed |
| Lru.AddressTransactionLRU.MoveToFront | packages/parser/lru.go:64-72 | the relinking of a hit not at the front yields the order of CacheSpec.Get, keeps the list well formed and leaves map and records alone |
| Lru.AddressTransactionLRU.GetAddress | packages/parser/lru.go:53-75 | returns the record and new store of CacheSpec.Get, and the list stays well formed |
| Lru.AddressTransactionLRU.StoreTransactions | packages/parser/serviceparser.go:335 | the new store is CacheSpec.SetTransactions of the old one |
| Lru.AddressTransactionLRU.AllAddresses | packages/parser/lru.go:104-110 | the walk returns the tracked addresses from most to least recently touched |
| Hex.HexDigits | packages/parser/serviceparser.go:352 | the lowercase base-16 digits of a natural number, most significant first; never empty (its properties are the Hex lemmas below) |
| Hex.ConvertDecimalToHex | packages/parser/serviceparser.go:351-353 | the rendering always starts with "0x" and has at least one digit |
| Hex.DigitsRoundTrip | packages/parser/serviceparser.go:352 | reading back the hex digits of n gives n |
| Hex.HexDigitsCanonical | packages/parser/serviceparser.go:352 | every digit is a lowercase hex digit, and a positive number has no leading zero |
| Hex.HexDigitsLength | packages/parser/serviceparser.go:352 | a positive number gets exactly as many digits as its magnitude needs |
| Hex.MinimalDigitsUnique | packages/parser/serviceparser.go:352 | the only digit string without a leading zero that reads as v is the one rendered for v |
| Hex.MinimalRoundTrip | packages/parser/serviceparser.go:352 | the rendered digits are accepted by the strict reader with their value |
| Hex.QuantityRoundTrip | packages/parser/serviceparser.go:351-353 | reading back what convertDecimalToHex wrote gives the number, negative numbers included |
| Hex.NegativeRoundTrip | packages/parser/serviceparser.go:351-353 | the round trip for a negative number, rendered as "0x-" and its magnitude |
| Hex.NonNegativeRoundTrip | packages/parser/serviceparser.go:351-353 | the round trip for a number that is not negative |
| Hex.QuantityCanonical | packages/parser/serviceparser.go:351-353 | every string the reader accepts is the rendering of its value |
| Hex.NegativeCanonical | packages/parser/serviceparser.go:351-353 | an accepted string with a minus sign is the rendering of its negative value |
| Hex.NonNegativeCanonical | packages/parser/serviceparser.go:351-353 | an accepted string without a minus sign is the rendering of its value |
| Hex.ConvertInjective | packages/parser/serviceparser.go:351-353 | different block numbers are rendered as different strings |
| Hex.ConvertExamples | packages/parser/serviceparser_test.go:188-189 | 100 renders as "0x64", 200 as "0xc8", 0 as "0x0" |
| ServiceSpec.MinInt | packages/parser/serviceparser.go:361-366 | the result is at most both arguments and equal to one of them |
| ServiceSpec.Merge | packages/parser/serviceparser.go:321-334 | the new window has min(max, fetched + stored) transactions and is that prefix of the fetched batch followed by the stored list |
| ServiceSpec.RequestFor | packages/parser/serviceparser.go:286-303 | no request exactly when the address is not stored; otherwise from and to are the address, and the bounds read back as the record's block and the target block |
| ServiceSpec.ApplyFetch | packages/parser/serviceparser.go:305-335 | the effect of one fetch on the store: order and key set are kept, and a failed fetch changes nothing |
| ServiceSpec.ApplyFetchSpec | packages/parser/serviceparser.go:305-335 | a missing address or failed fetch changes nothing; a successful one sets that record's transactions to the merge and keeps its block number, the order, the key set and the other records |
| ServiceSpec.ApplyFetchBounded | packages/parser/serviceparser.go:324-334 | after a fetch every window still holds at most max transactions |
| ServiceSpec.ApplyFetchKeepsRange | packages/parser/serviceparser_test.go:331 | a fetch never changes the request later built for any address: the record's block number is not advanced |
| ServiceSpec.AdmitAll | packages/parser/serviceparser.go:237-243 | the drained addresses put in order with the current block and no transactions; the last one drained is present afterwards |
| ServiceSpec.AdmitAllStep | packages/parser/serviceparser.go:237-243 | admitting one more drained address is one more put on the result so far |
| ServiceSpec.AdmitAllValid | packages/parser/serviceparser.go:237-243 | admitting drained addresses keeps the store well formed and within its bound, and the last drained address is present |
| ServiceSpec.AdmitAllRecords | packages/parser/serviceparser.go:237-243 | after admission every record is the one held before or a fresh record, with no transactions, for a drained address |
| ServiceSpec.AdmitAllBounded | packages/parser/serviceparser.go:237-243 | admission keeps every window within max |
| ServiceSpec.AdmitFreshWindow | packages/parser/serviceparser.go:237-243 | distinct new addresses land in front, newest first, and the order is cut at the bound |
| ServiceSpec.AdmitAllAppend | packages/parser/serviceparser.go:237-243 | admitting two lists one after the other equals admitting their concatenation |
| ServiceSpec.AdmitIntoEmpty | packages/parser/serviceparser.go:237-243 | distinct addresses admitted into an empty store leave the newest ones that fit, newest first, each with a fresh record |
| ServiceSpec.OldestEvicted | packages/parser/serviceparser.go:237-243 | capacity 3, any five distinct addresses admitted three then two: size 3, the two oldest go, the third stays, the new ones are in front, newest first, each with a fresh record |
| ServiceSpec.FiveAdmitted | packages/parser/serviceparser.go:237-243 | five distinct addresses admitted into an empty store of capacity 3 leave the newest three, newest first, each with a fresh record |
| ServiceSpec.UpdateAddressScenario | packages/parser/serviceparser_test.go:444-465 | the same with the test's addresses: "0x0001" and "0x0002" go, "0x0003" stays, "0x1110" and "0x1111" are in front |
| ServiceSpec.Tasks | packages/parser/serviceparser.go:265-272 | one task per address in order, each aimed at the new head |
| ServiceSpec.TasksCoverCache | packages/parser/serviceparser.go:177-181 | the round has as many tasks as the store has addresses, each for a tracked address, every tracked address covered, and no task twice |
| ServiceSpec.DistinctCount | packages/parser/serviceparser.go:201-210 | a round without duplicate tasks has as many distinct tasks as positions, so the count the controller waits for matches |
| ServiceSpec.Announce | packages/parser/serviceparser.go:201-205 | announcing n tasks puts the barrier in flight with n completions still to come |
| ServiceSpec.Complete | packages/parser/serviceparser.go:206-214 | one completion: the count grows by one, the size is kept, and the round stays in flight exactly when it was and the count has not reached the size |
| ServiceSpec.BarrierCounts | packages/parser/serviceparser.go:201-214 | after announcing n tasks the round stays in flight through the first n - 1 completions and ends exactly at the n-th |
| ServiceSpec.InFlightIffOutstanding | packages/parser/serviceparser.go:203-214 | under the invariant, a round is in flight exactly while some of its tasks are uncounted |
| ServiceSpec.OutstandingTracked | packages/parser/serviceparser.go:177-181 | under the invariant every outstanding task names a tracked address |
| ServiceSpec.FetchKeepsInvariant | packages/parser/serviceparser.go:305-335 | a fetch keeps the round invariant |
| ServiceSpec.GetKeepsInvariant | packages/parser/serviceparser.go:123-134 | a promoting lookup keeps the round invariant |
| ServiceSpec.AdmitKeepsInvariant | packages/parser/serviceparser.go:220-244 | admission between rounds keeps the round invariant |
| ServiceSpec.AnnounceKeepsInvariant | packages/parser/serviceparser.go:201-205 | announcing a round of distinct tasks on tracked addresses makes all of them outstanding under the invariant |
| ServiceSpec.CompleteKeepsInvariant | packages/parser/serviceparser.go:206-210 | counting one outstanding task keeps the invariant and retires that task |
| ServiceParser.ServiceParser.constructor | packages/parser/serviceparser.go:79-110 | starts with an empty store, the configured bounds, the initial head as processed block and no round in flight |
| ServiceParser.ServiceParser.GetCurrentBlock | packages/parser/serviceparser.go:112-114 | returns the processed block |
| ServiceParser.ServiceParser.Subscribe | packages/parser/serviceparser.go:116-121 | appends the address to the pending subscriptions, reports true and changes nothing else |
| ServiceParser.ServiceParser.GetTransactions | packages/parser/serviceparser.go:123-134 | returns the stored transactions of a tracked address and an empty list otherwise; the store becomes CacheSpec.Get of the old one |
| ServiceParser.ServiceParser.UpdateAddress | packages/parser/serviceparser.go:220-244 | empties the pending subscriptions and admits them with the processed block; the invariant holds afterwards |
| ServiceParser.ServiceParser.PutAll | packages/parser/serviceparser.go:237-243 | the loop of puts yields AdmitAll of the drained addresses |
| ServiceParser.ServiceParser.ConstructGetTransactionRequest | packages/parser/serviceparser.go:286-303 | returns RequestFor of the store without changing it |
| ServiceParser.ServiceParser.DoUpdateTransactions | packages/parser/serviceparser.go:305-339 | the new store is ApplyFetch of the old one |
| ServiceParser.ServiceParser.UpdateTransactions | packages/parser/serviceparser.go:275-283 | for a tracked address, the new store is ApplyFetch of the old one with the request built for it |
| ServiceParser.ServiceParser.DistributeTasks | packages/parser/serviceparser.go:265-272 | hands out Tasks of the address snapshot |
| ServiceParser.ServiceParser.Announce | packages/parser/serviceparser.go:201-205 | a round of n distinct tasks is in flight, none counted, all outstanding, and the invariant holds |
| ServiceParser.ServiceParser.ExecuteTask | packages/parser/serviceparser.go:248-256 | a worker's task merges its fetch into the store as ApplyFetch does, and the invariant holds |
| ServiceParser.ServiceParser.CountCompletion | packages/parser/serviceparser.go:206-214 | one completion is counted, that task is retired, and the round ends exactly when none is left outstanding |
| ServiceParser.ServiceParser.Tick | packages/parser/serviceparser.go:157-181 | the outcome is decided exactly: a failed head query, an unchanged head, a round in flight (each an if and only if) change nothing; a new head with no round in flight always starts one: the head becomes the processed block, subscriptions are admitted, and either the store is empty or one task per address is dispatched and announced |
| ServiceParser.ServiceParser.StartRound | packages/parser/serviceparser.go:175-181 | the head becomes the processed block, subscriptions are admitted, and an empty store starts no round; otherwise the round of Tasks is announced with every task outstanding |

## Left out

- Concurrency is not modelled: the goroutines, channels, mutexes, the ticker and `ctx` cancellation. Each goroutine's work is a step method, and interleavings are not explored.
- The controller's `taskNum` and `finished` are local variables of its loop in the original. Here they are fields, so that the steps can share them.
- The number of workers (`maxConcurrentThreads`) is not modelled: any worker may run any task.
- Logging, request identifiers and the clock are left out. They do not affect state.
- The chain accessor and its HTTP client are not part of this model. The head query and the transaction fetch are parameters: `Tick`'s `head` and `ExecuteTask`'s `fetch`.
- The transaction payload is opaque: a window is only a sequence of records.
- `packages/parser/toolparser.go` is not part of this model.
- ServiceParser.ServiceParser.constructor: the panic when the initial head query fails is not modelled. The constructor takes the head that was answered.
- ServiceParser.ServiceParser.UpdateTransactions: the original dereferences a nil request when the address is no longer stored, and so panics. The model makes "address stored" a precondition. `ExecuteTask` proves that it always holds during a round.
- Reads made without the lock (`GetCurrentBlock`, `processing` in the tick) are plain field reads.
- ServiceSpec.ApplyFetch: the record's block number is not advanced after a successful fetch. The code at packages/parser/serviceparser.go:335 writes only the transactions, and the test at packages/parser/serviceparser_test.go:331 checks that the block number is unchanged. The model follows the code.
- `maxTransactionNumber` is a `nat`. A negative value would make the original panic, both in `make` and in the slice bounds.
- Integers are unbounded. Go's `int` is 64 bits wide, and block numbers never reach that limit.
