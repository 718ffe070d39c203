/**
 * serviceParser (packages/parser/serviceparser.go) as a single-threaded
 * state machine. The goroutines of the original become step methods:
 *   - the facade calls GetCurrentBlock, Subscribe and GetTransactions;
 *   - Tick is one tick of the task distributor, with the result of the
 *     head query passed in;
 *   - Announce is the executor controller receiving a round size;
 *   - ExecuteTask is one worker carrying out one task, with the result of
 *     the transaction fetch passed in;
 *   - CountCompletion is the controller counting one finished task.
 * The ghost set `outstanding` holds the tasks of the current round not yet
 * counted; the invariant ties it to the controller's counter.
 */
module ServiceParser {
  import opened Types
  import CacheSpec
  import Hex
  import ServiceSpec
  import Lru

  /** The parts of ServiceParserConfiguration the model uses. */
  datatype Configuration = Configuration(
    maxAddressNumber: int,
    maxTransactionNumber: nat)

  /** What one tick of the task distributor did. */
  datatype TickOutcome =
    | HeadError               // the head query failed
    | NoNewBlock              // the head is the block already acted on
    | Busy                    // a round is still in flight
    | NoAddresses             // a new head, but nothing is tracked
    | Dispatched(tasks: seq<TransactionTask>)

  class ServiceParser {
    var processing: bool
    var processedBlock: int
    const maxTransactionNumber: nat
    const maxAddressNumber: int
    const addresses: Lru.AddressTransactionLRU
    var newAddresses: seq<string>

    /** The executor controller's `taskNum` and `finished`. */
    var roundSize: int
    var finished: int

    /** The tasks of the current round that have not completed yet. */
    ghost var outstanding: set<TransactionTask>

    ghost function Cache(): CacheSpec.Cache
      reads addresses
    {
      addresses.Abstract()
    }

    ghost function Barrier(): ServiceSpec.Barrier
      reads this
    {
      ServiceSpec.Barrier(processing, roundSize, finished)
    }

    /** The round invariant over the cache the store stands for. */
    ghost predicate Consistent()
      reads this, addresses
    {
      && addresses.capability == maxAddressNumber
      && ServiceSpec.RoundInvariant(Cache(), Barrier(), outstanding, maxAddressNumber, maxTransactionNumber)
    }

    /** The store's list is well formed and the round invariant holds. */
    ghost predicate Valid()
      reads this, addresses
    {
      addresses.Valid() && Consistent()
    }

    /** NewServiceParser, with the initial head query already answered. */
    constructor (config: Configuration, initialHead: int)
      ensures Valid() && fresh(addresses)
      ensures maxAddressNumber == config.maxAddressNumber
      ensures maxTransactionNumber == config.maxTransactionNumber
      ensures processedBlock == initialHead && !processing
      ensures newAddresses == [] && Cache() == CacheSpec.Empty
    {
      maxTransactionNumber := config.maxTransactionNumber;
      maxAddressNumber := config.maxAddressNumber;
      addresses := new Lru.AddressTransactionLRU(config.maxAddressNumber);
      processedBlock := initialHead;
      processing := false;
      newAddresses := [];
      roundSize := 0;
      finished := 0;
      outstanding := {};
    }

    /** GetCurrentBlock: the last head a round was started for. */
    method GetCurrentBlock() returns (bn: int)
      ensures bn == processedBlock
    {
      bn := processedBlock;
    }

    /** Subscribe: queues the address for the next round and reports
        success; nothing else changes. */
    method Subscribe(address: string) returns (ok: bool)
      requires Valid()
      modifies this
      ensures Valid() && ok
      ensures newAddresses == old(newAddresses) + [address]
      ensures processing == old(processing) && processedBlock == old(processedBlock)
      ensures Barrier() == old(Barrier()) && outstanding == old(outstanding)
    {
      newAddresses := newAddresses + [address];
      ok := true;
    }

    /** GetTransactions: the stored transactions of a tracked address, which
        the lookup moves to the front; an empty list for any other. */
    method GetTransactions(address: string) returns (txs: seq<Transaction>)
      requires Valid()
      modifies addresses
      ensures Valid()
      ensures txs == if address in old(Cache()).entries then old(Cache()).entries[address].transactions else []
      ensures Cache() == CacheSpec.Get(old(Cache()), address).1
    {
      ServiceSpec.GetKeepsInvariant(Cache(), Barrier(), outstanding, maxAddressNumber, maxTransactionNumber, address);
      CacheSpec.GetSpec(Cache(), address);
      var data := addresses.GetAddress(address);
      if data.None? {
        txs := [];
      } else {
        txs := data.value.transactions;
      }
    }

    /** updateAddress: empties the subscription buffer and puts each drained
        address, in order, with the current block and no transactions. */
    method UpdateAddress()
      requires Valid() && !processing
      modifies this, addresses
      ensures Valid() && !processing
      ensures newAddresses == []
      ensures Cache() == ServiceSpec.AdmitAll(old(Cache()), maxAddressNumber, old(newAddresses), processedBlock)
      ensures processedBlock == old(processedBlock) && Barrier() == old(Barrier())
    {
      ghost var start := Cache();
      var drained := newAddresses;
      newAddresses := [];
      if |drained| == 0 {
        return;
      }
      ServiceSpec.InFlightIffOutstanding(start, Barrier(), outstanding, maxAddressNumber, maxTransactionNumber);
      PutAll(drained, processedBlock);
      ServiceSpec.AdmitKeepsInvariant(start, Barrier(), maxAddressNumber, maxTransactionNumber, drained, processedBlock, Cache());
    }

    /** The loop of updateAddress: each drained address, in order, put with
        block number `blockNum` and no transactions. */
    method PutAll(drained: seq<string>, blockNum: int)
      requires addresses.Valid()
      modifies addresses
      ensures addresses.Valid()
      ensures Cache() == ServiceSpec.AdmitAll(old(Cache()), addresses.capability, drained, blockNum)
    {
      ghost var start := Cache();
      var i := 0;
      while i < |drained|
        invariant 0 <= i <= |drained|
        invariant addresses.Valid()
        invariant Cache() == ServiceSpec.AdmitAll(start, addresses.capability, drained[..i], blockNum)
      {
        addresses.PutAddress(AddressRecord(drained[i], blockNum, []));
        ServiceSpec.AdmitAllStep(start, addresses.capability, drained, i, blockNum);
        i := i + 1;
      }
      assert drained[..i] == drained;
    }

    /** constructGetTransactionRequest: reads the record without promoting
        it and builds the request for blocks from its block number to
        `blockNum`. */
    method ConstructGetTransactionRequest(addr: string, blockNum: int) returns (req: Option<TransactionsRequest>)
      requires addresses.Valid()
      ensures req == ServiceSpec.RequestFor(Cache(), addr, blockNum)
    {
      var data := addresses.GetAddressIn(addr);
      if data.None? {
        return None;
      }
      var startBn := Hex.ConvertDecimalToHex(data.value.blockNum);
      var endBn := Hex.ConvertDecimalToHex(blockNum);
      req := Some(TransactionsRequest(startBn, endBn, addr, addr));
    }

    /** doUpdateTransactions: with the fetch result for `req` passed in,
        merges the fetched batch into the record's window; an address no
        longer held or a failed fetch changes nothing. */
    method DoUpdateTransactions(req: TransactionsRequest, fetch: Result<seq<Transaction>>)
      requires addresses.Valid()
      modifies addresses
      ensures addresses.Valid()
      ensures Cache() == ServiceSpec.ApplyFetch(old(Cache()), req, fetch, maxTransactionNumber)
    {
      var data := addresses.GetAddressIn(req.fromAddress);
      if data.None? {
        return;
      }
      if fetch.Err? {
        return;
      }
      var newTrx := ServiceSpec.Merge(data.value.transactions, fetch.value, maxTransactionNumber);
      addresses.StoreTransactions(req.fromAddress, newTrx);
    }

    /** updateTransactions: the request for the task's address, then the
        merge of the fetch result. The address must still be tracked: the
        request would otherwise be nil and the merge would dereference it. */
    method UpdateTransactions(task: TransactionTask, fetch: Result<seq<Transaction>>)
      requires addresses.Valid() && task.address in Cache().entries
      modifies addresses
      ensures addresses.Valid()
      ensures var req := ServiceSpec.RequestFor(old(Cache()), task.address, task.blockNum).value;
        Cache() == ServiceSpec.ApplyFetch(old(Cache()), req, fetch, maxTransactionNumber)
    {
      var req := ConstructGetTransactionRequest(task.address, task.blockNum);
      DoUpdateTransactions(req.value, fetch);
    }

    /** distributeTasks: one task per tracked address, in the order of the
        address snapshot. */
    method DistributeTasks(newBlockNum: int) returns (tasks: seq<TransactionTask>)
      requires addresses.Valid()
      ensures tasks == ServiceSpec.Tasks(Cache().order, newBlockNum)
    {
      var addrs := addresses.AllAddresses();
      tasks := [];
      var i := 0;
      while i < |addrs|
        invariant 0 <= i <= |addrs|
        invariant |tasks| == i
        invariant forall k :: 0 <= k < i ==> tasks[k] == TransactionTask(newBlockNum, addrs[k])
      {
        tasks := tasks + [TransactionTask(newBlockNum, addrs[i])];
        i := i + 1;
      }
    }

    /** The executor controller receiving a round of n tasks: the round is
        in flight and nothing of it has completed. */
    method Announce(n: int, ghost round: seq<TransactionTask>)
      requires Consistent() && !processing
      requires n >= 1 && |round| == n && ServiceSpec.NoDuplicates(round)
      requires forall t :: t in round ==> t.address in Cache().entries
      modifies this
      ensures Consistent()
      ensures Barrier() == ServiceSpec.Announce(n)
      ensures outstanding == set t | t in round
      ensures processedBlock == old(processedBlock) && newAddresses == old(newAddresses)
    {
      ServiceSpec.AnnounceKeepsInvariant(Cache(), Barrier(), maxAddressNumber, maxTransactionNumber, round);
      processing := true;
      roundSize := n;
      finished := 0;
      outstanding := set t | t in round;
    }

    /** A worker executing one outstanding task (executeTasks): the fetch
        for the task's address, with its result passed in, merged into the
        store. The address is still tracked, since the store only changes
        between rounds. */
    method ExecuteTask(task: TransactionTask, fetch: Result<seq<Transaction>>)
      requires Valid() && task in outstanding
      modifies addresses
      ensures Valid()
      ensures var req := ServiceSpec.RequestFor(old(Cache()), task.address, task.blockNum).value;
        Cache() == ServiceSpec.ApplyFetch(old(Cache()), req, fetch, maxTransactionNumber)
    {
      ghost var c := Cache();
      ghost var b := Barrier();
      ServiceSpec.OutstandingTracked(c, b, outstanding, maxAddressNumber, maxTransactionNumber, task);
      ghost var req := ServiceSpec.RequestFor(c, task.address, task.blockNum).value;
      UpdateTransactions(task, fetch);
      assert Barrier() == b;
      ServiceSpec.FetchKeepsInvariant(c, b, outstanding, maxAddressNumber, maxTransactionNumber, req, fetch, Cache());
    }

    /** The controller counting one completion reported by a worker: the
        round ends when the count reaches the announced size. */
    method CountCompletion(ghost task: TransactionTask)
      requires Consistent() && processing && task in outstanding
      modifies this
      ensures Consistent()
      ensures Barrier() == ServiceSpec.Complete(old(Barrier()))
      ensures outstanding == old(outstanding) - {task}
      ensures !processing <==> outstanding == {}
      ensures processedBlock == old(processedBlock) && newAddresses == old(newAddresses)
    {
      ServiceSpec.CompleteKeepsInvariant(Cache(), Barrier(), outstanding, maxAddressNumber, maxTransactionNumber, task);
      finished := finished + 1;
      if finished == roundSize {
        processing := false;
      }
      outstanding := outstanding - {task};
      ServiceSpec.InFlightIffOutstanding(Cache(), Barrier(), outstanding, maxAddressNumber, maxTransactionNumber);
    }

    /** One tick of the task distributor, with the head query's result. A
        failed query, an unchanged head or a round in flight changes
        nothing; otherwise a round is started for the new head. */
    method Tick(head: Result<int>) returns (outcome: TickOutcome)
      requires Valid()
      modifies this, addresses
      ensures Valid()
      ensures outcome.HeadError? <==> head.Err?
      ensures outcome.NoNewBlock? <==> head.Ok? && head.value == old(processedBlock)
      ensures outcome.Busy? <==> head.Ok? && head.value != old(processedBlock) && old(processing)
      ensures head.Ok? && head.value != old(processedBlock) && !old(processing) ==>
        outcome.NoAddresses? || outcome.Dispatched?
      ensures outcome.HeadError? || outcome.NoNewBlock? || outcome.Busy? ==>
        && unchanged(this) && Cache() == old(Cache())
      ensures !(outcome.HeadError? || outcome.NoNewBlock? || outcome.Busy?) ==>
        && processedBlock == head.value
        && newAddresses == []
        && Cache() == ServiceSpec.AdmitAll(old(Cache()), maxAddressNumber, old(newAddresses), head.value)
        && (outcome.NoAddresses? <==> CacheSpec.Size(Cache()) == 0)
        && (outcome.NoAddresses? ==> !processing)
        && (outcome.Dispatched? ==>
              && outcome.tasks == ServiceSpec.Tasks(Cache().order, head.value)
              && Barrier() == ServiceSpec.Announce(|outcome.tasks|)
              && outstanding == set t | t in outcome.tasks)
    {
      if head.Err? {
        return HeadError;
      }
      var blockNum := head.value;
      if blockNum == processedBlock {
        return NoNewBlock;
      }
      if processing {
        return Busy;
      }
      var tasks := StartRound(blockNum);
      if tasks == [] {
        outcome := NoAddresses;
      } else {
        outcome := Dispatched(tasks);
      }
    }

    /** The rest of a tick once a new head is seen and no round is in
        flight: the head becomes the processed block and the subscriptions
        are admitted; if the store is then empty nothing more happens,
        otherwise the executor controller is told the round size and one
        task per tracked address is handed out. */
    method StartRound(blockNum: int) returns (tasks: seq<TransactionTask>)
      requires Valid() && !processing
      modifies this, addresses
      ensures Valid()
      ensures processedBlock == blockNum && newAddresses == []
      ensures Cache() == ServiceSpec.AdmitAll(old(Cache()), maxAddressNumber, old(newAddresses), blockNum)
      ensures tasks == [] <==> CacheSpec.Size(Cache()) == 0
      ensures tasks == [] ==> !processing
      ensures tasks != [] ==>
        && tasks == ServiceSpec.Tasks(Cache().order, blockNum)
        && Barrier() == ServiceSpec.Announce(|tasks|)
        && outstanding == set t | t in tasks
    {
      processedBlock := blockNum;
      UpdateAddress();
      var size := addresses.Size();
      if size == 0 {
        return [];
      }
      ghost var round := ServiceSpec.Tasks(Cache().order, blockNum);
      ServiceSpec.TasksCoverCache(Cache(), blockNum);
      Announce(size, round);
      tasks := DistributeTasks(blockNum);
    }
  }
}
