/** Values shared by the address cache and the service parser. */
module Types {

  /** A value that may be absent; stands for a Go pointer that may be nil. */
  datatype Option<T> = None | Some(value: T)

  /** The outcome of a call into the chain accessor: a value, or a failure. */
  datatype Result<T> = Ok(value: T) | Err(message: string)

  /** One transaction trace as returned by the chain accessor. The core never
      looks inside it; the nested action/result payload is not modelled. */
  datatype Transaction = Transaction(
    blockHash: string,
    blockNumber: int,
    transactionHash: string,
    transactionPosition: int,
    kind: string)

  /** The record stored per tracked address: the block the window starts from
      and the newest-first list of stored transactions. */
  datatype AddressRecord = AddressRecord(
    address: string,
    blockNum: int,
    transactions: seq<Transaction>)

  /** One unit of fetch work: bring `address` up to block `blockNum`. */
  datatype TransactionTask = TransactionTask(blockNum: int, address: string)

  /** The parameters of a transaction fetch, block bounds in hexadecimal. */
  datatype TransactionsRequest = TransactionsRequest(
    fromBlock: string,
    toBlock: string,
    fromAddress: string,
    toAddress: string)
}
