/** The monitor's record of a pair and of the log entry it was last updated from. */
module Protocol {
  import opened Evm

  /** The position of a log entry on the chain, and when the monitor saw it. */
  datatype LogState = LogState(blockNumber: nat, txIndex: nat, logIndex: nat, timestamp: int)

  datatype PairRecord = PairRecord(
    address: Address,
    token0: Address,
    token1: Address,
    reserve0: nat,
    reserve1: nat,
    error: bool,
    fee: int,
    update: LogState)
}
