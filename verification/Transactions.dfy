/** Transactions and their stateless checks (core/transaction.go). */
module Transactions {
  import opened Uint64

  /** The hard-coded genesis account (core/types.go). */
  const GENESIS: string := "F25gxrj3tppc07hunne7hztvde5gkaw78f3xa"

  datatype TxType = Transfer | Stake | Unstake | Reward | Slash | Unknown(code: nat)

  datatype Transaction = Transaction(
    kind: TxType,
    from: string,
    to: string,
    amount: uint64,
    gasFee: uint64,
    nonce: uint64,
    timestamp: int,
    data: seq<int>,
    signature: seq<int>,
    publicKey: seq<int>)

  /**
   What a node reads from outside the ledger: the consensus parameters, and the two cryptographic
   calls, which stay opaque functions of the transaction.
   */
  datatype Env = Env(
    minGasFee: uint64,
    maxGasFee: uint64,
    maxDataSize: nat,
    maxTimestampDrift: int,
    stakeRequired: uint64,
    verifies: Transaction -> bool,
    signer: seq<int> -> string)

  predicate IsSystem(kind: TxType) {
    kind.Reward? || kind.Slash?
  }

  predicate TimestampFits(env: Env, tx: Transaction, now: int) {
    var diff := tx.timestamp - now;
    (if diff < 0 then -diff else diff) <= env.maxTimestampDrift
  }

  /** Transaction.Validate. */
  predicate WellFormed(env: Env, tx: Transaction, skipTimestamp: bool, now: int) {
    && tx.from != ""
    && tx.to != ""
    && !(tx.from == tx.to && tx.from != GENESIS && !tx.kind.Stake? && !tx.kind.Unstake?)
    && !(tx.amount == 0 && tx.kind.Transfer?)
    && (if tx.kind.Transfer? then env.minGasFee <= tx.gasFee <= env.maxGasFee else tx.gasFee == 0)
    && |tx.data| <= env.maxDataSize
    && (skipTimestamp || TimestampFits(env, tx, now))
    && (IsSystem(tx.kind) || (tx.signature != [] && tx.publicKey != []))
  }

  /** Signature and claimed sender both check out, so no confiscation is triggered. */
  predicate Authentic(env: Env, tx: Transaction) {
    env.verifies(tx) && env.signer(tx.publicKey) == tx.from
  }
}
