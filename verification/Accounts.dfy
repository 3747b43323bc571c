/**
 Accounts (core/account.go). `AccountData` is the value of an account, which is what the store
 keeps; `Account` is the heap object that the state manager caches and mutates through pointers.
 */
module Accounts {
  import opened Uint64

  type uint8 = x: int | 0 <= x < 256

  const NODE_REGULAR: uint8 := 0
  const NODE_VALIDATOR: uint8 := 1

  datatype AccountData = AccountData(
    address: string,
    available: uint64,
    staked: uint64,
    nonce: uint64,
    nodeType: uint8,
    nodeStatus: string,
    stakeLockedUntil: int)

  function NewAccount(address: string): AccountData {
    AccountData(address, 0, 0, 0, NODE_REGULAR, "", 0)
  }

  /** The mathematical (never wrapping) total of an account. */
  function Balance(d: AccountData): nat {
    d.available + d.staked
  }

  predicate IsValidator(d: AccountData, stakeRequired: uint64) {
    d.nodeType == NODE_VALIDATOR && d.staked >= stakeRequired
  }

  /** The value an account has after staking `amount`, which its available balance covers. */
  function Staked(d: AccountData, amount: uint64): AccountData
    requires amount <= d.available
  {
    d.(available := d.available - amount, staked := Add(d.staked, amount), nodeType := NODE_VALIDATOR)
  }

  /** The value an account has after unstaking `amount`, which its stake covers. */
  function Unstaked(d: AccountData, amount: uint64): AccountData
    requires amount <= d.staked
  {
    d.(staked := d.staked - amount,
    available := Add(d.available, amount),
    nodeType := if d.staked == amount then NODE_REGULAR else d.nodeType)
  }

  /** The value an account has after everything it held was confiscated. */
  function Stripped(d: AccountData): AccountData {
    d.(available := 0, staked := 0, nodeType := NODE_REGULAR)
  }

  class Account {
    const address: string
    var availableBalance: uint64
    var stakedBalance: uint64
    var nonce: uint64
    var nodeType: uint8
    var nodeStatus: string
    var stakeLockedUntil: int

    constructor (d: AccountData)
      ensures Value() == d
    {
      address := d.address;
      availableBalance, stakedBalance, nonce := d.available, d.staked, d.nonce;
      nodeType, nodeStatus, stakeLockedUntil := d.nodeType, d.nodeStatus, d.stakeLockedUntil;
    }

    function Value(): (d: AccountData)
      reads this
      ensures d.address == address
    {
      AccountData(address, availableBalance, stakedBalance, nonce, nodeType, nodeStatus, stakeLockedUntil)
    }

    method AddBalance(amount: uint64)
      modifies this
      ensures Value() == old(Value()).(available := Add(old(Value()).available, amount))
    {
      availableBalance := Add(availableBalance, amount);
    }

    method SubBalance(amount: uint64) returns (ok: bool)
      modifies this
      ensures ok <==> amount <= old(availableBalance)
      ensures ok ==> Value() == old(Value()).(available := old(availableBalance) - amount)
      ensures !ok ==> unchanged(this)
    {
      if availableBalance < amount {
        return false;
      }
      availableBalance := availableBalance - amount;
      return true;
    }

    method Stake(amount: uint64) returns (ok: bool)
      modifies this
      ensures ok <==> amount <= old(availableBalance)
      ensures ok ==> Value() == Staked(old(Value()), amount)
      ensures !ok ==> unchanged(this)
    {
      if availableBalance < amount {
        return false;
      }
      availableBalance := availableBalance - amount;
      stakedBalance := Add(stakedBalance, amount);
      nodeType := NODE_VALIDATOR;
      return true;
    }

    method Unstake(amount: uint64) returns (ok: bool)
      modifies this
      ensures ok <==> amount <= old(stakedBalance)
      ensures ok ==> Value() == Unstaked(old(Value()), amount)
      ensures !ok ==> unchanged(this)
    {
      if stakedBalance < amount {
        return false;
      }
      stakedBalance := stakedBalance - amount;
      availableBalance := Add(availableBalance, amount);
      if stakedBalance == 0 {
        nodeType := NODE_REGULAR;
      }
      return true;
    }

    method Strip()
      modifies this
      ensures Value() == Stripped(old(Value()))
    {
      availableBalance, stakedBalance, nodeType := 0, 0, NODE_REGULAR;
    }
  }
}
