/** The block reward schedule (core/consensus_config.go) and runs of block rewards. */
module Rewards {
  import opened Uint64
  import opened Transactions
  import opened Ledger
  import opened Numerals

  /** 0.1 and 0.2 hundred million FAN. */
  const NO_REWARD_BELOW: uint64 := 10000000000000
  const MIN_REWARD_BELOW: uint64 := 20000000000000

  datatype Schedule = Schedule(base: uint64, minimum: uint64, thresholds: seq<uint64>)

  /** How many thresholds the balance has fallen below. */
  ghost function Halvings(thresholds: seq<uint64>, balance: uint64): nat {
    if thresholds == [] then 0
    else
      var i := |thresholds| - 1;
      Halvings(thresholds[..i], balance) + if balance < thresholds[i] then 1 else 0
  }

  ghost function Halved(reward: uint64, times: nat): (r: uint64)
    ensures r <= reward
  {
    if times == 0 then reward else Halved(reward, times - 1) / 2
  }

  ghost function Reward(s: Schedule, balance: uint64): uint64 {
    if balance < NO_REWARD_BELOW then 0
    else if balance < MIN_REWARD_BELOW then s.minimum
    else
      var r := Halved(s.base, Halvings(s.thresholds, balance));
      if r < s.minimum then s.minimum else r
  }

  /** CalculateBlockReward. */
  method CalculateBlockReward(s: Schedule, balance: uint64) returns (reward: uint64)
    ensures reward == Reward(s, balance)
  {
    if balance < NO_REWARD_BELOW {
      return 0;
    }
    if balance >= NO_REWARD_BELOW && balance < MIN_REWARD_BELOW {
      return s.minimum;
    }
    var halvingCount := 0;
    for i := 0 to |s.thresholds|
      invariant halvingCount == Halvings(s.thresholds[..i], balance)
    {
      assert s.thresholds[..i + 1][..i] == s.thresholds[..i];
      if balance < s.thresholds[i] {
        halvingCount := halvingCount + 1;
      }
    }
    assert s.thresholds[..|s.thresholds|] == s.thresholds;
    reward := s.base;
    for i := 0 to halvingCount
      invariant reward == Halved(s.base, i)
    {
      reward := reward / 2;
    }
    if reward < s.minimum {
      reward := s.minimum;
    }
  }

  lemma {:induction false} HalvingsFall(thresholds: seq<uint64>, low: uint64, high: uint64)
    requires low <= high
    ensures Halvings(thresholds, high) <= Halvings(thresholds, low)
  {
    if thresholds != [] {
      HalvingsFall(thresholds[..|thresholds| - 1], low, high);
    }
  }

  lemma {:induction false} HalvedFalls(reward: uint64, few: nat, many: nat)
    requires few <= many
    ensures Halved(reward, many) <= Halved(reward, few)
  {
    if few < many {
      HalvedFalls(reward, few, many - 1);
    }
  }

  /** The reward never rises when the genesis balance falls, for every list of thresholds. */
  lemma RewardMonotone(s: Schedule, low: uint64, high: uint64)
    requires low <= high
    ensures Reward(s, low) <= Reward(s, high)
  {
    HalvingsFall(s.thresholds, low, high);
    HalvedFalls(s.base, Halvings(s.thresholds, high), Halvings(s.thresholds, low));
  }

  /** The positions of the thresholds above the balance. */
  ghost function Above(thresholds: seq<uint64>, balance: uint64): set<nat> {
    set i: nat | i < |thresholds| && thresholds[i] > balance
  }

  lemma {:induction false} HalvingsCount(thresholds: seq<uint64>, balance: uint64)
    ensures Halvings(thresholds, balance) == |Above(thresholds, balance)|
  {
    if thresholds != [] {
      var i := |thresholds| - 1;
      HalvingsCount(thresholds[..i], balance);
      var before := Above(thresholds[..i], balance);
      assert Above(thresholds, balance) == before + if balance < thresholds[i] then {i} else {};
    }
  }

  lemma {:induction false} HalvedIs(reward: uint64, times: nat)
    ensures Halved(reward, times) == reward / Pow(2, times)
  {
    if times > 0 {
      HalvedIs(reward, times - 1);
      DivTwice(reward, Pow(2, times - 1));
    }
  }

  lemma DivTwice(x: nat, p: nat)
    requires p >= 1
    ensures x / p / 2 == x / (2 * p)
  {
    var q, r := x / p, x % p;
    assert x == q * p + r;
    var h, b := q / 2, q % 2;
    assert x == h * (2 * p) + (b * p + r);
    assert 0 <= b * p + r < 2 * p;
    DivModUnique(h, b * p + r, 2 * p);
  }

  /**
   The schedule in numbers: nothing below 10^13, the minimum below 2 * 10^13, and from there on the base
   reward halved once per threshold above the balance, but at least the minimum.
   */
  lemma RewardIs(s: Schedule, balance: uint64)
    ensures Reward(s, balance) ==
            if balance < 10_000_000_000_000 then 0
            else if balance < 20_000_000_000_000 then s.minimum
            else
              var halved := s.base / Pow(2, |Above(s.thresholds, balance)|);
              if halved >= s.minimum then halved else s.minimum
  {
    HalvingsCount(s.thresholds, balance);
    HalvedIs(s.base, Halvings(s.thresholds, balance));
  }

  // ---- runs of block rewards ----

  /** A block reward moves exactly the scheduled amount from genesis to a proposer that has room for it. */
  lemma RewardMoves(s: Schedule, l: Ledger, proposer: string)
    requires proposer != GENESIS && Rewarded(s, l, proposer).Done?
    requires l[proposer].available + Reward(s, l[GENESIS].available) < TWO_64
    ensures
      var amount, after := Reward(s, l[GENESIS].available), Rewarded(s, l, proposer).ledger;
      && after[GENESIS].available == l[GENESIS].available - amount
      && after[proposer].available == l[proposer].available + amount
      && forall a :: a !in {GENESIS, proposer} ==> after[a] == l[a]
  {
    hide Reward;
    assert |GENESIS| > 0;
  }

  /** CreateRewardTransactions: at most one reward, paid from genesis to the proposer. */
  ghost function RewardTxs(s: Schedule, l: Ledger, proposer: string): seq<Transaction> {
    var amount := Reward(s, l[GENESIS].available);
    if amount == 0 then []
    else [Transaction(TxType.Reward, GENESIS, proposer, amount, 0, 0, 0, [], [], [])]
  }

  /** One block whose only transaction is the reward, if any. */
  ghost function Rewarded(s: Schedule, l: Ledger, proposer: string): Outcome {
    var txs := RewardTxs(s, l, proposer);
    if txs == [] then Done(l, {}, NoEvent) else ExecSystem(l, txs[0])
  }

  ghost function RewardRun(s: Schedule, l: Ledger, proposers: seq<string>): (r: Outcome)
    ensures r.Done? ==> IsLedger(r.ledger)
  {
    if proposers == [] then Done(l, {}, NoEvent)
    else
      var i := |proposers| - 1;
      var r := RewardRun(s, l, proposers[..i]);
      if r.Failed? then r else Rewarded(s, r.ledger, proposers[i])
  }

  lemma RewardStep(s: Schedule, l: Ledger, proposer: string)
    requires s.base <= NO_REWARD_BELOW && s.minimum <= NO_REWARD_BELOW
    requires l[GENESIS].available >= NO_REWARD_BELOW - s.minimum
    ensures Rewarded(s, l, proposer).Done? && IsLedger(Rewarded(s, l, proposer).ledger)
    ensures Rewarded(s, l, proposer).ledger[GENESIS].available >= NO_REWARD_BELOW - s.minimum
  {
    var txs := RewardTxs(s, l, proposer);
    if txs != [] {
      assert txs[0].amount <= l[GENESIS].available;
      assert |GENESIS| > 0;
      var paid := Debit(l, GENESIS, txs[0].amount);
      if proposer == GENESIS {
        assert ExecSystem(l, txs[0]) == Done(l, {}, NoEvent);
      } else {
        assert ExecSystem(l, txs[0]).ledger == Credit(paid, proposer, txs[0].amount);
      }
    }
  }

  /**
   If base and minimum reward are at most 0.1 hundred million FAN, a run of block rewards that starts
   at or above that balance never fails, and never takes genesis below it by more than the minimum.
   */
  lemma {:induction false} RewardsNeverExhaust(s: Schedule, l: Ledger, proposers: seq<string>)
    requires s.base <= NO_REWARD_BELOW && s.minimum <= NO_REWARD_BELOW
    requires l[GENESIS].available >= NO_REWARD_BELOW
    ensures RewardRun(s, l, proposers).Done?
    ensures RewardRun(s, l, proposers).ledger[GENESIS].available >= NO_REWARD_BELOW - s.minimum
  {
    if proposers != [] {
      var i := |proposers| - 1;
      RewardsNeverExhaust(s, l, proposers[..i]);
      RewardStep(s, RewardRun(s, l, proposers[..i]).ledger, proposers[i]);
    }
  }
}
