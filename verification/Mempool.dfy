// The mempool boundary (netcoin/chain.py): rolling validity, the purge after every tip
// change, and the selection of transactions for a new block.
module Mempool {
  import opened Wrappers
  import opened Params
  import opened Ledger
  import opened Validation
  import Chainstate
  import Emission
  import Supply

  function VirtualSize(net: Network, tx: Transaction): nat {
    (net.txWeight(tx) + 3) / 4
  }

  predicate IsStandard(net: Network, tx: Transaction, fee: nat) {
    && |tx.inputs| <= MAX_STANDARD_TX_INPUTS
    && net.txWeight(tx) <= MAX_STANDARD_TX_WEIGHT
    && (forall i :: 0 <= i < |tx.outputs| ==> !(0 < tx.outputs[i].amount < DUST_THRESHOLD))
    && fee >= (VirtualSize(net, tx) * MIN_RELAY_FEE_PER_KB + 999) / 1000
  }

  // ---- rolling validity ----

  // The coins after validating and applying the first `count` transactions in order: what
  // utxo_set(include_mempool=True) computes, raising on the first invalid one.
  function Roll(net: Network, txs: seq<Transaction>, count: nat, u: Utxos, height: int,
                now: int): Result<Utxos, ChainError>
    requires count <= |txs|
  {
    if count == 0 then Ok(u)
    else
      var earlier :- Roll(net, txs, count - 1, u, height, now);
      var _ :- ValidateRegular(net, txs[count - 1], earlier, height, now);
      Ok(ApplyRegular(net, txs[count - 1], earlier, height))
  }

  // ---- keeping a subset ----

  // What one pass over the mempool has kept so far.
  datatype Kept = Kept(txs: seq<Transaction>, utxos: Utxos, fees: nat, room: int)

  // Which transactions a pass keeps: the purge keeps standard ones, mining keeps what fits
  // into the block, a template keeps every valid one.
  datatype Policy = Purging | Mining | Templating

  predicate Accepts(net: Network, policy: Policy, k: Kept, tx: Transaction, fee: nat) {
    match policy
    case Purging => IsStandard(net, tx, fee)
    case Mining => net.txWeight(tx) <= k.room
    case Templating => true
  }

  function KeepNext(net: Network, policy: Policy, k: Kept, tx: Transaction, height: int, now: int): Kept {
    match ValidateRegular(net, tx, k.utxos, height, now)
    case Err(_) => k
    case Ok(fee) =>
      if Accepts(net, policy, k, tx, fee) then
        Kept(k.txs + [tx], ApplyRegular(net, tx, k.utxos, height), k.fees + fee, k.room - net.txWeight(tx))
      else k
  }

  function Keep(net: Network, policy: Policy, txs: seq<Transaction>, count: nat, u: Utxos, height: int, now: int): Kept
    requires count <= |txs|
  {
    if count == 0 then Kept([], u, 0, MAX_BLOCK_WEIGHT)
    else KeepNext(net, policy, Keep(net, policy, txs, count - 1, u, height, now), txs[count - 1], height, now)
  }

  function KeepAll(net: Network, policy: Policy, txs: seq<Transaction>, u: Utxos, height: int, now: int): Kept {
    Keep(net, policy, txs, |txs|, u, height, now)
  }

  // ---- what a pass leaves ----

  lemma {:induction false} KeepReadsPrefix(net: Network, policy: Policy, a: seq<Transaction>, b: seq<Transaction>,
                                           count: nat, u: Utxos, height: int, now: int)
    requires count <= |a| && count <= |b| && a[..count] == b[..count]
    ensures Keep(net, policy, a, count, u, height, now) == Keep(net, policy, b, count, u, height, now)
  {
    hide KeepNext;
    if count > 0 {
      assert a[count - 1] == a[..count][count - 1] == b[..count][count - 1] == b[count - 1];
      assert a[..count - 1] == a[..count][..count - 1] == b[..count][..count - 1] == b[..count - 1];
      KeepReadsPrefix(net, policy, a, b, count - 1, u, height, now);
    }
  }

  lemma KeepNextCases(net: Network, policy: Policy, k: Kept, tx: Transaction, height: int, now: int)
    ensures var next := KeepNext(net, policy, k, tx, height, now);
            next == k || next.txs == k.txs + [tx]
  {
  }

  // A second pass over what a pass kept keeps all of it, with the same coins and fees.
  lemma {:induction false} KeepIsIdempotent(net: Network, policy: Policy, txs: seq<Transaction>, count: nat, u: Utxos,
                                            height: int, now: int)
    requires count <= |txs|
    ensures var k := Keep(net, policy, txs, count, u, height, now);
            KeepAll(net, policy, k.txs, u, height, now) == k
  {
    hide KeepNext;
    if count > 0 {
      KeepIsIdempotent(net, policy, txs, count - 1, u, height, now);
      var before := Keep(net, policy, txs, count - 1, u, height, now);
      var k := Keep(net, policy, txs, count, u, height, now);
      KeepNextCases(net, policy, before, txs[count - 1], height, now);
      if k != before {
        KeepReadsPrefix(net, policy, k.txs, before.txs, |before.txs|, u, height, now);
      }
    }
  }

  lemma {:induction false} RollReadsPrefix(net: Network, a: seq<Transaction>, b: seq<Transaction>, count: nat, u: Utxos,
                                           height: int, now: int)
    requires count <= |a| && count <= |b| && a[..count] == b[..count]
    ensures Roll(net, a, count, u, height, now) == Roll(net, b, count, u, height, now)
  {
    hide ValidateRegular, ApplyRegular;
    if count > 0 {
      assert a[count - 1] == a[..count][count - 1] == b[..count][count - 1] == b[count - 1];
      assert a[..count - 1] == a[..count][..count - 1] == b[..count][..count - 1] == b[..count - 1];
      RollReadsPrefix(net, a, b, count - 1, u, height, now);
    }
  }

  // Whatever the mempool held, what a pass keeps replays in order without an error.
  lemma {:induction false} KeptRolls(net: Network, policy: Policy, txs: seq<Transaction>, count: nat, u: Utxos,
                                     height: int, now: int)
    requires count <= |txs|
    ensures var k := Keep(net, policy, txs, count, u, height, now);
            Roll(net, k.txs, |k.txs|, u, height, now) == Ok(k.utxos)
  {
    hide ValidateRegular, ApplyRegular;
    if count > 0 {
      KeptRolls(net, policy, txs, count - 1, u, height, now);
      var before := Keep(net, policy, txs, count - 1, u, height, now);
      var k := Keep(net, policy, txs, count, u, height, now);
      if k.txs == before.txs + [txs[count - 1]] {
        RollReadsPrefix(net, k.txs, before.txs, |before.txs|, u, height, now);
      }
    }
  }

  // The weight budget: what is kept and what is left of it make up the whole block limit.
  lemma {:induction false} RoomIsWhatIsLeft(net: Network, policy: Policy, txs: seq<Transaction>, count: nat, u: Utxos,
                                            height: int, now: int)
    requires count <= |txs|
    ensures var k := Keep(net, policy, txs, count, u, height, now);
            && k.room + net.TotalWeight(k.txs) == MAX_BLOCK_WEIGHT
            && (policy == Mining ==> k.room >= 0)
  {
    hide ValidateRegular, ApplyRegular;
    if count > 0 {
      RoomIsWhatIsLeft(net, policy, txs, count - 1, u, height, now);
      WeightAppend(net, Keep(net, policy, txs, count - 1, u, height, now).txs, txs[count - 1]);
    }
  }

  lemma {:induction false} WeightGrows(net: Network, txs: seq<Transaction>, count: nat)
    requires count <= |txs|
    ensures net.TotalWeight(txs[..count]) <= net.TotalWeight(txs)
    decreases |txs|
  {
    if count < |txs| {
      var prefix := txs[..|txs| - 1];
      WeightGrows(net, prefix, count);
      assert prefix[..count] == txs[..count];
    } else {
      assert txs[..count] == txs;
    }
  }

  // A mempool that rolls and is within the block limit is selected whole.
  lemma {:induction false} WholePoolIsSelected(net: Network, txs: seq<Transaction>, count: nat, u: Utxos, height: int,
                                               now: int)
    requires count <= |txs| && Roll(net, txs, count, u, height, now).Ok?
    requires net.TotalWeight(txs[..count]) <= MAX_BLOCK_WEIGHT
    ensures var k := Keep(net, Mining, txs, count, u, height, now);
            k.txs == txs[..count] && Roll(net, txs, count, u, height, now) == Ok(k.utxos)
  {
    hide ValidateRegular, ApplyRegular;
    if count > 0 {
      assert txs[..count] == txs[..count - 1] + [txs[count - 1]];
      WeightAppend(net, txs[..count - 1], txs[count - 1]);
      WholePoolIsSelected(net, txs, count - 1, u, height, now);
      RoomIsWhatIsLeft(net, Mining, txs, count - 1, u, height, now);
    }
  }

  ghost predicate DistinctIds(net: Network, txs: seq<Transaction>) {
    forall i, j :: 0 <= i < j < |txs| ==> net.txid(txs[i]) != net.txid(txs[j])
  }

  // Kept transactions come from the pass in order, so distinct ids stay distinct.
  lemma {:induction false} KeptIdsAreDistinct(net: Network, policy: Policy, txs: seq<Transaction>, count: nat, u: Utxos,
                                              height: int, now: int)
    requires count <= |txs| && DistinctIds(net, txs)
    ensures var k := Keep(net, policy, txs, count, u, height, now);
            && DistinctIds(net, k.txs)
            && (forall tx :: tx in k.txs ==> tx in txs[..count] && !tx.IsCoinbase())
  {
    hide ApplyRegular, InputValue;
    if count > 0 {
      KeptIdsAreDistinct(net, policy, txs, count - 1, u, height, now);
      assert txs[..count] == txs[..count - 1] + [txs[count - 1]];
      var before := Keep(net, policy, txs, count - 1, u, height, now);
      forall i | 0 <= i < |before.txs|
        ensures net.txid(before.txs[i]) != net.txid(txs[count - 1])
      {
        assert before.txs[i] in txs[..count - 1];
      }
    }
  }

  // ---- a block assembled from the selection validates ----

  lemma {:induction false} FeesComeFromCoins(net: Network, policy: Policy, txs: seq<Transaction>, count: nat, u: Utxos,
                                             height: int, now: int)
    requires count <= |txs|
    ensures var k := Keep(net, policy, txs, count, u, height, now);
            Supply.Total(k.utxos) + k.fees <= Supply.Total(u)
  {
    hide ValidateRegular, ApplyRegular;
    if count > 0 {
      FeesComeFromCoins(net, policy, txs, count - 1, u, height, now);
      var before := Keep(net, policy, txs, count - 1, u, height, now);
      if ValidateRegular(net, txs[count - 1], before.utxos, height, now).Ok? {
        Supply.RegularConserves(net, txs[count - 1], before.utxos, height, now);
      }
    }
  }

  lemma {:induction false} ValidateTxsReadsPrefix(net: Network, a: seq<Transaction>, b: seq<Transaction>, count: nat,
                                                  u: Utxos, height: int, now: int)
    requires 1 <= count <= |a| && count <= |b| && a[..count] == b[..count]
    ensures ValidateTxs(net, a, count, u, height, now) == ValidateTxs(net, b, count, u, height, now)
  {
    hide ValidateNext;
    if count > 1 {
      assert a[count - 1] == a[..count][count - 1] == b[..count][count - 1] == b[count - 1];
      assert a[..count - 1] == a[..count][..count - 1] == b[..count][..count - 1] == b[..count - 1];
      ValidateTxsReadsPrefix(net, a, b, count - 1, u, height, now);
    }
  }

  // A kept transaction passes the step that block validation would take.
  lemma KeptStepValidates(net: Network, policy: Policy, k: Kept, tx: Transaction, seen: set<Hash>, height: int,
                          now: int)
    requires KeepNext(net, policy, k, tx, height, now) != k
    requires net.txid(tx) !in seen && KeepNext(net, policy, k, tx, height, now).fees <= MAX_MONEY
    ensures var next := KeepNext(net, policy, k, tx, height, now);
            && next.txs == k.txs + [tx]
            && ValidateNext(net, tx, Progress(k.utxos, k.fees, seen), height, now) ==
               Ok(Progress(next.utxos, next.fees, seen + {net.txid(tx)}))
  {
    hide ValidateRegular, ApplyRegular;
  }

  lemma {:induction false} SelectionValidates(net: Network, policy: Policy, coinbase: Transaction,
                                              txs: seq<Transaction>, count: nat, u: Utxos, height: int, now: int)
    requires count <= |txs| && DistinctIds(net, txs) && Supply.Total(u) <= MAX_MONEY
    ensures var k := Keep(net, policy, txs, count, u, height, now);
            ValidateTxs(net, [coinbase] + k.txs, |k.txs| + 1, u, height, now) ==
              Ok(Progress(k.utxos, k.fees, Ids(net, k.txs)))
  {
    hide KeepNext, ValidateNext, Ids;
    var k := Keep(net, policy, txs, count, u, height, now);
    if count == 0 {
      NoIds(net);
    } else {
      SelectionValidates(net, policy, coinbase, txs, count - 1, u, height, now);
      var before, tx := Keep(net, policy, txs, count - 1, u, height, now), txs[count - 1];
      KeepNextCases(net, policy, before, tx, height, now);
      if k != before {
        ValidateTxsReadsPrefix(net, [coinbase] + k.txs, [coinbase] + before.txs, |before.txs| + 1, u, height, now);
        KeptIdsAreDistinct(net, policy, txs, count, u, height, now);
        FeesComeFromCoins(net, policy, txs, count, u, height, now);
        AppendId(net, before.txs, tx);
        KeptStepValidates(net, policy, before, tx, Ids(net, before.txs), height, now);
      }
    }
  }

  lemma NoIds(net: Network)
    ensures Ids(net, []) == {}
  {
  }

  lemma AppendId(net: Network, txs: seq<Transaction>, tx: Transaction)
    requires DistinctIds(net, txs + [tx])
    ensures Ids(net, txs + [tx]) == Ids(net, txs) + {net.txid(tx)} && net.txid(tx) !in Ids(net, txs)
  {
    var all := txs + [tx];
    assert forall i :: 0 <= i < |txs| ==> all[i] == txs[i];
    assert all[|txs|] == tx;
    assert Ids(net, all) == Ids(net, txs) + {net.txid(tx)} by {
      forall id | id in Ids(net, txs) + {net.txid(tx)}
        ensures id in Ids(net, all)
      {
        if id == net.txid(tx) {
          assert net.txid(all[|txs|]) == id;
        } else {
          var i :| 0 <= i < |txs| && net.txid(txs[i]) == id;
          assert net.txid(all[i]) == id;
        }
      }
    }
  }

  // The genesis allocation leaves room for everything the schedule mints, as the empty one does.
  ghost predicate AllocationFits(net: Network) {
    OutputSum(net.allocation) + Emission.EMISSION_CAP <= MAX_MONEY
  }

  lemma EmptyAllocationFits(net: Network)
    requires net.allocation == []
    ensures AllocationFits(net)
  {
    hide Emission.EMISSION_CAP;
    Emission.CapIsWithinMaxMoney();
  }

  // The transactions that mining and the block template choose always pass the transaction
  // checks of block validation, and a coinbase paying exactly the subsidy plus their fees
  // pays the recomputed maximum: it is accepted precisely when that is positive.
  lemma AssembledBlockPassesTransactionChecks(net: Network, policy: Policy, chain: seq<Block>,
                                              mempool: seq<Transaction>, coinbase: Transaction, now: int)
    requires net.Ideal() && net.genesisMessage != "" && AllocationFits(net)
    requires IsValidChain(net, chain, now) && DistinctIds(net, mempool)
    requires coinbase.IsCoinbase()
    requires var k := KeepAll(net, policy, mempool, Replay(net, chain), |chain|, now);
             OutputSum(coinbase.outputs) == NextSubsidy(net, chain) + k.fees
    ensures var u := Replay(net, chain);
            var k := KeepAll(net, policy, mempool, u, |chain|, now);
            var txs := [coinbase] + k.txs;
            && ValidateTxs(net, txs, |txs|, u, |chain|, now).Ok?
            && var p := ValidateTxs(net, txs, |txs|, u, |chain|, now).value;
               && p.fees == k.fees
               && net.txid(coinbase) !in p.seen
               && (ValidateCoinbase(coinbase, |chain|, NextSubsidy(net, chain) + p.fees).Ok? <==>
                   NextSubsidy(net, chain) + k.fees > 0)
  {
    hide ValidateChain, Replay, NextSubsidy, ValidateTxs, Emission.EMISSION_CAP, Keep;
    var u := Replay(net, chain);
    var k := KeepAll(net, policy, mempool, u, |chain|, now);
    Supply.SupplyIsCapped(net, chain, now);
    SelectionValidates(net, policy, coinbase, mempool, |mempool|, u, |chain|, now);
    FeesComeFromCoins(net, policy, mempool, |mempool|, u, |chain|, now);
    NextRewardFits(net, chain, now);
    KeptIdsAreDistinct(net, policy, mempool, |mempool|, u, |chain|, now);
    CoinbaseIdIsApart(net, coinbase, k.txs);
    assert |chain| > 0 by {
      Chainstate.ValidChainShape(net, chain, now);
    }
  }

  // In particular on every chain whose genesis allocates nothing.
  lemma EmptyGenesisAssembles(net: Network, policy: Policy, chain: seq<Block>, mempool: seq<Transaction>,
                              coinbase: Transaction, now: int)
    requires net.Ideal() && net.genesisMessage != "" && net.allocation == []
    requires IsValidChain(net, chain, now) && DistinctIds(net, mempool) && coinbase.IsCoinbase()
    requires OutputSum(coinbase.outputs) == NextSubsidy(net, chain) +
             KeepAll(net, policy, mempool, Replay(net, chain), |chain|, now).fees
    ensures var txs := [coinbase] + KeepAll(net, policy, mempool, Replay(net, chain), |chain|, now).txs;
            ValidateTxs(net, txs, |txs|, Replay(net, chain), |chain|, now).Ok?
    ensures ValidateCoinbase(coinbase, |chain|, OutputSum(coinbase.outputs)).Ok? <==> OutputSum(coinbase.outputs) > 0
  {
    hide ValidateChain, Replay, NextSubsidy, ValidateTxs, KeepAll, OutputSum;
    EmptyAllocationFits(net);
    hide AllocationFits;
    AssembledBlockPassesTransactionChecks(net, policy, chain, mempool, coinbase, now);
  }

  lemma CoinbaseIdIsApart(net: Network, coinbase: Transaction, txs: seq<Transaction>)
    requires net.Ideal() && coinbase.IsCoinbase()
    requires forall tx :: tx in txs ==> !tx.IsCoinbase()
    ensures net.txid(coinbase) !in Ids(net, txs)
  {
    forall i | 0 <= i < |txs|
      ensures net.txid(txs[i]) != net.txid(coinbase)
    {
      if net.txid(txs[i]) == net.txid(coinbase) {
        Chainstate.StrippedKeepsTheRest(txs[i], coinbase);
      }
    }
  }

  // All coins plus the next subsidy stay within MAX_MONEY.
  lemma NextRewardFits(net: Network, chain: seq<Block>, now: int)
    requires net.Ideal() && net.genesisMessage != "" && AllocationFits(net) && IsValidChain(net, chain, now)
    ensures Supply.Total(Replay(net, chain)) + NextSubsidy(net, chain) <= MAX_MONEY
  {
    hide ValidateChain, Replay, NextSubsidy, Emission.EMISSION_CAP, Emission.ScheduledSubsidy;
    Supply.SupplyIsCapped(net, chain, now);
    Supply.ChainMintsAtMostSchedule(net, chain, now);
    Supply.NextSubsidyIsScheduled(net, chain);
    Emission.ScheduledSumIsWithinCap(|chain| + 1);
    Emission.CapIsWithinMaxMoney();
  }
}
