// What the purge, mining and the block template keep of a mempool (netcoin/chain.py): which
// transaction stays at its turn, and what a purged mempool looks like.
module Standards {
  import opened Wrappers
  import opened Ledger
  import opened Validation
  import opened Mempool
  import opened Rules

  // At most a thousand inputs and a million of weight, no dust, and a satoshi of fee for every
  // four of weight.
  ghost predicate MeetsRelayRules(net: Network, tx: Transaction, fee: int) {
    && |tx.inputs| <= 1_000 && net.txWeight(tx) <= 1_000_000 && 4 * fee >= net.txWeight(tx)
    && forall i :: 0 <= i < |tx.outputs| ==> tx.outputs[i].amount == 0 || tx.outputs[i].amount >= 546
  }

  lemma StandardExactly(net: Network, tx: Transaction, fee: nat)
    ensures IsStandard(net, tx, fee) <==> MeetsRelayRules(net, tx, fee)
  {
  }

  // ---- one turn ----

  // A transaction stays when it is valid on the coins kept so far and, as the case may be, meets
  // the relay rules or fits the room left.
  ghost predicate Stays(net: Network, policy: Policy, k: Kept, tx: Transaction, height: int, now: int) {
    && IsGood(net, tx, k.utxos, height, now)
    && match policy
       case Purging => MeetsRelayRules(net, tx, InputWorth(tx, k.utxos) - OutputSum(tx.outputs))
       case Mining => net.txWeight(tx) <= k.room
       case Templating => true
  }

  lemma TurnDecides(net: Network, policy: Policy, k: Kept, tx: Transaction, height: int, now: int)
    ensures var next := KeepNext(net, policy, k, tx, height, now);
            if Stays(net, policy, k, tx, height, now) then
              && next.txs == k.txs + [tx] && next.utxos == ApplyRegular(net, tx, k.utxos, height)
              && next.fees == k.fees + InputWorth(tx, k.utxos) - OutputSum(tx.outputs)
              && next.room == k.room - net.txWeight(tx)
            else next == k
  {
    TransactionValidExactly(net, tx, k.utxos, height, now);
    var r := ValidateRegular(net, tx, k.utxos, height, now);
    if r.Ok? {
      StandardExactly(net, tx, r.value);
    }
    hide ValidateRegular, IsGood, IsStandard, MeetsRelayRules, InputWorth, ApplyRegular, OutputSum;
  }

  // ---- a purged mempool ----

  // Transaction i is valid after those before it and meets the relay rules.
  ghost predicate StandsAt(net: Network, txs: seq<Transaction>, i: nat, u: Utxos, height: int, now: int)
    requires i < |txs|
  {
    && Roll(net, txs, i, u, height, now).Ok?
    && var coins := Roll(net, txs, i, u, height, now).value;
       IsGood(net, txs[i], coins, height, now)
       && MeetsRelayRules(net, txs[i], InputWorth(txs[i], coins) - OutputSum(txs[i].outputs))
  }

  ghost predicate AllStand(net: Network, txs: seq<Transaction>, u: Utxos, height: int, now: int) {
    forall i :: 0 <= i < |txs| ==> StandsAt(net, txs, i, u, height, now)
  }

  // Transaction i stands exactly when it stays at its turn on the coins rolled so far.
  lemma StandsAtItsTurn(net: Network, txs: seq<Transaction>, i: nat, u: Utxos, k: Kept, height: int, now: int)
    requires i < |txs| && Roll(net, txs, i, u, height, now) == Ok(k.utxos)
    ensures StandsAt(net, txs, i, u, height, now) <==> Stays(net, Purging, k, txs[i], height, now)
    ensures Stays(net, Purging, k, txs[i], height, now) ==>
              Roll(net, txs, i + 1, u, height, now) == Ok(ApplyRegular(net, txs[i], k.utxos, height))
  {
    hide ValidateRegular, IsGood, MeetsRelayRules, InputWorth, ApplyRegular, OutputSum;
    TransactionValidExactly(net, txs[i], k.utxos, height, now);
  }

  lemma {:induction false} StandingIsKept(net: Network, txs: seq<Transaction>, count: nat, u: Utxos, height: int,
                                          now: int)
    requires count <= |txs|
    ensures var k := Keep(net, Purging, txs, count, u, height, now);
            && |k.txs| <= count
            && (|k.txs| == count ==> k.txs == txs[..count] && Roll(net, txs, count, u, height, now) == Ok(k.utxos))
    ensures |Keep(net, Purging, txs, count, u, height, now).txs| == count <==>
              forall i :: 0 <= i < count ==> StandsAt(net, txs, i, u, height, now)
  {
    hide KeepNext, ValidateRegular, Stays, StandsAt, InputWorth, ApplyRegular, OutputSum;
    if count > 0 {
      var before, tx := Keep(net, Purging, txs, count - 1, u, height, now), txs[count - 1];
      StandingIsKept(net, txs, count - 1, u, height, now);
      TurnDecides(net, Purging, before, tx, height, now);
      if |before.txs| == count - 1 {
        StandsAtItsTurn(net, txs, count - 1, u, before, height, now);
        assert txs[..count] == txs[..count - 1] + [tx];
      }
    }
  }

  // A purge drops nothing exactly when every transaction stands where it is.
  lemma PurgeKeepsAllExactly(net: Network, txs: seq<Transaction>, u: Utxos, height: int, now: int)
    ensures KeepAll(net, Purging, txs, u, height, now).txs == txs <==> AllStand(net, txs, u, height, now)
  {
    hide Keep, StandsAt;
    StandingIsKept(net, txs, |txs|, u, height, now);
    assert txs[..|txs|] == txs;
  }

  // And whatever it leaves stands.
  lemma PurgedMempoolStands(net: Network, txs: seq<Transaction>, u: Utxos, height: int, now: int)
    ensures AllStand(net, KeepAll(net, Purging, txs, u, height, now).txs, u, height, now)
  {
    hide Keep, AllStand;
    KeepIsIdempotent(net, Purging, txs, |txs|, u, height, now);
    PurgeKeepsAllExactly(net, KeepAll(net, Purging, txs, u, height, now).txs, u, height, now);
  }
}
