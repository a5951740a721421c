// The node's checking and replaying loops (netcoin/chain.py), each proved to compute its
// specification.
module Checks {
  import opened Wrappers
  import opened Params
  import opened Ledger
  import opened Validation
  import opened Mempool

  lemma {:induction false} InputErrorIsFinal(net: Network, tx: Transaction, u: Utxos, height: int, count: nat)
    requires count <= |tx.inputs| && InputValue(net, tx, u, height, count).Err?
    ensures InputValue(net, tx, u, height, |tx.inputs|) == InputValue(net, tx, u, height, count)
    decreases |tx.inputs| - count
  {
    if count < |tx.inputs| {
      InputErrorIsFinal(net, tx, u, height, count + 1);
    }
  }

  method SumInputs(net: Network, tx: Transaction, coins: Utxos, spendHeight: int) returns (r: Result<nat, ChainError>)
    ensures r == InputValue(net, tx, coins, spendHeight, |tx.inputs|)
  {
    var total: nat := 0;
    for i := 0 to |tx.inputs|
      invariant InputValue(net, tx, coins, spendHeight, i) == Ok(total)
    {
      var op := tx.inputs[i].prevout;
      var error := None;
      if op !in coins {
        error := Some(MissingOutpoint);
      } else if coins[op].coinbase && spendHeight - coins[op].height < COINBASE_MATURITY {
        error := Some(ImmatureCoinbase);
      } else if !net.verifyInput(tx, i, coins[op]) {
        error := Some(BadSignature);
      } else {
        total := total + coins[op].output.amount;
        if total > MAX_MONEY {
          error := Some(InputsExceedMoney);
        }
      }
      if error.Some? {
        assert InputValue(net, tx, coins, spendHeight, i + 1) == Err(error.value);
        InputErrorIsFinal(net, tx, coins, spendHeight, i + 1);
        return Err(error.value);
      }
    }
    return Ok(total);
  }

  method ValidateRegularTransaction(net: Network, tx: Transaction, coins: Utxos, spendHeight: int, now: int)
    returns (r: Result<nat, ChainError>)
    ensures r == ValidateRegular(net, tx, coins, spendHeight, now)
  {
    hide InputValue;
    if tx.IsCoinbase() {
      return Err(CoinbaseOutsideFirst);
    }
    if tx.outputs == [] {
      return Err(NoOutputs);
    }
    if !UniqueInputs(tx.inputs) {
      return Err(RepeatedInput);
    }
    var locktimeError := LocktimeError(tx, spendHeight, now);
    if locktimeError.Some? {
      return Err(locktimeError.value);
    }
    var outputTotal := OutputSum(tx.outputs);
    if outputTotal <= 0 {
      return Err(OutputsNotPositive);
    }
    if outputTotal > MAX_MONEY {
      return Err(OutputsExceedMoney);
    }
    var inputTotal := SumInputs(net, tx, coins, spendHeight);
    if inputTotal.Err? {
      return Err(inputTotal.error);
    }
    if inputTotal.value < outputTotal {
      return Err(SpendsMoreThanInputs);
    }
    return Ok(inputTotal.value - outputTotal);
  }

  lemma MergeInsert(u: Utxos, c: Utxos, op: Outpoint, coin: Spendable)
    ensures (u + c)[op := coin] == u + c[op := coin]
  {
  }

  method AddOutputs(net: Network, tx: Transaction, coins: Utxos, height: int, coinbase: bool) returns (after: Utxos)
    ensures after == coins + CreatedBy(net, tx, height, coinbase)
  {
    hide Arrivals, CreatedBy;
    ArrivalsFrame(net, tx, coins, height, coinbase);
    after := coins;
    for i := 0 to |tx.outputs|
      invariant after == coins + Arrivals(net, tx, i, height, coinbase)
    {
      MergeNext(net, tx, coins, i, height, coinbase);
      if tx.outputs[i].amount > 0 {
        after := after[Outpoint(net.txid(tx), i) := Spendable(tx.outputs[i], height, coinbase)];
      }
    }
  }

  method ApplyRegularTransaction(net: Network, tx: Transaction, coins: Utxos, height: int) returns (after: Utxos)
    ensures after == ApplyRegular(net, tx, coins, height)
  {
    after := coins;
    for i := 0 to |tx.inputs|
      invariant after == coins - Spent(tx, i)
    {
      after := after - {tx.inputs[i].prevout};
    }
    after := AddOutputs(net, tx, after, height, false);
  }

  lemma {:induction false} TxErrorIsFinal(net: Network, txs: seq<Transaction>, u: Utxos, height: int, now: int,
                                          count: nat)
    requires 1 <= count <= |txs| && ValidateTxs(net, txs, count, u, height, now).Err?
    ensures ValidateTxs(net, txs, |txs|, u, height, now) == ValidateTxs(net, txs, count, u, height, now)
    decreases |txs| - count
  {
    hide ValidateNext;
    if count < |txs| {
      TxErrorIsFinal(net, txs, u, height, now, count + 1);
    }
  }

  method ValidateTransactions(net: Network, txs: seq<Transaction>, coins: Utxos, height: int, now: int)
    returns (r: Result<Progress, ChainError>)
    requires txs != []
    ensures r == ValidateTxs(net, txs, |txs|, coins, height, now)
  {
    hide ValidateRegular, ApplyRegular;
    var seen: set<Hash>, temp, fees: nat := {}, coins, 0;
    for i := 1 to |txs|
      invariant ValidateTxs(net, txs, i, coins, height, now) == Ok(Progress(temp, fees, seen))
    {
      var id := net.txid(txs[i]);
      var fee := ValidateRegularTransaction(net, txs[i], temp, height, now);
      var error := None;
      if id in seen {
        error := Some(DuplicateTxid);
      } else if fee.Err? {
        error := Some(fee.error);
      } else if fees + fee.value > MAX_MONEY {
        error := Some(FeesExceedMoney);
      }
      if error.Some? {
        assert ValidateTxs(net, txs, i + 1, coins, height, now) == Err(error.value);
        TxErrorIsFinal(net, txs, coins, height, now, i + 1);
        return Err(error.value);
      }
      seen := seen + {id};
      fees := fees + fee.value;
      temp := ApplyRegularTransaction(net, txs[i], temp, height);
    }
    return Ok(Progress(temp, fees, seen));
  }

  method ValidateBlockAgainst(net: Network, b: Block, prefix: seq<Block>, coins: Utxos, now: int)
    returns (r: Result<Utxos, ChainError>)
    requires prefix != []
    ensures r == ValidateBlock(net, b, prefix, coins, now)
  {
    hide ValidateTxs, NextSubsidy, HeaderError;
    var headerError := HeaderError(net, b, prefix, now);
    if headerError.Some? {
      return Err(headerError.value);
    }
    var txs := b.transactions;
    var progress := ValidateTransactions(net, txs, coins, b.header.height, now);
    if progress.Err? {
      return Err(progress.error);
    }
    var maxReward := NextSubsidy(net, prefix) + progress.value.fees;
    var coinbaseCheck := ValidateCoinbase(txs[0], b.header.height, maxReward);
    if coinbaseCheck.Err? {
      return Err(coinbaseCheck.error);
    }
    if net.txid(txs[0]) in progress.value.seen {
      return Err(DuplicateTxid);
    }
    var after := AddOutputs(net, txs[0], progress.value.utxos, b.header.height, true);
    return Ok(after);
  }

  lemma {:induction false} ChainErrorIsFinal(net: Network, blocks: seq<Block>, count: nat, now: int)
    requires 1 <= count <= |blocks| && ValidateChain(net, blocks[..count], now).Err?
    ensures ValidateChain(net, blocks, now) == ValidateChain(net, blocks[..count], now)
    decreases |blocks| - count
  {
    hide ValidateBlock;
    if count < |blocks| {
      assert blocks[..count + 1][..count] == blocks[..count];
      ChainErrorIsFinal(net, blocks, count + 1, now);
    } else {
      assert blocks[..count] == blocks;
    }
  }

  // assert_valid_chain: Ok with the threaded coins, or the first error.
  method AssertValidChain(net: Network, blocks: seq<Block>, now: int) returns (r: Result<Utxos, ChainError>)
    ensures r == ValidateChain(net, blocks, now)
  {
    hide ValidateBlock, GenesisError;
    if blocks == [] {
      return Err(EmptyChain);
    }
    var genesisError := GenesisError(net, blocks[0]);
    assert blocks[..1] == [blocks[0]];
    if genesisError.Some? {
      ChainErrorIsFinal(net, blocks, 1, now);
      return Err(genesisError.value);
    }
    var coins := AddOutputs(net, blocks[0].transactions[0], map[], 0, true);
    for i := 1 to |blocks|
      invariant ValidateChain(net, blocks[..i], now) == Ok(coins)
    {
      var next := ValidateBlockAgainst(net, blocks[i], blocks[..i], coins, now);
      assert blocks[..i + 1][..i] == blocks[..i];
      if next.Err? {
        ChainErrorIsFinal(net, blocks, i + 1, now);
        return Err(next.error);
      }
      coins := next.value;
    }
    assert blocks[..|blocks|] == blocks;
    return Ok(coins);
  }

  // The full scan: connect every block, transactions in block order.
  method RecomputeUtxos(net: Network, blocks: seq<Block>) returns (coins: Utxos)
    ensures coins == Replay(net, blocks)
  {
    hide ApplyTx;
    coins := map[];
    for i := 0 to |blocks|
      invariant coins == Replay(net, blocks[..i])
    {
      var b := blocks[i];
      ghost var start := coins;
      for j := 0 to |b.transactions|
        invariant coins == ConnectTxs(net, b.transactions, j, start, b.header.height)
      {
        coins := ConnectTransaction(net, b.transactions[j], coins, b.header.height);
      }
      assert blocks[..i + 1][..i] == blocks[..i];
    }
    assert blocks[..|blocks|] == blocks;
  }

  method ConnectTransaction(net: Network, tx: Transaction, coins: Utxos, height: int) returns (after: Utxos)
    ensures after == ApplyTx(net, tx, coins, height)
  {
    if tx.IsCoinbase() {
      after := AddOutputs(net, tx, coins, height, true);
    } else {
      after := ApplyRegularTransaction(net, tx, coins, height);
    }
  }

  // The loop behind the mempool purge, mining and, with its entries, the block template.
  method KeepTransactions(net: Network, policy: Policy, txs: seq<Transaction>, coins: Utxos, height: int, now: int)
    returns (k: Kept)
    ensures k == KeepAll(net, policy, txs, coins, height, now)
  {
    hide ValidateRegular, ApplyRegular, Accepts;
    var temp, kept, fees: nat, room := coins, [], 0, MAX_BLOCK_WEIGHT;
    for i := 0 to |txs|
      invariant Keep(net, policy, txs, i, coins, height, now) == Kept(kept, temp, fees, room)
    {
      var fee := ValidateRegularTransaction(net, txs[i], temp, height, now);
      if fee.Ok? && Accepts(net, policy, Kept(kept, temp, fees, room), txs[i], fee.value) {
        temp := ApplyRegularTransaction(net, txs[i], temp, height);
        kept := kept + [txs[i]];
        fees := fees + fee.value;
        room := room - net.txWeight(txs[i]);
      }
    }
    k := Kept(kept, temp, fees, room);
  }

  // A transaction in a block template, with the fee it pays after those before it.
  datatype TemplateEntry = TemplateEntry(txid: Hash, wtxid: Hash, fee: nat, weight: nat, tx: Transaction)

  ghost predicate IsEntry(net: Network, e: TemplateEntry, txs: seq<Transaction>, i: nat, u: Utxos, height: int,
                          now: int)
    requires i < |txs|
  {
    var tx := txs[i];
    && e.tx == tx && e.txid == net.txid(tx) && e.wtxid == net.wtxid(tx) && e.weight == net.txWeight(tx)
    && Roll(net, txs, i, u, height, now).Ok?
    && ValidateRegular(net, tx, Roll(net, txs, i, u, height, now).value, height, now) == Ok(e.fee)
  }

  ghost predicate Entered(net: Network, entries: seq<TemplateEntry>, txs: seq<Transaction>, u: Utxos, height: int,
                          now: int) {
    |entries| == |txs| && forall i :: 0 <= i < |txs| ==> IsEntry(net, entries[i], txs, i, u, height, now)
  }

  lemma OneMoreEntered(net: Network, entries: seq<TemplateEntry>, txs: seq<Transaction>, e: TemplateEntry,
                       tx: Transaction, u: Utxos, height: int, now: int)
    requires Entered(net, entries, txs, u, height, now)
    requires IsEntry(net, e, txs + [tx], |txs|, u, height, now)
    ensures Entered(net, entries + [e], txs + [tx], u, height, now)
  {
    hide Roll, ValidateRegular;
    forall i | 0 <= i < |txs|
      ensures IsEntry(net, (entries + [e])[i], txs + [tx], i, u, height, now)
    {
      assert IsEntry(net, entries[i], txs, i, u, height, now);
      RollReadsPrefix(net, txs + [tx], txs, i, u, height, now);
    }
  }

  lemma KeptEntry(net: Network, k: Kept, all: seq<Transaction>, i: nat, tx: Transaction, fee: nat, u: Utxos,
                  height: int, now: int)
    requires i <= |all| && k == Keep(net, Templating, all, i, u, height, now)
    requires ValidateRegular(net, tx, k.utxos, height, now) == Ok(fee)
    ensures IsEntry(net, TemplateEntry(net.txid(tx), net.wtxid(tx), fee, net.txWeight(tx), tx), k.txs + [tx], |k.txs|,
                    u, height, now)
  {
    hide Roll, ValidateRegular, Keep;
    KeptRolls(net, Templating, all, i, u, height, now);
    RollReadsPrefix(net, k.txs + [tx], k.txs, |k.txs|, u, height, now);
  }

  // The loop of the block template: every valid transaction, with its fee.
  method ListTemplate(net: Network, txs: seq<Transaction>, coins: Utxos, height: int, now: int)
    returns (k: Kept, entries: seq<TemplateEntry>)
    ensures k == KeepAll(net, Templating, txs, coins, height, now)
    ensures Entered(net, entries, k.txs, coins, height, now)
  {
    hide ValidateRegular, ApplyRegular, IsEntry;
    var temp, kept, fees: nat, room := coins, [], 0, MAX_BLOCK_WEIGHT;
    entries := [];
    for i := 0 to |txs|
      invariant Keep(net, Templating, txs, i, coins, height, now) == Kept(kept, temp, fees, room)
      invariant Entered(net, entries, kept, coins, height, now)
    {
      var tx := txs[i];
      var fee := ValidateRegularTransaction(net, tx, temp, height, now);
      if fee.Ok? {
        var entry := TemplateEntry(net.txid(tx), net.wtxid(tx), fee.value, net.txWeight(tx), tx);
        KeptEntry(net, Kept(kept, temp, fees, room), txs, i, tx, fee.value, coins, height, now);
        OneMoreEntered(net, entries, kept, entry, tx, coins, height, now);
        temp := ApplyRegularTransaction(net, tx, temp, height);
        kept := kept + [tx];
        fees := fees + fee.value;
        room := room - net.txWeight(tx);
        entries := entries + [entry];
      }
    }
    k := Kept(kept, temp, fees, room);
  }

  lemma {:induction false} RollErrorIsFinal(net: Network, txs: seq<Transaction>, u: Utxos, height: int, now: int,
                                            count: nat)
    requires count <= |txs| && Roll(net, txs, count, u, height, now).Err?
    ensures Roll(net, txs, |txs|, u, height, now) == Roll(net, txs, count, u, height, now)
    decreases |txs| - count
  {
    hide ValidateRegular, ApplyRegular;
    if count < |txs| {
      RollErrorIsFinal(net, txs, u, height, now, count + 1);
    }
  }

  // utxo_set(include_mempool=True): the confirmed coins with the mempool rolled on top.
  method RollMempool(net: Network, txs: seq<Transaction>, coins: Utxos, height: int, now: int)
    returns (r: Result<Utxos, ChainError>)
    ensures r == Roll(net, txs, |txs|, coins, height, now)
  {
    hide ValidateRegular, ApplyRegular;
    var temp := coins;
    for i := 0 to |txs|
      invariant Roll(net, txs, i, coins, height, now) == Ok(temp)
    {
      var fee := ValidateRegularTransaction(net, txs[i], temp, height, now);
      if fee.Err? {
        assert Roll(net, txs, i + 1, coins, height, now) == Err(fee.error);
        RollErrorIsFinal(net, txs, coins, height, now, i + 1);
        return Err(fee.error);
      }
      temp := ApplyRegularTransaction(net, txs[i], temp, height);
    }
    return Ok(temp);
  }
}
