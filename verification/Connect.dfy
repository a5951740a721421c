// Two ways to apply a block: validation applies the coinbase last, connecting a block applies
// transactions in block order, coinbase first (netcoin/chain.py). How the two sets relate.
module Connect {
  import opened Wrappers
  import opened Params
  import opened Ledger
  import opened Validation

  // ---- validity only grows with the coins at hand and with the clock ----

  lemma {:induction false} InputValueIsMonotone(net: Network, tx: Transaction, u: Utxos, v: Utxos, height: int,
                                                count: nat)
    requires Within(u, v) && count <= |tx.inputs|
    requires InputValue(net, tx, u, height, count).Ok?
    ensures InputValue(net, tx, v, height, count) == InputValue(net, tx, u, height, count)
  {
    if count > 0 {
      InputValueIsMonotone(net, tx, u, v, height, count - 1);
      var op := tx.inputs[count - 1].prevout;
      assert op in u && u[op] == v[op];
    }
  }

  lemma RegularIsMonotone(net: Network, tx: Transaction, u: Utxos, v: Utxos, height: int, now: int, later: int)
    requires Within(u, v) && now <= later
    requires ValidateRegular(net, tx, u, height, now).Ok?
    ensures ValidateRegular(net, tx, v, height, later) == ValidateRegular(net, tx, u, height, now)
  {
    InputValueIsMonotone(net, tx, u, v, height, |tx.inputs|);
  }

  lemma NextIsMonotone(net: Network, tx: Transaction, p: Progress, q: Progress, height: int, now: int, later: int)
    requires Within(p.utxos, q.utxos) && p.fees == q.fees && p.seen == q.seen && now <= later
    requires ValidateNext(net, tx, p, height, now).Ok?
    ensures ValidateNext(net, tx, q, height, later).Ok?
    ensures var p' := ValidateNext(net, tx, p, height, now).value;
            var q' := ValidateNext(net, tx, q, height, later).value;
            && Within(p'.utxos, q'.utxos) && p'.fees == q'.fees && p'.seen == q'.seen
            && (p == q ==> p' == q')
  {
    RegularIsMonotone(net, tx, p.utxos, q.utxos, height, now, later);
  }

  lemma {:induction false} TxsAreMonotone(net: Network, txs: seq<Transaction>, count: nat, u: Utxos, v: Utxos,
                                          height: int, now: int, later: int)
    requires 1 <= count <= |txs| && Within(u, v) && now <= later
    requires ValidateTxs(net, txs, count, u, height, now).Ok?
    ensures ValidateTxs(net, txs, count, v, height, later).Ok?
    ensures var p := ValidateTxs(net, txs, count, u, height, now).value;
            var q := ValidateTxs(net, txs, count, v, height, later).value;
            && Within(p.utxos, q.utxos) && p.fees == q.fees && p.seen == q.seen
            && (u == v ==> p == q)
  {
    if count > 1 {
      TxsAreMonotone(net, txs, count - 1, u, v, height, now, later);
      NextIsMonotone(net, txs[count - 1], ValidateTxs(net, txs, count - 1, u, height, now).value,
                     ValidateTxs(net, txs, count - 1, v, height, later).value, height, now, later);
    }
  }

  // A block that is valid on some coins at some time is valid on more coins at any later time.
  lemma BlockIsMonotone(net: Network, b: Block, prefix: seq<Block>, u: Utxos, v: Utxos, now: int, later: int)
    requires prefix != [] && Within(u, v) && now <= later
    requires ValidateBlock(net, b, prefix, u, now).Ok?
    ensures ValidateBlock(net, b, prefix, v, later).Ok?
    ensures Within(ValidateBlock(net, b, prefix, u, now).value, ValidateBlock(net, b, prefix, v, later).value)
    ensures u == v ==> ValidateBlock(net, b, prefix, u, now) == ValidateBlock(net, b, prefix, v, later)
  {
    assert HeaderError(net, b, prefix, now).None?;
    assert HeaderError(net, b, prefix, later).None?;
    TxsAreMonotone(net, b.transactions, |b.transactions|, u, v, b.header.height, now, later);
  }

  lemma {:induction false} ChainStaysValid(net: Network, blocks: seq<Block>, now: int, later: int)
    requires IsValidChain(net, blocks, now) && now <= later
    ensures ValidateChain(net, blocks, later) == ValidateChain(net, blocks, now)
    decreases |blocks|
  {
    if |blocks| > 1 {
      var prefix := blocks[..|blocks| - 1];
      ChainStaysValid(net, prefix, now, later);
      var u := ValidateChain(net, prefix, now).value;
      BlockIsMonotone(net, blocks[|blocks| - 1], prefix, u, u, now, later);
    }
  }

  // ---- coinbase first against coinbase last ----

  // The coinbase of a block as validation and connection create it.
  function CoinbaseCoins(net: Network, b: Block): Utxos {
    CreatedBy(net, b.transactions[0], b.header.height, true)
  }

  // Some later transaction of the block spends an outpoint that the block's own coinbase
  // creates. Validation lets this pass when an earlier, mature coinbase had the same txid.
  ghost predicate SpendsOwnCoinbase(net: Network, b: Block) {
    exists i :: 1 <= i < |b.transactions| && !(SpentBy(b.transactions[i]) !! CoinbaseCoins(net, b).Keys)
  }

  // What validation accepted: a coinbase, then regular transactions, with txids of their own.
  ghost predicate Accepted(net: Network, b: Block, count: nat, u: Utxos, now: int) {
    && 1 <= count <= |b.transactions|
    && b.transactions[0].IsCoinbase()
    && ValidateTxs(net, b.transactions, count, u, b.header.height, now).Ok?
    && forall i :: 1 <= i < count ==> IsOwnRegular(net, b, i)
  }

  ghost predicate IsOwnRegular(net: Network, b: Block, i: nat)
    requires i < |b.transactions|
  {
    !b.transactions[i].IsCoinbase() && net.txid(b.transactions[i]) != net.txid(b.transactions[0])
  }

  lemma ValidBlockIsAccepted(net: Network, b: Block, prefix: seq<Block>, u: Utxos, now: int)
    requires prefix != [] && ValidateBlock(net, b, prefix, u, now).Ok?
    ensures Accepted(net, b, |b.transactions|, u, now)
  {
    assert HeaderError(net, b, prefix, now).None?;
    SeenTxids(net, b.transactions, |b.transactions|, u, b.header.height, now);
  }

  lemma {:induction false} SeenTxids(net: Network, txs: seq<Transaction>, count: nat, u: Utxos, height: int, now: int)
    requires 1 <= count <= |txs| && ValidateTxs(net, txs, count, u, height, now).Ok?
    ensures forall i :: 1 <= i < count ==> net.txid(txs[i]) in ValidateTxs(net, txs, count, u, height, now).value.seen
  {
    hide ValidateRegular, ApplyRegular;
    if count > 1 {
      SeenTxids(net, txs, count - 1, u, height, now);
    }
  }

  // What one validated transaction does to the threaded coins.
  lemma NextEffect(net: Network, tx: Transaction, p: Progress, height: int, now: int)
    requires ValidateNext(net, tx, p, height, now).Ok?
    ensures ValidateNext(net, tx, p, height, now).value.utxos == ApplyRegular(net, tx, p.utxos, height)
    ensures forall op :: op in SpentBy(tx) ==> op in p.utxos
  {
    hide ApplyRegular;
    SpentCoinsExist(net, tx, p.utxos, height, |tx.inputs|);
  }

  lemma {:induction false} SpentCoinsExist(net: Network, tx: Transaction, u: Utxos, height: int, count: nat)
    requires count <= |tx.inputs| && InputValue(net, tx, u, height, count).Ok?
    ensures forall i :: 0 <= i < count ==> tx.inputs[i].prevout in u
  {
    if count > 0 {
      SpentCoinsExist(net, tx, u, height, count - 1);
    }
  }

  lemma OwnRegularCreatesApart(net: Network, b: Block, i: nat)
    requires 1 <= i < |b.transactions| && IsOwnRegular(net, b, i)
    ensures CreatedBy(net, b.transactions[i], b.header.height, false).Keys !! CoinbaseCoins(net, b).Keys
  {
    CreatedByShape(net, b.transactions[i], b.header.height, false);
    CreatedByShape(net, b.transactions[0], b.header.height, true);
  }

  // One regular transaction keeps the coins within the validated ones plus the coinbase.
  lemma StepStaysWithin(net: Network, tx: Transaction, u: Utxos, v: Utxos, coinbase: Utxos, height: int)
    requires Within(u, v + coinbase)
    requires CreatedBy(net, tx, height, false).Keys !! coinbase.Keys
    ensures Within(ApplyRegular(net, tx, u, height), ApplyRegular(net, tx, v, height) + coinbase)
    ensures u == v + coinbase && SpentBy(tx) !! coinbase.Keys ==>
            ApplyRegular(net, tx, u, height) == ApplyRegular(net, tx, v, height) + coinbase
  {
  }

  lemma {:induction false} ConnectStaysWithin(net: Network, b: Block, count: nat, u: Utxos, v: Utxos, now: int)
    requires Within(u, v) && Accepted(net, b, count, v, now)
    ensures Within(ConnectTxs(net, b.transactions, count, u, b.header.height),
                   ValidateTxs(net, b.transactions, count, v, b.header.height, now).value.utxos + CoinbaseCoins(net, b))
    ensures u == v && !SpendsOwnCoinbase(net, b) ==>
              ConnectTxs(net, b.transactions, count, u, b.header.height) ==
              ValidateTxs(net, b.transactions, count, v, b.header.height, now).value.utxos + CoinbaseCoins(net, b)
  {
    hide ValidateNext, ApplyRegular;
    var txs, height := b.transactions, b.header.height;
    if count == 1 {
      assert ConnectTxs(net, txs, 1, u, height) == ApplyTx(net, txs[0], ConnectTxs(net, txs, 0, u, height), height);
    } else {
      ConnectStaysWithin(net, b, count - 1, u, v, now);
      assert IsOwnRegular(net, b, count - 1);
      var p := ValidateTxs(net, txs, count - 1, v, height, now).value;
      NextEffect(net, txs[count - 1], p, height, now);
      OwnRegularCreatesApart(net, b, count - 1);
      StepStaysWithin(net, txs[count - 1], ConnectTxs(net, txs, count - 1, u, height), p.utxos, CoinbaseCoins(net, b),
                      height);
    }
  }

  // Connecting never makes a coin that validation does not also have.
  lemma ConnectIsWithinValidated(net: Network, b: Block, prefix: seq<Block>, u: Utxos, v: Utxos, now: int)
    requires prefix != [] && Within(u, v) && ValidateBlock(net, b, prefix, v, now).Ok?
    ensures Within(ConnectBlock(net, b, u), ValidateBlock(net, b, prefix, v, now).value)
  {
    hide ValidateTxs, ConnectTxs, HeaderError, NextSubsidy;
    ValidBlockIsAccepted(net, b, prefix, v, now);
    ConnectStaysWithin(net, b, |b.transactions|, u, v, now);
  }

  lemma StepKeepsOut(net: Network, tx: Transaction, u: Utxos, height: int, op: Outpoint)
    requires op !in CreatedBy(net, tx, height, false)
    requires op in SpentBy(tx) || op !in u
    ensures op !in ApplyRegular(net, tx, u, height)
  {
  }

  // An outpoint of the coinbase that a transaction of the block spends is gone for good.
  lemma {:induction false} SpentCoinbaseStaysOut(net: Network, b: Block, count: nat, u: Utxos, now: int, i: nat,
                                                 op: Outpoint)
    requires Accepted(net, b, count, u, now)
    requires 1 <= i < count && op in SpentBy(b.transactions[i]) && op in CoinbaseCoins(net, b)
    ensures op !in ConnectTxs(net, b.transactions, count, u, b.header.height)
  {
    hide ValidateNext, ApplyRegular, SpentBy, CreatedBy;
    if i < count - 1 {
      SpentCoinbaseStaysOut(net, b, count - 1, u, now, i, op);
    }
    assert IsOwnRegular(net, b, count - 1);
    OwnRegularCreatesApart(net, b, count - 1);
    StepKeepsOut(net, b.transactions[count - 1], ConnectTxs(net, b.transactions, count - 1, u, b.header.height),
                 b.header.height, op);
  }

  // Exactly when the two orders agree.
  lemma OrdersAgreeExactly(net: Network, b: Block, prefix: seq<Block>, u: Utxos, now: int)
    requires prefix != [] && ValidateBlock(net, b, prefix, u, now).Ok?
    ensures ConnectBlock(net, b, u) == ValidateBlock(net, b, prefix, u, now).value <==> !SpendsOwnCoinbase(net, b)
  {
    hide ValidateTxs, ConnectTxs, HeaderError, NextSubsidy;
    ValidBlockIsAccepted(net, b, prefix, u, now);
    if SpendsOwnCoinbase(net, b) {
      var i :| 1 <= i < |b.transactions| && !(SpentBy(b.transactions[i]) !! CoinbaseCoins(net, b).Keys);
      var op :| op in SpentBy(b.transactions[i]) && op in CoinbaseCoins(net, b);
      SpentCoinbaseStaysOut(net, b, |b.transactions|, u, now, i, op);
      assert op in ValidateBlock(net, b, prefix, u, now).value;
    } else {
      ConnectStaysWithin(net, b, |b.transactions|, u, u, now);
    }
  }

  // A coinbase with a txid that is nowhere in the coins cannot be spent in its own block.
  lemma FreshCoinbaseIsNotSpent(net: Network, b: Block, prefix: seq<Block>, u: Utxos, now: int)
    requires prefix != [] && ValidateBlock(net, b, prefix, u, now).Ok?
    requires forall op :: op in u ==> op.txid != net.txid(b.transactions[0])
    ensures !SpendsOwnCoinbase(net, b)
  {
    ValidBlockIsAccepted(net, b, prefix, u, now);
    CreatedByShape(net, b.transactions[0], b.header.height, true);
    hide ValidateBlock, CreatedBy;
    forall i | 1 <= i < |b.transactions|
      ensures SpentBy(b.transactions[i]) !! CoinbaseCoins(net, b).Keys
    {
      FreshTxidIsNotSpent(net, b, |b.transactions|, u, now, i);
    }
  }

  lemma {:induction false} FreshTxidIsNotSpent(net: Network, b: Block, count: nat, u: Utxos, now: int, i: nat)
    requires Accepted(net, b, count, u, now)
    requires forall op :: op in u ==> op.txid != net.txid(b.transactions[0])
    ensures forall op :: op in ValidateTxs(net, b.transactions, count, u, b.header.height, now).value.utxos ==>
              op.txid != net.txid(b.transactions[0])
    ensures 1 <= i < count ==> forall op :: op in SpentBy(b.transactions[i]) ==> op.txid != net.txid(b.transactions[0])
  {
    hide ValidateNext, SpentBy;
    if count > 1 {
      FreshTxidIsNotSpent(net, b, count - 1, u, now, i);
      assert IsOwnRegular(net, b, count - 1);
      CreatedByShape(net, b.transactions[count - 1], b.header.height, false);
      var p := ValidateTxs(net, b.transactions, count - 1, u, b.header.height, now).value;
      NextEffect(net, b.transactions[count - 1], p, b.header.height, now);
    }
  }

  // A block of a coinbase alone is checked by its header and by what it pays.
  lemma SingleCoinbaseValidates(net: Network, b: Block, prefix: seq<Block>, u: Utxos, now: int)
    requires prefix != [] && HeaderError(net, b, prefix, now).None? && |b.transactions| == 1
    requires 0 < OutputSum(b.transactions[0].outputs) <= NextSubsidy(net, prefix)
    requires OutputSum(b.transactions[0].outputs) <= MAX_MONEY
    ensures ValidateBlock(net, b, prefix, u, now) == Ok(ApplyCoinbase(net, b.transactions[0], u, b.header.height))
  {
    hide ApplyCoinbase, NextSubsidy, OutputSum;
    CoinbaseLeads(net, b, prefix, now);
    hide HeaderError;
    assert ValidateTxs(net, b.transactions, 1, u, b.header.height, now) == Ok(Progress(u, 0, {}));
  }

  lemma CoinbaseLeads(net: Network, b: Block, prefix: seq<Block>, now: int)
    requires prefix != [] && HeaderError(net, b, prefix, now).None?
    ensures b.transactions[0].IsCoinbase()
    ensures forall i :: 1 <= i < |b.transactions| ==> !b.transactions[i].IsCoinbase()
  {
  }

  // `tx` spends one mature coin, `op`, and no more than it is worth.
  ghost predicate SpendsOnly(net: Network, tx: Transaction, u: Utxos, op: Outpoint, height: int) {
    && |tx.inputs| == 1 && tx.inputs[0].prevout == op && tx.locktime == 0 && tx.outputs != []
    && op in u && (u[op].coinbase ==> height - u[op].height >= COINBASE_MATURITY)
    && net.verifyInput(tx, 0, u[op])
    && 0 < OutputSum(tx.outputs) <= u[op].output.amount
  }

  lemma SpendsOnlyValidates(net: Network, tx: Transaction, u: Utxos, op: Outpoint, height: int, now: int)
    requires SpendsOnly(net, tx, u, op, height) && !tx.IsCoinbase()
    ensures ValidateRegular(net, tx, u, height, now) == Ok(u[op].output.amount - OutputSum(tx.outputs))
  {
    hide OutputSum;
    assert InputValue(net, tx, u, height, 0) == Ok(0);
    assert InputValue(net, tx, u, height, 1) == Ok(u[op].output.amount);
  }

  // The disagreement is real: a coinbase that repeats the txid of a mature unspent coin, in a
  // block that also spends the old copy. The block is valid, validation keeps the new coin,
  // connection does not.
  lemma RepeatedCoinbaseDiffers(net: Network, b: Block, prefix: seq<Block>, u: Utxos, now: int)
    requires prefix != [] && HeaderError(net, b, prefix, now).None? && |b.transactions| == 2
    requires var cb, tx := b.transactions[0], b.transactions[1];
             && net.txid(cb) != net.txid(tx)
             && cb.outputs != [] && cb.outputs[0].amount > 0
             && OutputSum(cb.outputs) <= NextSubsidy(net, prefix) && OutputSum(cb.outputs) <= MAX_MONEY
             && SpendsOnly(net, tx, u, Outpoint(net.txid(cb), 0), b.header.height)
    ensures ValidateBlock(net, b, prefix, u, now).Ok?
    ensures var op := Outpoint(net.txid(b.transactions[0]), 0);
            op in ValidateBlock(net, b, prefix, u, now).value && op !in ConnectBlock(net, b, u)
  {
    var cb, tx := b.transactions[0], b.transactions[1];
    var op := Outpoint(net.txid(cb), 0);
    CoinbaseLeads(net, b, prefix, now);
    RepeatedCoinbaseValidates(net, b, prefix, u, now);
    hide HeaderError, NextSubsidy, ValidateBlock;
    ValidBlockIsAccepted(net, b, prefix, u, now);
    CreatedByShape(net, cb, b.header.height, true);
    SpentCoinbaseStaysOut(net, b, 2, u, now, 1, op);
  }

  lemma RepeatedCoinbaseValidates(net: Network, b: Block, prefix: seq<Block>, u: Utxos, now: int)
    requires prefix != [] && HeaderError(net, b, prefix, now).None? && |b.transactions| == 2
    requires var cb, tx := b.transactions[0], b.transactions[1];
             && net.txid(cb) != net.txid(tx) && cb.outputs != [] && cb.outputs[0].amount > 0
             && OutputSum(cb.outputs) <= NextSubsidy(net, prefix) && OutputSum(cb.outputs) <= MAX_MONEY
             && SpendsOnly(net, tx, u, Outpoint(net.txid(cb), 0), b.header.height)
    ensures ValidateBlock(net, b, prefix, u, now).Ok?
    ensures CreatedBy(net, b.transactions[0], b.header.height, true).Keys <=
            ValidateBlock(net, b, prefix, u, now).value.Keys
  {
    var cb, tx, height := b.transactions[0], b.transactions[1], b.header.height;
    CoinbaseLeads(net, b, prefix, now);
    FirstOutputCounts(cb.outputs);
    SpendsOnlyValidates(net, tx, u, Outpoint(net.txid(cb), 0), height, now);
    hide HeaderError, NextSubsidy, OutputSum, ValidateRegular, ApplyRegular, SpendsOnly, CreatedBy;
    assert ValidateTxs(net, b.transactions, 1, u, height, now) == Ok(Progress(u, 0, {}));
  }

  lemma {:induction false} FirstOutputCounts(outputs: seq<TxOutput>)
    requires outputs != [] && outputs[0].amount > 0
    ensures OutputSum(outputs) > 0
    decreases |outputs|
  {
    if |outputs| > 1 {
      FirstOutputCounts(outputs[..|outputs| - 1]);
    }
  }
}
