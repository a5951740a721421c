// Conservation of money and the supply cap, over validated blocks and whole chains
// (netcoin/chain.py with netcoin/emission.py).
module Supply {
  import opened Params
  import opened Ledger
  import opened Validation
  import opened Connect
  import opened Sorting
  import Chainstate
  import Emission

  // Value of all coins in a set.
  ghost function Total(u: Utxos): nat
    decreases |u|
  {
    if u == map[] then 0
    else
      var op :| op in u;
      u[op].output.amount + Total(u - {op})
  }

  lemma {:induction false} TotalTake(u: Utxos, op: Outpoint)
    requires op in u
    ensures Total(u) == u[op].output.amount + Total(u - {op})
    decreases |u|
  {
    var first :| first in u && Total(u) == u[first].output.amount + Total(u - {first});
    if first != op {
      TotalTake(u - {first}, op);
      TotalTake(u - {op}, first);
      assert u - {first} - {op} == u - {op} - {first};
    }
  }

  // The coins of `u` at the given outpoints.
  function At(u: Utxos, ops: set<Outpoint>): Utxos {
    map op | op in u && op in ops :: u[op]
  }

  lemma {:induction false} TotalSplit(u: Utxos, ops: set<Outpoint>)
    ensures Total(u) == Total(u - ops) + Total(At(u, ops))
    decreases |u|
  {
    if op :| op in u {
      TotalSplit(u - {op}, ops);
      SplitTake(u, ops, op);
    } else {
      assert u - ops == u && At(u, ops) == map[];
    }
  }

  lemma SplitTake(u: Utxos, ops: set<Outpoint>, op: Outpoint)
    requires op in u
    ensures Total(u - ops) + Total(At(u, ops))
         == Total((u - {op}) - ops) + Total(At(u - {op}, ops)) + Total(u) - Total(u - {op})
  {
    var rest := u - {op};
    TotalTake(u, op);
    if op in ops {
      assert u - ops == rest - ops;
      assert At(u, ops) - {op} == At(rest, ops);
      TotalTake(At(u, ops), op);
    } else {
      assert (u - ops) - {op} == rest - ops;
      assert At(u, ops) == At(rest, ops);
      TotalTake(u - ops, op);
    }
  }

  // Merging coins in: what they overwrite is lost, and nothing else is.
  lemma TotalMerge(u: Utxos, c: Utxos)
    ensures Total(u + c) + Total(At(u, c.Keys)) == Total(u) + Total(c)
  {
    TotalSplit(u, c.Keys);
    TotalSplit(u + c, c.Keys);
    assert (u + c) - c.Keys == u - c.Keys;
    assert At(u + c, c.Keys) == c;
  }

  lemma TotalWithin(u: Utxos, v: Utxos)
    requires Within(u, v)
    ensures Total(u) <= Total(v)
  {
    TotalSplit(v, u.Keys);
    assert At(v, u.Keys) == u;
  }

  lemma {:induction false} TotalCreated(id: Hash, outputs: seq<TxOutput>, count: nat, height: int, coinbase: bool)
    requires count <= |outputs|
    ensures Total(Created(id, outputs, count, height, coinbase)) == OutputSum(outputs[..count])
  {
    if count > 0 {
      TotalCreated(id, outputs, count - 1, height, coinbase);
      CreatedShape(id, outputs, count - 1, height, coinbase);
      assert outputs[..count][..count - 1] == outputs[..count - 1];
      var u := Created(id, outputs, count, height, coinbase);
      var earlier := Created(id, outputs, count - 1, height, coinbase);
      var op := Outpoint(id, count - 1);
      if op in u {
        TotalTake(u, op);
        assert u - {op} == earlier;
      } else {
        assert u == earlier;
      }
    }
  }

  lemma TotalCreatedBy(net: Network, tx: Transaction, height: int, coinbase: bool)
    ensures Total(CreatedBy(net, tx, height, coinbase)) == OutputSum(tx.outputs)
  {
    TotalCreated(net.txid(tx), tx.outputs, |tx.outputs|, height, coinbase);
    assert tx.outputs[..|tx.outputs|] == tx.outputs;
  }

  lemma {:induction false} TotalSpent(net: Network, tx: Transaction, u: Utxos, height: int, count: nat)
    requires count <= |tx.inputs| && UniqueInputs(tx.inputs)
    requires InputValue(net, tx, u, height, count).Ok?
    ensures Total(u - Spent(tx, count)) + InputValue(net, tx, u, height, count).value == Total(u)
  {
    if count == 0 {
      assert u - Spent(tx, 0) == u;
    } else {
      TotalSpent(net, tx, u, height, count - 1);
      var op := tx.inputs[count - 1].prevout;
      var rest := u - Spent(tx, count - 1);
      assert op in rest;
      TotalTake(rest, op);
      assert u - Spent(tx, count) == rest - {op};
    }
  }

  // A regular transaction moves value: what its inputs held is what its outputs hold plus
  // the fee, up to earlier coins that a repeated txid overwrites.
  lemma RegularConserves(net: Network, tx: Transaction, u: Utxos, height: int, now: int)
    requires ValidateRegular(net, tx, u, height, now).Ok?
    ensures var fee := ValidateRegular(net, tx, u, height, now).value;
            var overwritten := At(u - SpentBy(tx), CreatedBy(net, tx, height, false).Keys);
            Total(ApplyRegular(net, tx, u, height)) + fee + Total(overwritten) == Total(u)
  {
    TotalSpent(net, tx, u, height, |tx.inputs|);
    TotalCreatedBy(net, tx, height, false);
    TotalMerge(u - SpentBy(tx), CreatedBy(net, tx, height, false));
  }

  // The unspent coins whose outpoints a transaction creates again.
  function Overwrites(net: Network, tx: Transaction, u: Utxos, height: int, coinbase: bool): Utxos {
    At(if coinbase then u else u - SpentBy(tx), CreatedBy(net, tx, height, coinbase).Keys)
  }

  // What transactions 1 .. count - 1 of a block overwrite, as validation threads the coins.
  ghost function LostInTxs(net: Network, txs: seq<Transaction>, count: nat, u: Utxos, height: int, now: int): nat
    requires 1 <= count <= |txs|
  {
    if count == 1 then 0
    else
      match ValidateTxs(net, txs, count - 1, u, height, now)
      case Ok(p) =>
        LostInTxs(net, txs, count - 1, u, height, now) +
        Total(Overwrites(net, txs[count - 1], p.utxos, height, false))
      case Err(_) => 0
  }

  // Coins after, fees and overwritten coins are together worth the coins before.
  lemma {:induction false} TxsConserve(net: Network, txs: seq<Transaction>, count: nat, u: Utxos, height: int, now: int)
    requires 1 <= count <= |txs| && ValidateTxs(net, txs, count, u, height, now).Ok?
    ensures var p := ValidateTxs(net, txs, count, u, height, now).value;
            Total(p.utxos) + p.fees + LostInTxs(net, txs, count, u, height, now) == Total(u)
  {
    hide ValidateRegular, ApplyRegular, CreatedBy, SpentBy;
    if count > 1 {
      TxsConserve(net, txs, count - 1, u, height, now);
      var p := ValidateTxs(net, txs, count - 1, u, height, now).value;
      RegularConserves(net, txs[count - 1], p.utxos, height, now);
    }
  }

  // What a whole valid block overwrites, its coinbase included.
  ghost function LostInBlock(net: Network, b: Block, u: Utxos, now: int): nat
    requires ValidateTxs(net, b.transactions, |b.transactions|, u, b.header.height, now).Ok?
  {
    var txs, height := b.transactions, b.header.height;
    var p := ValidateTxs(net, txs, |txs|, u, height, now).value;
    LostInTxs(net, txs, |txs|, u, height, now) + Total(Overwrites(net, txs[0], p.utxos, height, true))
  }

  lemma ValidBlockHasValidTxs(net: Network, b: Block, prefix: seq<Block>, u: Utxos, now: int)
    requires prefix != [] && ValidateBlock(net, b, prefix, u, now).Ok?
    ensures ValidateTxs(net, b.transactions, |b.transactions|, u, b.header.height, now).Ok?
    ensures var p := ValidateTxs(net, b.transactions, |b.transactions|, u, b.header.height, now).value;
            && ValidateBlock(net, b, prefix, u, now).value ==
              ApplyCoinbase(net, b.transactions[0], p.utxos, b.header.height)
            && OutputSum(b.transactions[0].outputs) <= NextSubsidy(net, prefix) + p.fees
  {
    hide ValidateTxs, NextSubsidy, HeaderError, ApplyCoinbase;
  }

  // The books of a valid block balance to the satoshi.
  lemma BlockConserves(net: Network, b: Block, prefix: seq<Block>, u: Utxos, now: int)
    requires prefix != [] && ValidateBlock(net, b, prefix, u, now).Ok?
    ensures ValidateTxs(net, b.transactions, |b.transactions|, u, b.header.height, now).Ok?
    ensures var fees := ValidateTxs(net, b.transactions, |b.transactions|, u, b.header.height, now).value.fees;
            Total(ValidateBlock(net, b, prefix, u, now).value) + fees + LostInBlock(net, b, u, now)
              == Total(u) + OutputSum(b.transactions[0].outputs)
  {
    ValidBlockHasValidTxs(net, b, prefix, u, now);
    hide ValidateTxs, ValidateBlock, CreatedBy, LostInTxs;
    var txs, height := b.transactions, b.header.height;
    var p := ValidateTxs(net, txs, |txs|, u, height, now).value;
    TxsConserve(net, txs, |txs|, u, height, now);
    TotalCreatedBy(net, txs[0], height, true);
    TotalMerge(p.utxos, CreatedBy(net, txs[0], height, true));
  }

  // A valid block adds at most its subsidy to the money in existence.
  lemma BlockMintsAtMostSubsidy(net: Network, b: Block, prefix: seq<Block>, u: Utxos, now: int)
    requires prefix != [] && ValidateBlock(net, b, prefix, u, now).Ok?
    ensures Total(ValidateBlock(net, b, prefix, u, now).value) <= Total(u) + NextSubsidy(net, prefix)
  {
    ValidBlockHasValidTxs(net, b, prefix, u, now);
    hide ValidateTxs, ValidateBlock, NextSubsidy, LostInBlock;
    BlockConserves(net, b, prefix, u, now);
  }

  // ---- nothing overwritten ----

  // Every coin is worth something: creating one takes a positive amount.
  ghost predicate Positive(u: Utxos) {
    forall op <- u :: u[op].output.amount > 0
  }

  lemma NothingIsPositive()
    ensures Positive(map[])
  {
  }

  lemma PositiveIsWorth(u: Utxos)
    requires Positive(u)
    ensures Total(u) == 0 <==> u == map[]
  {
    if op :| op in u {
      TotalTake(u, op);
    }
  }

  lemma ApplyingKeepsPositive(net: Network, tx: Transaction, u: Utxos, height: int)
    requires Positive(u)
    ensures Positive(ApplyRegular(net, tx, u, height)) && Positive(ApplyCoinbase(net, tx, u, height))
  {
    CreatedByShape(net, tx, height, true);
    CreatedByShape(net, tx, height, false);
    assert Positive(CreatedBy(net, tx, height, true)) && Positive(CreatedBy(net, tx, height, false));
    hide CreatedBy, SpentBy;
  }

  // Transactions 1 .. count - 1 of a block overwrite no coin.
  ghost predicate TxsOverwriteNothing(net: Network, txs: seq<Transaction>, count: nat, u: Utxos, height: int, now: int)
    requires 1 <= count <= |txs|
  {
    count > 1 ==>
      && TxsOverwriteNothing(net, txs, count - 1, u, height, now)
      && match ValidateTxs(net, txs, count - 1, u, height, now)
         case Ok(p) => Overwrites(net, txs[count - 1], p.utxos, height, false) == map[]
         case Err(_) => true
  }

  ghost predicate BlockOverwritesNothing(net: Network, b: Block, u: Utxos, now: int)
    requires ValidateTxs(net, b.transactions, |b.transactions|, u, b.header.height, now).Ok?
  {
    var txs, height := b.transactions, b.header.height;
    && TxsOverwriteNothing(net, txs, |txs|, u, height, now)
    && Overwrites(net, txs[0], ValidateTxs(net, txs, |txs|, u, height, now).value.utxos, height, true) == map[]
  }

  lemma {:induction false} TxsLoseNothingExactly(net: Network, txs: seq<Transaction>, count: nat, u: Utxos, height: int,
                                                 now: int)
    requires 1 <= count <= |txs| && Positive(u) && ValidateTxs(net, txs, count, u, height, now).Ok?
    ensures Positive(ValidateTxs(net, txs, count, u, height, now).value.utxos)
    ensures LostInTxs(net, txs, count, u, height, now) == 0 <==> TxsOverwriteNothing(net, txs, count, u, height, now)
  {
    hide ValidateRegular, ApplyRegular, Positive, Overwrites;
    if count > 1 {
      TxsLoseNothingExactly(net, txs, count - 1, u, height, now);
      var v := ValidateTxs(net, txs, count - 1, u, height, now).value.utxos;
      ApplyingKeepsPositive(net, txs[count - 1], v, height);
      OverwritesPositive(net, txs[count - 1], v, height, false);
    }
  }

  lemma OverwritesPositive(net: Network, tx: Transaction, u: Utxos, height: int, coinbase: bool)
    requires Positive(u)
    ensures Total(Overwrites(net, tx, u, height, coinbase)) == 0 <==> Overwrites(net, tx, u, height, coinbase) == map[]
  {
    hide CreatedBy, SpentBy;
    PositiveIsWorth(Overwrites(net, tx, u, height, coinbase));
  }

  lemma BlockLosesNothingExactly(net: Network, b: Block, prefix: seq<Block>, u: Utxos, now: int)
    requires prefix != [] && ValidateBlock(net, b, prefix, u, now).Ok? && Positive(u)
    ensures Positive(ValidateBlock(net, b, prefix, u, now).value)
    ensures ValidateTxs(net, b.transactions, |b.transactions|, u, b.header.height, now).Ok?
    ensures LostInBlock(net, b, u, now) == 0 <==> BlockOverwritesNothing(net, b, u, now)
  {
    ValidBlockHasValidTxs(net, b, prefix, u, now);
    hide ValidateTxs, ValidateBlock, LostInTxs, TxsOverwriteNothing, Positive, Overwrites, ApplyCoinbase;
    var txs, height := b.transactions, b.header.height;
    TxsLoseNothingExactly(net, txs, |txs|, u, height, now);
    var v := ValidateTxs(net, txs, |txs|, u, height, now).value.utxos;
    ApplyingKeepsPositive(net, txs[0], v, height);
    OverwritesPositive(net, txs[0], v, height, true);
  }

  // ---- fresh txids ----

  // No coin carries the txid of a transaction of this block from `from` on.
  ghost predicate FreshFrom(net: Network, txs: seq<Transaction>, from: nat, u: Utxos) {
    forall op, i :: op in u && from <= i < |txs| ==> op.txid != net.txid(txs[i])
  }

  ghost predicate FreshFor(net: Network, tx: Transaction, u: Utxos) {
    forall op :: op in u ==> op.txid != net.txid(tx)
  }

  // A fresh transaction overwrites nothing, and keeps other txids fresh.
  lemma FreshOverwritesNothing(net: Network, tx: Transaction, u: Utxos, height: int, coinbase: bool)
    requires FreshFor(net, tx, u)
    ensures Overwrites(net, tx, u, height, coinbase) == map[]
  {
    CreatedByShape(net, tx, height, coinbase);
    hide CreatedBy, SpentBy;
  }

  lemma StaysFresh(net: Network, tx: Transaction, other: Transaction, u: Utxos, height: int)
    requires FreshFor(net, other, u) && net.txid(tx) != net.txid(other)
    ensures FreshFor(net, other, ApplyRegular(net, tx, u, height))
  {
    CreatedByShape(net, tx, height, false);
    hide CreatedBy, SpentBy;
  }

  // Without repeated txids a block overwrites nothing, and what is still to come stays fresh.
  lemma {:induction false} FreshTxsLoseNothing(net: Network, txs: seq<Transaction>, count: nat, u: Utxos, height: int,
                                               now: int, next: nat)
    requires 1 <= count <= |txs| && ValidateTxs(net, txs, count, u, height, now).Ok?
    requires FreshFrom(net, txs, 0, u) && Distinct(net.Txids(txs)) && (next == 0 || count <= next < |txs|)
    ensures LostInTxs(net, txs, count, u, height, now) == 0
    ensures FreshFor(net, txs[next], ValidateTxs(net, txs, count, u, height, now).value.utxos)
  {
    hide ValidateRegular, ApplyRegular, Overwrites, FreshFor;
    if count > 1 {
      var i := count - 1;
      FreshTxsLoseNothing(net, txs, i, u, height, now, i);
      FreshTxsLoseNothing(net, txs, i, u, height, now, next);
      var v := ValidateTxs(net, txs, i, u, height, now).value.utxos;
      FreshOverwritesNothing(net, txs[i], v, height, false);
      TxidsDiffer(net, txs, i, next);
      StaysFresh(net, txs[i], txs[next], v, height);
    } else {
      FreshFromEach(net, txs, u, next);
    }
  }

  lemma FreshFromEach(net: Network, txs: seq<Transaction>, u: Utxos, i: nat)
    requires FreshFrom(net, txs, 0, u) && i < |txs|
    ensures FreshFor(net, txs[i], u)
  {
  }

  lemma TxidsDiffer(net: Network, txs: seq<Transaction>, i: nat, j: nat)
    requires Distinct(net.Txids(txs)) && i < |txs| && j < |txs| && i != j
    ensures net.txid(txs[i]) != net.txid(txs[j])
  {
    assert net.Txids(txs)[i] != net.Txids(txs)[j];
  }

  lemma FreshBlockLosesNothing(net: Network, b: Block, prefix: seq<Block>, u: Utxos, now: int)
    requires prefix != [] && ValidateBlock(net, b, prefix, u, now).Ok? && FreshFrom(net, b.transactions, 0, u)
    ensures ValidateTxs(net, b.transactions, |b.transactions|, u, b.header.height, now).Ok?
    ensures LostInBlock(net, b, u, now) == 0
  {
    ValidBlockHasValidTxs(net, b, prefix, u, now);
    Chainstate.ValidBlockIsCommitted(net, b, prefix, u, now);
    hide ValidateTxs, ValidateBlock, Overwrites, LostInTxs, FreshFrom;
    var txs := b.transactions;
    FreshTxsLoseNothing(net, txs, |txs|, u, b.header.height, now, 0);
    FreshOverwritesNothing(net, txs[0], ValidateTxs(net, txs, |txs|, u, b.header.height, now).value.utxos,
                           b.header.height, true);
  }

  // With fresh txids coins before plus the coinbase are coins after plus fees.
  lemma FreshBlockBalances(net: Network, b: Block, prefix: seq<Block>, u: Utxos, now: int)
    requires prefix != [] && ValidateBlock(net, b, prefix, u, now).Ok?
    requires FreshFrom(net, b.transactions, 0, u)
    ensures ValidateTxs(net, b.transactions, |b.transactions|, u, b.header.height, now).Ok?
    ensures var fees := ValidateTxs(net, b.transactions, |b.transactions|, u, b.header.height, now).value.fees;
            Total(ValidateBlock(net, b, prefix, u, now).value) + fees == Total(u) + OutputSum(b.transactions[0].outputs)
  {
    hide ValidateTxs, ValidateBlock, LostInBlock, FreshFrom;
    BlockConserves(net, b, prefix, u, now);
    FreshBlockLosesNothing(net, b, prefix, u, now);
  }

  // ---- whole chains ----

  // Coinbase outputs of a whole chain, and the fees its blocks collected.
  function CoinbaseSum(blocks: seq<Block>): nat {
    if blocks == [] then 0
    else CoinbaseSum(blocks[..|blocks| - 1]) + OutputSum(blocks[|blocks| - 1].transactions[0].outputs)
  }

  function FeeSum(net: Network, blocks: seq<Block>, now: int): nat
    requires IsValidChain(net, blocks, now)
  {
    if |blocks| == 1 then 0
    else
      var prefix, last := blocks[..|blocks| - 1], blocks[|blocks| - 1];
      var u := ValidateChain(net, prefix, now).value;
      FeeSum(net, prefix, now) +
      ValidateTxs(net, last.transactions, |last.transactions|, u, last.header.height, now).value.fees
  }

  // No block repeats the txid of a coin that is unspent when it arrives.
  ghost predicate ChainIsFresh(net: Network, blocks: seq<Block>, now: int)
    requires IsValidChain(net, blocks, now)
  {
    |blocks| > 1 ==>
      var prefix := blocks[..|blocks| - 1];
      ChainIsFresh(net, prefix, now) &&
      FreshFrom(net, blocks[|blocks| - 1].transactions, 0, ValidateChain(net, prefix, now).value)
  }

  // What a valid chain overwrites, block by block.
  ghost function LostInChain(net: Network, blocks: seq<Block>, now: int): nat
    requires IsValidChain(net, blocks, now)
  {
    if |blocks| == 1 then 0
    else
      var prefix, last := blocks[..|blocks| - 1], blocks[|blocks| - 1];
      LostInChain(net, prefix, now) + LostInBlock(net, last, ValidateChain(net, prefix, now).value, now)
  }

  // On every valid chain coins, fees and overwritten coins are together worth the coinbase
  // outputs.
  lemma {:induction false} ChainConserves(net: Network, blocks: seq<Block>, now: int)
    requires net.Ideal() && IsValidChain(net, blocks, now)
    ensures Total(ValidateChain(net, blocks, now).value) + FeeSum(net, blocks, now) + LostInChain(net, blocks, now)
         == CoinbaseSum(blocks)
    decreases |blocks|
  {
    hide ValidateBlock, ValidateTxs, GenesisError, Network.Ideal, LostInBlock;
    if |blocks| == 1 {
      var coinbase := blocks[0].transactions[0];
      TotalCreatedBy(net, coinbase, 0, true);
      assert map[] + CreatedBy(net, coinbase, 0, true) == CreatedBy(net, coinbase, 0, true);
      assert CoinbaseSum(blocks[..0]) == 0;
    } else {
      var prefix, last := blocks[..|blocks| - 1], blocks[|blocks| - 1];
      ChainConserves(net, prefix, now);
      BlockConserves(net, last, prefix, ValidateChain(net, prefix, now).value, now);
    }
  }

  // No transaction of a valid chain creates an outpoint again while its coin is unspent.
  ghost predicate ChainOverwritesNothing(net: Network, blocks: seq<Block>, now: int)
    requires IsValidChain(net, blocks, now)
  {
    |blocks| > 1 ==>
      var prefix, last := blocks[..|blocks| - 1], blocks[|blocks| - 1];
      && ChainOverwritesNothing(net, prefix, now)
      && BlockOverwritesNothing(net, last, ValidateChain(net, prefix, now).value, now)
  }

  lemma {:induction false} ChainLosesNothingExactly(net: Network, blocks: seq<Block>, now: int)
    requires IsValidChain(net, blocks, now)
    ensures Positive(ValidateChain(net, blocks, now).value)
    ensures LostInChain(net, blocks, now) == 0 <==> ChainOverwritesNothing(net, blocks, now)
    decreases |blocks|
  {
    hide ValidateBlock, ValidateTxs, GenesisError, LostInBlock, BlockOverwritesNothing, Positive, ApplyCoinbase;
    if |blocks| == 1 {
      NothingIsPositive();
      ApplyingKeepsPositive(net, blocks[0].transactions[0], map[], 0);
    } else {
      var prefix, last := blocks[..|blocks| - 1], blocks[|blocks| - 1];
      ChainLosesNothingExactly(net, prefix, now);
      BlockLosesNothingExactly(net, last, prefix, ValidateChain(net, prefix, now).value, now);
    }
  }

  // Exactly when the coins of a valid chain are worth the coinbase outputs minus the fees.
  lemma ChainBalancesExactly(net: Network, blocks: seq<Block>, now: int)
    requires net.Ideal() && IsValidChain(net, blocks, now)
    ensures Total(ValidateChain(net, blocks, now).value) + FeeSum(net, blocks, now) == CoinbaseSum(blocks) <==>
            ChainOverwritesNothing(net, blocks, now)
  {
    hide ValidateChain, IsValidChain, Network.Ideal, ChainOverwritesNothing, LostInChain;
    ChainConserves(net, blocks, now);
    ChainLosesNothingExactly(net, blocks, now);
  }

  lemma {:induction false} FreshChainLosesNothing(net: Network, blocks: seq<Block>, now: int)
    requires IsValidChain(net, blocks, now) && ChainIsFresh(net, blocks, now)
    ensures LostInChain(net, blocks, now) == 0
    decreases |blocks|
  {
    hide ValidateBlock, ValidateTxs, GenesisError, FreshFrom, LostInBlock;
    if |blocks| > 1 {
      var prefix, last := blocks[..|blocks| - 1], blocks[|blocks| - 1];
      FreshChainLosesNothing(net, prefix, now);
      FreshBlockLosesNothing(net, last, prefix, ValidateChain(net, prefix, now).value, now);
    }
  }

  // On a fresh chain the coins are worth exactly the coinbase outputs minus the fees.
  lemma FreshChainBalances(net: Network, blocks: seq<Block>, now: int)
    requires net.Ideal() && IsValidChain(net, blocks, now) && ChainIsFresh(net, blocks, now)
    ensures Total(ValidateChain(net, blocks, now).value) + FeeSum(net, blocks, now) == CoinbaseSum(blocks)
  {
    hide ValidateChain, IsValidChain, Network.Ideal, ChainIsFresh, LostInChain;
    ChainConserves(net, blocks, now);
    FreshChainLosesNothing(net, blocks, now);
  }

  // And the kept coins, connected coinbase first, are the validated ones.
  lemma {:induction false} FreshChainReplaysValidated(net: Network, blocks: seq<Block>, now: int)
    requires net.Ideal() && net.genesisMessage != "" && IsValidChain(net, blocks, now) && ChainIsFresh(net, blocks, now)
    ensures Replay(net, blocks) == ValidateChain(net, blocks, now).value
    decreases |blocks|
  {
    hide ValidateBlock, GenesisError, Network.Ideal, ConnectBlock;
    if |blocks| == 1 {
      Chainstate.GenesisReplays(net, blocks[0]);
      assert blocks == [blocks[0]];
    } else {
      var prefix, last := blocks[..|blocks| - 1], blocks[|blocks| - 1];
      FreshChainReplaysValidated(net, prefix, now);
      var u := ValidateChain(net, prefix, now).value;
      FreshFromEach(net, last.transactions, u, 0);
      hide FreshFrom;
      FreshCoinbaseIsNotSpent(net, last, prefix, u, now);
      OrdersAgreeExactly(net, last, prefix, u, now);
    }
  }

  // Whatever blocks a valid chain holds, all its coins together are worth at most the
  // genesis allocation plus the scheduled subsidies up to its height.
  lemma {:induction false} ChainMintsAtMostSchedule(net: Network, blocks: seq<Block>, now: int)
    requires net.Ideal() && IsValidChain(net, blocks, now)
    ensures Total(ValidateChain(net, blocks, now).value) + Emission.ScheduledSum(1)
         <= OutputSum(net.allocation) + Emission.ScheduledSum(|blocks|)
    decreases |blocks|
  {
    hide ValidateBlock, NextSubsidy, GenesisError, Emission.ScheduledSubsidy, Network.Ideal;
    if |blocks| == 1 {
      var coinbase := blocks[0].transactions[0];
      Chainstate.GenesisIsSingle(net, blocks[0]);
      TotalCreatedBy(net, coinbase, 0, true);
      assert map[] + CreatedBy(net, coinbase, 0, true) == CreatedBy(net, coinbase, 0, true);
    } else {
      var prefix, last := blocks[..|blocks| - 1], blocks[|blocks| - 1];
      ChainMintsAtMostSchedule(net, prefix, now);
      BlockMintsAtMostSubsidy(net, last, prefix, ValidateChain(net, prefix, now).value, now);
      NextSubsidyIsScheduled(net, prefix);
    }
  }

  lemma NextSubsidyIsScheduled(net: Network, prefix: seq<Block>)
    ensures NextSubsidy(net, prefix) <= Emission.ScheduledSubsidy(|prefix|)
  {
    Emission.SubsidyIsAtMostScheduled(net.draws, |prefix|, Hashes(net, prefix));
  }

  // The supply cap: the coins of every valid chain, as validated and as replayed, are worth
  // at most the allocation plus the advertised cap; from an empty genesis that is within
  // MAX_MONEY.
  lemma SupplyIsCapped(net: Network, blocks: seq<Block>, now: int)
    requires net.Ideal() && net.genesisMessage != "" && IsValidChain(net, blocks, now)
    ensures Total(Replay(net, blocks)) <= Total(ValidateChain(net, blocks, now).value)
         <= OutputSum(net.allocation) + Emission.EMISSION_CAP
    ensures net.allocation == [] ==> Total(Replay(net, blocks)) <= Emission.EMISSION_CAP <= MAX_MONEY
  {
    hide ValidateChain, Replay;
    Chainstate.ReplayIsWithinValidated(net, blocks, now);
    TotalWithin(Replay(net, blocks), ValidateChain(net, blocks, now).value);
    ChainMintsAtMostSchedule(net, blocks, now);
    Emission.ScheduledSumIsWithinCap(|blocks|);
    Emission.CapIsWithinMaxMoney();
  }
}
