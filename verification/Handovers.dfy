// Who can move a name on a valid chain: the registry counts recorded coins (netcoin/chain.py,
// Blockchain._index_block), validation counts real ones with verified signatures.
module Handovers {
  import opened Wrappers
  import opened Ledger
  import opened Validation
  import opened Usernames
  import opened UtxoIndex
  import Chainstate
  import Supply

  // ---- every step of a valid chain was validated ----

  lemma {:induction false} PrefixValidates(net: Network, blocks: seq<Block>, now: int, k: nat)
    requires IsValidChain(net, blocks, now) && 1 <= k < |blocks|
    ensures IsValidChain(net, blocks[..k], now)
    ensures ValidateBlock(net, blocks[k], blocks[..k], ValidateChain(net, blocks[..k], now).value, now).Ok?
    decreases |blocks|
  {
    hide ValidateBlock;
    if k < |blocks| - 1 {
      var prefix := blocks[..|blocks| - 1];
      PrefixValidates(net, prefix, now, k);
      assert prefix[..k] == blocks[..k];
    }
  }

  lemma {:induction false} TxValidates(net: Network, txs: seq<Transaction>, count: nat, i: nat, u: Utxos, height: int,
                                       now: int)
    requires 1 <= i < count <= |txs| && ValidateTxs(net, txs, count, u, height, now).Ok?
    ensures ValidateTxs(net, txs, i, u, height, now).Ok?
    ensures ValidateRegular(net, txs[i], ValidateTxs(net, txs, i, u, height, now).value.utxos, height, now).Ok?
  {
    hide ValidateRegular, ApplyRegular;
    if i < count - 1 {
      TxValidates(net, txs, count - 1, i, u, height, now);
    }
  }

  lemma {:induction false} InputIsVerified(net: Network, tx: Transaction, u: Utxos, height: int, count: nat, j: nat)
    requires j < count <= |tx.inputs| && InputValue(net, tx, u, height, count).Ok?
    ensures tx.inputs[j].prevout in u && net.verifyInput(tx, j, u[tx.inputs[j].prevout])
  {
    if j < count - 1 {
      InputIsVerified(net, tx, u, height, count - 1, j);
    }
  }

  // ---- validated coins are outputs of real transactions ----

  lemma NextKeepsSourced(net: Network, tx: Transaction, u: Utxos, height: int)
    requires AllSourced(net, u)
    ensures AllSourced(net, ApplyRegular(net, tx, u, height)) && AllSourced(net, ApplyCoinbase(net, tx, u, height))
  {
    CreatedAreSourced(net, tx, height, false);
    CreatedAreSourced(net, tx, height, true);
    hide CreatedBy, Sourced, SpentBy;
  }

  lemma {:induction false} ValidatedTxsAreSourced(net: Network, txs: seq<Transaction>, count: nat, u: Utxos,
                                                  height: int, now: int)
    requires 1 <= count <= |txs| && AllSourced(net, u) && ValidateTxs(net, txs, count, u, height, now).Ok?
    ensures AllSourced(net, ValidateTxs(net, txs, count, u, height, now).value.utxos)
  {
    hide ValidateRegular, ApplyRegular, AllSourced;
    if count > 1 {
      ValidatedTxsAreSourced(net, txs, count - 1, u, height, now);
      NextKeepsSourced(net, txs[count - 1], ValidateTxs(net, txs, count - 1, u, height, now).value.utxos, height);
    }
  }

  lemma ValidatedBlockIsSourced(net: Network, b: Block, prefix: seq<Block>, u: Utxos, now: int)
    requires prefix != [] && ValidateBlock(net, b, prefix, u, now).Ok? && AllSourced(net, u)
    ensures AllSourced(net, ValidateBlock(net, b, prefix, u, now).value)
  {
    hide HeaderError, NextSubsidy, ValidateTxs, AllSourced, ApplyCoinbase;
    var txs, height := b.transactions, b.header.height;
    ValidatedTxsAreSourced(net, txs, |txs|, u, height, now);
    NextKeepsSourced(net, txs[0], ValidateTxs(net, txs, |txs|, u, height, now).value.utxos, height);
  }

  lemma {:induction false} ValidatedCoinsAreSourced(net: Network, blocks: seq<Block>, now: int)
    requires IsValidChain(net, blocks, now)
    ensures AllSourced(net, ValidateChain(net, blocks, now).value)
    decreases |blocks|
  {
    hide ValidateBlock, GenesisError, ApplyCoinbase, AllSourced;
    if |blocks| == 1 {
      NoneAreUnsourced(net);
      NextKeepsSourced(net, blocks[0].transactions[0], map[], 0);
    } else {
      var prefix := blocks[..|blocks| - 1];
      ValidatedCoinsAreSourced(net, prefix, now);
      ValidatedBlockIsSourced(net, blocks[|blocks| - 1], prefix, ValidateChain(net, prefix, now).value, now);
    }
  }

  lemma NoneAreUnsourced(net: Network)
    ensures AllSourced(net, map[])
  {
  }

  // ---- recorded owners are those of real outputs ----

  ghost predicate OwnerSourced(net: Network, op: Outpoint, a: Address) {
    exists tx :: net.txid(tx) == op.txid && 0 <= op.vout < |tx.outputs| && tx.outputs[op.vout].address == a
  }

  ghost predicate OwnersSourced(net: Network, owners: map<Outpoint, Address>) {
    forall op :: op in owners ==> OwnerSourced(net, op, owners[op])
  }

  lemma PaidAreSourced(net: Network, tx: Transaction)
    ensures OwnersSourced(net, Paid(net, tx))
  {
  }

  lemma IndexTxKeepsSourced(net: Network, r: Registry, tx: Transaction, b: Block)
    requires OwnersSourced(net, r.owners)
    ensures OwnersSourced(net, IndexTx(net, r, tx, b).owners)
  {
    PaidAreSourced(net, tx);
    hide Paid, OwnerSourced, SpentBy, AfterClaim, AfterTransfer;
  }

  lemma {:induction false} IndexTxsKeepSourced(net: Network, r: Registry, b: Block, count: nat)
    requires count <= |b.transactions| && OwnersSourced(net, r.owners)
    ensures OwnersSourced(net, IndexTxs(net, r, b, count).owners)
  {
    hide IndexTx, OwnersSourced;
    if count > 0 {
      IndexTxsKeepSourced(net, r, b, count - 1);
      IndexTxKeepsSourced(net, IndexTxs(net, r, b, count - 1), b.transactions[count - 1], b);
    }
  }

  lemma {:induction false} ReplayedOwnersAreSourced(net: Network, blocks: seq<Block>)
    ensures OwnersSourced(net, ReplayNames(net, blocks).owners)
  {
    hide IndexTxs, OwnerSourced;
    if blocks != [] {
      var last := blocks[|blocks| - 1];
      ReplayedOwnersAreSourced(net, blocks[..|blocks| - 1]);
      IndexTxsKeepSourced(net, ReplayNames(net, blocks[..|blocks| - 1]), last, |last.transactions|);
    }
  }

  lemma RecordedOwnerIsPayee(net: Network, op: Outpoint, coin: Spendable, a: Address)
    requires net.Ideal() && Sourced(net, op, coin) && OwnerSourced(net, op, a)
    ensures coin.output.address == a
  {
    var s :| net.txid(s) == op.txid && 0 <= op.vout < |s.outputs| && s.outputs[op.vout] == coin.output;
    var t :| net.txid(t) == op.txid && 0 <= op.vout < |t.outputs| && t.outputs[op.vout].address == a;
    assert s.Stripped() == t.Stripped();
    assert s.outputs == t.outputs;
  }

  // ---- handing a name over takes the owner's signature ----

  // The owner of a name when transaction i of block k arrives.
  function OwnerBefore(net: Network, blocks: seq<Block>, k: nat, i: nat, name: string): Option<Address>
    requires k < |blocks| && i <= |blocks[k].transactions|
  {
    var claims := IndexTxs(net, ReplayNames(net, blocks[..k]), blocks[k], i).claims;
    if name in claims then Some(claims[name].address) else None
  }

  // Transaction i of block k spends a coin that is unspent when it arrives, pays to the owner
  // of the name, and whose spend the owner's script accepts.
  ghost predicate SpentByOwner(net: Network, blocks: seq<Block>, k: nat, i: nat, name: string, now: int) {
    && 1 <= k < |blocks| && 1 <= i < |blocks[k].transactions|
    && IsValidChain(net, blocks[..k], now)
    && var txs, u := blocks[k].transactions, ValidateChain(net, blocks[..k], now).value;
       && ValidateTxs(net, txs, i, u, blocks[k].header.height, now).Ok?
       && SpendsCoinOf(net, txs[i], ValidateTxs(net, txs, i, u, blocks[k].header.height, now).value.utxos,
                       OwnerBefore(net, blocks, k, i, name))
  }

  ghost predicate SpendsCoinOf(net: Network, tx: Transaction, u: Utxos, owner: Option<Address>) {
    exists j :: 0 <= j < |tx.inputs| && tx.inputs[j].prevout in u && SpendsFrom(net, tx, u, j, owner)
  }

  ghost predicate SpendsFrom(net: Network, tx: Transaction, u: Utxos, j: nat, owner: Option<Address>)
    requires j < |tx.inputs| && tx.inputs[j].prevout in u
  {
    var coin := u[tx.inputs[j].prevout];
    Some(coin.output.address) == owner && net.verifyInput(tx, j, coin)
  }

  lemma HandingOverSpends(net: Network, r: Registry, tx: Transaction, u: Utxos, height: int, now: int, name: string)
    requires net.Ideal() && HandsOver(net, r, tx, name)
    requires OwnersSourced(net, r.owners) && AllSourced(net, u) && ValidateRegular(net, tx, u, height, now).Ok?
    ensures SpendsCoinOf(net, tx, u, Some(r.claims[name].address))
  {
    hide Network.Ideal, Sourced, OwnerSourced;
    var j :| 0 <= j < |tx.inputs| && tx.inputs[j].prevout in r.owners
             && r.owners[tx.inputs[j].prevout] == r.claims[name].address;
    InputIsVerified(net, tx, u, height, |tx.inputs|, j);
    RecordedOwnerIsPayee(net, tx.inputs[j].prevout, u[tx.inputs[j].prevout], r.claims[name].address);
    assert SpendsFrom(net, tx, u, j, Some(r.claims[name].address));
  }

  // The genesis block cannot hand over: its one transaction is a coinbase.
  lemma HandoverIsLater(net: Network, blocks: seq<Block>, k: nat, i: int, name: string, now: int)
    requires net.Ideal() && net.genesisMessage != "" && IsValidChain(net, blocks, now)
    requires HandedOverAt(net, blocks, k, i, name)
    ensures 1 <= k && 1 <= i
  {
    hide ReplayNames, IndexTxs, IsValidChain, Network.Ideal;
    BlocksOpenWithCoinbase(net, blocks, now, k);
  }

  lemma BlocksOpenWithCoinbase(net: Network, blocks: seq<Block>, now: int, k: nat)
    requires net.Ideal() && net.genesisMessage != "" && IsValidChain(net, blocks, now) && k < |blocks|
    ensures blocks[k].transactions[0].IsCoinbase()
    ensures k == 0 ==> |blocks[0].transactions| == 1
  {
    if k == 0 {
      ChainStartsAtGenesis(net, blocks, now);
      hide IsValidChain, Network.Ideal, GenesisError;
      Chainstate.GenesisIsSingle(net, blocks[0]);
    } else {
      PrefixValidates(net, blocks, now, k);
      hide IsValidChain, Network.Ideal, ValidateTxs;
    }
  }

  lemma {:induction false} ChainStartsAtGenesis(net: Network, blocks: seq<Block>, now: int)
    requires IsValidChain(net, blocks, now)
    ensures blocks != [] && GenesisError(net, blocks[0]).None?
    decreases |blocks|
  {
    hide GenesisError, ValidateBlock;
    if |blocks| > 1 {
      ChainStartsAtGenesis(net, blocks[..|blocks| - 1], now);
    }
  }

  // On a valid chain every handover spends a real coin of the owner.
  lemma HandoverSpendsOwnersCoin(net: Network, blocks: seq<Block>, k: nat, i: int, name: string, now: int)
    requires net.Ideal() && net.genesisMessage != "" && IsValidChain(net, blocks, now)
    requires HandedOverAt(net, blocks, k, i, name)
    ensures i >= 0 && SpentByOwner(net, blocks, k, i, name, now)
  {
    HandoverIsLater(net, blocks, k, i, name, now);
    PrefixValidates(net, blocks, now, k);
    hide Network.Ideal, HandsOver, IsValidChain, ReplayNames, IndexTxs;
    var b, before := blocks[k], blocks[..k];
    var txs, height, u := b.transactions, b.header.height, ValidateChain(net, before, now).value;
    Supply.ValidBlockHasValidTxs(net, b, before, u, now);
    hide ValidateBlock, ValidateRegular;
    TxValidates(net, txs, |txs|, i, u, height, now);
    ValidatedCoinsAreSourced(net, before, now);
    ValidatedTxsAreSourced(net, txs, i, u, height, now);
    ReplayedOwnersAreSourced(net, before);
    IndexTxsKeepSourced(net, ReplayNames(net, before), b, i);
    hide OwnersSourced, AllSourced, ValidateTxs, SpendsCoinOf;
    HandingOverSpends(net, IndexTxs(net, ReplayNames(net, before), b, i), txs[i],
                      ValidateTxs(net, txs, i, u, height, now).value.utxos, height, now, name);
    HandsOverNames(net, IndexTxs(net, ReplayNames(net, before), b, i), txs[i], name);
  }

  lemma HandsOverNames(net: Network, r: Registry, tx: Transaction, name: string)
    requires HandsOver(net, r, tx, name)
    ensures name in r.claims
  {
  }

  // Along any extension of a valid chain, a name's record changes only where a transaction of
  // the extension carries the transfer tag for it and spends a coin of the name's owner.
  lemma NamesMoveOnlyByOwners(net: Network, blocks: seq<Block>, from: nat, name: string, now: int)
    requires net.Ideal() && net.genesisMessage != "" && IsValidChain(net, blocks, now)
    requires from <= |blocks| && name in ReplayNames(net, blocks[..from]).claims
    ensures name in ReplayNames(net, blocks).claims
    ensures ReplayNames(net, blocks).claims[name] != ReplayNames(net, blocks[..from]).claims[name] ==>
              exists k, i :: from <= k < |blocks| && HandedOverAt(net, blocks, k, i, name) &&
                     SpentByOwner(net, blocks, k, i, name, now)
  {
    hide Network.Ideal, IsValidChain, ReplayNames, HandedOverAt, SpentByOwner;
    ClaimStandsAlongChain(net, blocks, from, name);
    if HandedOver(net, blocks, from, name) {
      var k, i :| from <= k < |blocks| && HandedOverAt(net, blocks, k, i, name);
      HandoverSpendsOwnersCoin(net, blocks, k, i, name, now);
    }
  }
}
