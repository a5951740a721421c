// The explorer's address events (netcoin/indexer.py, ChainIndexer.rebuild): what each block
// adds, and why the events of an address sum to its coins.
module AddressEvents {
  import opened Wrappers
  import opened Params
  import opened Ledger
  import opened Validation
  import opened Supply
  import opened UtxoIndex
  import opened Sorting
  import Chainstate
  import Connect

  datatype Direction = Send | Receive

  datatype EventRow = EventRow(address: Address, txid: Hash, blockHash: Hash, height: int, vout: int,
    direction: Direction, amount: int, timestamp: int, coinbase: bool, spentOutpoint: Option<Outpoint>)

  // ---- what is recorded ----

  function SendEvent(net: Network, b: Block, tx: Transaction, op: Outpoint, coin: Spendable): EventRow {
    EventRow(coin.output.address, net.txid(tx), net.BlockHash(b), b.header.height, op.vout,
      Send, 0 - coin.output.amount, b.header.timestamp, coin.coinbase, Some(op))
  }

  // The events of the first `count` inputs: each known coin with an address leaves it.
  function Sends(net: Network, b: Block, tx: Transaction, u: Utxos, count: nat): seq<EventRow>
    requires count <= |tx.inputs|
  {
    if count == 0 then []
    else
      var op := tx.inputs[count - 1].prevout;
      Sends(net, b, tx, u, count - 1) +
        if op in u && u[op].output.address != "" then [SendEvent(net, b, tx, op, u[op])] else []
  }

  function ReceiveEvent(net: Network, b: Block, tx: Transaction, vout: nat): EventRow
    requires vout < |tx.outputs|
  {
    EventRow(tx.outputs[vout].address, net.txid(tx), net.BlockHash(b), b.header.height, vout,
      Receive, tx.outputs[vout].amount, b.header.timestamp, tx.IsCoinbase(), None)
  }

  // The events of the first `count` outputs: each positive one with an address arrives at it.
  function Receives(net: Network, b: Block, tx: Transaction, count: nat): seq<EventRow>
    requires count <= |tx.outputs|
  {
    if count == 0 then []
    else
      var out := tx.outputs[count - 1];
      Receives(net, b, tx, count - 1) +
        if out.amount > 0 && out.address != "" then [ReceiveEvent(net, b, tx, count - 1)] else []
  }

  function TxEvents(net: Network, b: Block, tx: Transaction, u: Utxos): seq<EventRow> {
    (if tx.IsCoinbase() then [] else Sends(net, b, tx, u, |tx.inputs|)) + Receives(net, b, tx, |tx.outputs|)
  }

  // The coins before transaction `i` of a block.
  function Before(net: Network, b: Block, i: nat, u: Utxos): Utxos
    requires i <= |b.transactions|
  {
    ConnectTxs(net, b.transactions, i, u, b.header.height)
  }

  function BlockEvents(net: Network, b: Block, count: nat, u: Utxos): seq<EventRow>
    requires count <= |b.transactions|
  {
    if count == 0 then []
    else BlockEvents(net, b, count - 1, u) + TxEvents(net, b, b.transactions[count - 1], Before(net, b, count - 1, u))
  }

  function EventsOf(net: Network, blocks: seq<Block>): seq<EventRow> {
    if blocks == [] then []
    else
      var prefix, last := blocks[..|blocks| - 1], blocks[|blocks| - 1];
      EventsOf(net, prefix) + BlockEvents(net, last, |last.transactions|, Replay(net, prefix))
  }

  // ---- sums ----

  // What the events of an address add up to.
  function AmountSum(events: seq<EventRow>, a: Address): int {
    if events == [] then 0
    else
      var last := events[|events| - 1];
      AmountSum(events[..|events| - 1], a) + if last.address == a then last.amount else 0
  }

  lemma {:induction false} AmountSumAppend(s: seq<EventRow>, t: seq<EventRow>, a: Address)
    ensures AmountSum(s + t, a) == AmountSum(s, a) + AmountSum(t, a)
  {
    if t == [] {
      assert s + t == s;
    } else {
      AmountSumAppend(s, t[..|t| - 1], a);
      assert (s + t)[..|s + t| - 1] == s + t[..|t| - 1];
    }
  }

  lemma AmountSumOne(e: EventRow, a: Address)
    ensures AmountSum([e], a) == if e.address == a then e.amount else 0
  {
    assert [e][..0] == [];
  }

  lemma AmountSumNone(a: Address)
    ensures AmountSum([], a) == 0
  {
  }

  // The value of the coins at an address.
  ghost function Worth(u: Utxos, a: Address): nat {
    Total(CoinsOf(u, a))
  }

  // ---- what leaves ----

  lemma TakeFromAddress(u: Utxos, op: Outpoint, a: Address)
    requires op in u
    ensures Worth(u, a) == Worth(u - {op}, a) + if u[op].output.address == a then u[op].output.amount else 0
  {
    if u[op].output.address == a {
      TotalTake(CoinsOf(u, a), op);
      assert CoinsOf(u, a) - {op} == CoinsOf(u - {op}, a);
    } else {
      assert CoinsOf(u, a) == CoinsOf(u - {op}, a);
    }
  }

  lemma SpendNext(tx: Transaction, u: Utxos, count: nat)
    requires count < |tx.inputs| && UniqueInputs(tx.inputs)
    ensures var op := tx.inputs[count].prevout;
            && (op in u - Spent(tx, count) <==> op in u)
            && u - Spent(tx, count + 1) == u - Spent(tx, count) - {op}
  {
  }

  lemma {:induction false} SendsSumToSpent(net: Network, b: Block, tx: Transaction, u: Utxos, count: nat, a: Address)
    requires count <= |tx.inputs| && UniqueInputs(tx.inputs) && a != ""
    ensures Worth(u - Spent(tx, count), a) == Worth(u, a) + AmountSum(Sends(net, b, tx, u, count), a)
  {
    hide Worth, AmountSum;
    if count == 0 {
      assert u - Spent(tx, 0) == u;
      AmountSumNone(a);
    } else {
      SendsSumToSpent(net, b, tx, u, count - 1, a);
      SpendNext(tx, u, count - 1);
      var op, rest := tx.inputs[count - 1].prevout, u - Spent(tx, count - 1);
      var last := if op in u && u[op].output.address != "" then [SendEvent(net, b, tx, op, u[op])] else [];
      AmountSumAppend(Sends(net, b, tx, u, count - 1), last, a);
      AmountSumNone(a);
      if op in u {
        TakeFromAddress(rest, op, a);
        AmountSumOne(SendEvent(net, b, tx, op, u[op]), a);
      } else {
        assert rest - {op} == rest;
      }
    }
  }

  // ---- what arrives ----

  // The coins that one more output creates.
  lemma ArrivalsStep(net: Network, tx: Transaction, count: nat, height: int, coinbase: bool)
    requires count < |tx.outputs|
    ensures var earlier := Arrivals(net, tx, count, height, coinbase);
            var now := Arrivals(net, tx, count + 1, height, coinbase);
            var op := Outpoint(net.txid(tx), count);
            if tx.outputs[count].amount > 0 then op in now && now[op].output == tx.outputs[count] &&
               now - {op} == earlier
            else now == earlier
  {
    var earlier, now := Arrivals(net, tx, count, height, coinbase), Arrivals(net, tx, count + 1, height, coinbase);
    CreatedShape(net.txid(tx), tx.outputs, count, height, coinbase);
    if tx.outputs[count].amount > 0 {
      assert now - {Outpoint(net.txid(tx), count)} == earlier;
    }
  }

  lemma NothingArrives(net: Network, b: Block, tx: Transaction, height: int, coinbase: bool, a: Address)
    ensures Worth(Arrivals(net, tx, 0, height, coinbase), a) == 0 == AmountSum(Receives(net, b, tx, 0), a)
  {
    assert CoinsOf(map[], a) == map[];
  }

  lemma ReceivesStep(net: Network, b: Block, tx: Transaction, count: nat, a: Address)
    requires count < |tx.outputs| && a != ""
    ensures var out := tx.outputs[count];
            AmountSum(Receives(net, b, tx, count + 1), a)
              == AmountSum(Receives(net, b, tx, count), a) + if out.address == a then out.amount else 0
  {
    var out := tx.outputs[count];
    var last := if out.amount > 0 && out.address != "" then [ReceiveEvent(net, b, tx, count)] else [];
    AmountSumAppend(Receives(net, b, tx, count), last, a);
    AmountSumNone(a);
    AmountSumOne(ReceiveEvent(net, b, tx, count), a);
    hide AmountSum;
  }

  lemma {:induction false} ReceivesSumToArrivals(net: Network, b: Block, tx: Transaction, count: nat, height: int,
                                                 coinbase: bool, a: Address)
    requires count <= |tx.outputs| && a != ""
    ensures Worth(Arrivals(net, tx, count, height, coinbase), a) == AmountSum(Receives(net, b, tx, count), a)
  {
    hide *;
    if count == 0 {
      NothingArrives(net, b, tx, height, coinbase, a);
    } else {
      ReceivesSumToArrivals(net, b, tx, count - 1, height, coinbase, a);
      ArrivalsStep(net, tx, count - 1, height, coinbase);
      ReceivesStep(net, b, tx, count - 1, a);
      if tx.outputs[count - 1].amount > 0 {
        TakeFromAddress(Arrivals(net, tx, count, height, coinbase), Outpoint(net.txid(tx), count - 1), a);
      }
    }
  }

  // Merging coins in: an address gains what arrives and loses what is overwritten.
  lemma MergeAtAddress(u: Utxos, c: Utxos, a: Address)
    ensures Worth(u + c, a) + Worth(At(u, c.Keys), a) == Worth(u, a) + Worth(c, a)
  {
    var rest := CoinsOf(u - c.Keys, a);
    TotalSplit(CoinsOf(u, a), c.Keys);
    assert CoinsOf(u, a) - c.Keys == rest;
    assert At(CoinsOf(u, a), c.Keys) == CoinsOf(At(u, c.Keys), a);
    TotalSplit(CoinsOf(u + c, a), c.Keys);
    assert CoinsOf(u + c, a) - c.Keys == rest;
    assert At(CoinsOf(u + c, a), c.Keys) == CoinsOf(c, a);
  }

  // ---- one transaction ----

  // The unspent coins whose outpoints a transaction creates again.
  function Overwritten(net: Network, tx: Transaction, u: Utxos, height: int): Utxos {
    var kept := if tx.IsCoinbase() then u else u - SpentBy(tx);
    At(kept, CreatedBy(net, tx, height, tx.IsCoinbase()).Keys)
  }

  ghost predicate SpendsOnce(tx: Transaction) {
    tx.IsCoinbase() || UniqueInputs(tx.inputs)
  }

  // The events of a transaction account for every change of an address, except for coins it
  // overwrites.
  lemma TxBalances(net: Network, b: Block, tx: Transaction, u: Utxos, a: Address)
    requires SpendsOnce(tx) && a != ""
    ensures Worth(ApplyTx(net, tx, u, b.header.height), a) + Worth(Overwritten(net, tx, u, b.header.height), a)
         == Worth(u, a) + AmountSum(TxEvents(net, b, tx, u), a)
  {
    var height, coinbase := b.header.height, tx.IsCoinbase();
    var kept := if coinbase then u else u - SpentBy(tx);
    var sends := if coinbase then [] else Sends(net, b, tx, u, |tx.inputs|);
    ReceivesSumToArrivals(net, b, tx, |tx.outputs|, height, coinbase, a);
    MergeAtAddress(kept, CreatedBy(net, tx, height, coinbase), a);
    AmountSumAppend(sends, Receives(net, b, tx, |tx.outputs|), a);
    if !coinbase {
      SendsSumToSpent(net, b, tx, u, |tx.inputs|, a);
    }
    hide Worth, AmountSum, Sends, Receives, Transaction.IsCoinbase;
    assert coinbase ==> AmountSum(sends, a) == 0 by {
      AmountSumNone(a);
    }
  }

  // ---- blocks and chains ----

  // What transactions overwrite at an address, over the first `count` of a block.
  ghost function LostIn(net: Network, b: Block, count: nat, u: Utxos, a: Address): nat
    requires count <= |b.transactions|
  {
    if count == 0 then 0
    else
      LostIn(net, b, count - 1, u, a) +
      Worth(Overwritten(net, b.transactions[count - 1], Before(net, b, count - 1, u), b.header.height), a)
  }

  ghost function Lost(net: Network, blocks: seq<Block>, a: Address): nat {
    if blocks == [] then 0
    else
      var prefix, last := blocks[..|blocks| - 1], blocks[|blocks| - 1];
      Lost(net, prefix, a) + LostIn(net, last, |last.transactions|, Replay(net, prefix), a)
  }

  ghost predicate BlockSpendsOnce(b: Block) {
    forall tx <- b.transactions :: SpendsOnce(tx)
  }

  lemma {:induction false} BlockBalances(net: Network, b: Block, count: nat, u: Utxos, a: Address)
    requires count <= |b.transactions| && BlockSpendsOnce(b) && a != ""
    ensures Worth(Before(net, b, count, u), a) + LostIn(net, b, count, u, a)
         == Worth(u, a) + AmountSum(BlockEvents(net, b, count, u), a)
  {
    hide Worth, AmountSum, ApplyTx, TxEvents, Overwritten, SpendsOnce;
    if count == 0 {
      AmountSumNone(a);
    } else {
      BlockBalances(net, b, count - 1, u, a);
      var tx, v := b.transactions[count - 1], Before(net, b, count - 1, u);
      TxBalances(net, b, tx, v, a);
      AmountSumAppend(BlockEvents(net, b, count - 1, u), TxEvents(net, b, tx, v), a);
    }
  }

  // The events of an address sum to its unspent coins plus every coin of it that a repeated
  // txid overwrote, on any list of blocks whose transactions spend no outpoint twice.
  lemma {:induction false} EventsSumToCoins(net: Network, blocks: seq<Block>, a: Address)
    requires a != "" && forall b <- blocks :: BlockSpendsOnce(b)
    ensures AmountSum(EventsOf(net, blocks), a) == Worth(Replay(net, blocks), a) + Lost(net, blocks, a)
  {
    hide AmountSum, ConnectTxs, LostIn, BlockEvents, BlockSpendsOnce;
    if blocks == [] {
      assert CoinsOf(map[], a) == map[];
      AmountSumNone(a);
    } else {
      var prefix, last := blocks[..|blocks| - 1], blocks[|blocks| - 1];
      assert forall b <- prefix :: b in blocks;
      EventsSumToCoins(net, prefix, a);
      hide Worth;
      BlockBalances(net, last, |last.transactions|, Replay(net, prefix), a);
      AmountSumAppend(EventsOf(net, prefix), BlockEvents(net, last, |last.transactions|, Replay(net, prefix)), a);
    }
  }

  // ---- valid chains ----

  lemma {:induction false} ValidTxsSpendOnce(net: Network, txs: seq<Transaction>, count: nat, u: Utxos, height: int,
                                             now: int, i: nat)
    requires 1 <= i < count <= |txs| && ValidateTxs(net, txs, count, u, height, now).Ok?
    ensures UniqueInputs(txs[i].inputs)
  {
    hide InputValue, ApplyRegular, UniqueInputs, LocktimeError;
    if i < count - 1 {
      ValidTxsSpendOnce(net, txs, count - 1, u, height, now, i);
    }
  }

  lemma ValidBlockSpendsOnce(net: Network, b: Block, prefix: seq<Block>, u: Utxos, now: int)
    requires prefix != [] && ValidateBlock(net, b, prefix, u, now).Ok?
    ensures BlockSpendsOnce(b)
  {
    var txs := b.transactions;
    hide ValidateTxs, NextSubsidy, ApplyCoinbase, HeaderError, UniqueInputs;
    assert txs[0].IsCoinbase();
    forall tx | tx in txs ensures SpendsOnce(tx) {
      var i :| 0 <= i < |txs| && txs[i] == tx;
      if i > 0 {
        ValidTxsSpendOnce(net, txs, |txs|, u, b.header.height, now, i);
      }
    }
  }

  lemma {:induction false} ValidChainSpendsOnce(net: Network, blocks: seq<Block>, now: int)
    requires net.Ideal() && net.genesisMessage != "" && IsValidChain(net, blocks, now)
    ensures forall b <- blocks :: BlockSpendsOnce(b)
    decreases |blocks|
  {
    hide ValidateBlock, BlockSpendsOnce, GenesisError, Network.Ideal;
    if |blocks| == 1 {
      GenesisSpendsOnce(net, blocks[0]);
      assert blocks == [blocks[0]];
    } else {
      var prefix, last := blocks[..|blocks| - 1], blocks[|blocks| - 1];
      ValidChainSpendsOnce(net, prefix, now);
      ValidBlockSpendsOnce(net, last, prefix, ValidateChain(net, prefix, now).value, now);
      assert blocks == prefix + [last];
    }
  }

  lemma GenesisSpendsOnce(net: Network, b: Block)
    requires net.Ideal() && net.genesisMessage != "" && GenesisError(net, b).None?
    ensures BlockSpendsOnce(b)
  {
    Chainstate.GenesisIsSingle(net, b);
    hide Network.Ideal, GenesisError;
  }

  // No transaction creates an outpoint that is, when it arrives, an unspent coin of the address.
  ghost predicate NoneOverwritten(net: Network, b: Block, count: nat, u: Utxos, a: Address)
    requires count <= |b.transactions|
  {
    forall i :: 0 <= i < count ==>
      CoinsOf(Overwritten(net, b.transactions[i], Before(net, b, i, u), b.header.height), a) == map[]
  }

  ghost predicate ChainOverwritesNone(net: Network, blocks: seq<Block>, a: Address) {
    blocks != [] ==>
      var prefix, last := blocks[..|blocks| - 1], blocks[|blocks| - 1];
      ChainOverwritesNone(net, prefix, a) && NoneOverwritten(net, last, |last.transactions|, Replay(net, prefix), a)
  }

  lemma WorthNothing(u: Utxos, a: Address)
    requires Positive(u)
    ensures Worth(u, a) == 0 <==> CoinsOf(u, a) == map[]
  {
    if op :| op in CoinsOf(u, a) {
      TotalTake(CoinsOf(u, a), op);
    }
  }

  lemma ApplyKeepsPositive(net: Network, tx: Transaction, u: Utxos, height: int)
    requires Positive(u)
    ensures Positive(ApplyTx(net, tx, u, height))
  {
    ApplyingKeepsPositive(net, tx, u, height);
  }

  lemma {:induction false} ConnectKeepsPositive(net: Network, txs: seq<Transaction>, count: nat, u: Utxos, height: int)
    requires count <= |txs| && Positive(u)
    ensures Positive(ConnectTxs(net, txs, count, u, height))
  {
    hide ApplyTx, Positive;
    if count > 0 {
      ConnectKeepsPositive(net, txs, count - 1, u, height);
      ApplyKeepsPositive(net, txs[count - 1], ConnectTxs(net, txs, count - 1, u, height), height);
    }
  }

  lemma OverwrittenIsPositive(net: Network, tx: Transaction, u: Utxos, height: int)
    requires Positive(u)
    ensures Positive(Overwritten(net, tx, u, height))
  {
    hide CreatedBy, SpentBy;
  }

  lemma {:induction false} ReplayIsPositive(net: Network, blocks: seq<Block>)
    ensures Positive(Replay(net, blocks))
  {
    hide ConnectTxs, Positive;
    if blocks == [] {
      assert Positive(map[]) by { NothingIsPositive(); }
    } else {
      var last := blocks[|blocks| - 1];
      ReplayIsPositive(net, blocks[..|blocks| - 1]);
      ConnectKeepsPositive(net, last.transactions, |last.transactions|, Replay(net, blocks[..|blocks| - 1]),
                           last.header.height);
    }
  }

  lemma {:induction false} LostInNothing(net: Network, b: Block, count: nat, u: Utxos, a: Address)
    requires count <= |b.transactions| && Positive(u)
    ensures LostIn(net, b, count, u, a) == 0 <==> NoneOverwritten(net, b, count, u, a)
  {
    hide Worth, Overwritten, ConnectTxs, Positive, CoinsOf;
    if count > 0 {
      LostInNothing(net, b, count - 1, u, a);
      var before := Before(net, b, count - 1, u);
      ConnectKeepsPositive(net, b.transactions, count - 1, u, b.header.height);
      OverwrittenIsPositive(net, b.transactions[count - 1], before, b.header.height);
      WorthNothing(Overwritten(net, b.transactions[count - 1], before, b.header.height), a);
    }
  }

  lemma {:induction false} LostNothing(net: Network, blocks: seq<Block>, a: Address)
    ensures Lost(net, blocks, a) == 0 <==> ChainOverwritesNone(net, blocks, a)
  {
    hide LostIn, NoneOverwritten;
    if blocks != [] {
      var prefix, last := blocks[..|blocks| - 1], blocks[|blocks| - 1];
      LostNothing(net, prefix, a);
      ReplayIsPositive(net, prefix);
      LostInNothing(net, last, |last.transactions|, Replay(net, prefix), a);
    }
  }

  // On a valid chain the explorer's balance is the node's exactly when no unspent coin of the
  // address was created over again; it is never less.
  lemma ExplorerAgreesExactly(net: Network, blocks: seq<Block>, now: int, a: Address)
    requires net.Ideal() && net.genesisMessage != "" && IsValidChain(net, blocks, now) && a != ""
    ensures AmountSum(EventsOf(net, blocks), a) >= Total(CoinsOf(Replay(net, blocks), a))
    ensures AmountSum(EventsOf(net, blocks), a) == Total(CoinsOf(Replay(net, blocks), a)) <==>
              ChainOverwritesNone(net, blocks, a)
  {
    ValidChainSpendsOnce(net, blocks, now);
    EventsSumToCoins(net, blocks, a);
    LostNothing(net, blocks, a);
    hide Network.Ideal, IsValidChain, Lost, EventsOf, Replay, AmountSum, CoinsOf, Total;
  }

  // It does fail: a block of one coinbase that repeats the txid of an unspent coin is valid,
  // and from then on the explorer's balance of the coin's address exceeds the node's.
  lemma RepeatedCoinbaseBreaksBalance(net: Network, blocks: seq<Block>, b: Block, now: int, op: Outpoint)
    requires net.Ideal() && net.genesisMessage != "" && IsValidChain(net, blocks, now)
    requires HeaderError(net, b, blocks, now).None? && |b.transactions| == 1
    requires 0 < OutputSum(b.transactions[0].outputs) <= NextSubsidy(net, blocks)
    requires OutputSum(b.transactions[0].outputs) <= MAX_MONEY
    requires op in Replay(net, blocks) && op in CreatedBy(net, b.transactions[0], b.header.height, true)
    requires Replay(net, blocks)[op].output.address != ""
    ensures IsValidChain(net, blocks + [b], now)
    ensures var a := Replay(net, blocks)[op].output.address;
            AmountSum(EventsOf(net, blocks + [b]), a) > Total(CoinsOf(Replay(net, blocks + [b]), a))
  {
    var u := Replay(net, blocks);
    var a := u[op].output.address;
    Connect.CoinbaseLeads(net, b, blocks, now);
    Connect.SingleCoinbaseValidates(net, b, blocks, u, now);
    Chainstate.AppendKeepsValid(net, blocks, b, now);
    hide HeaderError, NextSubsidy, IsValidChain, OutputSum, EventsOf, Network.Ideal, CreatedBy;
    assert Before(net, b, 0, u) == u;
    assert op in CoinsOf(Overwritten(net, b.transactions[0], u, b.header.height), a);
    assert !NoneOverwritten(net, b, 1, u, a);
    assert (blocks + [b])[..|blocks|] == blocks;
    assert !ChainOverwritesNone(net, blocks + [b], a);
    hide ChainOverwritesNone;
    ExplorerAgreesExactly(net, blocks + [b], now, a);
  }

  // ---- fresh chains ----

  // Every coin along a block is an earlier one or carries the txid of an earlier transaction.
  lemma {:induction false} CoinsAlongBlock(net: Network, b: Block, count: nat, u: Utxos, op: Outpoint)
    requires count <= |b.transactions| && op in Before(net, b, count, u)
    ensures op in u || exists j :: 0 <= j < count && op.txid == net.txid(b.transactions[j])
  {
    if count > 0 && op.txid != net.txid(b.transactions[count - 1]) {
      CreatedByShape(net, b.transactions[count - 1], b.header.height, b.transactions[count - 1].IsCoinbase());
      hide CreatedBy;
      CoinsAlongBlock(net, b, count - 1, u, op);
    }
  }

  lemma EarlierTxidDiffers(net: Network, b: Block, j: nat, i: nat)
    requires j < i < |b.transactions| && Distinct(net.Txids(b.transactions))
    ensures net.txid(b.transactions[j]) != net.txid(b.transactions[i])
  {
    assert net.Txids(b.transactions)[j] != net.Txids(b.transactions)[i];
  }

  lemma FreshBlockOverwritesNone(net: Network, b: Block, prefix: seq<Block>, u: Utxos, v: Utxos, now: int, a: Address)
    requires prefix != [] && ValidateBlock(net, b, prefix, v, now).Ok? && Within(u, v) &&
             FreshFrom(net, b.transactions, 0, v)
    ensures NoneOverwritten(net, b, |b.transactions|, u, a)
  {
    Chainstate.ValidBlockIsCommitted(net, b, prefix, v, now);
    hide ValidateBlock, ConnectTxs;
    forall i | 0 <= i < |b.transactions|
      ensures CoinsOf(Overwritten(net, b.transactions[i], Before(net, b, i, u), b.header.height), a) == map[]
    {
      var over := Overwritten(net, b.transactions[i], Before(net, b, i, u), b.header.height);
      if op :| op in over {
        CreatedByShape(net, b.transactions[i], b.header.height, b.transactions[i].IsCoinbase());
        CoinsAlongBlock(net, b, i, u, op);
        if op !in u {
          var j :| 0 <= j < i && op.txid == net.txid(b.transactions[j]);
          EarlierTxidDiffers(net, b, j, i);
        }
        assert false;
      }
      assert CoinsOf(over, a) == map[];
    }
  }

  // Blocks whose txids no unspent coin carries overwrite nothing, so the explorer agrees with
  // the node about every address.
  lemma {:induction false} FreshChainOverwritesNone(net: Network, blocks: seq<Block>, now: int, a: Address)
    requires net.Ideal() && net.genesisMessage != "" && IsValidChain(net, blocks, now) && ChainIsFresh(net, blocks, now)
    ensures ChainOverwritesNone(net, blocks, a)
    decreases |blocks|
  {
    hide ValidateBlock, NoneOverwritten, FreshFrom, GenesisError, Network.Ideal;
    if |blocks| == 1 {
      GenesisOverwritesNone(net, blocks[0], a);
      assert blocks[..0] == [];
      assert ChainOverwritesNone(net, blocks[..0], a);
    } else {
      var prefix, last := blocks[..|blocks| - 1], blocks[|blocks| - 1];
      FreshChainOverwritesNone(net, prefix, now, a);
      Chainstate.ReplayIsWithinValidated(net, prefix, now);
      FreshBlockOverwritesNone(net, last, prefix, Replay(net, prefix), ValidateChain(net, prefix, now).value, now, a);
    }
  }

  lemma GenesisOverwritesNone(net: Network, b: Block, a: Address)
    requires net.Ideal() && net.genesisMessage != "" && GenesisError(net, b).None?
    ensures NoneOverwritten(net, b, |b.transactions|, map[], a)
  {
    Chainstate.GenesisIsSingle(net, b);
    hide Network.Ideal, GenesisError;
    assert Before(net, b, 0, map[]) == map[];
    assert CoinsOf(Overwritten(net, b.transactions[0], map[], b.header.height), a) == map[];
  }
}
