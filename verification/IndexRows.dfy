// What the explorer's rows say (netcoin/indexer.py): every column of a block, of a transaction
// and of an address event, read off the chain.
module IndexRows {
  import opened Wrappers
  import opened Ledger
  import opened Validation
  import opened AddressEvents
  import opened Indexer

  // ---- blocks ----

  lemma BlockRowsRead(net: Network, blocks: seq<Block>, i: nat)
    requires net.Ideal() && Numbered(blocks) && i < |blocks|
    ensures |BlockTable(net, blocks)| == |blocks|
    ensures var row, b := BlockTable(net, blocks)[i], blocks[i];
            && row.height == i && row.blockHash == net.BlockHash(b) && row.previousHash == b.header.previousHash
            && row.timestamp == b.header.timestamp && row.txCount == |b.transactions|
            && row.weight == net.BlockWeight(b)
  {
    NumberedBlocksAllStay(net, blocks);
    hide Network.Ideal, BlockTable;
    assert blocks[i].header.height == i;
  }

  // ---- confirmed transactions ----

  // Transaction `i` of block `k` is among those indexed: all blocks but the last, and the first
  // `count` transactions of that one.
  ghost predicate Reached(blocks: seq<Block>, count: nat, k: int, i: int) {
    && 0 <= k < |blocks| && 0 <= i < |blocks[k].transactions|
    && (k == |blocks| - 1 ==> i < count)
  }

  ghost predicate LaterRepeats(net: Network, blocks: seq<Block>, count: nat, k: int, i: int, id: Hash) {
    exists m, j :: Reached(blocks, count, m, j) && (m > k || (m == k && j > i)) &&
                   net.txid(blocks[m].transactions[j]) == id
  }

  // The columns of transaction `i` of block `k`; its inputs are worth the coins before it.
  ghost predicate ReadsTx(net: Network, row: TxRow, b: Block, i: nat, u: Utxos)
    requires i < |b.transactions|
  {
    var tx := b.transactions[i];
    && row.tx == tx && row.txid == net.txid(tx) && row.blockHash == Some(net.BlockHash(b))
    && row.height == Some(b.header.height) && row.position == Some(i) && row.timestamp == b.header.timestamp
    && !row.mempool && row.outputSats == OutputSum(tx.outputs)
    && (tx.IsCoinbase() ==> row.inputSats == 0 == row.feeSats)
    && (!tx.IsCoinbase() ==>
          && row.inputSats == KnownInputs(tx, u, |tx.inputs|)
          && row.feeSats == if row.inputSats > row.outputSats then row.inputSats - row.outputSats else 0)
  }

  lemma ReadsTxExactly(net: Network, row: TxRow, b: Block, i: nat, u: Utxos)
    requires i < |b.transactions|
    ensures ReadsTx(net, row, b, i, u) <==> row == ConfirmedRow(net, b, i, u)
  {
    hide KnownInputs, OutputSum, Transaction.IsCoinbase;
  }

  ghost predicate IsTxAt(net: Network, blocks: seq<Block>, count: nat, row: TxRow, k: int, i: int) {
    && Reached(blocks, count, k, i) && !LaterRepeats(net, blocks, count, k, i, row.txid)
    && ReadsTx(net, row, blocks[k], i, Before(net, blocks[k], i, Replay(net, blocks[..k])))
  }

  ghost predicate IsTx(net: Network, blocks: seq<Block>, count: nat, row: TxRow) {
    exists k, i :: IsTxAt(net, blocks, count, row, k, i)
  }

  // One more transaction: what was there stays unless the new one repeats its txid.
  lemma NextTx(net: Network, blocks: seq<Block>, count: nat, row: TxRow)
    requires blocks != [] && count < |blocks[|blocks| - 1].transactions|
    ensures var prefix, b := blocks[..|blocks| - 1], blocks[|blocks| - 1];
            IsTx(net, blocks, count + 1, row) <==>
              || (IsTx(net, blocks, count, row) && row.txid != net.txid(b.transactions[count]))
              || row == ConfirmedRow(net, b, count, Before(net, b, count, Replay(net, prefix)))
  {
    hide ReadsTx, ConfirmedRow, Before, Replay;
    var n, b, more := |blocks| - 1, blocks[|blocks| - 1], count + 1;
    var u := Before(net, b, count, Replay(net, blocks[..n]));
    ReadsTxExactly(net, row, b, count, u);
    ConfirmedRowId(net, b, count, u);
    if k, i :| IsTxAt(net, blocks, more, row, k, i) {
      assert Reached(blocks, count + 1, n, count);
      assert k != n || i != count ==> IsTxAt(net, blocks, count, row, k, i);
    }
    if row.txid != net.txid(b.transactions[count]) {
      if k, i :| IsTxAt(net, blocks, count, row, k, i) {
        assert IsTxAt(net, blocks, count + 1, row, k, i);
      }
    }
    if row == ConfirmedRow(net, b, count, u) {
      assert IsTxAt(net, blocks, count + 1, row, n, count);
    }
  }

  lemma FirstTxs(net: Network, blocks: seq<Block>, row: TxRow)
    requires blocks != []
    ensures var prefix := blocks[..|blocks| - 1];
            IsTx(net, blocks, 0, row) <==>
              prefix != [] && IsTx(net, prefix, |prefix[|prefix| - 1].transactions|, row)
  {
    hide ReadsTx, Before, Replay;
    var prefix := blocks[..|blocks| - 1];
    if prefix != [] {
      var all := |prefix[|prefix| - 1].transactions|;
      assert forall k, i :: Reached(blocks, 0, k, i) <==> Reached(prefix, all, k, i);
      if k, i :| IsTxAt(net, blocks, 0, row, k, i) {
        assert blocks[..k] == prefix[..k];
        assert IsTxAt(net, prefix, all, row, k, i);
      }
      if k, i :| IsTxAt(net, prefix, all, row, k, i) {
        assert blocks[..k] == prefix[..k];
        assert IsTxAt(net, blocks, 0, row, k, i);
      }
    }
  }

  lemma PutMember(rows: seq<TxRow>, row: TxRow, r: TxRow)
    ensures r in PutTx(rows, row) <==> (r in rows && r.txid != row.txid) || r == row
  {
    FilterMember(rows, OtherTx(row.txid), r);
  }

  lemma {:induction false} BlockTxRowsRead(net: Network, blocks: seq<Block>, count: nat, row: TxRow)
    requires blocks != [] && count <= |blocks[|blocks| - 1].transactions|
    ensures var prefix, b := blocks[..|blocks| - 1], blocks[|blocks| - 1];
            row in BlockTxTable(net, TxTable(net, prefix), b, count, Replay(net, prefix)) <==>
              IsTx(net, blocks, count, row)
    decreases |blocks|, count
  {
    hide ConfirmedRow, Before, Replay, PutTx, IsTx;
    var prefix, b := blocks[..|blocks| - 1], blocks[|blocks| - 1];
    if count == 0 {
      FirstTxs(net, blocks, row);
      if prefix != [] {
        BlockTxRowsRead(net, prefix, |prefix[|prefix| - 1].transactions|, row);
      }
    } else {
      BlockTxRowsRead(net, blocks, count - 1, row);
      NextTx(net, blocks, count - 1, row);
      var u := Before(net, b, count - 1, Replay(net, prefix));
      ConfirmedRowId(net, b, count - 1, u);
      PutMember(BlockTxTable(net, TxTable(net, prefix), b, count - 1, Replay(net, prefix)),
                ConfirmedRow(net, b, count - 1, u), row);
    }
  }

  // The table holds exactly the chain's transactions, each where its txid occurred last.
  lemma TxRowsRead(net: Network, blocks: seq<Block>, row: TxRow)
    ensures row in TxTable(net, blocks) <==>
              blocks != [] && IsTx(net, blocks, |blocks[|blocks| - 1].transactions|, row)
  {
    if blocks != [] {
      hide BlockTxTable, IsTx, Replay;
      BlockTxRowsRead(net, blocks, |blocks[|blocks| - 1].transactions|, row);
    }
  }

  // ---- the mempool's rows ----

  // An unconfirmed transaction has a time and the worth of its outputs, and nothing else.
  ghost predicate ReadsUnconfirmed(net: Network, row: TxRow, m: Unconfirmed) {
    && row.tx == m.tx && row.txid == net.txid(m.tx) && row.timestamp == m.time && row.mempool
    && row.blockHash.None? && row.height.None? && row.position.None?
    && row.inputSats == 0 == row.feeSats && row.outputSats == OutputSum(m.tx.outputs)
  }

  ghost predicate IsUnconfirmed(net: Network, mempool: seq<Unconfirmed>, count: nat, row: TxRow)
    requires count <= |mempool|
  {
    exists i :: 0 <= i < count && ReadsUnconfirmed(net, row, mempool[i]) &&
                forall j :: i < j < count ==> net.txid(mempool[j].tx) != row.txid
  }

  ghost predicate Pooled(net: Network, mempool: seq<Unconfirmed>, count: nat, id: Hash)
    requires count <= |mempool|
  {
    exists i :: 0 <= i < count && net.txid(mempool[i].tx) == id
  }

  lemma {:induction false} UnconfirmedRowsRead(net: Network, rows: seq<TxRow>, mempool: seq<Unconfirmed>, count: nat,
                                               row: TxRow)
    requires count <= |mempool|
    ensures row in PutUnconfirmed(net, rows, mempool, count) <==>
              IsUnconfirmed(net, mempool, count, row) || (row in rows && !Pooled(net, mempool, count, row.txid))
  {
    hide PutTx, OutputSum;
    if count > 0 {
      UnconfirmedRowsRead(net, rows, mempool, count - 1, row);
      PutMember(PutUnconfirmed(net, rows, mempool, count - 1), UnconfirmedRow(net, mempool[count - 1]), row);
    }
  }

  // Renewing the mempool: its rows are its transactions', and the others stay unless the
  // mempool holds their txid.
  lemma MempoolRowsRead(net: Network, rows: seq<TxRow>, mempool: seq<Unconfirmed>, row: TxRow)
    ensures row in WithMempool(net, rows, mempool) <==>
              || IsUnconfirmed(net, mempool, |mempool|, row)
              || (row in rows && !row.mempool && !Pooled(net, mempool, |mempool|, row.txid))
  {
    hide PutUnconfirmed, IsUnconfirmed, Pooled;
    UnconfirmedRowsRead(net, Filter(rows, Confirmed()), mempool, |mempool|, row);
    FilterMember(rows, Confirmed(), row);
  }

  // ---- events ----

  // Output `e.vout` of the transaction pays the address.
  ghost predicate ReadsReceive(net: Network, b: Block, tx: Transaction, count: nat, e: EventRow)
    requires count <= |tx.outputs|
  {
    && e.direction == Receive && 0 <= e.vout < count
    && e.address == tx.outputs[e.vout].address != "" && e.amount == tx.outputs[e.vout].amount > 0
    && e.txid == net.txid(tx) && e.blockHash == net.BlockHash(b) && e.height == b.header.height
    && e.timestamp == b.header.timestamp && e.coinbase == tx.IsCoinbase() && e.spentOutpoint.None?
  }

  // One of the inputs spends the outpoint, a coin of the address.
  ghost predicate ReadsSend(net: Network, b: Block, tx: Transaction, u: Utxos, count: nat, e: EventRow)
    requires count <= |tx.inputs|
  {
    && e.direction == Send && e.spentOutpoint.Some? && e.spentOutpoint.value in u
    && (exists j :: 0 <= j < count && tx.inputs[j].prevout == e.spentOutpoint.value)
    && var coin := u[e.spentOutpoint.value];
       && e.address == coin.output.address != "" && e.amount + coin.output.amount == 0
       && e.coinbase == coin.coinbase && e.vout == e.spentOutpoint.value.vout
       && e.txid == net.txid(tx) && e.blockHash == net.BlockHash(b) && e.height == b.header.height
       && e.timestamp == b.header.timestamp
  }

  lemma {:induction false} ReceivesRead(net: Network, b: Block, tx: Transaction, count: nat, e: EventRow)
    requires count <= |tx.outputs|
    ensures e in Receives(net, b, tx, count) <==> ReadsReceive(net, b, tx, count, e)
  {
    hide Transaction.IsCoinbase, Network.BlockHash;
    if count > 0 {
      ReceivesRead(net, b, tx, count - 1, e);
    }
  }

  lemma {:induction false} SendsRead(net: Network, b: Block, tx: Transaction, u: Utxos, count: nat, e: EventRow)
    requires count <= |tx.inputs|
    ensures e in Sends(net, b, tx, u, count) <==> ReadsSend(net, b, tx, u, count, e)
  {
    hide Network.BlockHash;
    if count > 0 {
      SendsRead(net, b, tx, u, count - 1, e);
    }
  }

  ghost predicate ReadsEvent(net: Network, b: Block, i: nat, u: Utxos, e: EventRow)
    requires i < |b.transactions|
  {
    var tx := b.transactions[i];
    || ReadsReceive(net, b, tx, |tx.outputs|, e)
    || (!tx.IsCoinbase() && ReadsSend(net, b, tx, Before(net, b, i, u), |tx.inputs|, e))
  }

  lemma TxEventsRead(net: Network, b: Block, i: nat, u: Utxos, e: EventRow)
    requires i < |b.transactions|
    ensures e in TxEvents(net, b, b.transactions[i], Before(net, b, i, u)) <==> ReadsEvent(net, b, i, u, e)
  {
    hide Receives, Sends, ReadsReceive, ReadsSend, Before, Transaction.IsCoinbase;
    var tx := b.transactions[i];
    ReceivesRead(net, b, tx, |tx.outputs|, e);
    SendsRead(net, b, tx, Before(net, b, i, u), |tx.inputs|, e);
  }

  lemma {:induction false} BlockEventsRead(net: Network, b: Block, count: nat, u: Utxos, e: EventRow)
    requires count <= |b.transactions|
    ensures e in BlockEvents(net, b, count, u) <==> exists i: nat :: i < count && ReadsEvent(net, b, i, u, e)
  {
    hide TxEvents, ReadsEvent, Before;
    if count > 0 {
      BlockEventsRead(net, b, count - 1, u, e);
      TxEventsRead(net, b, count - 1, u, e);
    }
  }

  ghost predicate IsEventAt(net: Network, blocks: seq<Block>, k: int, i: int, e: EventRow) {
    && 0 <= k < |blocks| && 0 <= i < |blocks[k].transactions|
    && ReadsEvent(net, blocks[k], i, Replay(net, blocks[..k]), e)
  }

  // The events are exactly the positive addressed outputs of the chain and its inputs' addressed
  // coins.
  lemma {:induction false} EventsRead(net: Network, blocks: seq<Block>, e: EventRow)
    ensures e in EventsOf(net, blocks) <==> exists k, i :: IsEventAt(net, blocks, k, i, e)
  {
    hide BlockEvents, ReadsEvent, Replay;
    if blocks != [] {
      var prefix, last := blocks[..|blocks| - 1], blocks[|blocks| - 1];
      EventsRead(net, prefix, e);
      BlockEventsRead(net, last, |last.transactions|, Replay(net, prefix), e);
      if k, i :| IsEventAt(net, blocks, k, i, e) && k < |prefix| {
        assert blocks[..k] == prefix[..k];
        assert IsEventAt(net, prefix, k, i, e);
      }
      if k, i :| IsEventAt(net, prefix, k, i, e) {
        assert blocks[..k] == prefix[..k];
        assert IsEventAt(net, blocks, k, i, e);
      }
      if i :| 0 <= i < |last.transactions| && ReadsEvent(net, last, i, Replay(net, prefix), e) {
        assert IsEventAt(net, blocks, |prefix|, i, e);
      }
    }
  }
}
