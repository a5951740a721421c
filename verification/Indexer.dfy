// The explorer's tables (netcoin/indexer.py, netcoin/indexer_storage.py), as sequences of rows:
// rebuilding them from a chain, rolling them back, and reading one address.
module Indexer {
  import opened Wrappers
  import opened Ledger
  import opened Validation
  import opened AddressEvents

  datatype BlockRow = BlockRow(height: int, blockHash: Hash, previousHash: Hash, timestamp: int, txCount: nat,
                               weight: nat)

  datatype TxRow = TxRow(txid: Hash, blockHash: Option<Hash>, height: Option<int>, position: Option<nat>,
                         timestamp: int,
    inputSats: nat, outputSats: nat, feeSats: nat, tx: Transaction, mempool: bool)

  // An unconfirmed transaction and when it arrived.
  datatype Unconfirmed = Unconfirmed(tx: Transaction, time: int)

  // ---- rows ----

  function Filter<T>(rows: seq<T>, keep: T -> bool): seq<T> {
    if rows == [] then []
    else Filter(rows[..|rows| - 1], keep) + if keep(rows[|rows| - 1]) then [rows[|rows| - 1]] else []
  }

  lemma {:induction false} FilterAppend<T>(a: seq<T>, b: seq<T>, keep: T -> bool)
    ensures Filter(a + b, keep) == Filter(a, keep) + Filter(b, keep)
  {
    if b == [] {
      assert a + b == a;
    } else {
      FilterAppend(a, b[..|b| - 1], keep);
      assert (a + b)[..|a + b| - 1] == a + b[..|b| - 1];
    }
  }

  lemma FilterOne<T>(row: T, keep: T -> bool)
    ensures Filter([row], keep) == if keep(row) then [row] else []
  {
    assert [row][..0] == [];
  }

  lemma {:induction false} FilterAll<T>(rows: seq<T>, keep: T -> bool)
    requires forall i :: 0 <= i < |rows| ==> keep(rows[i])
    ensures Filter(rows, keep) == rows
  {
    if rows != [] {
      var rest, last := rows[..|rows| - 1], rows[|rows| - 1];
      FilterAll(rest, keep);
      assert rows == rest + [last];
    }
  }

  lemma {:induction false} FilterNone<T>(rows: seq<T>, keep: T -> bool)
    requires forall i :: 0 <= i < |rows| ==> !keep(rows[i])
    ensures Filter(rows, keep) == []
  {
    if rows != [] {
      FilterNone(rows[..|rows| - 1], keep);
    }
  }

  lemma {:induction false} FilterMember<T>(rows: seq<T>, keep: T -> bool, r: T)
    ensures r in Filter(rows, keep) <==> r in rows && keep(r)
  {
    if rows != [] {
      assert rows == rows[..|rows| - 1] + [rows[|rows| - 1]];
      FilterMember(rows[..|rows| - 1], keep, r);
    }
  }

  lemma {:induction false} FiltersCommute<T>(rows: seq<T>, p: T -> bool, q: T -> bool)
    ensures Filter(Filter(rows, p), q) == Filter(Filter(rows, q), p)
  {
    if rows != [] {
      var rest, last := rows[..|rows| - 1], rows[|rows| - 1];
      FiltersCommute(rest, p, q);
      FilterAppend(Filter(rest, p), if p(last) then [last] else [], q);
      FilterAppend(Filter(rest, q), if q(last) then [last] else [], p);
      FilterOne(last, p);
      FilterOne(last, q);
    }
  }

  // ---- inserting or replacing ----

  function OtherBlock(row: BlockRow): BlockRow -> bool {
    (r: BlockRow) => r.height != row.height && r.blockHash != row.blockHash
  }

  function PutBlock(rows: seq<BlockRow>, row: BlockRow): seq<BlockRow> {
    Filter(rows, OtherBlock(row)) + [row]
  }

  function OtherTx(id: Hash): TxRow -> bool {
    (r: TxRow) => r.txid != id
  }

  function PutTx(rows: seq<TxRow>, row: TxRow): seq<TxRow> {
    Filter(rows, OtherTx(row.txid)) + [row]
  }

  // ---- what a rebuild leaves ----

  function BlockRowOf(net: Network, b: Block): BlockRow {
    BlockRow(b.header.height, net.BlockHash(b), b.header.previousHash, b.header.timestamp, |b.transactions|,
             net.BlockWeight(b))
  }

  function BlockTable(net: Network, blocks: seq<Block>): seq<BlockRow> {
    if blocks == [] then []
    else PutBlock(BlockTable(net, blocks[..|blocks| - 1]), BlockRowOf(net, blocks[|blocks| - 1]))
  }

  // The value of the known coins among the first `count` inputs.
  function KnownInputs(tx: Transaction, u: Utxos, count: nat): nat
    requires count <= |tx.inputs|
  {
    if count == 0 then 0
    else
      var op := tx.inputs[count - 1].prevout;
      KnownInputs(tx, u, count - 1) + if op in u then u[op].output.amount else 0
  }

  function ConfirmedRow(net: Network, b: Block, i: nat, u: Utxos): TxRow
    requires i < |b.transactions|
  {
    var tx := b.transactions[i];
    var inputs, outputs := if tx.IsCoinbase() then 0 else KnownInputs(tx, u, |tx.inputs|), OutputSum(tx.outputs);
    TxRow(net.txid(tx), Some(net.BlockHash(b)), Some(b.header.height), Some(i), b.header.timestamp,
      inputs, outputs, if !tx.IsCoinbase() && inputs > outputs then inputs - outputs else 0, tx, false)
  }

  function BlockTxTable(net: Network, rows: seq<TxRow>, b: Block, count: nat, u: Utxos): seq<TxRow>
    requires count <= |b.transactions|
  {
    if count == 0 then rows
    else PutTx(BlockTxTable(net, rows, b, count - 1, u), ConfirmedRow(net, b, count - 1, Before(net, b, count - 1, u)))
  }

  function TxTable(net: Network, blocks: seq<Block>): seq<TxRow> {
    if blocks == [] then []
    else
      var prefix, last := blocks[..|blocks| - 1], blocks[|blocks| - 1];
      BlockTxTable(net, TxTable(net, prefix), last, |last.transactions|, Replay(net, prefix))
  }

  function UnconfirmedRow(net: Network, m: Unconfirmed): TxRow {
    TxRow(net.txid(m.tx), None, None, None, m.time, 0, OutputSum(m.tx.outputs), 0, m.tx, true)
  }

  function PutUnconfirmed(net: Network, rows: seq<TxRow>, mempool: seq<Unconfirmed>, count: nat): seq<TxRow>
    requires count <= |mempool|
  {
    if count == 0 then rows
    else PutTx(PutUnconfirmed(net, rows, mempool, count - 1), UnconfirmedRow(net, mempool[count - 1]))
  }

  function Confirmed(): TxRow -> bool {
    (r: TxRow) => !r.mempool
  }

  // The transaction table with the mempool's rows renewed.
  function WithMempool(net: Network, rows: seq<TxRow>, mempool: seq<Unconfirmed>): seq<TxRow> {
    PutUnconfirmed(net, Filter(rows, Confirmed()), mempool, |mempool|)
  }

  function WithOptionalMempool(net: Network, rows: seq<TxRow>, mempool: Option<seq<Unconfirmed>>): seq<TxRow> {
    match mempool case None => rows case Some(txs) => WithMempool(net, rows, txs)
  }

  // What the index calls a fee is the fee that validation computes.
  lemma {:induction false} KnownInputsAreValidated(net: Network, tx: Transaction, u: Utxos, height: int, count: nat)
    requires count <= |tx.inputs| && InputValue(net, tx, u, height, count).Ok?
    ensures KnownInputs(tx, u, count) == InputValue(net, tx, u, height, count).value
  {
    if count > 0 {
      KnownInputsAreValidated(net, tx, u, height, count - 1);
    }
  }

  lemma IndexedFeeIsValidated(net: Network, b: Block, i: nat, u: Utxos, height: int, now: int)
    requires i < |b.transactions| && ValidateRegular(net, b.transactions[i], u, height, now).Ok?
    ensures ConfirmedRow(net, b, i, u).feeSats == ValidateRegular(net, b.transactions[i], u, height, now).value
  {
    var tx := b.transactions[i];
    KnownInputsAreValidated(net, tx, u, height, |tx.inputs|);
    hide InputValue, KnownInputs, UniqueInputs, LocktimeError, Transaction.IsCoinbase;
  }

  // ---- what a rollback leaves ----

  function BlockUpTo(height: int): BlockRow -> bool {
    (r: BlockRow) => r.height <= height
  }

  // A row without a height, as unconfirmed transactions have, is never above one.
  function TxUpTo(height: int): TxRow -> bool {
    (r: TxRow) => r.mempool || r.height.None? || r.height.value <= height
  }

  function EventUpTo(height: int): EventRow -> bool {
    (e: EventRow) => e.height <= height
  }

  // The chain up to a height, and the blocks above it.
  function CutAt(blocks: seq<Block>, height: int): seq<Block> {
    if height < 0 then [] else if height >= |blocks| then blocks else blocks[..height + 1]
  }

  function Above(blocks: seq<Block>, height: int): seq<Block> {
    if height < 0 then blocks else if height >= |blocks| then [] else blocks[height + 1..]
  }

  lemma CutStep(blocks: seq<Block>, height: int)
    requires blocks != [] && height < |blocks| - 1
    ensures var prefix := blocks[..|blocks| - 1];
            && CutAt(prefix, height) == CutAt(blocks, height)
            && Above(blocks, height) != [] && Above(blocks, height)[|Above(blocks, height)| - 1] == blocks[|blocks| - 1]
            && Above(blocks, height)[..|Above(blocks, height)| - 1] == Above(prefix, height)
  {
  }

  lemma CutNothing(blocks: seq<Block>, height: int)
    requires blocks == [] || height >= |blocks| - 1
    ensures CutAt(blocks, height) == blocks && Above(blocks, height) == []
  {
  }

  lemma CutIsNumbered(blocks: seq<Block>, height: int)
    requires Numbered(blocks)
    ensures Numbered(CutAt(blocks, height)) && |CutAt(blocks, height)| <= if height < 0 then 0 else height + 1
  {
  }

  // The block row with the greatest height.
  function TopRow(rows: seq<BlockRow>): Option<BlockRow> {
    if rows == [] then None
    else
      match TopRow(rows[..|rows| - 1])
      case None => Some(rows[|rows| - 1])
      case Some(top) => if rows[|rows| - 1].height > top.height then Some(rows[|rows| - 1]) else Some(top)
  }

  // ---- rolling back the block table ----

  // On a numbered chain no row of the block table replaces another.
  function BlockRows(net: Network, blocks: seq<Block>): (rows: seq<BlockRow>)
    ensures |rows| == |blocks|
  {
    seq(|blocks|, i requires 0 <= i < |blocks| => BlockRowOf(net, blocks[i]))
  }

  lemma RowsStayApart(net: Network, blocks: seq<Block>, i: nat)
    requires net.Ideal() && Numbered(blocks) && i < |blocks| - 1
    ensures OtherBlock(BlockRowOf(net, blocks[|blocks| - 1]))(BlockRowOf(net, blocks[i]))
  {
    assert blocks[i].header.height == i && blocks[|blocks| - 1].header.height == |blocks| - 1;
  }

  lemma {:induction false} NumberedBlocksAllStay(net: Network, blocks: seq<Block>)
    requires net.Ideal() && Numbered(blocks)
    ensures BlockTable(net, blocks) == BlockRows(net, blocks)
  {
    hide Network.Ideal, OtherBlock, BlockRowOf;
    if blocks != [] {
      var prefix, last := blocks[..|blocks| - 1], blocks[|blocks| - 1];
      NumberedBlocksAllStay(net, prefix);
      var rows, row := BlockRows(net, prefix), BlockRowOf(net, last);
      forall i | 0 <= i < |rows| ensures OtherBlock(row)(rows[i]) {
        RowsStayApart(net, blocks, i);
      }
      hide Filter;
      FilterAll(rows, OtherBlock(row));
      BlockRowsStep(net, blocks);
    }
  }

  lemma BlockRowsStep(net: Network, blocks: seq<Block>)
    requires blocks != []
    ensures BlockRows(net, blocks) == BlockRows(net, blocks[..|blocks| - 1]) + [BlockRowOf(net, blocks[|blocks| - 1])]
  {
  }

  lemma BlockRowsBelow(net: Network, blocks: seq<Block>, height: int)
    requires Numbered(blocks) && height >= |blocks| - 1
    ensures Filter(BlockRows(net, blocks), BlockUpTo(height)) == BlockRows(net, blocks)
  {
    FilterAll(BlockRows(net, blocks), BlockUpTo(height));
  }

  lemma {:induction false} BlockRowsRollBack(net: Network, blocks: seq<Block>, height: int)
    requires Numbered(blocks)
    ensures Filter(BlockRows(net, blocks), BlockUpTo(height)) == BlockRows(net, CutAt(blocks, height))
  {
    hide Filter, CutAt, BlockRows;
    if blocks == [] {
      CutNothing(blocks, height);
      assert BlockRows(net, []) == [];
      FilterAll(BlockRows(net, []), BlockUpTo(height));
    } else if height >= |blocks| - 1 {
      CutNothing(blocks, height);
      BlockRowsBelow(net, blocks, height);
    } else {
      var prefix, last := blocks[..|blocks| - 1], blocks[|blocks| - 1];
      CutStep(blocks, height);
      BlockRowsRollBack(net, prefix, height);
      assert last.header.height == |blocks| - 1;
      BlockRowsStep(net, blocks);
      FilterAppend(BlockRows(net, prefix), [BlockRowOf(net, last)], BlockUpTo(height));
      FilterOne(BlockRowOf(net, last), BlockUpTo(height));
    }
  }

  lemma {:induction false} TopOfNumbered(net: Network, blocks: seq<Block>)
    requires Numbered(blocks) && blocks != []
    ensures TopRow(BlockRows(net, blocks)) == Some(BlockRowOf(net, blocks[|blocks| - 1]))
  {
    var rows := BlockRows(net, blocks);
    var prefix := blocks[..|blocks| - 1];
    assert rows[..|rows| - 1] == BlockRows(net, prefix);
    if prefix != [] {
      TopOfNumbered(net, prefix);
      assert prefix[|prefix| - 1].header.height == |prefix| - 1;
    }
    assert blocks[|blocks| - 1].header.height == |blocks| - 1;
  }

  // ---- rolling back the events ----

  lemma {:induction false} SendsAreAtHeight(net: Network, b: Block, tx: Transaction, u: Utxos, count: nat)
    requires count <= |tx.inputs|
    ensures forall e <- Sends(net, b, tx, u, count) :: e.height == b.header.height
  {
    if count > 0 {
      SendsAreAtHeight(net, b, tx, u, count - 1);
    }
  }

  lemma {:induction false} ReceivesAreAtHeight(net: Network, b: Block, tx: Transaction, count: nat)
    requires count <= |tx.outputs|
    ensures forall e <- Receives(net, b, tx, count) :: e.height == b.header.height
  {
    if count > 0 {
      ReceivesAreAtHeight(net, b, tx, count - 1);
    }
  }

  lemma TxEventsAreAtHeight(net: Network, b: Block, tx: Transaction, u: Utxos)
    ensures forall e <- TxEvents(net, b, tx, u) :: e.height == b.header.height
  {
    SendsAreAtHeight(net, b, tx, u, |tx.inputs|);
    ReceivesAreAtHeight(net, b, tx, |tx.outputs|);
    hide Sends, Receives;
  }

  lemma {:induction false} BlockEventsAreAtHeight(net: Network, b: Block, count: nat, u: Utxos)
    requires count <= |b.transactions|
    ensures forall e <- BlockEvents(net, b, count, u) :: e.height == b.header.height
  {
    hide TxEvents, Before;
    if count > 0 {
      BlockEventsAreAtHeight(net, b, count - 1, u);
      TxEventsAreAtHeight(net, b, b.transactions[count - 1], Before(net, b, count - 1, u));
    }
  }

  lemma {:induction false} EventHeights(net: Network, blocks: seq<Block>)
    requires Numbered(blocks)
    ensures forall e <- EventsOf(net, blocks) :: 0 <= e.height < |blocks|
  {
    hide BlockEvents, Replay;
    if blocks != [] {
      var prefix, last := blocks[..|blocks| - 1], blocks[|blocks| - 1];
      EventHeights(net, prefix);
      BlockEventsAreAtHeight(net, last, |last.transactions|, Replay(net, prefix));
      assert last.header.height == |blocks| - 1;
    }
  }

  lemma {:induction false} EventsRollBack(net: Network, blocks: seq<Block>, height: int)
    requires Numbered(blocks)
    ensures Filter(EventsOf(net, blocks), EventUpTo(height)) == EventsOf(net, CutAt(blocks, height))
  {
    hide Filter, BlockEvents, Replay, CutAt;
    if blocks == [] || height >= |blocks| - 1 {
      CutNothing(blocks, height);
      EventHeights(net, blocks);
      FilterAll(EventsOf(net, blocks), EventUpTo(height));
    } else {
      var prefix, last := blocks[..|blocks| - 1], blocks[|blocks| - 1];
      CutStep(blocks, height);
      EventsRollBack(net, prefix, height);
      var more := BlockEvents(net, last, |last.transactions|, Replay(net, prefix));
      BlockEventsAreAtHeight(net, last, |last.transactions|, Replay(net, prefix));
      assert last.header.height == |blocks| - 1;
      FilterAppend(EventsOf(net, prefix), more, EventUpTo(height));
      FilterNone(more, EventUpTo(height));
    }
  }

  // ---- rolling back the transaction table ----

  function NotIn(ids: set<Hash>): TxRow -> bool {
    (r: TxRow) => r.txid !in ids
  }

  lemma {:induction false} FilterNotIn(rows: seq<TxRow>, ids: set<Hash>, id: Hash)
    ensures Filter(Filter(rows, NotIn(ids)), OtherTx(id)) == Filter(rows, NotIn(ids + {id}))
  {
    if rows != [] {
      var rest, last := rows[..|rows| - 1], rows[|rows| - 1];
      FilterNotIn(rest, ids, id);
      FilterAppend(Filter(rest, NotIn(ids)), if NotIn(ids)(last) then [last] else [], OtherTx(id));
      FilterOne(last, OtherTx(id));
    }
  }

  lemma PutTxAppends(rows: seq<TxRow>, row: TxRow, keep: TxRow -> bool)
    ensures Filter(PutTx(rows, row), keep) ==
            Filter(Filter(rows, keep), OtherTx(row.txid)) + if keep(row) then [row] else []
  {
    FilterAppend(Filter(rows, OtherTx(row.txid)), [row], keep);
    FilterOne(row, keep);
    FiltersCommute(rows, OtherTx(row.txid), keep);
  }

  // The txids of the first `count` transactions of a block, and of a chain.
  function BlockIds(net: Network, b: Block, count: nat): set<Hash>
    requires count <= |b.transactions|
  {
    if count == 0 then {} else BlockIds(net, b, count - 1) + {net.txid(b.transactions[count - 1])}
  }

  function ChainIds(net: Network, blocks: seq<Block>): set<Hash> {
    if blocks == [] then {}
    else
      var last := blocks[|blocks| - 1];
      ChainIds(net, blocks[..|blocks| - 1]) + BlockIds(net, last, |last.transactions|)
  }

  ghost predicate Holds(rows: seq<TxRow>, id: Hash) {
    exists r :: r in rows && r.txid == id
  }

  lemma {:induction false} BlockTxTableIds(net: Network, rows: seq<TxRow>, b: Block, count: nat, u: Utxos, id: Hash)
    requires count <= |b.transactions|
    ensures Holds(BlockTxTable(net, rows, b, count, u), id) <==> Holds(rows, id) || id in BlockIds(net, b, count)
  {
    hide ConfirmedRow, Before, Holds, PutTx;
    if count > 0 {
      BlockTxTableIds(net, rows, b, count - 1, u, id);
      var before := BlockTxTable(net, rows, b, count - 1, u);
      var row := ConfirmedRow(net, b, count - 1, Before(net, b, count - 1, u));
      assert row.txid == net.txid(b.transactions[count - 1]) by {
        ConfirmedRowId(net, b, count - 1, Before(net, b, count - 1, u));
      }
      PutTxIds(before, row, id);
    }
  }

  lemma ConfirmedRowId(net: Network, b: Block, i: nat, u: Utxos)
    requires i < |b.transactions|
    ensures var row := ConfirmedRow(net, b, i, u);
            row.txid == net.txid(b.transactions[i]) && !row.mempool && row.height == Some(b.header.height)
  {
  }

  lemma PutTxIds(rows: seq<TxRow>, row: TxRow, id: Hash)
    ensures Holds(PutTx(rows, row), id) <==> Holds(rows, id) || id == row.txid
  {
    if r :| r in rows && r.txid == id && id != row.txid {
      FilterMember(rows, OtherTx(row.txid), r);
      assert r in PutTx(rows, row);
    }
    if r :| r in PutTx(rows, row) && r.txid == id && r != row {
      FilterMember(rows, OtherTx(row.txid), r);
    }
    assert row in PutTx(rows, row);
  }

  // The table holds a row for exactly the txids of the chain.
  lemma {:induction false} TxTableIds(net: Network, blocks: seq<Block>, id: Hash)
    ensures Holds(TxTable(net, blocks), id) <==> id in ChainIds(net, blocks)
  {
    hide BlockTxTable, BlockIds, Replay;
    if blocks == [] {
      assert !Holds([], id);
    }
    hide Holds;
    if blocks != [] {
      var prefix, last := blocks[..|blocks| - 1], blocks[|blocks| - 1];
      TxTableIds(net, prefix, id);
      BlockTxTableIds(net, TxTable(net, prefix), last, |last.transactions|, Replay(net, prefix), id);
    }
  }

  // Every row of the table is confirmed, at a height of the chain.
  ghost predicate ConfirmedBelow(rows: seq<TxRow>, count: int) {
    forall i :: 0 <= i < |rows| ==> !rows[i].mempool && rows[i].height.Some? && rows[i].height.value < count
  }

  lemma {:induction false} FilterKeepsConfirmed(rows: seq<TxRow>, count: int, keep: TxRow -> bool)
    requires ConfirmedBelow(rows, count)
    ensures ConfirmedBelow(Filter(rows, keep), count)
  {
    if rows != [] {
      FilterKeepsConfirmed(rows[..|rows| - 1], count, keep);
    }
  }

  lemma {:induction false} BlockRowsAreConfirmed(net: Network, rows: seq<TxRow>, b: Block, count: nat, u: Utxos,
                                                 below: int)
    requires count <= |b.transactions| && ConfirmedBelow(rows, below) && b.header.height < below
    ensures ConfirmedBelow(BlockTxTable(net, rows, b, count, u), below)
  {
    hide Before, ConfirmedRow, ConfirmedBelow, PutTx;
    if count > 0 {
      BlockRowsAreConfirmed(net, rows, b, count - 1, u, below);
      ConfirmedRowId(net, b, count - 1, Before(net, b, count - 1, u));
      PutKeepsConfirmed(BlockTxTable(net, rows, b, count - 1, u),
                        ConfirmedRow(net, b, count - 1, Before(net, b, count - 1, u)), below);
    }
  }

  lemma PutKeepsConfirmed(rows: seq<TxRow>, row: TxRow, below: int)
    requires ConfirmedBelow(rows, below) && !row.mempool && row.height.Some? && row.height.value < below
    ensures ConfirmedBelow(PutTx(rows, row), below)
  {
    FilterKeepsConfirmed(rows, below, OtherTx(row.txid));
  }

  lemma {:induction false} TxTableIsConfirmed(net: Network, blocks: seq<Block>)
    requires Numbered(blocks)
    ensures ConfirmedBelow(TxTable(net, blocks), |blocks|)
  {
    hide BlockTxTable, Replay;
    if blocks != [] {
      var prefix, last := blocks[..|blocks| - 1], blocks[|blocks| - 1];
      TxTableIsConfirmed(net, prefix);
      assert last.header.height == |blocks| - 1;
      BlockRowsAreConfirmed(net, TxTable(net, prefix), last, |last.transactions|, Replay(net, prefix), |blocks|);
    }
  }

  // Rows of a block above the height go; so do earlier rows whose txids that block repeats.
  lemma {:induction false} HighBlockRollsBack(net: Network, rows: seq<TxRow>, b: Block, count: nat, u: Utxos,
                                              height: int)
    requires count <= |b.transactions| && b.header.height > height
    ensures Filter(BlockTxTable(net, rows, b, count, u), TxUpTo(height))
         == Filter(Filter(rows, TxUpTo(height)), NotIn(BlockIds(net, b, count)))
  {
    hide Before, ConfirmedRow, Filter, PutTx;
    var kept := Filter(rows, TxUpTo(height));
    if count == 0 {
      FilterAll(kept, NotIn({}));
    } else {
      HighBlockRollsBack(net, rows, b, count - 1, u, height);
      var row := ConfirmedRow(net, b, count - 1, Before(net, b, count - 1, u));
      ConfirmedRowId(net, b, count - 1, Before(net, b, count - 1, u));
      PutTxAppends(BlockTxTable(net, rows, b, count - 1, u), row, TxUpTo(height));
      FilterNotIn(kept, BlockIds(net, b, count - 1), row.txid);
    }
  }

  lemma {:induction false} FilterNotInTwice(rows: seq<TxRow>, a: set<Hash>, b: set<Hash>)
    ensures Filter(Filter(rows, NotIn(a)), NotIn(b)) == Filter(rows, NotIn(a + b))
  {
    if rows != [] {
      var rest, last := rows[..|rows| - 1], rows[|rows| - 1];
      FilterNotInTwice(rest, a, b);
      FilterAppend(Filter(rest, NotIn(a)), if NotIn(a)(last) then [last] else [], NotIn(b));
      FilterOne(last, NotIn(b));
    }
  }

  // Rolling back leaves the table of the cut chain without the txids that later blocks repeat.
  lemma {:induction false} TxTableRollsBack(net: Network, blocks: seq<Block>, height: int)
    requires Numbered(blocks)
    ensures Filter(TxTable(net, blocks), TxUpTo(height))
         == Filter(TxTable(net, CutAt(blocks, height)), NotIn(ChainIds(net, Above(blocks, height))))
  {
    hide BlockTxTable, BlockIds, Replay, Filter, CutAt, Above;
    var cut := TxTable(net, CutAt(blocks, height));
    if blocks == [] || height >= |blocks| - 1 {
      CutNothing(blocks, height);
      TxTableIsConfirmed(net, blocks);
      FilterAll(cut, TxUpTo(height));
      FilterAll(cut, NotIn({}));
    } else {
      var prefix, last := blocks[..|blocks| - 1], blocks[|blocks| - 1];
      CutStep(blocks, height);
      TxTableRollsBack(net, prefix, height);
      assert last.header.height == |blocks| - 1;
      HighBlockRollsBack(net, TxTable(net, prefix), last, |last.transactions|, Replay(net, prefix), height);
      FilterNotInTwice(cut, ChainIds(net, Above(prefix, height)), BlockIds(net, last, |last.transactions|));
    }
  }

  // ---- the mempool's rows ----

  function UnconfirmedIds(net: Network, mempool: seq<Unconfirmed>, count: nat): set<Hash>
    requires count <= |mempool|
  {
    if count == 0 then {} else UnconfirmedIds(net, mempool, count - 1) + {net.txid(mempool[count - 1].tx)}
  }

  // Renewing the mempool's rows drops the rows it replaces and adds rows of its own.
  lemma {:induction false} PutUnconfirmedSplits(net: Network, rows: seq<TxRow>, mempool: seq<Unconfirmed>, count: nat)
    requires count <= |mempool|
    ensures PutUnconfirmed(net, rows, mempool, count)
         == Filter(rows, NotIn(UnconfirmedIds(net, mempool, count))) + PutUnconfirmed(net, [], mempool, count)
  {
    hide Filter;
    if count == 0 {
      FilterAll(rows, NotIn({}));
    } else {
      PutUnconfirmedSplits(net, rows, mempool, count - 1);
      var row, ids := UnconfirmedRow(net, mempool[count - 1]), UnconfirmedIds(net, mempool, count - 1);
      var own := PutUnconfirmed(net, [], mempool, count - 1);
      FilterAppend(Filter(rows, NotIn(ids)), own, OtherTx(row.txid));
      FilterNotIn(rows, ids, row.txid);
    }
  }

  // A rollback leaves the mempool's rows alone.
  lemma {:induction false} UnconfirmedStay(net: Network, rows: seq<TxRow>, mempool: seq<Unconfirmed>, count: nat,
                                           height: int)
    requires count <= |mempool|
    ensures Filter(PutUnconfirmed(net, rows, mempool, count), TxUpTo(height))
         == PutUnconfirmed(net, Filter(rows, TxUpTo(height)), mempool, count)
  {
    hide Filter, PutTx;
    if count > 0 {
      UnconfirmedStay(net, rows, mempool, count - 1, height);
      var row := UnconfirmedRow(net, mempool[count - 1]);
      PutTxAppends(PutUnconfirmed(net, rows, mempool, count - 1), row, TxUpTo(height));
      PutTxOnFiltered(PutUnconfirmed(net, rows, mempool, count - 1), row, TxUpTo(height));
    }
  }

  lemma PutTxOnFiltered(rows: seq<TxRow>, row: TxRow, keep: TxRow -> bool)
    ensures PutTx(Filter(rows, keep), row) == Filter(Filter(rows, keep), OtherTx(row.txid)) + [row]
  {
  }

  lemma MempoolRollsBack(net: Network, rows: seq<TxRow>, mempool: Option<seq<Unconfirmed>>, height: int)
    ensures Filter(WithOptionalMempool(net, rows, mempool), TxUpTo(height))
         == WithOptionalMempool(net, Filter(rows, TxUpTo(height)), mempool)
  {
    hide Filter, PutUnconfirmed;
    if mempool.Some? {
      UnconfirmedStay(net, Filter(rows, Confirmed()), mempool.value, |mempool.value|, height);
      FiltersCommute(rows, Confirmed(), TxUpTo(height));
    }
  }

  // ---- the whole index ----

  datatype Tables = Tables(blocks: seq<BlockRow>, transactions: seq<TxRow>, events: seq<EventRow>, tipHeight: int,
                           tipHash: Option<Hash>)

  function TipOf(rows: seq<BlockRow>): (int, Option<Hash>) {
    match TopRow(rows) case None => (-1, None) case Some(top) => (top.height, Some(top.blockHash))
  }

  // What rebuilding from a chain leaves; an empty chain stands for tables that were only reset.
  function Rebuilt(net: Network, blocks: seq<Block>, mempool: Option<seq<Unconfirmed>>): Tables {
    Tables(BlockTable(net, blocks), WithOptionalMempool(net, TxTable(net, blocks), mempool), EventsOf(net, blocks),
      if blocks == [] then -1 else blocks[|blocks| - 1].header.height,
      if blocks == [] then None else Some(net.BlockHash(blocks[|blocks| - 1])))
  }

  function RolledBack(t: Tables, height: int): Tables {
    var rows := Filter(t.blocks, BlockUpTo(height));
    Tables(rows, Filter(t.transactions, TxUpTo(height)), Filter(t.events, EventUpTo(height)), TipOf(rows).0,
           TipOf(rows).1)
  }

  function MempoolIds(net: Network, mempool: Option<seq<Unconfirmed>>): set<Hash> {
    match mempool case None => {} case Some(txs) => UnconfirmedIds(net, txs, |txs|)
  }

  lemma SuffixCancels<T>(a: seq<T>, b: seq<T>, s: seq<T>)
    ensures a + s == b + s <==> a == b
  {
    if a + s == b + s {
      assert |a| == |b|;
      assert a == (a + s)[..|a|] == (b + s)[..|b|] == b;
    }
  }

  // The two chains' transaction tables, with the same mempool over them, are the same exactly
  // when dropping the ids drops nothing that the mempool does not replace anyway.
  lemma SameTableExactly(net: Network, rows: seq<TxRow>, ids: set<Hash>, mempool: Option<seq<Unconfirmed>>, count: int)
    requires ConfirmedBelow(rows, count)
    ensures WithOptionalMempool(net, Filter(rows, NotIn(ids)), mempool) == WithOptionalMempool(net, rows, mempool) <==>
              forall r :: r in rows && r.txid in ids ==> r.txid in MempoolIds(net, mempool)
  {
    hide Filter, PutUnconfirmed, UnconfirmedIds;
    var own, out := MempoolIds(net, mempool), Filter(rows, NotIn(ids));
    FilterKeepsConfirmed(rows, count, NotIn(ids));
    FilterAll(rows, Confirmed());
    FilterAll(out, Confirmed());
    if mempool.Some? {
      PutUnconfirmedSplits(net, rows, mempool.value, |mempool.value|);
      PutUnconfirmedSplits(net, out, mempool.value, |mempool.value|);
    } else {
      FilterAll(rows, NotIn({}));
      FilterAll(out, NotIn({}));
    }
    var a, b := Filter(out, NotIn(own)), Filter(rows, NotIn(own));
    SuffixCancels(a, b, if mempool.Some? then PutUnconfirmed(net, [], mempool.value, |mempool.value|) else []);
    FiltersCommute(rows, NotIn(ids), NotIn(own));
    assert a == Filter(b, NotIn(ids));
    if forall r :: r in rows && r.txid in ids ==> r.txid in own {
      forall i | 0 <= i < |b| ensures NotIn(ids)(b[i]) {
        FilterMember(rows, NotIn(own), b[i]);
      }
      FilterAll(b, NotIn(ids));
    }
    if a == b {
      forall r | r in rows && r.txid in ids ensures r.txid in own {
        FilterMember(rows, NotIn(own), r);
        FilterMember(b, NotIn(ids), r);
      }
    }
  }

  // A txid above the height that also occurs at or below it and is not in the mempool: its
  // later row replaced the earlier one, and went with the rollback.
  ghost predicate RepeatsTxid(net: Network, blocks: seq<Block>, mempool: Option<seq<Unconfirmed>>, height: int) {
    exists id :: id in ChainIds(net, CutAt(blocks, height)) && id in ChainIds(net, Above(blocks, height)) &&
           id !in MempoolIds(net, mempool)
  }

  lemma OtherTablesRollBack(net: Network, blocks: seq<Block>, mempool: Option<seq<Unconfirmed>>, height: int)
    requires net.Ideal() && Numbered(blocks)
    ensures var t := RolledBack(Rebuilt(net, blocks, mempool), height);
            var cut := Rebuilt(net, CutAt(blocks, height), mempool);
            t.(transactions := cut.transactions) == cut
  {
    hide Filter, EventsOf, WithOptionalMempool, TxTable, TopRow, CutAt, BlockTable, BlockRows, Network.Ideal;
    var cut := CutAt(blocks, height);
    CutIsNumbered(blocks, height);
    NumberedBlocksAllStay(net, blocks);
    NumberedBlocksAllStay(net, cut);
    BlockRowsRollBack(net, blocks, height);
    EventsRollBack(net, blocks, height);
    if cut == [] {
      TopOfNone();
      assert BlockRows(net, cut) == [];
    } else {
      TopOfNumbered(net, cut);
    }
  }

  lemma TopOfNone()
    ensures TopRow([]) == None
  {
  }

  lemma TransactionsRollBack(net: Network, blocks: seq<Block>, mempool: Option<seq<Unconfirmed>>, height: int)
    requires Numbered(blocks)
    ensures RolledBack(Rebuilt(net, blocks, mempool), height).transactions ==
            Rebuilt(net, CutAt(blocks, height), mempool).transactions <==>
              !RepeatsTxid(net, blocks, mempool, height)
  {
    hide Filter, BlockTable, TxTable, EventsOf, WithOptionalMempool, ChainIds, MempoolIds, TopRow, CutAt, Above;
    var cut, later := CutAt(blocks, height), ChainIds(net, Above(blocks, height));
    var rows := TxTable(net, cut);
    CutIsNumbered(blocks, height);
    hide Numbered;
    TxTableIsConfirmed(net, cut);
    MempoolRollsBack(net, TxTable(net, blocks), mempool, height);
    TxTableRollsBack(net, blocks, height);
    SameTableExactly(net, rows, later, mempool, |cut|);
    if id :| id in ChainIds(net, cut) && id in later && id !in MempoolIds(net, mempool) {
      TxTableIds(net, cut, id);
      var r :| r in rows && r.txid == id;
    } else {
      forall r | r in rows && r.txid in later ensures r.txid in MempoolIds(net, mempool) {
        TxTableIds(net, cut, r.txid);
      }
    }
  }

  // Rolling back to a height leaves the rows, and the tip, of a rebuild from the chain cut
  // there, exactly unless such a txid exists; the other tables are always the same.
  lemma RollbackIsRebuildExactly(net: Network, blocks: seq<Block>, mempool: Option<seq<Unconfirmed>>, height: int)
    requires net.Ideal() && Numbered(blocks)
    ensures RolledBack(Rebuilt(net, blocks, mempool), height) == Rebuilt(net, CutAt(blocks, height), mempool) <==>
              !RepeatsTxid(net, blocks, mempool, height)
    ensures var t := RolledBack(Rebuilt(net, blocks, mempool), height);
            var cut := Rebuilt(net, CutAt(blocks, height), mempool);
            t.(transactions := cut.transactions) == cut
  {
    hide RepeatsTxid, RolledBack, Rebuilt, Network.Ideal, Numbered;
    OtherTablesRollBack(net, blocks, mempool, height);
    TransactionsRollBack(net, blocks, mempool, height);
  }

  // It does happen: a block that repeats an earlier txid, as a coinbase may.
  lemma RepeatedTxidBreaksRollback(net: Network, blocks: seq<Block>, b: Block)
    requires net.Ideal() && Numbered(blocks + [b]) && blocks != []
    requires net.txid(b.transactions[0]) in ChainIds(net, blocks)
    ensures RolledBack(Rebuilt(net, blocks + [b], None), |blocks| - 1) != Rebuilt(net, blocks, None)
  {
    var all, height, id := blocks + [b], |blocks| - 1, net.txid(b.transactions[0]);
    assert CutAt(all, height) == blocks && Above(all, height) == [b];
    assert id in ChainIds(net, [b]) by {
      FirstIdIsAmong(net, b, |b.transactions|);
    }
    assert RepeatsTxid(net, all, None, height);
    hide RolledBack, Rebuilt, Network.Ideal;
    RollbackIsRebuildExactly(net, all, None, height);
  }

  lemma {:induction false} FirstIdIsAmong(net: Network, b: Block, count: nat)
    requires 1 <= count <= |b.transactions|
    ensures net.txid(b.transactions[0]) in BlockIds(net, b, count)
  {
    if count > 1 {
      FirstIdIsAmong(net, b, count - 1);
    }
  }
}
