// The explorer indexer as an object (netcoin/indexer.py, ChainIndexer over IndexerStorage): its
// tables are fields that rebuilding, rolling back and the mempool refresh update in place.
module Explorer {
  import opened Wrappers
  import opened Params
  import opened Ledger
  import opened Validation
  import opened AddressEvents
  import opened Indexer

  // ---- reading one address ----

  function AtAddress(a: Address): EventRow -> bool {
    (e: EventRow) => e.address == a
  }

  // Rows in order of height; rows of one height stay in the order they were inserted in.
  function InsertByHeight(rows: seq<EventRow>, e: EventRow): seq<EventRow> {
    if rows == [] || rows[|rows| - 1].height <= e.height then rows + [e]
    else InsertByHeight(rows[..|rows| - 1], e) + [rows[|rows| - 1]]
  }

  function ByHeight(rows: seq<EventRow>): seq<EventRow> {
    if rows == [] then [] else InsertByHeight(ByHeight(rows[..|rows| - 1]), rows[|rows| - 1])
  }

  ghost predicate Chronological(rows: seq<EventRow>) {
    forall i, j :: 0 <= i <= j < |rows| ==> rows[i].height <= rows[j].height
  }

  function OfHeight(height: int): EventRow -> bool {
    (e: EventRow) => e.height == height
  }

  lemma {:induction false} InsertKeepsOrder(rows: seq<EventRow>, e: EventRow)
    requires Chronological(rows)
    ensures Chronological(InsertByHeight(rows, e))
    ensures forall i :: 0 <= i < |InsertByHeight(rows, e)| ==>
              InsertByHeight(rows, e)[i].height <= e.height ||
              (rows != [] && InsertByHeight(rows, e)[i].height <= rows[|rows| - 1].height)
  {
    if rows != [] && rows[|rows| - 1].height > e.height {
      InsertKeepsOrder(rows[..|rows| - 1], e);
    }
  }

  lemma InsertStep(rows: seq<EventRow>, e: EventRow)
    ensures InsertByHeight(rows, e) ==
            if rows == [] || rows[|rows| - 1].height <= e.height then rows + [e]
            else InsertByHeight(rows[..|rows| - 1], e) + [rows[|rows| - 1]]
  {
  }

  lemma {:induction false} InsertIsStable(rows: seq<EventRow>, e: EventRow, height: int)
    ensures Filter(InsertByHeight(rows, e), OfHeight(height))
         == Filter(rows, OfHeight(height)) + if e.height == height then [e] else []
  {
    hide Filter, InsertByHeight;
    InsertStep(rows, e);
    FilterOne(e, OfHeight(height));
    if rows == [] || rows[|rows| - 1].height <= e.height {
      FilterAppend(rows, [e], OfHeight(height));
    } else {
      var rest, last := rows[..|rows| - 1], rows[|rows| - 1];
      InsertIsStable(rest, e, height);
      FilterOne(last, OfHeight(height));
      FilterAppend(InsertByHeight(rest, e), [last], OfHeight(height));
      FilterAppend(rest, [last], OfHeight(height));
      assert rows == rest + [last];
    }
  }

  lemma NothingSorts()
    ensures ByHeight([]) == [] && Chronological([])
  {
  }

  // Rows come out by height, and the rows of one height are the same rows in the same order.
  lemma {:induction false} ByHeightSorts(rows: seq<EventRow>, height: int)
    ensures Chronological(ByHeight(rows))
    ensures Filter(ByHeight(rows), OfHeight(height)) == Filter(rows, OfHeight(height))
  {
    hide Filter, InsertByHeight, Chronological, ByHeight;
    if rows == [] {
      NothingSorts();
    } else {
      var rest, last := rows[..|rows| - 1], rows[|rows| - 1];
      ByHeightSorts(rest, height);
      ByHeightStep(rows);
      InsertKeepsOrder(ByHeight(rest), last);
      InsertIsStable(ByHeight(rest), last, height);
      FilterOne(last, OfHeight(height));
      FilterAppend(rest, [last], OfHeight(height));
      assert rows == rest + [last];
    }
  }

  lemma {:induction false} ChronologicalStays(rows: seq<EventRow>)
    requires Chronological(rows)
    ensures ByHeight(rows) == rows
  {
    if rows != [] {
      var rest, last := rows[..|rows| - 1], rows[|rows| - 1];
      ChronologicalStays(rest);
      hide ByHeight;
      InsertsAtEnd(rest, last);
      ByHeightStep(rows);
      assert rows == rest + [last];
    }
  }

  lemma InsertsAtEnd(rows: seq<EventRow>, e: EventRow)
    requires rows != [] ==> rows[|rows| - 1].height <= e.height
    ensures InsertByHeight(rows, e) == rows + [e]
  {
  }

  lemma ByHeightStep(rows: seq<EventRow>)
    requires rows != []
    ensures ByHeight(rows) == InsertByHeight(ByHeight(rows[..|rows| - 1]), rows[|rows| - 1])
  {
  }

  lemma {:induction false} EventsAreChronological(net: Network, blocks: seq<Block>)
    requires Numbered(blocks)
    ensures Chronological(EventsOf(net, blocks))
  {
    hide BlockEvents, Replay;
    if blocks != [] {
      var prefix, last := blocks[..|blocks| - 1], blocks[|blocks| - 1];
      EventsAreChronological(net, prefix);
      EventHeights(net, prefix);
      BlockEventsAreAtHeight(net, last, |last.transactions|, Replay(net, prefix));
      assert last.header.height == |blocks| - 1;
    }
  }

  lemma {:induction false} FilterStaysChronological(rows: seq<EventRow>, keep: EventRow -> bool)
    requires Chronological(rows)
    ensures Chronological(Filter(rows, keep))
  {
    if rows != [] {
      var rest, last := rows[..|rows| - 1], rows[|rows| - 1];
      FilterStaysChronological(rest, keep);
      forall i | 0 <= i < |Filter(rest, keep)| ensures Filter(rest, keep)[i].height <= last.height {
        FilterMember(rest, keep, Filter(rest, keep)[i]);
      }
    }
  }

  lemma {:induction false} FilterKeepsSum(rows: seq<EventRow>, a: Address)
    ensures AmountSum(Filter(rows, AtAddress(a)), a) == AmountSum(rows, a)
  {
    if rows != [] {
      var rest, last := rows[..|rows| - 1], rows[|rows| - 1];
      FilterKeepsSum(rest, a);
      if last.address == a {
        AmountSumAppend(Filter(rest, AtAddress(a)), [last], a);
        AmountSumOne(last, a);
        assert Filter(rows, AtAddress(a)) == Filter(rest, AtAddress(a)) + [last];
      } else {
        assert Filter(rows, AtAddress(a)) == Filter(rest, AtAddress(a)) + [] == Filter(rest, AtAddress(a));
      }
    }
  }

  // The history of an address on a rebuilt index: its events in the order the chain made them,
  // and the last running balance is the balance.
  lemma HistoryEndsAtBalance(net: Network, blocks: seq<Block>, a: Address)
    requires Numbered(blocks)
    ensures ByHeight(Filter(EventsOf(net, blocks), AtAddress(a))) == Filter(EventsOf(net, blocks), AtAddress(a))
    ensures AmountSum(ByHeight(Filter(EventsOf(net, blocks), AtAddress(a))), a) == AmountSum(EventsOf(net, blocks), a)
  {
    var rows := EventsOf(net, blocks);
    EventsAreChronological(net, blocks);
    FilterStaysChronological(rows, AtAddress(a));
    ChronologicalStays(Filter(rows, AtAddress(a)));
    FilterKeepsSum(rows, a);
    hide AmountSum, Filter, EventsOf, ByHeight;
  }

  datatype HistoryRow = HistoryRow(event: EventRow, running: int)

  // What an address did. The flag for any activity is `eventCount > 0`.
  datatype Profile = Profile(eventCount: nat, receiveCount: nat, sendCount: nat, receivedSats: nat, sentSats: nat,
                             balanceSats: int,
    heights: Range, timestamps: Range, dustReceiveCount: nat, coinbaseReceiveCount: nat)

  datatype Range = Nothing | Range(first: int, last: int)

  // Newest first, each with the sum of the events up to it.
  ghost predicate IsHistory(rows: seq<HistoryRow>, chronological: seq<EventRow>, a: Address) {
    && |rows| == |chronological|
    && forall k :: 0 <= k < |rows| ==>
         && rows[k].event == chronological[|rows| - 1 - k]
         && rows[k].running == AmountSum(chronological[..|rows| - k], a)
  }

  lemma HistoryLength(rows: seq<HistoryRow>, chronological: seq<EventRow>, a: Address)
    requires IsHistory(rows, chronological, a)
    ensures |rows| == |chronological|
  {
  }

  lemma NoHistory(a: Address)
    ensures IsHistory([], [], a)
  {
  }

  lemma HistoryStep(rows: seq<HistoryRow>, chronological: seq<EventRow>, a: Address, row: HistoryRow)
    requires IsHistory(rows, chronological, a) && row.running == AmountSum(chronological + [row.event], a)
    ensures IsHistory([row] + rows, chronological + [row.event], a)
  {
    var more, events := [row] + rows, chronological + [row.event];
    hide AmountSum;
    assert events[..|more|] == events;
    forall k | 1 <= k < |more|
      ensures more[k].event == events[|more| - 1 - k] && more[k].running == AmountSum(events[..|more| - k], a)
    {
      assert more[k] == rows[k - 1];
      assert events[..|more| - k] == chronological[..|rows| - (k - 1)];
    }
  }

  // The positive amounts among the events of an address.
  function ReceivedSum(events: seq<EventRow>, a: Address): int {
    if events == [] then 0
    else
      var last := events[|events| - 1];
      ReceivedSum(events[..|events| - 1], a) + if last.address == a && last.amount > 0 then last.amount else 0
  }

  // The least and the greatest key of the events of a kind.
  ghost predicate Spans(events: seq<EventRow>, kind: EventRow -> bool, key: EventRow -> int, range: Range) {
    match range
    case Nothing => forall e :: e in events ==> !kind(e)
    case Range(first, last) =>
      && (exists e :: e in events && kind(e) && key(e) == first)
      && (exists e :: e in events && kind(e) && key(e) == last)
      && (forall e :: e in events && kind(e) ==> first <= key(e) <= last)
  }

  function Widened(range: Range, k: int): Range {
    match range
    case Nothing => Range(k, k)
    case Range(first, last) => Range(if k < first then k else first, if k > last then k else last)
  }

  lemma SpansStep(events: seq<EventRow>, kind: EventRow -> bool, key: EventRow -> int, range: Range, e: EventRow)
    requires Spans(events, kind, key, range)
    ensures Spans(events + [e], kind, key, if kind(e) then Widened(range, key(e)) else range)
  {
    var more := events + [e];
    assert e in more;
    if range.Range? {
      var x :| x in events && kind(x) && key(x) == range.first;
      var y :| y in events && kind(y) && key(y) == range.last;
      assert x in more && y in more;
    }
  }

  // The kinds of events that a profile counts.
  function ReceivedAt(a: Address): EventRow -> bool {
    (e: EventRow) => e.address == a && e.direction == Receive
  }

  function SentFrom(a: Address): EventRow -> bool {
    (e: EventRow) => e.address == a && e.direction == Send
  }

  function DustAt(a: Address): EventRow -> bool {
    (e: EventRow) => e.address == a && e.direction == Receive && 0 < e.amount < DUST_THRESHOLD
  }

  function CoinbaseAt(a: Address): EventRow -> bool {
    (e: EventRow) => e.address == a && e.direction == Receive && e.coinbase
  }

  function DatedAt(a: Address): EventRow -> bool {
    (e: EventRow) => e.address == a && e.timestamp != 0
  }

  function HeightKey(): EventRow -> int {
    (e: EventRow) => e.height
  }

  function TimeKey(): EventRow -> int {
    (e: EventRow) => e.timestamp
  }

  lemma {:induction false} FilterCounts(events: seq<EventRow>, kind: EventRow -> bool)
    ensures |Filter(events, kind)| == |set k | 0 <= k < |events| && kind(events[k])|
  {
    var all := set k | 0 <= k < |events| && kind(events[k]);
    if events != [] {
      var n := |events| - 1;
      var rest := events[..n];
      FilterCounts(rest, kind);
      assert (set k | 0 <= k < |rest| && kind(rest[k])) == all - {n};
    }
  }

  lemma CountsAre(events: seq<EventRow>, kind: EventRow -> bool, places: set<int>)
    requires forall k :: k in places <==> 0 <= k < |events| && kind(events[k])
    ensures |Filter(events, kind)| == |places|
  {
    FilterCounts(events, kind);
    assert (set k | 0 <= k < |events| && kind(events[k])) == places;
  }

  // What a profile counts, event by event.
  lemma ProfileCounts(events: seq<EventRow>, a: Address)
    ensures |Filter(events, ReceivedAt(a))|
         == |set k | 0 <= k < |events| && events[k].address == a && events[k].direction == Receive|
    ensures |Filter(events, SentFrom(a))|
         == |set k | 0 <= k < |events| && events[k].address == a && events[k].direction == Send|
    ensures |Filter(events, DustAt(a))|
         == |set k | 0 <= k < |events| && events[k].address == a && events[k].direction == Receive &&
                     1 <= events[k].amount <= 545|
    ensures |Filter(events, CoinbaseAt(a))|
         == |set k | 0 <= k < |events| && events[k].address == a && events[k].direction == Receive &&
           events[k].coinbase|
  {
    hide Filter;
    CountsAre(events, ReceivedAt(a),
              set k | 0 <= k < |events| && events[k].address == a && events[k].direction == Receive);
    CountsAre(events, SentFrom(a), set k | 0 <= k < |events| && events[k].address == a && events[k].direction == Send);
    CountsAre(events, DustAt(a),
              set k | 0 <= k < |events| && events[k].address == a && events[k].direction == Receive &&
                      1 <= events[k].amount <= 545);
    CountsAre(events, CoinbaseAt(a),
              set k | 0 <= k < |events| && events[k].address == a && events[k].direction == Receive &&
                events[k].coinbase);
  }

  // And what it ranges over: the heights of the address's events, and their non-zero times.
  lemma ProfileRanges(events: seq<EventRow>, a: Address, heights: Range, times: Range)
    requires Spans(events, AtAddress(a), HeightKey(), heights) && Spans(events, DatedAt(a), TimeKey(), times)
    ensures heights.Nothing? <==> forall e :: e in events ==> e.address != a
    ensures times.Nothing? <==> forall e :: e in events && e.address == a ==> e.timestamp == 0
    ensures heights.Range? ==> forall e :: e in events && e.address == a ==> heights.first <= e.height <= heights.last
    ensures times.Range? ==>
              forall e :: e in events && e.address == a && e.timestamp != 0 ==> times.first <= e.timestamp <= times.last
  {
    assert forall e :: e in events && e.address == a ==> AtAddress(a)(e) && HeightKey()(e) == e.height;
    assert forall e :: e in events && e.address == a && e.timestamp != 0 ==>
      DatedAt(a)(e) && TimeKey()(e) == e.timestamp;
  }

  // Every event of an address is a receive or a send.
  lemma {:induction false} KindsPartition(events: seq<EventRow>, a: Address)
    ensures |Filter(events, AtAddress(a))| == |Filter(events, ReceivedAt(a))| + |Filter(events, SentFrom(a))|
  {
    if events != [] {
      KindsPartition(events[..|events| - 1], a);
    }
  }

  lemma ReceivedStep(events: seq<EventRow>, e: EventRow, a: Address)
    ensures ReceivedSum(events + [e], a) == ReceivedSum(events, a) +
            if e.address == a && e.amount > 0 then e.amount else 0
    ensures AmountSum(events + [e], a) == AmountSum(events, a) + if e.address == a then e.amount else 0
  {
    assert (events + [e])[..|events|] == events;
  }

  lemma NothingReceived(a: Address)
    ensures ReceivedSum([], a) == 0 == AmountSum([], a)
  {
  }

  // ---- the indexer ----

  datatype Summary = Summary(blocks: nat, transactions: nat, events: nat, mempool: nat)

  function TxCount(blocks: seq<Block>): nat {
    if blocks == [] then 0 else TxCount(blocks[..|blocks| - 1]) + |blocks[|blocks| - 1].transactions|
  }

  class ChainIndexer {
    var blocks: seq<BlockRow>
    var transactions: seq<TxRow>
    var events: seq<EventRow>
    var tipHeight: int
    var tipHash: Option<Hash>

    ghost function Contents(): Tables
      reads this
    {
      Tables(blocks, transactions, events, tipHeight, tipHash)
    }

    constructor ()
      ensures Contents() == Tables([], [], [], -1, None)
    {
      blocks, transactions, events, tipHeight, tipHash := [], [], [], -1, None;
    }

    method Reset()
      modifies this
      ensures Contents() == Tables([], [], [], -1, None)
    {
      blocks, transactions, events, tipHeight, tipHash := [], [], [], -1, None;
    }

    // The coins leaving: their events and their value.
    method IndexInputs(net: Network, b: Block, tx: Transaction, created: Utxos) returns (inputSats: nat)
      modifies this`events
      ensures events == old(events) + Sends(net, b, tx, created, |tx.inputs|)
      ensures inputSats == KnownInputs(tx, created, |tx.inputs|)
    {
      inputSats := 0;
      assert events == events + [];
      for k := 0 to |tx.inputs|
        invariant events == old(events) + Sends(net, b, tx, created, k)
        invariant inputSats == KnownInputs(tx, created, k)
      {
        var op := tx.inputs[k].prevout;
        if op in created {
          inputSats := inputSats + created[op].output.amount;
          if created[op].output.address != "" {
            events := events + [SendEvent(net, b, tx, op, created[op])];
          }
        }
      }
    }

    // The coins arriving: their events, and the coins themselves.
    method IndexOutputs(net: Network, b: Block, tx: Transaction, created: Utxos) returns (after: Utxos)
      modifies this`events
      ensures events == old(events) + Receives(net, b, tx, |tx.outputs|)
      ensures after == created + CreatedBy(net, tx, b.header.height, tx.IsCoinbase())
    {
      after := created;
      assert events == events + [];
      hide Arrivals, Transaction.IsCoinbase, CreatedBy;
      ArrivalsFrame(net, tx, created, b.header.height, tx.IsCoinbase());
      for k := 0 to |tx.outputs|
        invariant events == old(events) + Receives(net, b, tx, k)
        invariant after == created + Arrivals(net, tx, k, b.header.height, tx.IsCoinbase())
      {
        MergeNext(net, tx, created, k, b.header.height, tx.IsCoinbase());
        if tx.outputs[k].amount <= 0 {
          continue;
        }
        after := after[Outpoint(net.txid(tx), k) := Spendable(tx.outputs[k], b.header.height, tx.IsCoinbase())];
        if tx.outputs[k].address != "" {
          events := events + [ReceiveEvent(net, b, tx, k)];
        }
      }
    }

    method IndexTx(net: Network, b: Block, i: nat, created: Utxos) returns (after: Utxos)
      requires i < |b.transactions|
      modifies this`events, this`transactions
      ensures events == old(events) + TxEvents(net, b, b.transactions[i], created)
      ensures transactions == PutTx(old(transactions), ConfirmedRow(net, b, i, created))
      ensures after == ApplyTx(net, b.transactions[i], created, b.header.height)
    {
      hide Sends, Receives, Created, PutTx, KnownInputs, Transaction.IsCoinbase, OutputSum;
      var tx := b.transactions[i];
      var inputSats := 0;
      ghost var sends: seq<EventRow> := [];
      if !tx.IsCoinbase() {
        inputSats := IndexInputs(net, b, tx, created);
        sends := Sends(net, b, tx, created, |tx.inputs|);
      }
      assert events == old(events) + sends;
      var outputSats := OutputSum(tx.outputs);
      var feeSats := if !tx.IsCoinbase() && inputSats > outputSats then inputSats - outputSats else 0;
      transactions := PutTx(transactions, TxRow(net.txid(tx), Some(net.BlockHash(b)), Some(b.header.height), Some(i),
        b.header.timestamp, inputSats, outputSats, feeSats, tx, false));
      after := created;
      if !tx.IsCoinbase() {
        after := Forget(tx, created);
      }
      after := IndexOutputs(net, b, tx, after);
      assert events == old(events) + (sends + Receives(net, b, tx, |tx.outputs|));
    }

    method Forget(tx: Transaction, created: Utxos) returns (after: Utxos)
      ensures after == created - SpentBy(tx)
    {
      after := created;
      for k := 0 to |tx.inputs|
        invariant after == created - Spent(tx, k)
      {
        after := after - {tx.inputs[k].prevout};
      }
    }

    method IndexBlock(net: Network, b: Block, created: Utxos) returns (after: Utxos)
      modifies this`events, this`transactions, this`blocks
      ensures blocks == PutBlock(old(blocks), BlockRowOf(net, b))
      ensures events == old(events) + BlockEvents(net, b, |b.transactions|, created)
      ensures transactions == BlockTxTable(net, old(transactions), b, |b.transactions|, created)
      ensures after == ConnectBlock(net, b, created)
    {
      hide TxEvents, ConfirmedRow, PutTx, ApplyTx;
      blocks := PutBlock(blocks, BlockRowOf(net, b));
      after := created;
      assert events == events + [];
      for i := 0 to |b.transactions|
        invariant blocks == PutBlock(old(blocks), BlockRowOf(net, b))
        invariant events == old(events) + BlockEvents(net, b, i, created)
        invariant transactions == BlockTxTable(net, old(transactions), b, i, created)
        invariant after == Before(net, b, i, created)
      {
        ghost var sofar := BlockEvents(net, b, i, created);
        after := IndexTx(net, b, i, after);
        assert events == old(events) + (sofar + TxEvents(net, b, b.transactions[i], Before(net, b, i, created)));
      }
    }

    // Rebuilding leaves exactly the tables of the chain, whatever was there before.
    method Rebuild(net: Network, chain: seq<Block>, mempool: Option<seq<Unconfirmed>>) returns (summary: Summary)
      requires chain != []
      modifies this
      ensures Contents() == Rebuilt(net, chain, mempool)
      ensures summary.blocks == |chain| && summary.transactions == TxCount(chain) &&
              summary.events == |EventsOf(net, chain)|
      ensures summary.mempool == if mempool.Some? then |mempool.value| else 0
    {
      hide BlockEvents, BlockTxTable, ConnectBlock, PutBlock;
      Reset();
      var created: Utxos := map[];
      var txs := 0;
      for k := 0 to |chain|
        invariant blocks == BlockTable(net, chain[..k])
        invariant transactions == TxTable(net, chain[..k])
        invariant events == EventsOf(net, chain[..k])
        invariant created == Replay(net, chain[..k]) && txs == TxCount(chain[..k])
      {
        assert chain[..k + 1][..k] == chain[..k];
        txs := txs + |chain[k].transactions|;
        created := IndexBlock(net, chain[k], created);
      }
      assert chain[..|chain|] == chain;
      tipHeight := chain[|chain| - 1].header.height;
      tipHash := Some(net.BlockHash(chain[|chain| - 1]));
      summary := Summary(|chain|, txs, |events|, 0);
      if mempool.Some? {
        var count := IndexMempool(net, mempool.value);
        summary := summary.(mempool := count);
      }
    }

    method IndexMempool(net: Network, mempool: seq<Unconfirmed>) returns (count: nat)
      modifies this`transactions
      ensures transactions == WithMempool(net, old(transactions), mempool) && count == |mempool|
    {
      transactions := Filter(transactions, Confirmed());
      count := 0;
      for k := 0 to |mempool|
        invariant transactions == PutUnconfirmed(net, Filter(old(transactions), Confirmed()), mempool, k)
        invariant count == k
      {
        transactions := PutTx(transactions, UnconfirmedRow(net, mempool[k]));
        count := count + 1;
      }
    }

    method RollbackToHeight(height: int)
      modifies this
      ensures Contents() == RolledBack(old(Contents()), height)
      ensures forall net: Network, chain, mempool ::
                net.Ideal() && Numbered(chain) && old(Contents()) == Rebuilt(net, chain, mempool) ==>
                  (Contents() == Rebuilt(net, CutAt(chain, height), mempool) <==>
                   !RepeatsTxid(net, chain, mempool, height))
    {
      hide Network.Ideal, Rebuilt, RepeatsTxid, CutAt, Numbered, Filter, TopRow;
      blocks := Filter(blocks, BlockUpTo(height));
      transactions := Filter(transactions, TxUpTo(height));
      events := Filter(events, EventUpTo(height));
      var top := TopRow(blocks);
      if top.Some? {
        tipHeight, tipHash := top.value.height, Some(top.value.blockHash);
      } else {
        tipHeight, tipHash := -1, None;
      }
      forall net: Network, chain, mempool |
        net.Ideal() && Numbered(chain) && old(Contents()) == Rebuilt(net, chain, mempool)
        ensures Contents() == Rebuilt(net, CutAt(chain, height), mempool) <==> !RepeatsTxid(net, chain, mempool, height)
      {
        RollbackIsRebuildExactly(net, chain, mempool, height);
      }
    }

    // The newest events first, each with the balance running over the events listed up to it.
    method AddressHistory(a: Address, limit: int) returns (rows: seq<HistoryRow>, balance: int)
      ensures balance == AmountSum(events, a)
      ensures
        var all := ByHeight(Filter(events, AtAddress(a)));
        var most := if limit < 1 then 1 else if limit > 500 then 500 else limit;
        && |rows| == (if |all| < most then |all| else most)
        && IsHistory(rows, all[|all| - |rows|..], a)
    {
      hide ByHeight, Filter, AmountSum, IsHistory;
      var most := if limit < 1 then 1 else if limit > 500 then 500 else limit;
      var all := ByHeight(Filter(events, AtAddress(a)));
      var n := if |all| < most then |all| else most;
      var chronological := all[|all| - n..];
      rows := [];
      var running := 0;
      AmountSumNone(a);
      NoHistory(a);
      assert chronological[..0] == [];
      for k := 0 to n
        invariant running == AmountSum(chronological[..k], a)
        invariant IsHistory(rows, chronological[..k], a)
      {
        var e := chronological[k];
        assert e == all[|all| - n + k];
        AllAtAddress(events, a, e);
        AmountSumAppend(chronological[..k], [e], a);
        AmountSumOne(e, a);
        assert chronological[..k + 1] == chronological[..k] + [e];
        running := running + e.amount;
        HistoryStep(rows, chronological[..k], a, HistoryRow(e, running));
        rows := [HistoryRow(e, running)] + rows;
      }
      assert chronological[..n] == chronological;
      HistoryLength(rows, chronological, a);
      balance := Balance(a);
    }

    method Balance(a: Address) returns (balance: int)
      ensures balance == AmountSum(events, a)
    {
      balance := 0;
      for k := 0 to |events|
        invariant balance == AmountSum(events[..k], a)
      {
        assert events[..k + 1][..k] == events[..k];
        if events[k].address == a {
          balance := balance + events[k].amount;
        }
      }
      assert events[..|events|] == events;
    }

    // Counts, totals and ranges over all events of an address.
    method AddressProfile(a: Address) returns (p: Profile)
      ensures p.receivedSats == ReceivedSum(events, a) && p.balanceSats == AmountSum(events, a)
      ensures p.balanceSats == p.receivedSats - p.sentSats
      ensures p.receiveCount == |Filter(events, ReceivedAt(a))| && p.sendCount == |Filter(events, SentFrom(a))|
      ensures p.eventCount == p.receiveCount + p.sendCount == |Filter(events, AtAddress(a))|
      ensures p.dustReceiveCount == |Filter(events, DustAt(a))| &&
              p.coinbaseReceiveCount == |Filter(events, CoinbaseAt(a))|
      ensures Spans(events, AtAddress(a), HeightKey(), p.heights) && Spans(events, DatedAt(a), TimeKey(), p.timestamps)
    {
      hide Filter, AmountSum, ReceivedSum, Spans;
      var received, sent := Totals(a);
      var count := CountEvents(AtAddress(a));
      var receives := CountEvents(ReceivedAt(a));
      var sends := CountEvents(SentFrom(a));
      var dust := CountEvents(DustAt(a));
      var coinbases := CountEvents(CoinbaseAt(a));
      var heights := RangeOf(AtAddress(a), HeightKey());
      var timestamps := RangeOf(DatedAt(a), TimeKey());
      KindsPartition(events, a);
      return Profile(count, receives, sends, received, sent, received - sent, heights, timestamps, dust, coinbases);
    }

    method Totals(a: Address) returns (received: int, sent: int)
      ensures received >= 0 && sent >= 0
      ensures received == ReceivedSum(events, a) && received - sent == AmountSum(events, a)
    {
      hide AmountSum, ReceivedSum;
      received, sent := 0, 0;
      NothingReceived(a);
      assert events[..0] == [];
      for k := 0 to |events|
        invariant received >= 0 && sent >= 0
        invariant received == ReceivedSum(events[..k], a) && received - sent == AmountSum(events[..k], a)
      {
        var e := events[k];
        assert events[..k + 1] == events[..k] + [e];
        ReceivedStep(events[..k], e, a);
        if e.address == a {
          if e.amount > 0 {
            received := received + e.amount;
          } else {
            sent := sent - e.amount;
          }
        }
      }
      assert events[..|events|] == events;
    }

    method CountEvents(kind: EventRow -> bool) returns (count: nat)
      ensures count == |Filter(events, kind)|
    {
      count := 0;
      for k := 0 to |events|
        invariant count == |Filter(events[..k], kind)|
      {
        assert events[..k + 1][..k] == events[..k];
        if kind(events[k]) {
          count := count + 1;
        }
      }
      assert events[..|events|] == events;
    }

    method RangeOf(kind: EventRow -> bool, key: EventRow -> int) returns (range: Range)
      ensures Spans(events, kind, key, range)
    {
      range := Nothing;
      for k := 0 to |events|
        invariant Spans(events[..k], kind, key, range)
      {
        hide Spans;
        assert events[..k + 1] == events[..k] + [events[k]];
        SpansStep(events[..k], kind, key, range, events[k]);
        if kind(events[k]) {
          range := Widened(range, key(events[k]));
        }
      }
      assert events[..|events|] == events;
    }
  }

  lemma {:induction false} InsertedMembers(rows: seq<EventRow>, e: EventRow, x: EventRow)
    ensures x in InsertByHeight(rows, e) <==> x in rows || x == e
  {
    if rows != [] && rows[|rows| - 1].height > e.height {
      InsertedMembers(rows[..|rows| - 1], e, x);
      assert rows == rows[..|rows| - 1] + [rows[|rows| - 1]];
    }
  }

  lemma {:induction false} OrderedMembers(rows: seq<EventRow>, x: EventRow)
    ensures x in ByHeight(rows) <==> x in rows
  {
    if rows != [] {
      OrderedMembers(rows[..|rows| - 1], x);
      InsertedMembers(ByHeight(rows[..|rows| - 1]), rows[|rows| - 1], x);
      assert rows == rows[..|rows| - 1] + [rows[|rows| - 1]];
    }
  }

  lemma AllAtAddress(events: seq<EventRow>, a: Address, e: EventRow)
    requires e in ByHeight(Filter(events, AtAddress(a)))
    ensures e.address == a
  {
    OrderedMembers(Filter(events, AtAddress(a)), e);
    FilterMember(events, AtAddress(a), e);
  }
}
