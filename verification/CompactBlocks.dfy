// Compact block relay (netcoin/compact.py): a header, short transaction ids and a few
// prefilled transactions, completed from the receiver's mempool and the sender's payload.
module CompactBlocks {
  import opened Wrappers
  import opened Ledger

  type ShortId = string

  // The short id of a transaction, a prefix of its txid.
  type ShortOf = Transaction -> ShortId

  datatype CompactBlock = CompactBlock(header: Header, shortIds: seq<ShortId>, prefilled: map<int, Transaction>)

  datatype Wanted = Wanted(index: nat, shortId: ShortId)

  datatype Answer = Answer(index: nat, shortId: ShortId, tx: Transaction)

  datatype CompactError = ShortIdsExhausted | MissingTransactions(wanted: seq<Wanted>) | EmptyBlock

  function Total(c: CompactBlock): nat {
    |c.shortIds| + |c.prefilled|
  }

  // How many of the first `count` positions are left open by the prefilled ones.
  function Open(prefilled: set<int>, count: nat): nat {
    if count == 0 then 0 else Open(prefilled, count - 1) + if count - 1 in prefilled then 0 else 1
  }

  // Prefilled positions outside the block leave more open positions than short ids.
  predicate WellFormed(c: CompactBlock) {
    forall i <- c.prefilled.Keys :: 0 <= i < Total(c)
  }

  // ---- counting open positions ----

  function Inside(prefilled: set<int>, count: nat): set<int> {
    set i | i in prefilled && 0 <= i < count
  }

  lemma {:induction false} OpenAndInside(prefilled: set<int>, count: nat)
    ensures Open(prefilled, count) + |Inside(prefilled, count)| == count
  {
    if count == 0 {
      assert Inside(prefilled, 0) == {};
    } else {
      OpenAndInside(prefilled, count - 1);
      var before := Inside(prefilled, count - 1);
      assert Inside(prefilled, count) == if count - 1 in prefilled then before + {count - 1} else before;
    }
  }

  lemma {:induction false} OpenIsMonotone(prefilled: set<int>, a: nat, b: nat)
    requires a <= b
    ensures Open(prefilled, a) <= Open(prefilled, b)
    decreases b
  {
    if a < b {
      OpenIsMonotone(prefilled, a, b - 1);
    }
  }

  lemma {:induction false} OpenReadsInside(a: set<int>, b: set<int>, count: nat)
    requires forall i :: 0 <= i < count ==> (i in a <==> i in b)
    ensures Open(a, count) == Open(b, count)
  {
    if count > 0 {
      OpenReadsInside(a, b, count - 1);
    }
  }

  // The short ids run out exactly when a prefilled position lies outside the block.
  lemma ShortIdsSuffice(c: CompactBlock)
    ensures WellFormed(c) <==> Open(c.prefilled.Keys, Total(c)) <= |c.shortIds|
  {
    var keys, inside := c.prefilled.Keys, Inside(c.prefilled.Keys, Total(c));
    OpenAndInside(keys, Total(c));
    assert |keys| == |c.prefilled|;
    assert inside <= keys;
    Cardinality(inside, keys);
    assert WellFormed(c) <==> inside == keys;
  }

  lemma Cardinality(a: set<int>, b: set<int>)
    requires a <= b
    ensures |a| <= |b|
    ensures |a| == |b| ==> a == b
  {
    var rest := b - a;
    assert b == a + rest;
  }

  // ---- the lookup table ----

  // A repeated short id takes its entry out of the table again.
  function Toggle(short: ShortOf, table: map<ShortId, Transaction>, tx: Transaction): map<ShortId, Transaction> {
    if short(tx) in table then table - {short(tx)} else table[short(tx) := tx]
  }

  function Table(short: ShortOf, txs: seq<Transaction>): map<ShortId, Transaction> {
    if txs == [] then map[] else Toggle(short, Table(short, txs[..|txs| - 1]), txs[|txs| - 1])
  }

  function Occurrences(short: ShortOf, txs: seq<Transaction>, s: ShortId): nat {
    if txs == [] then 0
    else Occurrences(short, txs[..|txs| - 1], s) + if short(txs[|txs| - 1]) == s then 1 else 0
  }

  ghost predicate IsLast(short: ShortOf, txs: seq<Transaction>, s: ShortId, tx: Transaction) {
    exists k :: 0 <= k < |txs| && txs[k] == tx && short(tx) == s && forall j :: k < j < |txs| ==> short(txs[j]) != s
  }

  // A short id answers exactly when an odd number of transactions carry it, with the last of
  // them: two collide to nothing, but a third one answers again.
  lemma {:induction false} TableAnswersOddIds(short: ShortOf, txs: seq<Transaction>, s: ShortId)
    ensures s in Table(short, txs) <==> Occurrences(short, txs, s) % 2 == 1
    ensures s in Table(short, txs) ==> IsLast(short, txs, s, Table(short, txs)[s])
  {
    if txs != [] {
      var rest, last := txs[..|txs| - 1], txs[|txs| - 1];
      TableAnswersOddIds(short, rest, s);
      if s in Table(short, txs) {
        if short(last) == s {
          assert IsLast(short, txs, s, last) by {
            assert txs[|txs| - 1] == last;
          }
        } else {
          LastSurvives(short, rest, last, s, Table(short, rest)[s]);
          assert txs == rest + [last];
        }
      }
    }
  }

  // Two transactions that share a short id cancel, and a third one puts the id back.
  lemma ThirdCollisionAnswers(short: ShortOf, a: Transaction, b: Transaction, c: Transaction)
    requires short(a) == short(b) == short(c)
    ensures short(a) !in Table(short, [a, b])
    ensures short(a) in Table(short, [a, b, c]) && Table(short, [a, b, c])[short(a)] == c
  {
    assert Table(short, [a]) == map[short(a) := a] by {
      assert [a][..0] == [];
    }
    assert [a, b][..1] == [a] && [a, b, c][..2] == [a, b];
    assert Table(short, [a, b]) == map[];
  }

  lemma LastSurvives(short: ShortOf, txs: seq<Transaction>, other: Transaction, s: ShortId, tx: Transaction)
    requires IsLast(short, txs, s, tx) && short(other) != s
    ensures IsLast(short, txs + [other], s, tx)
  {
    var k :| 0 <= k < |txs| && txs[k] == tx && short(tx) == s && forall j :: k < j < |txs| ==> short(txs[j]) != s;
    var more := txs + [other];
    assert more[k] == tx;
    forall j | k < j < |more| ensures short(more[j]) != s {
      assert j < |txs| ==> more[j] == txs[j];
    }
  }

  lemma {:induction false} CarriedIsCounted(short: ShortOf, txs: seq<Transaction>, s: ShortId, i: nat)
    requires i < |txs| && short(txs[i]) == s
    ensures Occurrences(short, txs, s) >= 1
  {
    if i < |txs| - 1 {
      CarriedIsCounted(short, txs[..|txs| - 1], s, i);
    }
  }

  lemma {:induction false} AbsentIsUncounted(short: ShortOf, txs: seq<Transaction>, s: ShortId)
    requires forall k :: 0 <= k < |txs| ==> short(txs[k]) != s
    ensures Occurrences(short, txs, s) == 0
  {
    if txs != [] {
      AbsentIsUncounted(short, txs[..|txs| - 1], s);
    }
  }

  // One transaction alone under its short id answers for it.
  lemma {:induction false} SingleAnswer(short: ShortOf, txs: seq<Transaction>, i: nat)
    requires i < |txs| && forall k :: 0 <= k < |txs| && k != i ==> short(txs[k]) != short(txs[i])
    ensures short(txs[i]) in Table(short, txs) && Table(short, txs)[short(txs[i])] == txs[i]
  {
    var rest, last := txs[..|txs| - 1], txs[|txs| - 1];
    if i < |rest| {
      SingleAnswer(short, rest, i);
    } else {
      AbsentIsUncounted(short, rest, short(last));
      TableAnswersOddIds(short, rest, short(last));
    }
  }

  // The pool's table, overridden by the extra transactions' table.
  function Lookup(short: ShortOf, mempool: seq<Transaction>,
                  extra: Option<seq<Transaction>>): map<ShortId, Transaction> {
    match extra
    case None => Table(short, mempool)
    case Some(txs) => Table(short, mempool) + Table(short, txs)
  }

  method TxByShortId(short: ShortOf, txs: seq<Transaction>) returns (table: map<ShortId, Transaction>)
    ensures table == Table(short, txs)
  {
    hide Toggle;
    table := map[];
    for k := 0 to |txs|
      invariant table == Table(short, txs[..k])
    {
      assert txs[..k + 1][..k] == txs[..k];
      table := Toggled(short, table, txs[k]);
    }
    assert txs[..|txs|] == txs;
  }

  method Toggled(short: ShortOf, before: map<ShortId, Transaction>, tx: Transaction)
    returns (table: map<ShortId, Transaction>)
    ensures table == Toggle(short, before, tx)
  {
    var s := short(tx);
    table := before;
    if s in table {
      table := table - {s};
    } else {
      table := table[s := tx];
    }
  }

  // ---- announcing ----

  function ShortIds(short: ShortOf, txs: seq<Transaction>, prefill: set<int>, count: nat): seq<ShortId>
    requires count <= |txs|
  {
    if count == 0 then []
    else
      ShortIds(short, txs, prefill, count - 1) + if count - 1 in prefill then [] else [short(txs[count - 1])]
  }

  function Prefilled(txs: seq<Transaction>, prefill: set<int>, count: nat): map<int, Transaction>
    requires count <= |txs|
  {
    map i | i in prefill && 0 <= i < count :: txs[i]
  }

  function Compact(short: ShortOf, b: Block, prefill: set<int>): CompactBlock {
    var txs := b.transactions;
    CompactBlock(b.header, ShortIds(short, txs, prefill, |txs|), Prefilled(txs, prefill, |txs|))
  }

  method MakeCompactBlock(short: ShortOf, b: Block, prefillIndexes: Option<seq<int>>) returns (c: CompactBlock)
    ensures c == Compact(short, b, match prefillIndexes case None => {0} case Some(s) => set i | i in s)
  {
    var prefill := match prefillIndexes case None => {0} case Some(s) => set i | i in s;
    var shortIds: seq<ShortId> := [];
    var prefilled: map<int, Transaction> := map[];
    for i := 0 to |b.transactions|
      invariant shortIds == ShortIds(short, b.transactions, prefill, i)
      invariant prefilled == Prefilled(b.transactions, prefill, i)
    {
      if i in prefill {
        prefilled := prefilled[i := b.transactions[i]];
      } else {
        shortIds := shortIds + [short(b.transactions[i])];
      }
    }
    return CompactBlock(b.header, shortIds, prefilled);
  }

  // ---- completing ----

  // The short id an open position takes, unless they have run out.
  function SlotId(c: CompactBlock, i: nat): Option<ShortId> {
    var k := Open(c.prefilled.Keys, i);
    if k < |c.shortIds| then Some(c.shortIds[k]) else None
  }

  function WantedAt(c: CompactBlock, table: map<ShortId, Transaction>, i: nat): seq<Wanted> {
    if i in c.prefilled then []
    else
      match SlotId(c, i)
      case None => []
      case Some(s) => if s in table then [] else [Wanted(i, s)]
  }

  // What is wanted at the first `count` positions, in order.
  function WantedAmong(c: CompactBlock, table: map<ShortId, Transaction>, count: nat): seq<Wanted> {
    if count == 0 then [] else WantedAmong(c, table, count - 1) + WantedAt(c, table, count - 1)
  }

  // The transaction at a position, unless it is wanted there.
  function At(c: CompactBlock, table: map<ShortId, Transaction>, i: nat): Option<Transaction> {
    if i in c.prefilled then Some(c.prefilled[i])
    else
      match SlotId(c, i)
      case None => None
      case Some(s) => if s in table then Some(table[s]) else None
  }

  // Within a well-formed compact block every open position has a short id.
  lemma OpenPositionHasId(c: CompactBlock, i: nat)
    requires WellFormed(c) && i < Total(c) && i !in c.prefilled
    ensures SlotId(c, i).Some?
  {
    ShortIdsSuffice(c);
    OpenIsMonotone(c.prefilled.Keys, i + 1, Total(c));
  }

  // The transactions found among the first `count` positions, in order.
  function Found(c: CompactBlock, table: map<ShortId, Transaction>, count: nat): seq<Transaction> {
    if count == 0 then []
    else Found(c, table, count - 1) + match At(c, table, count - 1) case None => [] case Some(tx) => [tx]
  }

  function Reconstruction(c: CompactBlock, table: map<ShortId, Transaction>): Result<Block, CompactError> {
    if !WellFormed(c) then Err(ShortIdsExhausted)
    else if WantedAmong(c, table, Total(c)) != [] then Err(MissingTransactions(WantedAmong(c, table, Total(c))))
    else if Found(c, table, Total(c)) == [] then Err(EmptyBlock)
    else Ok(RawBlock(c.header, Found(c, table, Total(c))))
  }

  // One position of a scan over the block.
  lemma ScanStep(c: CompactBlock, table: map<ShortId, Transaction>, i: nat)
    requires i < Total(c)
    ensures Open(c.prefilled.Keys, i + 1) == Open(c.prefilled.Keys, i) + if i in c.prefilled then 0 else 1
    ensures Open(c.prefilled.Keys, i + 1) <= Open(c.prefilled.Keys, Total(c))
    ensures WantedAmong(c, table, i + 1) == WantedAmong(c, table, i) + WantedAt(c, table, i)
    ensures Found(c, table, i + 1) == Found(c, table, i) + match At(c, table, i) case None => [] case Some(tx) => [tx]
  {
    hide WantedAt, At, SlotId, WantedAmong;
    OpenIsMonotone(c.prefilled.Keys, i + 1, Total(c));
    WantedStep(c, table, i);
  }

  lemma ScanStart(c: CompactBlock, table: map<ShortId, Transaction>)
    ensures Open(c.prefilled.Keys, 0) == 0 && WantedAmong(c, table, 0) == [] && Found(c, table, 0) == []
  {
  }

  method CompactBlockPositions(c: CompactBlock) returns (r: Result<seq<Wanted>, CompactError>)
    ensures r == if WellFormed(c) then Ok(WantedAmong(c, map[], Total(c))) else Err(ShortIdsExhausted)
  {
    hide Open, WantedAmong, Found, WellFormed;
    ShortIdsSuffice(c);
    ScanStart(c, map[]);
    var result: seq<Wanted> := [];
    var next := 0;
    for i := 0 to Total(c)
      invariant next == Open(c.prefilled.Keys, i) <= |c.shortIds|
      invariant result == WantedAmong(c, map[], i)
    {
      ScanStep(c, map[], i);
      if i in c.prefilled {
        continue;
      }
      if next == |c.shortIds| {
        return Err(ShortIdsExhausted);
      }
      result := result + [Wanted(i, c.shortIds[next])];
      next := next + 1;
    }
    return Ok(result);
  }

  // The open positions whose short ids the table does not answer.
  function Unanswered(positions: seq<Wanted>, table: map<ShortId, Transaction>): seq<Wanted> {
    if positions == [] then []
    else
      var last := positions[|positions| - 1];
      Unanswered(positions[..|positions| - 1], table) + if last.shortId in table then [] else [last]
  }

  lemma UnansweredAppend(a: seq<Wanted>, b: seq<Wanted>, table: map<ShortId, Transaction>)
    requires |b| <= 1
    ensures Unanswered(a + b, table) == Unanswered(a, table) + Unanswered(b, table)
  {
    if |b| == 1 {
      assert (a + b)[..|a|] == a;
      assert Unanswered(b, table) == Unanswered(b[..0], table) + if b[0].shortId in table then [] else [b[0]];
      assert b == [b[0]];
    } else {
      assert a + b == a;
    }
  }

  lemma UnansweredAt(c: CompactBlock, table: map<ShortId, Transaction>, i: nat)
    ensures |WantedAt(c, map[], i)| <= 1
    ensures Unanswered(WantedAt(c, map[], i), table) == WantedAt(c, table, i)
  {
    hide SlotId;
    var at := WantedAt(c, map[], i);
    if at != [] {
      assert Unanswered(at[..0], table) == [];
    }
  }

  lemma {:induction false} UnansweredIsWanted(c: CompactBlock, table: map<ShortId, Transaction>, count: nat)
    ensures Unanswered(WantedAmong(c, map[], count), table) == WantedAmong(c, table, count)
  {
    hide *;
    if count == 0 {
      NothingWantedYet(c, map[]);
      NothingWantedYet(c, table);
    } else {
      UnansweredIsWanted(c, table, count - 1);
      UnansweredAt(c, table, count - 1);
      UnansweredAppend(WantedAmong(c, map[], count - 1), WantedAt(c, map[], count - 1), table);
      WantedStep(c, map[], count - 1);
      WantedStep(c, table, count - 1);
    }
  }

  lemma NothingWantedYet(c: CompactBlock, table: map<ShortId, Transaction>)
    ensures WantedAmong(c, table, 0) == [] == Unanswered([], table)
  {
  }

  lemma WantedStep(c: CompactBlock, table: map<ShortId, Transaction>, i: nat)
    ensures WantedAmong(c, table, i + 1) == WantedAmong(c, table, i) + WantedAt(c, table, i)
  {
  }

  method MissingFrom(short: ShortOf, c: CompactBlock, mempool: seq<Transaction>)
    returns (r: Result<seq<Wanted>, CompactError>)
    ensures r == if WellFormed(c) then Ok(WantedAmong(c, Table(short, mempool), Total(c))) else Err(ShortIdsExhausted)
  {
    hide *;
    var table := TxByShortId(short, mempool);
    var positions := CompactBlockPositions(c);
    if positions.Err? {
      return positions;
    }
    var missing := KeepUnanswered(positions.value, table);
    UnansweredIsWanted(c, table, Total(c));
    return Ok(missing);
  }

  method KeepUnanswered(positions: seq<Wanted>, table: map<ShortId, Transaction>) returns (missing: seq<Wanted>)
    ensures missing == Unanswered(positions, table)
  {
    missing := [];
    for k := 0 to |positions|
      invariant missing == Unanswered(positions[..k], table)
    {
      assert positions[..k + 1][..k] == positions[..k];
      if positions[k].shortId !in table {
        missing := missing + [positions[k]];
      }
    }
    assert positions[..|positions|] == positions;
  }

  method Reconstruct(short: ShortOf, c: CompactBlock, mempool: seq<Transaction>, extra: Option<seq<Transaction>>)
      returns (r: Result<Block, CompactError>)
    ensures r == Reconstruction(c, Lookup(short, mempool, extra))
  {
    var table := TxByShortId(short, mempool);
    if extra.Some? && extra.value != [] {
      var more := TxByShortId(short, extra.value);
      table := table + more;
    }
    assert table == Lookup(short, mempool, extra);
    r := Complete(c, table);
  }

  method Complete(c: CompactBlock, table: map<ShortId, Transaction>) returns (r: Result<Block, CompactError>)
    ensures r == Reconstruction(c, table)
  {
    hide Open, WantedAmong, Found, WellFormed;
    ShortIdsSuffice(c);
    ScanStart(c, table);
    var txs: seq<Transaction> := [];
    var missing: seq<Wanted> := [];
    var next := 0;
    for i := 0 to Total(c)
      invariant next == Open(c.prefilled.Keys, i) <= |c.shortIds|
      invariant txs == Found(c, table, i)
      invariant missing == WantedAmong(c, table, i)
    {
      ScanStep(c, table, i);
      if i in c.prefilled {
        txs := txs + [c.prefilled[i]];
        continue;
      }
      if next == |c.shortIds| {
        return Err(ShortIdsExhausted);
      }
      var s := c.shortIds[next];
      next := next + 1;
      if s !in table {
        missing := missing + [Wanted(i, s)];
        continue;
      }
      txs := txs + [table[s]];
    }
    if missing != [] {
      return Err(MissingTransactions(missing));
    }
    if txs == [] {
      return Err(EmptyBlock);
    }
    return Ok(RawBlock(c.header, txs));
  }

  // ---- what completing gives ----

  // The reported list names exactly the open positions the table does not answer.
  lemma {:induction false} WantedExactly(c: CompactBlock, table: map<ShortId, Transaction>, count: nat, i: nat,
                                         s: ShortId)
    ensures Wanted(i, s) in WantedAmong(c, table, count) <==>
              i < count && At(c, table, i).None? && SlotId(c, i) == Some(s)
  {
    hide SlotId;
    if count > 0 {
      WantedExactly(c, table, count - 1, i, s);
    }
  }

  lemma NothingWanted(c: CompactBlock, table: map<ShortId, Transaction>)
    requires WellFormed(c)
    ensures WantedAmong(c, table, Total(c)) == [] <==> forall i :: 0 <= i < Total(c) ==> At(c, table, i).Some?
  {
    var wanted := WantedAmong(c, table, Total(c));
    if wanted == [] {
      forall i: nat | i < Total(c) ensures At(c, table, i).Some? {
        if At(c, table, i).None? {
          OpenPositionHasId(c, i);
          WantedExactly(c, table, Total(c), i, SlotId(c, i).value);
        }
      }
    } else {
      WantedExactly(c, table, Total(c), wanted[0].index, wanted[0].shortId);
      assert Wanted(wanted[0].index, wanted[0].shortId) == wanted[0];
    }
  }

  lemma {:induction false} FoundInOrder(c: CompactBlock, table: map<ShortId, Transaction>, count: nat)
    requires forall i :: 0 <= i < count ==> At(c, table, i).Some?
    ensures |Found(c, table, count)| == count
    ensures forall i :: 0 <= i < count ==> Found(c, table, count)[i] == At(c, table, i).value
  {
    if count > 0 {
      FoundInOrder(c, table, count - 1);
    }
  }

  // Reconstruction succeeds exactly on a well-formed, non-empty compact block for which
  // nothing is missing, and then has one transaction at every announced position.
  lemma SucceedsWhenNothingIsMissing(c: CompactBlock, table: map<ShortId, Transaction>)
    ensures Reconstruction(c, table).Ok? <==>
              WellFormed(c) && Total(c) > 0 && forall i :: 0 <= i < Total(c) ==> At(c, table, i).Some?
    ensures Reconstruction(c, table).Ok? ==> |Reconstruction(c, table).value.transactions| == Total(c)
  {
    if WellFormed(c) {
      NothingWanted(c, table);
      if WantedAmong(c, table, Total(c)) == [] {
        FoundInOrder(c, table, Total(c));
      }
    }
  }

  // ---- the round trip ----

  lemma {:induction false} ShortIdsCounted(short: ShortOf, txs: seq<Transaction>, prefill: set<int>, count: nat)
    requires count <= |txs|
    ensures |ShortIds(short, txs, prefill, count)| == Open(prefill, count)
  {
    if count > 0 {
      ShortIdsCounted(short, txs, prefill, count - 1);
    }
  }

  lemma {:induction false} ShortIdsInOrder(short: ShortOf, txs: seq<Transaction>, prefill: set<int>, count: nat, i: nat)
    requires i < count <= |txs| && i !in prefill
    ensures Open(prefill, i) < |ShortIds(short, txs, prefill, count)|
    ensures ShortIds(short, txs, prefill, count)[Open(prefill, i)] == short(txs[i])
  {
    if i < count - 1 {
      ShortIdsInOrder(short, txs, prefill, count - 1, i);
    } else {
      ShortIdsCounted(short, txs, prefill, i);
    }
  }

  // What an announced block looks like at each position.
  lemma CompactShape(short: ShortOf, b: Block, prefill: set<int>)
    ensures var c := Compact(short, b, prefill);
            && WellFormed(c) && Total(c) == |b.transactions|
            && forall i :: 0 <= i < |b.transactions| ==>
                 if i in prefill then i in c.prefilled && c.prefilled[i] == b.transactions[i]
                 else i !in c.prefilled && SlotId(c, i) == Some(short(b.transactions[i]))
  {
    var c, n := Compact(short, b, prefill), |b.transactions|;
    ShortIdsCounted(short, b.transactions, prefill, n);
    OpenAndInside(prefill, n);
    assert c.prefilled.Keys == Inside(prefill, n);
    assert |c.prefilled| == |c.prefilled.Keys|;
    forall i: nat | i < n && i !in prefill ensures SlotId(c, i) == Some(short(b.transactions[i])) {
      OpenReadsInside(c.prefilled.Keys, prefill, i);
      ShortIdsInOrder(short, b.transactions, prefill, n, i);
    }
  }

  predicate Answers(short: ShortOf, table: map<ShortId, Transaction>, tx: Transaction) {
    short(tx) in table && table[short(tx)] == tx
  }

  // The table answers for every transaction that was not prefilled, with that transaction.
  ghost predicate AnswersAll(short: ShortOf, txs: seq<Transaction>, prefill: set<int>,
                             table: map<ShortId, Transaction>) {
    forall i :: 0 <= i < |txs| && i !in prefill ==> Answers(short, table, txs[i])
  }

  // Reconstruction gives back the announced block exactly when the table answers the short id
  // of every transaction that was not prefilled with that transaction.
  lemma RelayRestoresExactly(short: ShortOf, b: Block, prefill: set<int>, table: map<ShortId, Transaction>)
    ensures Reconstruction(Compact(short, b, prefill), table) == Ok(b) <==>
              AnswersAll(short, b.transactions, prefill, table)
  {
    var c, txs := Compact(short, b, prefill), b.transactions;
    CompactShape(short, b, prefill);
    SucceedsWhenNothingIsMissing(c, table);
    hide ShortIds, WellFormed, WantedAmong, Compact;
    if Reconstruction(c, table) == Ok(b) {
      FoundInOrder(c, table, |txs|);
      forall i | 0 <= i < |txs| && i !in prefill
        ensures Answers(short, table, txs[i])
      {
        assert At(c, table, i).Some?;
        assert Found(c, table, |txs|)[i] == txs[i];
      }
    } else if AnswersAll(short, txs, prefill, table) {
      forall i | 0 <= i < |txs| ensures At(c, table, i) == Some(txs[i]) {
        assert i !in prefill ==> Answers(short, table, txs[i]);
      }
      FoundInOrder(c, table, |txs|);
      assert Found(c, table, |txs|) == txs;
      assert c.header == b.header by {
        HeaderIsKept(short, b, prefill);
      }
      assert false;
    }
  }

  lemma HeaderIsKept(short: ShortOf, b: Block, prefill: set<int>)
    ensures Compact(short, b, prefill).header == b.header
  {
  }

  // ---- the sender's payload ----

  // The transactions the sender adds: all but the first whose short ids the peer does not have.
  function Payload(short: ShortOf, txs: seq<Transaction>, have: set<ShortId>, count: nat): seq<Answer>
    requires count <= |txs|
  {
    if count == 0 then []
    else
      var i, s := count - 1, short(txs[count - 1]);
      Payload(short, txs, have, i) + if i == 0 || s in have then [] else [Answer(i, s, txs[i])]
  }

  // An answer names a transaction after the first by its position and short id, and the peer
  // does not have that short id.
  lemma {:induction false} PayloadAnswers(short: ShortOf, txs: seq<Transaction>, have: set<ShortId>, count: nat,
                                          a: Answer)
    requires count <= |txs|
    ensures a in Payload(short, txs, have, count) <==>
              1 <= a.index < count && a.tx == txs[a.index] && a.shortId == short(a.tx) && a.shortId !in have
  {
    if count > 0 {
      PayloadAnswers(short, txs, have, count - 1, a);
    }
  }

  function TxsOf(answers: seq<Answer>): (txs: seq<Transaction>)
    ensures |txs| == |answers|
  {
    seq(|answers|, k requires 0 <= k < |answers| => answers[k].tx)
  }

  method CompactMissingPayload(short: ShortOf, b: Block, haveShortIds: seq<ShortId>) returns (answers: seq<Answer>)
    ensures answers == Payload(short, b.transactions, set s | s in haveShortIds, |b.transactions|)
  {
    var have := set s | s in haveShortIds;
    answers := [];
    for i := 0 to |b.transactions|
      invariant answers == Payload(short, b.transactions, have, i)
    {
      var s := short(b.transactions[i]);
      if i == 0 || s in have {
        continue;
      }
      answers := answers + [Answer(i, s, b.transactions[i])];
    }
  }

  function PayloadLookup(short: ShortOf, txs: seq<Transaction>, have: set<ShortId>,
                         count: nat): map<ShortId, Transaction>
    requires count <= |txs|
  {
    Table(short, TxsOf(Payload(short, txs, have, count)))
  }

  lemma PayloadStep(short: ShortOf, txs: seq<Transaction>, have: set<ShortId>, i: nat)
    requires i < |txs|
    ensures var before := PayloadLookup(short, txs, have, i);
            PayloadLookup(short, txs, have, i + 1)
              == if i == 0 || short(txs[i]) in have then before else Toggle(short, before, txs[i])
  {
    hide Toggle;
    var s, before := short(txs[i]), Payload(short, txs, have, i);
    if i == 0 || s in have {
      assert before + [] == before;
    } else {
      var now := TxsOf(before + [Answer(i, s, txs[i])]);
      assert now[..|now| - 1] == TxsOf(before);
    }
  }

  lemma EmptyPayload(short: ShortOf, txs: seq<Transaction>, have: set<ShortId>)
    ensures PayloadLookup(short, txs, have, 0) == map[] && Table(short, []) == map[]
  {
  }

  lemma TableStep(short: ShortOf, txs: seq<Transaction>, count: nat)
    requires 1 <= count < |txs|
    ensures Table(short, txs[1..count + 1]) == Toggle(short, Table(short, txs[1..count]), txs[count])
  {
    var longer := txs[1..count + 1];
    assert longer[..|longer| - 1] == txs[1..count] && longer[|longer| - 1] == txs[count];
  }

  ghost predicate SameAnswer(a: map<ShortId, Transaction>, b: map<ShortId, Transaction>, s: ShortId) {
    (s in a <==> s in b) && (s in a ==> a[s] == b[s])
  }

  lemma ToggleOther(short: ShortOf, table: map<ShortId, Transaction>, tx: Transaction, s: ShortId)
    requires short(tx) != s
    ensures SameAnswer(Toggle(short, table, tx), table, s)
  {
  }

  lemma ToggleBoth(short: ShortOf, a: map<ShortId, Transaction>, b: map<ShortId, Transaction>, tx: Transaction,
                   s: ShortId)
    requires SameAnswer(a, b, s)
    ensures SameAnswer(Toggle(short, a, tx), Toggle(short, b, tx), s)
  {
  }

  // The payload's table answers nothing the peer has, and every other short id as the table of
  // all transactions after the first does.
  lemma {:induction false} PayloadTable(short: ShortOf, txs: seq<Transaction>, have: set<ShortId>, count: nat,
                                        s: ShortId)
    requires 1 <= count <= |txs|
    ensures s in have ==> s !in PayloadLookup(short, txs, have, count)
    ensures s !in have ==> SameAnswer(PayloadLookup(short, txs, have, count), Table(short, txs[1..count]), s)
  {
    hide PayloadLookup, Table, Toggle;
    PayloadStep(short, txs, have, count - 1);
    if count == 1 {
      EmptyPayload(short, txs, have);
      assert txs[1..1] == [];
    } else {
      var i := count - 1;
      PayloadTable(short, txs, have, i, s);
      TableStep(short, txs, i);
      var before := PayloadLookup(short, txs, have, i);
      if s !in have {
        ToggleBoth(short, before, Table(short, txs[1..i]), txs[i], s);
      }
      if short(txs[i]) != s {
        ToggleOther(short, before, txs[i], s);
        ToggleOther(short, Table(short, txs[1..i]), txs[i], s);
      }
    }
  }

  lemma LastIsUnique(short: ShortOf, txs: seq<Transaction>, s: ShortId, a: Transaction, b: Transaction)
    requires IsLast(short, txs, s, a) && IsLast(short, txs, s, b)
    ensures a == b
  {
    var j :| 0 <= j < |txs| && txs[j] == a && short(a) == s && forall i :: j < i < |txs| ==> short(txs[i]) != s;
    var k :| 0 <= k < |txs| && txs[k] == b && short(b) == s && forall i :: k < i < |txs| ==> short(txs[i]) != s;
  }

  // Whether the peer gets position i right. A short id that it has, or that an even number of
  // the sender's transactions carry, is left to its pool; otherwise the last transaction that
  // carries the short id answers for it.
  ghost predicate GetsRight(short: ShortOf, txs: seq<Transaction>, have: set<ShortId>, pool: map<ShortId, Transaction>,
                            i: nat)
    requires 1 <= i < |txs|
  {
    var s, later := short(txs[i]), txs[1..];
    if s in have || Occurrences(short, later, s) % 2 == 0 then Answers(short, pool, txs[i])
    else IsLast(short, later, s, txs[i])
  }

  ghost predicate GetsAllRight(short: ShortOf, txs: seq<Transaction>, have: set<ShortId>,
                               pool: map<ShortId, Transaction>) {
    forall i :: 1 <= i < |txs| ==> GetsRight(short, txs, have, pool, i)
  }

  lemma EitherAnswers(short: ShortOf, txs: seq<Transaction>, mempool: seq<Transaction>, have: set<ShortId>, i: nat)
    requires 1 <= i < |txs|
    ensures Answers(short, Lookup(short, mempool, Some(TxsOf(Payload(short, txs, have, |txs|)))), txs[i]) <==>
            GetsRight(short, txs, have, Table(short, mempool), i)
  {
    hide Table, Payload, Occurrences, IsLast;
    var s, more := short(txs[i]), PayloadLookup(short, txs, have, |txs|);
    PayloadTable(short, txs, have, |txs|, s);
    assert txs[1..|txs|] == txs[1..];
    TableAnswersOddIds(short, txs[1..], s);
    if s in more && IsLast(short, txs[1..], s, txs[i]) {
      LastIsUnique(short, txs[1..], s, more[s], txs[i]);
    }
  }

  // The whole exchange: with the sender's payload for the short ids the peer said it has, the
  // peer restores the block exactly when it gets every position after the first right.
  lemma PayloadCompletesExactly(short: ShortOf, b: Block, mempool: seq<Transaction>, have: set<ShortId>)
    ensures var extra := TxsOf(Payload(short, b.transactions, have, |b.transactions|));
            Reconstruction(Compact(short, b, {0}), Lookup(short, mempool, Some(extra))) == Ok(b) <==>
              GetsAllRight(short, b.transactions, have, Table(short, mempool))
  {
    var txs := b.transactions;
    RelayRestoresExactly(short, b, {0}, Lookup(short, mempool, Some(TxsOf(Payload(short, txs, have, |txs|)))));
    AnswersAllExactly(short, txs, mempool, have);
    hide *;
  }

  lemma AnswersAllExactly(short: ShortOf, txs: seq<Transaction>, mempool: seq<Transaction>, have: set<ShortId>)
    ensures AnswersAll(short, txs, {0}, Lookup(short, mempool, Some(TxsOf(Payload(short, txs, have, |txs|))))) <==>
            GetsAllRight(short, txs, have, Table(short, mempool))
  {
    var table := Lookup(short, mempool, Some(TxsOf(Payload(short, txs, have, |txs|))));
    hide Answers, Lookup, Table, Payload, TxsOf, GetsRight;
    forall i | 1 <= i < |txs|
      ensures Answers(short, table, txs[i]) <==> GetsRight(short, txs, have, Table(short, mempool), i)
    {
      EitherAnswers(short, txs, mempool, have, i);
    }
  }

  // Where no short id repeats, the pool has to answer those the peer said it has, and no more.
  lemma PayloadCompletesWithoutCollisions(short: ShortOf, b: Block, mempool: seq<Transaction>, have: set<ShortId>)
    requires forall i, j :: 1 <= i < j < |b.transactions| ==> short(b.transactions[i]) != short(b.transactions[j])
    ensures var extra := TxsOf(Payload(short, b.transactions, have, |b.transactions|));
            Reconstruction(Compact(short, b, {0}), Lookup(short, mempool, Some(extra))) == Ok(b) <==>
              forall i :: 1 <= i < |b.transactions| && short(b.transactions[i]) in have ==>
                Answers(short, Table(short, mempool), b.transactions[i])
  {
    var txs := b.transactions;
    PayloadCompletesExactly(short, b, mempool, have);
    hide Answers, Lookup, Table, Payload, TxsOf, Reconstruction, Compact, IsLast, Occurrences;
    forall i | 1 <= i < |txs|
      ensures GetsRight(short, txs, have, Table(short, mempool), i) <==>
              (short(txs[i]) in have ==> Answers(short, Table(short, mempool), txs[i]))
    {
      AloneIsLast(short, txs[1..], i - 1);
    }
  }

  lemma AloneIsLast(short: ShortOf, txs: seq<Transaction>, i: nat)
    requires i < |txs| && forall k :: 0 <= k < |txs| && k != i ==> short(txs[k]) != short(txs[i])
    ensures Occurrences(short, txs, short(txs[i])) % 2 == 1 && IsLast(short, txs, short(txs[i]), txs[i])
  {
    hide Occurrences, Table, IsLast;
    SingleAnswer(short, txs, i);
    TableAnswersOddIds(short, txs, short(txs[i]));
  }
}
