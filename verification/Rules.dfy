// What validation accepts, rule by rule (netcoin/chain.py): a transaction, the inputs of a whole
// chain, a header and a block, stated without the order in which the node checks them.
module Rules {
  import opened Wrappers
  import opened Params
  import opened Arithmetic
  import opened Ledger
  import opened Validation
  import opened Supply
  import opened Sorting
  import Chainstate
  import opened Connect
  import CompactTarget
  import Handovers
  import MedianTime
  import BlockFilter

  // ---- a regular transaction ----

  // The input spends a coin that is there, mature if it is a coinbase's, with an accepted
  // signature.
  ghost predicate InputIsGood(net: Network, tx: Transaction, u: Utxos, height: int, i: nat)
    requires i < |tx.inputs|
  {
    var op := tx.inputs[i].prevout;
    && op in u
    && (u[op].coinbase ==> u[op].height + 100 <= height)
    && net.verifyInput(tx, i, u[op])
  }

  // No lock time, or one that has passed, or one that every input waives.
  ghost predicate IsFinal(tx: Transaction, height: int, now: int) {
    || tx.locktime == 0
    || (tx.locktime < LOCKTIME_THRESHOLD && tx.locktime <= height)
    || (tx.locktime >= LOCKTIME_THRESHOLD && tx.locktime <= now)
    || forall i :: 0 <= i < |tx.inputs| ==> tx.inputs[i].sequence == SEQUENCE_FINAL
  }

  // What the coins that a transaction spends are worth together.
  ghost function InputWorth(tx: Transaction, u: Utxos): nat {
    Total(At(u, SpentBy(tx)))
  }

  ghost predicate IsGood(net: Network, tx: Transaction, u: Utxos, height: int, now: int) {
    && !tx.IsCoinbase() && IsFinal(tx, height, now)
    && (forall i, j :: 0 <= i < j < |tx.inputs| ==> tx.inputs[i].prevout != tx.inputs[j].prevout)
    && (forall i :: 0 <= i < |tx.inputs| ==> InputIsGood(net, tx, u, height, i))
    && 0 < OutputSum(tx.outputs) <= InputWorth(tx, u) <= MAX_MONEY
  }

  lemma OneMoreSpent(tx: Transaction, u: Utxos, count: nat)
    requires count < |tx.inputs| && tx.inputs[count].prevout in u
    requires UniqueInputs(tx.inputs)
    ensures Total(At(u, Spent(tx, count + 1))) ==
            Total(At(u, Spent(tx, count))) + u[tx.inputs[count].prevout].output.amount
  {
    var op := tx.inputs[count].prevout;
    assert forall i :: 0 <= i < count ==> tx.inputs[i].prevout != tx.inputs[count].prevout;
    var more := At(u, Spent(tx, count + 1));
    assert more - {op} == At(u, Spent(tx, count));
    TotalTake(more, op);
  }

  lemma {:induction false} InputsValidExactly(net: Network, tx: Transaction, u: Utxos, height: int, count: nat)
    requires count <= |tx.inputs| && UniqueInputs(tx.inputs)
    ensures InputValue(net, tx, u, height, count).Ok? <==>
            && (forall i :: 0 <= i < count ==> InputIsGood(net, tx, u, height, i))
            && Total(At(u, Spent(tx, count))) <= MAX_MONEY
    ensures InputValue(net, tx, u, height, count).Ok? ==>
              InputValue(net, tx, u, height, count).value == Total(At(u, Spent(tx, count)))
  {
    hide Spent, At, Total, InputValue, InputIsGood, UniqueInputs;
    if count == 0 {
      NothingSpent(net, tx, u, height);
    } else {
      InputsValidExactly(net, tx, u, height, count - 1);
      InputStep(net, tx, u, height, count - 1);
      if tx.inputs[count - 1].prevout in u {
        OneMoreSpent(tx, u, count - 1);
      } else {
        OneMoreMissing(tx, u, count - 1);
      }
    }
  }

  lemma NothingSpent(net: Network, tx: Transaction, u: Utxos, height: int)
    ensures InputValue(net, tx, u, height, 0) == Ok(0) && Total(At(u, Spent(tx, 0))) == 0
  {
    assert At(u, Spent(tx, 0)) == map[];
  }

  lemma OneMoreMissing(tx: Transaction, u: Utxos, count: nat)
    requires count < |tx.inputs| && tx.inputs[count].prevout !in u
    ensures At(u, Spent(tx, count + 1)) == At(u, Spent(tx, count))
  {
  }

  lemma InputStep(net: Network, tx: Transaction, u: Utxos, height: int, i: nat)
    requires i < |tx.inputs|
    ensures InputIsGood(net, tx, u, height, i) ==> tx.inputs[i].prevout in u
    ensures var before, after := InputValue(net, tx, u, height, i), InputValue(net, tx, u, height, i + 1);
            && (after.Ok? <==> before.Ok? && InputIsGood(net, tx, u, height, i)
                               && before.value + u[tx.inputs[i].prevout].output.amount <= MAX_MONEY)
            && (after.Ok? ==> after.value == before.value + u[tx.inputs[i].prevout].output.amount)
  {
  }

  // A transaction is valid exactly when it keeps these rules, and its fee is what its coins are
  // worth beyond its outputs.
  lemma TransactionValidExactly(net: Network, tx: Transaction, u: Utxos, height: int, now: int)
    ensures ValidateRegular(net, tx, u, height, now).Ok? <==> IsGood(net, tx, u, height, now)
    ensures ValidateRegular(net, tx, u, height, now).Ok? ==>
              ValidateRegular(net, tx, u, height, now).value == InputWorth(tx, u) - OutputSum(tx.outputs)
  {
    if UniqueInputs(tx.inputs) {
      InputsValidExactly(net, tx, u, height, |tx.inputs|);
    }
    hide InputValue, At, Total, InputIsGood;
  }

  // ---- every input of a valid chain ----

  // The coin is output `vout` of a transaction of the blocks, dated with the block it was
  // created in, and marked exactly when that transaction leads its block.
  ghost predicate MadeIn(net: Network, blocks: seq<Block>, op: Outpoint, coin: Spendable) {
    exists k, i :: MadeAt(net, blocks, k, i, op, coin)
  }

  ghost predicate MadeAt(net: Network, blocks: seq<Block>, k: int, i: int, op: Outpoint, coin: Spendable) {
    && 0 <= k < |blocks| && 0 <= i < |blocks[k].transactions|
    && var tx := blocks[k].transactions[i];
       && net.txid(tx) == op.txid && 0 <= op.vout < |tx.outputs|
       && coin == Spendable(tx.outputs[op.vout], k, i == 0)
  }

  ghost predicate AllMadeIn(net: Network, blocks: seq<Block>, u: Utxos) {
    forall op :: op in u ==> MadeIn(net, blocks, op, u[op])
  }

  lemma CreatedIsMade(net: Network, blocks: seq<Block>, k: nat, i: nat)
    requires k < |blocks| && i < |blocks[k].transactions|
    ensures AllMadeIn(net, blocks, CreatedBy(net, blocks[k].transactions[i], k, i == 0))
  {
    var tx := blocks[k].transactions[i];
    var u := CreatedBy(net, tx, k, i == 0);
    CreatedByShape(net, tx, k, i == 0);
    hide CreatedBy;
    forall op | op in u
      ensures MadeIn(net, blocks, op, u[op])
    {
      assert MadeAt(net, blocks, k, i, op, u[op]);
    }
  }

  lemma {:induction false} TxsMakeCoins(net: Network, blocks: seq<Block>, k: nat, count: nat, u: Utxos, now: int)
    requires k < |blocks| && 1 <= count <= |blocks[k].transactions| && AllMadeIn(net, blocks, u)
    requires ValidateTxs(net, blocks[k].transactions, count, u, k, now).Ok?
    ensures AllMadeIn(net, blocks, ValidateTxs(net, blocks[k].transactions, count, u, k, now).value.utxos)
  {
    hide ValidateRegular, CreatedBy, SpentBy, MadeIn;
    if count > 1 {
      TxsMakeCoins(net, blocks, k, count - 1, u, now);
      CreatedIsMade(net, blocks, k, count - 1);
    }
  }

  lemma LongerStillMade(net: Network, blocks: seq<Block>, b: Block, u: Utxos)
    requires AllMadeIn(net, blocks, u)
    ensures AllMadeIn(net, blocks + [b], u)
  {
    forall op | op in u
      ensures MadeIn(net, blocks + [b], op, u[op])
    {
      var k, i :| MadeAt(net, blocks, k, i, op, u[op]);
      assert MadeAt(net, blocks + [b], k, i, op, u[op]);
    }
  }

  lemma BlockMakesCoins(net: Network, prefix: seq<Block>, b: Block, u: Utxos, now: int)
    requires prefix != [] && b.header.height == |prefix| && ValidateBlock(net, b, prefix, u, now).Ok?
    requires AllMadeIn(net, prefix, u)
    ensures AllMadeIn(net, prefix + [b], ValidateBlock(net, b, prefix, u, now).value)
  {
    ValidBlockHasValidTxs(net, b, prefix, u, now);
    LongerStillMade(net, prefix, b, u);
    var all, k := prefix + [b], |prefix|;
    assert all[k] == b;
    hide ValidateBlock, ValidateTxs, MadeIn, CreatedBy;
    TxsMakeCoins(net, all, k, |b.transactions|, u, now);
    CreatedIsMade(net, all, k, 0);
  }

  lemma {:induction false} ValidatedCoinsAreMade(net: Network, blocks: seq<Block>, now: int)
    requires IsValidChain(net, blocks, now)
    ensures AllMadeIn(net, blocks, ValidateChain(net, blocks, now).value)
    decreases |blocks|
  {
    hide ValidateBlock, GenesisError, AllMadeIn, ApplyCoinbase;
    if |blocks| == 1 {
      GenesisMakesCoins(net, blocks);
    } else {
      var prefix, last := blocks[..|blocks| - 1], blocks[|blocks| - 1];
      LastIsNumbered(net, blocks, now);
      ValidatedCoinsAreMade(net, prefix, now);
      BlockMakesCoins(net, prefix, last, ValidateChain(net, prefix, now).value, now);
      assert prefix + [last] == blocks;
    }
  }

  lemma LastIsNumbered(net: Network, blocks: seq<Block>, now: int)
    requires IsValidChain(net, blocks, now)
    ensures blocks != [] && blocks[|blocks| - 1].header.height == |blocks| - 1
  {
    hide IsValidChain, Chainstate.Linked, Chainstate.Worked;
    Chainstate.ValidChainShape(net, blocks, now);
  }

  lemma GenesisMakesCoins(net: Network, blocks: seq<Block>)
    requires |blocks| == 1
    ensures AllMadeIn(net, blocks, ApplyCoinbase(net, blocks[0].transactions[0], map[], 0))
  {
    CreatedIsMade(net, blocks, 0, 0);
    hide CreatedBy, AllMadeIn;
    var coins := CreatedBy(net, blocks[0].transactions[0], 0, true);
    assert map[] + coins == coins;
  }

  // The coins before transaction i of block k, as validation threads them.
  ghost function CoinsBefore(net: Network, blocks: seq<Block>, k: nat, i: nat, now: int): Utxos
    requires 1 <= k < |blocks| && 1 <= i < |blocks[k].transactions| && IsValidChain(net, blocks[..k], now)
    requires var u := ValidateChain(net, blocks[..k], now).value;
             ValidateTxs(net, blocks[k].transactions, i, u, blocks[k].header.height, now).Ok?
  {
    var u := ValidateChain(net, blocks[..k], now).value;
    ValidateTxs(net, blocks[k].transactions, i, u, blocks[k].header.height, now).value.utxos
  }

  lemma ChainTxIsGood(net: Network, blocks: seq<Block>, k: nat, i: nat, now: int)
    requires IsValidChain(net, blocks, now) && 1 <= k < |blocks| && 1 <= i < |blocks[k].transactions|
    ensures IsValidChain(net, blocks[..k], now) && blocks[k].header.height == k
    ensures var u := ValidateChain(net, blocks[..k], now).value;
            ValidateTxs(net, blocks[k].transactions, i, u, blocks[k].header.height, now).Ok?
    ensures IsGood(net, blocks[k].transactions[i], CoinsBefore(net, blocks, k, i, now), k, now)
  {
    Chainstate.ValidChainShape(net, blocks, now);
    Handovers.PrefixValidates(net, blocks, now, k);
    var u := ValidateChain(net, blocks[..k], now).value;
    hide IsValidChain, ValidateBlock, ValidateTxs, ValidateRegular, IsGood, Chainstate.Linked, Chainstate.Worked;
    ValidBlockHasValidTxs(net, blocks[k], blocks[..k], u, now);
    Handovers.TxValidates(net, blocks[k].transactions, |blocks[k].transactions|, i, u, k, now);
    TransactionValidExactly(net, blocks[k].transactions[i], CoinsBefore(net, blocks, k, i, now), k, now);
  }

  lemma CoinsBeforeAreMade(net: Network, blocks: seq<Block>, k: nat, i: nat, now: int)
    requires IsValidChain(net, blocks, now) && 1 <= k < |blocks| && 1 <= i < |blocks[k].transactions|
    ensures IsValidChain(net, blocks[..k], now)
    ensures var u := ValidateChain(net, blocks[..k], now).value;
            ValidateTxs(net, blocks[k].transactions, i, u, blocks[k].header.height, now).Ok?
    ensures AllMadeIn(net, blocks[..k + 1], CoinsBefore(net, blocks, k, i, now))
  {
    hide ValidateChain, ValidateTxs, AllMadeIn, CoinsBefore, IsGood;
    ChainTxIsGood(net, blocks, k, i, now);
    CoinsBeforeIs(net, blocks, k, i, now);
    var u := ValidateChain(net, blocks[..k], now).value;
    ValidatedCoinsAreMade(net, blocks[..k], now);
    LongerStillMade(net, blocks[..k], blocks[k], u);
    assert blocks[..k + 1] == blocks[..k] + [blocks[k]];
    TxsMakeCoins(net, blocks[..k + 1], k, i, u, now);
  }

  lemma CoinsBeforeIs(net: Network, blocks: seq<Block>, k: nat, i: nat, now: int)
    requires 1 <= k < |blocks| && 1 <= i < |blocks[k].transactions| && IsValidChain(net, blocks[..k], now)
    requires var u := ValidateChain(net, blocks[..k], now).value;
             ValidateTxs(net, blocks[k].transactions, i, u, blocks[k].header.height, now).Ok?
    ensures var u := ValidateChain(net, blocks[..k], now).value;
            CoinsBefore(net, blocks, k, i, now)
              == ValidateTxs(net, blocks[k].transactions, i, u, blocks[k].header.height, now).value.utxos
  {
  }

  // Whatever a transaction of a valid chain spends was made earlier in the chain, by a coinbase
  // only if that is at least a hundred blocks back, and its signature was accepted.
  lemma ChainSpendsMatureCoins(net: Network, blocks: seq<Block>, k: nat, i: nat, j: nat, now: int)
    returns (from: int, at: int)
    requires IsValidChain(net, blocks, now) && 1 <= k < |blocks| && 1 <= i < |blocks[k].transactions|
    requires j < |blocks[k].transactions[i].inputs|
    ensures 0 <= from <= k && 0 <= at < |blocks[from].transactions|
    ensures var tx, made := blocks[k].transactions[i], blocks[from].transactions[at];
            var op := tx.inputs[j].prevout;
            && net.txid(made) == op.txid && 0 <= op.vout < |made.outputs|
            && net.verifyInput(tx, j, Spendable(made.outputs[op.vout], from, at == 0))
    ensures at == 0 ==> from + 100 <= k
  {
    ChainTxIsGood(net, blocks, k, i, now);
    CoinsBeforeAreMade(net, blocks, k, i, now);
    var u := CoinsBefore(net, blocks, k, i, now);
    hide IsValidChain, ValidateTxs, CoinsBefore;
    var op := blocks[k].transactions[i].inputs[j].prevout;
    assert InputIsGood(net, blocks[k].transactions[i], u, k, j);
    assert MadeIn(net, blocks[..k + 1], op, u[op]);
    from, at :| MadeAt(net, blocks[..k + 1], from, at, op, u[op]);
  }

  // ---- a header ----

  // The difficulty that a block has to state: the previous one, except after every thirty
  // blocks, when the time that the last thirty took scales the target.
  lemma ExpectedBitsBetween(height: nat, prefix: seq<Block>)
    requires prefix != [] && height > 0 && (height % 30 != 0 || |prefix| < 30)
    ensures ExpectedBits(height, prefix) == Ok(prefix[|prefix| - 1].header.bits)
  {
    hide CompactTarget.RetargetBits;
  }

  // Bits whose target is the old one scaled by counted span over intended span, rounded down by
  // the encoding and within the limit; no bits when that is zero.
  ghost predicate FollowsSpan(height: nat, target: nat, span: nat, next: Result<nat, ChainError>) {
    var full := TargetTimespanAt(height);
    match next
    case Err(_) => target * span < full
    case Ok(bits) =>
      && target * span >= full && CompactTarget.BitsToTarget(bits).Ok?
      && CompactTarget.RoundsDown(CompactTarget.BitsToTarget(bits).value,
                                  Min(Quotient(target * span, full), CompactTarget.POW_LIMIT))
  }

  lemma ExpectedBitsAtRetarget(height: nat, prefix: seq<Block>, span: nat)
    requires height > 0 && height % 30 == 0 && |prefix| >= 30
    requires CompactTarget.BitsToTarget(prefix[|prefix| - 1].header.bits).Ok?
    requires CompactTarget.CountedSpan(height, prefix[|prefix| - 30].header.timestamp,
                                       prefix[|prefix| - 1].header.timestamp, span)
    ensures FollowsSpan(height, CompactTarget.BitsToTarget(prefix[|prefix| - 1].header.bits).value, span,
                        ExpectedBits(height, prefix))
  {
    var bits := prefix[|prefix| - 1].header.bits;
    var first, last := prefix[|prefix| - 30].header.timestamp, prefix[|prefix| - 1].header.timestamp;
    assert span == CompactTarget.ClampedTimespan(height, first, last);
    CompactTarget.RetargetRaisesExactly(height, bits, first, last);
    hide CompactTarget.BitsToTarget, CompactTarget.RetargetBits, CompactTarget.RoundsDown, CompactTarget.CountedSpan;
    if CompactTarget.RetargetBits(height, bits, first, last).Ok? {
      CompactTarget.RetargetScalesExactly(height, bits, first, last, span);
    }
  }

  // The expected difficulty, or the floor when the block comes late.
  ghost predicate BitsAllowed(h: Header, prefix: seq<Block>)
    requires prefix != []
  {
    var expected := ExpectedBits(if h.height < 0 then 0 else h.height, prefix);
    && expected.Ok?
    && (h.bits == expected.value ||
        (h.bits == POW_LIMIT_BITS && h.timestamp > prefix[|prefix| - 1].header.timestamp +
         MinDifficultyGapAt(h.height)))
  }

  // The header's hash is at or below the target it states, which is itself within the limit.
  ghost predicate HashMeetsTarget(net: Network, h: Header) {
    var target := CompactTarget.BitsToTarget(h.bits);
    target.Ok? && net.headerHash(h) <= target.value <= CompactTarget.POW_LIMIT
  }

  lemma WorkedExactly(net: Network, h: Header)
    ensures ProofOfWorkError(net, h).None? <==> HashMeetsTarget(net, h)
  {
    hide CompactTarget.CompactToTargetUnchecked;
  }

  ghost predicate HeaderIsGood(net: Network, b: Block, prefix: seq<Block>, now: int)
    requires prefix != []
  {
    var h, parent := b.header, prefix[|prefix| - 1];
    && h.height == parent.header.height + 1 && h.previousHash == net.BlockHash(parent)
    && (h.height in net.checkpoints ==> net.checkpoints[h.height] == net.BlockHash(b))
    && (h.height >= MTP_ACTIVATION_HEIGHT ==> h.timestamp > MedianTime.MedianTimePast(Timestamps(prefix)))
    && h.timestamp <= now + 7200
    && BitsAllowed(h, prefix) && HashMeetsTarget(net, h)
    && h.merkleRoot == net.MerkleRoot(b.transactions) && WitnessCommitmentHolds(net, b.transactions)
    && net.BlockWeight(b) <= 4_000_000
    && forall i :: 0 <= i < |b.transactions| ==> (b.transactions[i].IsCoinbase() <==> i == 0)
  }

  lemma HeaderValidExactly(net: Network, b: Block, prefix: seq<Block>, now: int)
    requires prefix != []
    ensures HeaderError(net, b, prefix, now).None? <==> HeaderIsGood(net, b, prefix, now)
  {
    WorkedExactly(net, b.header);
    hide ExpectedBits, ProofOfWorkError, HashMeetsTarget, WitnessCommitmentHolds, MedianTime.MedianTimePast;
    hide Network.MerkleRoot, Network.BlockWeight, Network.BlockHash, Timestamps, Transaction.IsCoinbase;
  }

  // Besides its transactions a block weighs its serialized header and count, four times over.
  lemma OverheadIsSerialized(count: nat)
    requires count < 0x1_0000_0000_0000_0000
    ensures BlockOverhead(count) == 4 * (80 + |BlockFilter.EncodeVarint(count)|)
  {
  }

  // ---- a block ----

  // What a block is checked for besides its header: each transaction in turn on the coins those
  // before it leave, no repeated txid, and a coinbase that pays something but no more than
  // subsidy and fees.
  ghost predicate BodyIsGood(net: Network, b: Block, prefix: seq<Block>, u: Utxos, now: int) {
    var txs := b.transactions;
    var threaded := ValidateTxs(net, txs, |txs|, u, b.header.height, now);
    && threaded.Ok? && Distinct(net.Txids(txs))
    && OutputSum(txs[0].outputs) <= NextSubsidy(net, prefix) + threaded.value.fees
    && OutputSum(txs[0].outputs) <= MAX_MONEY
    && (b.header.height > 0 ==> OutputSum(txs[0].outputs) > 0)
  }

  lemma BlockValidExactly(net: Network, b: Block, prefix: seq<Block>, u: Utxos, now: int)
    requires prefix != []
    ensures ValidateBlock(net, b, prefix, u, now).Ok? <==>
            HeaderIsGood(net, b, prefix, now) && BodyIsGood(net, b, prefix, u, now)
  {
    HeaderValidExactly(net, b, prefix, now);
    BlockValidUnfolds(net, b, prefix, u, now);
    if HeaderError(net, b, prefix, now).None? {
      CoinbaseLeads(net, b, prefix, now);
    }
    hide ValidateBlock, HeaderIsGood, HeaderError, ValidateTxs, NextSubsidy, OutputSum, Distinct, Network.Txids;
    if ValidateBlock(net, b, prefix, u, now).Ok? {
      Chainstate.ValidBlockIsCommitted(net, b, prefix, u, now);
    }
    CoinbaseTxidIsSeen(net, b, u, now);
  }

  lemma BlockValidUnfolds(net: Network, b: Block, prefix: seq<Block>, u: Utxos, now: int)
    requires prefix != []
    ensures ValidateBlock(net, b, prefix, u, now).Ok? <==>
            && HeaderError(net, b, prefix, now).None?
            && var threaded := ValidateTxs(net, b.transactions, |b.transactions|, u, b.header.height, now);
               && threaded.Ok? && net.txid(b.transactions[0]) !in threaded.value.seen
               && ValidateCoinbase(b.transactions[0], b.header.height, NextSubsidy(net, prefix) +
                                   threaded.value.fees).Ok?
  {
    hide HeaderError, ValidateTxs, NextSubsidy, ApplyCoinbase, ValidateCoinbase;
  }

  lemma {:induction false} SeenExactly(net: Network, txs: seq<Transaction>, count: nat, u: Utxos, height: int, now: int)
    requires 1 <= count <= |txs| && ValidateTxs(net, txs, count, u, height, now).Ok?
    ensures forall id :: id in ValidateTxs(net, txs, count, u, height, now).value.seen <==>
                         exists i :: 1 <= i < count && net.txid(txs[i]) == id
  {
    hide ValidateRegular, ApplyRegular;
    if count > 1 {
      SeenExactly(net, txs, count - 1, u, height, now);
    }
  }

  lemma CoinbaseTxidIsSeen(net: Network, b: Block, u: Utxos, now: int)
    ensures var threaded := ValidateTxs(net, b.transactions, |b.transactions|, u, b.header.height, now);
            threaded.Ok? && Distinct(net.Txids(b.transactions)) ==> net.txid(b.transactions[0]) !in threaded.value.seen
  {
    var txs := b.transactions;
    if ValidateTxs(net, txs, |txs|, u, b.header.height, now).Ok? && Distinct(net.Txids(txs)) {
      SeenExactly(net, txs, |txs|, u, b.header.height, now);
      assert forall i :: 1 <= i < |txs| ==> net.Txids(txs)[i] != net.Txids(txs)[0];
    }
  }

  // ---- a chain ----

  // A chain is valid exactly when it starts at genesis and each block keeps the rules on the
  // coins that the blocks before it leave.
  ghost predicate BlockIsGood(net: Network, blocks: seq<Block>, k: nat, now: int)
    requires 1 <= k < |blocks|
  {
    && IsValidChain(net, blocks[..k], now)
    && HeaderIsGood(net, blocks[k], blocks[..k], now)
    && BodyIsGood(net, blocks[k], blocks[..k], ValidateChain(net, blocks[..k], now).value, now)
  }

  lemma LastBlockGood(net: Network, blocks: seq<Block>, now: int)
    requires |blocks| > 1
    ensures IsValidChain(net, blocks, now) <==> BlockIsGood(net, blocks, |blocks| - 1, now)
    ensures BlockIsGood(net, blocks, |blocks| - 1, now) ==> IsValidChain(net, blocks[..|blocks| - 1], now)
  {
    var prefix := blocks[..|blocks| - 1];
    hide ValidateBlock, HeaderIsGood, BodyIsGood;
    if IsValidChain(net, prefix, now) {
      BlockValidExactly(net, blocks[|blocks| - 1], prefix, ValidateChain(net, prefix, now).value, now);
    }
  }

  lemma {:induction false} ChainValidExactly(net: Network, blocks: seq<Block>, now: int)
    requires blocks != []
    ensures IsValidChain(net, blocks, now) <==>
            GenesisError(net, blocks[0]).None? && forall k :: 1 <= k < |blocks| ==> BlockIsGood(net, blocks, k, now)
    decreases |blocks|
  {
    hide ValidateBlock, GenesisError, BlockIsGood;
    if |blocks| > 1 {
      hide IsValidChain;
      var prefix := blocks[..|blocks| - 1];
      ChainValidExactly(net, prefix, now);
      LastBlockGood(net, blocks, now);
      forall k | 1 <= k < |prefix|
        ensures BlockIsGood(net, blocks, k, now) <==> BlockIsGood(net, prefix, k, now)
      {
        SameRules(net, blocks, k, now);
      }
    }
  }

  lemma SameRules(net: Network, blocks: seq<Block>, k: nat, now: int)
    requires 1 <= k < |blocks| - 1
    ensures BlockIsGood(net, blocks[..|blocks| - 1], k, now) <==> BlockIsGood(net, blocks, k, now)
  {
    hide IsValidChain, HeaderIsGood, BodyIsGood;
    assert blocks[..|blocks| - 1][..k] == blocks[..k];
  }
}
