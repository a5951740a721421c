// Transaction and block validation (netcoin/chain.py), as functions of a chain prefix, an
// unspent-output set and a clock. Errors are reported in the order the node checks them.
module Validation {
  import opened Wrappers
  import opened Params
  import opened Ledger
  import CompactTarget
  import Emission
  import MedianTime
  import Merkle

  datatype ChainError =
    | CoinbaseOutsideFirst | NoOutputs | RepeatedInput | LocktimeAboveHeight | LocktimeInFuture
    | OutputsNotPositive | OutputsExceedMoney | MissingOutpoint | ImmatureCoinbase | BadSignature
    | InputsExceedMoney | SpendsMoreThanInputs
    | CoinbaseExpected | CoinbaseExceedsMoney | CoinbasePaysTooMuch | CoinbasePaysNothing
    | WrongHeight | WrongPreviousHash | WrongCheckpoint | BeforeMedianTime | WrongBits
    | WrongMerkleRoot | WrongWitnessCommitment | BadProofOfWork | TooFarInFuture | TooHeavy
    | MissingCoinbase | SecondCoinbase | DuplicateTxid | FeesExceedMoney
    | EmptyChain | WrongGenesis
    | BadTarget(reason: CompactTarget.TargetError)

  // ---- transactions ----

  predicate UniqueInputs(inputs: seq<TxInput>) {
    forall i, j :: 0 <= i < j < |inputs| ==> inputs[i].prevout != inputs[j].prevout
  }

  function LocktimeError(tx: Transaction, spendHeight: int, now: int): Option<ChainError> {
    if tx.locktime == 0 then None
    else if forall i :: 0 <= i < |tx.inputs| ==> tx.inputs[i].sequence == SEQUENCE_FINAL then None
    else if tx.locktime < LOCKTIME_THRESHOLD then
      if tx.locktime > spendHeight then Some(LocktimeAboveHeight) else None
    else if tx.locktime > now then Some(LocktimeInFuture) else None
  }

  // Value of the first `count` inputs, when each of them may be spent.
  function InputValue(net: Network, tx: Transaction, u: Utxos, spendHeight: int, count: nat): Result<nat, ChainError>
    requires count <= |tx.inputs|
  {
    if count == 0 then Ok(0)
    else
      var total :- InputValue(net, tx, u, spendHeight, count - 1);
      var op := tx.inputs[count - 1].prevout;
      if op !in u then Err(MissingOutpoint)
      else if u[op].coinbase && spendHeight - u[op].height < COINBASE_MATURITY then Err(ImmatureCoinbase)
      else if !net.verifyInput(tx, count - 1, u[op]) then Err(BadSignature)
      else if total + u[op].output.amount > MAX_MONEY then Err(InputsExceedMoney)
      else Ok(total + u[op].output.amount)
  }

  // The fee of a transaction that may enter at `spendHeight`.
  function ValidateRegular(net: Network, tx: Transaction, u: Utxos, spendHeight: int,
                           now: int): Result<nat, ChainError> {
    if tx.IsCoinbase() then Err(CoinbaseOutsideFirst)
    else if tx.outputs == [] then Err(NoOutputs)
    else if !UniqueInputs(tx.inputs) then Err(RepeatedInput)
    else if LocktimeError(tx, spendHeight, now).Some? then Err(LocktimeError(tx, spendHeight, now).value)
    else if OutputSum(tx.outputs) <= 0 then Err(OutputsNotPositive)
    else if OutputSum(tx.outputs) > MAX_MONEY then Err(OutputsExceedMoney)
    else
      var total :- InputValue(net, tx, u, spendHeight, |tx.inputs|);
      if total < OutputSum(tx.outputs) then Err(SpendsMoreThanInputs)
      else Ok(total - OutputSum(tx.outputs))
  }

  function ValidateCoinbase(tx: Transaction, height: int, maxReward: nat): Result<(), ChainError> {
    if !tx.IsCoinbase() then Err(CoinbaseExpected)
    else if OutputSum(tx.outputs) > MAX_MONEY then Err(CoinbaseExceedsMoney)
    else if OutputSum(tx.outputs) > maxReward then Err(CoinbasePaysTooMuch)
    else if height > 0 && OutputSum(tx.outputs) == 0 then Err(CoinbasePaysNothing)
    else Ok(())
  }

  // What validation has threaded through the transactions so far.
  datatype Progress = Progress(utxos: Utxos, fees: nat, seen: set<Hash>)

  // Validating one more transaction of a block and applying it.
  function ValidateNext(net: Network, tx: Transaction, p: Progress, height: int,
                        now: int): Result<Progress, ChainError> {
    if net.txid(tx) in p.seen then Err(DuplicateTxid)
    else
      var fee :- ValidateRegular(net, tx, p.utxos, height, now);
      if p.fees + fee > MAX_MONEY then Err(FeesExceedMoney)
      else Ok(Progress(ApplyRegular(net, tx, p.utxos, height), p.fees + fee, p.seen + {net.txid(tx)}))
  }

  // Transactions 1 .. count - 1 of a block, in order.
  function ValidateTxs(net: Network, txs: seq<Transaction>, count: nat, u: Utxos, height: int,
                       now: int): Result<Progress, ChainError>
    requires 1 <= count <= |txs|
  {
    if count == 1 then Ok(Progress(u, 0, {}))
    else
      var p :- ValidateTxs(net, txs, count - 1, u, height, now);
      ValidateNext(net, txs[count - 1], p, height, now)
  }

  // ---- headers ----

  // Position and header height agree, as they do on every unpruned chain.
  ghost predicate Numbered(blocks: seq<Block>) {
    forall i :: 0 <= i < |blocks| ==> blocks[i].header.height == i
  }

  function Hashes(net: Network, blocks: seq<Block>): (hashes: seq<Hash>)
    ensures |hashes| == |blocks|
    ensures forall i :: 0 <= i < |blocks| ==> hashes[i] == net.BlockHash(blocks[i])
  {
    seq<Hash>(|blocks|, i requires 0 <= i < |blocks| => net.BlockHash(blocks[i]))
  }

  function Timestamps(blocks: seq<Block>): (ts: seq<int>)
    ensures |ts| == |blocks|
    ensures forall i :: 0 <= i < |blocks| ==> ts[i] == blocks[i].header.timestamp
  {
    seq(|blocks|, i requires 0 <= i < |blocks| => blocks[i].header.timestamp)
  }

  // Subsidy of the block after `prefix`.
  function NextSubsidy(net: Network, prefix: seq<Block>): nat {
    Emission.Subsidy(net.draws, |prefix|, Hashes(net, prefix))
  }

  function ExpectedBits(height: nat, prefix: seq<Block>): Result<nat, ChainError>
    requires prefix != []
  {
    var bits := prefix[|prefix| - 1].header.bits;
    if height == 0 then Ok(INITIAL_BITS)
    else if height % DIFFICULTY_ADJUSTMENT_INTERVAL != 0 then Ok(bits)
    else if |prefix| < DIFFICULTY_ADJUSTMENT_INTERVAL then Ok(bits)
    else
      var first := prefix[|prefix| - DIFFICULTY_ADJUSTMENT_INTERVAL].header.timestamp;
      var last := prefix[|prefix| - 1].header.timestamp;
      match CompactTarget.RetargetBits(height, bits, first, last)
      case Ok(next) => Ok(next)
      case Err(reason) => Err(BadTarget(reason))
  }

  // A late block may fall back to the proof-of-work floor.
  predicate LateEnoughForFloor(h: Header, prefix: seq<Block>)
    requires prefix != []
  {
    h.timestamp > prefix[|prefix| - 1].header.timestamp + MinDifficultyGapAt(h.height)
  }

  function ProofOfWorkError(net: Network, h: Header): Option<ChainError> {
    match CompactTarget.BitsToTarget(h.bits)
    case Err(reason) => Some(BadTarget(reason))
    case Ok(target) => if net.headerHash(h) <= target then None else Some(BadProofOfWork)
  }

  // The last output of the coinbase that carries a commitment.
  function CoinbaseCommitment(net: Network, outputs: seq<TxOutput>): seq<Hash> {
    if outputs == [] then []
    else
      var found := net.commitmentIn(outputs[|outputs| - 1].script);
      if found != [] then found else CoinbaseCommitment(net, outputs[..|outputs| - 1])
  }

  function WitnessLeaves(net: Network, txs: seq<Transaction>): seq<Hash>
    requires txs != []
  {
    [ZERO_HASH] + seq<Hash>(|txs| - 1, i requires 0 <= i < |txs| - 1 => net.wtxid(txs[i + 1]))
  }

  predicate WitnessCommitmentHolds(net: Network, txs: seq<Transaction>)
    requires txs != []
  {
    var needed := exists i :: 1 <= i < |txs| && txs[i].HasWitness();
    var found := CoinbaseCommitment(net, txs[0].outputs);
    needed ==> found != [] && found[0] == net.pair(Merkle.Root(net.pair, WitnessLeaves(net, txs)), ZERO_HASH)
  }

  function HeaderError(net: Network, b: Block, prefix: seq<Block>, now: int): Option<ChainError>
    requires prefix != []
  {
    var h, parent := b.header, prefix[|prefix| - 1];
    if h.height != parent.header.height + 1 then Some(WrongHeight)
    else if h.previousHash != net.BlockHash(parent) then Some(WrongPreviousHash)
    else if h.height in net.checkpoints && net.checkpoints[h.height] != net.BlockHash(b) then Some(WrongCheckpoint)
    else if h.height >= MTP_ACTIVATION_HEIGHT && h.timestamp <= MedianTime.MedianTimePast(Timestamps(prefix)) then
      Some(BeforeMedianTime)
    else
      match BitsError(h, prefix)
      case Some(e) => Some(e)
      case None =>
        if h.merkleRoot != net.MerkleRoot(b.transactions) then Some(WrongMerkleRoot)
        else if !WitnessCommitmentHolds(net, b.transactions) then Some(WrongWitnessCommitment)
        else if ProofOfWorkError(net, h).Some? then ProofOfWorkError(net, h)
        else if h.timestamp > now + MAX_FUTURE_SECONDS then Some(TooFarInFuture)
        else if net.BlockWeight(b) > MAX_BLOCK_WEIGHT then Some(TooHeavy)
        else if !b.transactions[0].IsCoinbase() then Some(MissingCoinbase)
        else if exists i :: 1 <= i < |b.transactions| && b.transactions[i].IsCoinbase() then Some(SecondCoinbase)
        else None
  }

  function BitsError(h: Header, prefix: seq<Block>): Option<ChainError>
    requires prefix != []
  {
    match ExpectedBits(if h.height < 0 then 0 else h.height, prefix)
    case Err(e) => Some(e)
    case Ok(expected) =>
      if h.bits == expected || (h.bits == POW_LIMIT_BITS && LateEnoughForFloor(h, prefix)) then None
      else Some(WrongBits)
  }

  // ---- blocks and chains ----

  // The unspent-output set after `b`, with the coinbase applied last.
  function ValidateBlock(net: Network, b: Block, prefix: seq<Block>, u: Utxos, now: int): Result<Utxos, ChainError>
    requires prefix != []
  {
    var txs, height := b.transactions, b.header.height;
    match HeaderError(net, b, prefix, now)
    case Some(e) => Err(e)
    case None =>
      var p :- ValidateTxs(net, txs, |txs|, u, height, now);
      var _ :- ValidateCoinbase(txs[0], height, NextSubsidy(net, prefix) + p.fees);
      if net.txid(txs[0]) in p.seen then Err(DuplicateTxid)
      else Ok(ApplyCoinbase(net, txs[0], p.utxos, height))
  }

  function GenesisError(net: Network, b: Block): Option<ChainError> {
    if net.BlockHash(b) != net.BlockHash(net.Genesis()) then Some(WrongGenesis)
    else if b.header.height != 0 then Some(WrongHeight)
    else if b.header.previousHash != ZERO_HASH then Some(WrongPreviousHash)
    else if b.header.merkleRoot != net.MerkleRoot(b.transactions) then Some(WrongMerkleRoot)
    else ProofOfWorkError(net, b.header)
  }

  // The unspent-output set that validating a whole chain threads from block to block.
  function ValidateChain(net: Network, blocks: seq<Block>, now: int): Result<Utxos, ChainError> {
    if blocks == [] then Err(EmptyChain)
    else if |blocks| == 1 then
      match GenesisError(net, blocks[0])
      case Some(e) => Err(e)
      case None => Ok(ApplyCoinbase(net, blocks[0].transactions[0], map[], 0))
    else
      var prefix := blocks[..|blocks| - 1];
      var u :- ValidateChain(net, prefix, now);
      ValidateBlock(net, blocks[|blocks| - 1], prefix, u, now)
  }

  predicate IsValidChain(net: Network, blocks: seq<Block>, now: int) {
    ValidateChain(net, blocks, now).Ok?
  }
}
